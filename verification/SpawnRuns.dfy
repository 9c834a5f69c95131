/** Two runs of `spawn_unix` that show what its guarantees depend on: a standard descriptor that is closed, and an
error pipe that gets one of the numbers 0, 1 and 2. */
module SpawnRuns {
  import opened FdTables
  import opened SpawnProtocol
  import opened SpawnGuarantees

  // ---------- one thread, up to its fork ----------

  /** One thread, and a parent with these descriptors. */
  function Start(fds: Fds): State {
    State(None, map[0 := Idle], fds, map[], map[], map[], {}, 0, 0)
  }

  function AboutToPipe(fds: Fds, std: seq<nat>): State {
    Start(fds).(mutex := Some(0), threads := map[0 := Piping(Spawn(std))])
  }

  /** With both ends of a pipe open, `done` of them marked. */
  function WithPipe(fds: Fds, std: seq<nat>, p: Pipe, done: nat): State {
    AboutToPipe(fds, std).(
      threads := map[0 := if done < 2 then Marking(Spawn(std), p, done) else Forking(std, p)],
      parent := fds[p.r := Entry(PipeEnd(0, false), done > 0)][p.w := Entry(PipeEnd(0, true), done > 1)],
      owner := map[0 := 0], nextPipe := 1)
  }

  function UpToFork(std: seq<nat>): seq<Action> {
    [Call(0, Spawn(std)), Lock(0)] + [PipeCall(0, true), Mark(0, true), Mark(0, true)]
  }

  lemma CallAndLock(fds: Fds, std: seq<nat>)
    requires |std| == 3
    ensures var run := [Call(0, Spawn(std)), Lock(0)];
            IsRun(Start(fds), run) && After(Start(fds), run) == AboutToPipe(fds, std)
  {
    var s := At(Start(fds), 0, Waiting(Spawn(std)));
    assert Enabled(Start(fds), Call(0, Spawn(std))) && Step(Start(fds), Call(0, Spawn(std))) == s;
    assert Enabled(s, Lock(0)) && Step(s, Lock(0)) == AboutToPipe(fds, std);
    hide Enabled, Step, IsRun, After;
    TwoSteps(Start(fds), Call(0, Spawn(std)), Lock(0));
  }

  lemma PipeStep(fds: Fds, std: seq<nat>, p: Pipe)
    requires p == Pipe(0, FirstFree(fds, 0), FirstFree(fds, p.r + 1))
    ensures Enabled(AboutToPipe(fds, std), PipeCall(0, true))
    ensures Step(AboutToPipe(fds, std), PipeCall(0, true)) == WithPipe(fds, std, p, 0)
  {
    hide FirstFree;
  }

  lemma MarkStep(fds: Fds, std: seq<nat>, p: Pipe, done: nat)
    requires p.id == 0 && p.r < p.w && done < 2
    ensures Enabled(WithPipe(fds, std, p, done), Mark(0, true))
    ensures Step(WithPipe(fds, std, p, done), Mark(0, true)) == WithPipe(fds, std, p, done + 1)
  {
  }

  lemma PipeAndMarks(fds: Fds, std: seq<nat>, p: Pipe)
    requires p == Pipe(0, FirstFree(fds, 0), FirstFree(fds, p.r + 1))
    ensures var run := [PipeCall(0, true), Mark(0, true), Mark(0, true)];
            IsRun(AboutToPipe(fds, std), run) && After(AboutToPipe(fds, std), run) == WithPipe(fds, std, p, 2)
  {
    PipeStep(fds, std, p);
    MarkStep(fds, std, p, 0);
    MarkStep(fds, std, p, 1);
    hide Enabled, Step, IsRun, After, FirstFree, AboutToPipe, WithPipe;
    TwoSteps(WithPipe(fds, std, p, 0), Mark(0, true), Mark(0, true));
    RunStep(AboutToPipe(fds, std), PipeCall(0, true), [Mark(0, true), Mark(0, true)]);
    assert [PipeCall(0, true)] + [Mark(0, true), Mark(0, true)] == [PipeCall(0, true), Mark(0, true), Mark(0, true)];
  }

  lemma ForkReached(fds: Fds, std: seq<nat>, p: Pipe)
    requires |std| == 3 && p == Pipe(0, FirstFree(fds, 0), FirstFree(fds, p.r + 1))
    ensures IsRun(Start(fds), UpToFork(std)) && After(Start(fds), UpToFork(std)) == WithPipe(fds, std, p, 2)
  {
    hide IsRun, After, FirstFree, AboutToPipe, WithPipe;
    CallAndLock(fds, std);
    PipeAndMarks(fds, std, p);
    RunsJoin(Start(fds), [Call(0, Spawn(std)), Lock(0)], [PipeCall(0, true), Mark(0, true), Mark(0, true)]);
  }

  // ---------- a closed standard descriptor ----------

  /** 0, 1 and 2 are open. */
  function JustStarted(): Fds {
    map[0 := Entry(Other(0), false), 1 := Entry(Other(1), false), 2 := Entry(Other(2), false)]
  }

  lemma NotProper(run: seq<Action>)
    requires IsRun(Start(JustStarted()), run) && run != [] && run[0] == Call(0, Spawn([0, 4, 2]))
    ensures !ProperRun(Start(JustStarted()), run)
  {
    assert 4 in [0, 4, 2] && 4 !in JustStarted();
    hide IsRun;
  }

  lemma FourIsTheWriteEnd()
    ensures var n := WithPipe(JustStarted(), [0, 4, 2], Pipe(0, 3, 4), 2);
            && AllOpen(n.parent - {3}, [0, 4, 2]) && !CleanFork(n, 0)
  {
    assert 4 in [0, 4, 2];
  }

  /** Why `spawn_unix` needs open standard descriptors: the closed number 4, passed as the standard output, becomes
  the write end of the error pipe, and the program holds an end of that pipe when it runs. */
  lemma ClosedDescriptorLeaks() returns (run: seq<Action>)
    ensures Init(Start(JustStarted())) && IsRun(Start(JustStarted()), run) && !ProperRun(Start(JustStarted()), run)
    ensures var n := After(Start(JustStarted()), run);
            && 0 in n.procs && n.procs[0].phase == Running
            && exists fd :: fd in n.procs[0].fds && Private(n, n.procs[0].fds[fd].file)
  {
    var s, std, p := Start(JustStarted()), [0, 4, 2], Pipe(0, 3, 4);
    FirstFreeUnique(JustStarted(), 0, 3);
    FirstFreeUnique(JustStarted(), 4, 4);
    assert Init(s);
    ForkReached(JustStarted(), std, p);
    FourIsTheWriteEnd();
    hide IsRun, After, ProperRun, Init, CleanFork;
    ForkLeaksUnlessClean(s, UpToFork(std), 0);
    RunsJoin(s, UpToFork(std), ToProgram(0, 0));
    run := UpToFork(std) + ToProgram(0, 0);
    NotProper(run);
  }

  // ---------- an error pipe at 0 and 1 ----------

  /** 0 and 1 are closed. */
  function Detached(): Fds {
    map[2 := Entry(Other(2), false), 5 := Entry(Other(5), false), 6 := Entry(Other(6), false)]
  }

  /** With the error pipe at 0 and 1, and a child. */
  function WithChild(mutex: Option<nat>, pc: Pc, parent: Fds, fds: Fds, phase: Phase): State {
    State(mutex, map[0 := pc], parent, map[0 := Proc(fds, phase, Pipe(0, 0, 1), [5, 6, 2])], map[0 := 0], map[0 := 0],
          {}, 1, 1)
  }

  function AtFork(): Fds {
    Detached()[0 := Entry(PipeEnd(0, false), true)][1 := Entry(PipeEnd(0, true), true)]
  }

  function Passed(): Fds {
    Redirected(AtFork() - {0}, [5, 6, 2])
  }

  function ParentsPart(): seq<Action> {
    [Fork(0, true), Unlock(0), CloseWrite(0)]
  }

  function ChildsPart(): seq<Action> {
    [ChildCloseRead(0), ChildRedirect(0)] + [ChildFail(0, None), Read(0, true)]
  }

  lemma ParentSteps()
    ensures var p, fds := Pipe(0, 0, 1), AtFork();
            var n := WithPipe(Detached(), [5, 6, 2], p, 2);
            var forked := WithChild(Some(0), Forked(p, Some(0)), fds, fds, Starting);
            var closing := WithChild(None, ClosingWrite(p, Some(0)), fds, fds, Starting);
            && Enabled(n, Fork(0, true)) && Step(n, Fork(0, true)) == forked
            && Enabled(forked, Unlock(0)) && Step(forked, Unlock(0)) == closing
            && Enabled(closing, CloseWrite(0))
            && Step(closing, CloseWrite(0)) == WithChild(None, Reading(p, 0), fds - {1}, fds, Starting)
  {
  }

  lemma ParentReads()
    ensures var n := WithPipe(Detached(), [5, 6, 2], Pipe(0, 0, 1), 2);
            && IsRun(n, ParentsPart())
            && After(n, ParentsPart()) == WithChild(None, Reading(Pipe(0, 0, 1), 0), AtFork() - {1}, AtFork(), Starting)
  {
    var p, fds := Pipe(0, 0, 1), AtFork();
    ParentSteps();
    hide Enabled, Step, IsRun, After, WithChild, WithPipe, AtFork;
    TwoSteps(WithChild(Some(0), Forked(p, Some(0)), fds, fds, Starting), Unlock(0), CloseWrite(0));
    RunStep(WithPipe(Detached(), [5, 6, 2], p, 2), Fork(0, true), [Unlock(0), CloseWrite(0)]);
    assert [Fork(0, true)] + [Unlock(0), CloseWrite(0)] == ParentsPart();
  }

  lemma CloseReadStep(pc: Pc, parent: Fds, fds: Fds)
    ensures var start := WithChild(None, pc, parent, fds, Starting);
            Enabled(start, ChildCloseRead(0))
                && Step(start, ChildCloseRead(0)) == WithChild(None, pc, parent, fds - {0}, Redirecting)
  {
  }

  lemma RedirectStep(pc: Pc, parent: Fds, fds: Fds)
    requires AllOpen(fds, [5, 6, 2])
    ensures var moving := WithChild(None, pc, parent, fds, Redirecting);
            && Enabled(moving, ChildRedirect(0))
            && Step(moving, ChildRedirect(0)) == WithChild(None, pc, parent, Redirected(fds, [5, 6, 2]), Execing)
  {
    hide Redirected;
  }

  lemma FailStep(pc: Pc, parent: Fds, fds: Fds)
    requires 1 in fds && fds[1].file.Other?
    ensures var moved := WithChild(None, pc, parent, fds, Execing);
            Enabled(moved, ChildFail(0, None))
                && Step(moved, ChildFail(0, None)) == WithChild(None, pc, parent, map[], Exited)
  {
  }

  lemma SixIsAtOne()
    ensures AllOpen(AtFork() - {0}, [5, 6, 2])
    ensures 1 in Passed() && Passed()[1].file.Other?
  {
    PassedOn(AtFork() - {0}, [5, 6, 2], 1);
    hide Redirected;
  }

  lemma ReadStep()
    ensures var p := Pipe(0, 0, 1);
            var n := WithChild(None, Reading(p, 0), AtFork() - {1}, map[], Exited);
            && Enabled(n, Read(0, true))
            && Step(n, Read(0, true)) == WithChild(None, ClosingRead(p, Started), AtFork() - {1}, map[], Exited)
  {
  }

  lemma ChildFails()
    ensures var p := Pipe(0, 0, 1);
            var n := WithChild(None, Reading(p, 0), AtFork() - {1}, AtFork(), Starting);
            && IsRun(n, ChildsPart())
            && After(n, ChildsPart()) == WithChild(None, ClosingRead(p, Started), AtFork() - {1}, map[], Exited)
  {
    var p, fds, parent := Pipe(0, 0, 1), AtFork(), AtFork() - {1};
    var pc := Reading(p, 0);
    SixIsAtOne();
    CloseReadStep(pc, parent, fds);
    RedirectStep(pc, parent, fds - {0});
    FailStep(pc, parent, Passed());
    ReadStep();
    assert Redirected(fds - {0}, [5, 6, 2]) == Passed();
    hide Enabled, Step, IsRun, After, WithChild, AtFork, Passed;
    TwoSteps(WithChild(None, pc, parent, fds, Starting), ChildCloseRead(0), ChildRedirect(0));
    TwoSteps(WithChild(None, pc, parent, Passed(), Execing), ChildFail(0, None), Read(0, true));
    RunsJoin(WithChild(None, pc, parent, fds, Starting),
             [ChildCloseRead(0), ChildRedirect(0)], [ChildFail(0, None), Read(0, true)]);
  }

  lemma {:induction false} ProperWithoutCalls(s: State, run: seq<Action>)
    requires IsRun(s, run) && forall i :: 0 <= i < |run| ==> !run[i].Call?
    ensures ProperRun(s, run)
    decreases |run|
  {
    hide Enabled, Step;
    if run == [] {
    } else {
      ProperWithoutCalls(Step(s, run[0]), run[1..]);
    }
  }

  lemma ProperFromItsCall(run: seq<Action>)
    requires IsRun(Start(Detached()), run) && run != [] && run[0] == Call(0, Spawn([5, 6, 2]))
    requires forall i :: 1 <= i < |run| ==> !run[i].Call?
    ensures ProperRun(Start(Detached()), run)
  {
    assert Proper(Start(Detached()), run[0]);
    hide Enabled, Step, Proper;
    ProperWithoutCalls(Step(Start(Detached()), run[0]), run[1..]);
  }

  function FailedExec(): seq<Action> {
    UpToFork([5, 6, 2]) + ParentsPart() + ChildsPart()
  }

  lemma OneCall()
    ensures FailedExec() != [] && FailedExec()[0] == Call(0, Spawn([5, 6, 2]))
    ensures forall i :: 1 <= i < |FailedExec()| ==> !FailedExec()[i].Call?
  {
  }

  lemma FailedExecRuns()
    ensures IsRun(Start(Detached()), FailedExec())
    ensures After(Start(Detached()), FailedExec())
            == WithChild(None, ClosingRead(Pipe(0, 0, 1), Started), AtFork() - {1}, map[], Exited)
  {
    FirstFreeUnique(Detached(), 0, 0);
    FirstFreeUnique(Detached(), 1, 1);
    hide Start, IsRun, After, WithPipe, WithChild, AtFork, Detached, ParentsPart, ChildsPart, UpToFork;
    var s, std := Start(Detached()), [5, 6, 2];
    ForkReached(Detached(), std, Pipe(0, 0, 1));
    ParentReads();
    ChildFails();
    RunsJoin(s, UpToFork(std), ParentsPart());
    RunsJoin(s, UpToFork(std) + ParentsPart(), ChildsPart());
  }

  /** Why `spawn_unix` needs 0, 1 and 2 to be open: with 0 and 1 closed, the error pipe gets these numbers, and
  redirection takes away the child's write end. Exec fails, nothing is written to the pipe, and the caller, which
  has passed open descriptors, is told that the program was started. */
  lemma FailedExecIsReadAsStarted() returns (run: seq<Action>)
    ensures Init(Start(Detached())) && IsRun(Start(Detached()), run) && ProperRun(Start(Detached()), run)
    ensures var n := After(Start(Detached()), run);
            && 0 in n.threads && n.threads[0] == ClosingRead(Pipe(0, 0, 1), Started)
            && n.childOf == map[0 := 0] && 0 in n.procs && n.procs[0].phase == Exited && n.messages == {}
  {
    assert Init(Start(Detached()));
    run := FailedExec();
    OneCall();
    hide IsRun, After, ProperRun, Init, FailedExec, AtFork, Start, Detached;
    FailedExecRuns();
    ProperFromItsCall(run);
  }
}
