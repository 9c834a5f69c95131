/** What `spawn_unix` promises its callers in every run in which no child is given an end of a pipe that nobody was
given: no program holds such an end, and the parent is told what became of its child. */
module SpawnGuarantees {
  import opened FdTables
  import opened SpawnProtocol

  /** The child that a fork would create is given no private pipe end: none of its standard descriptors refers to
  one, but for the read end of its own pipe, which it closes first. */
  ghost predicate CleanFork(s: State, t: nat)
    requires t in s.threads && s.threads[t].Forking?
  {
    var pc := s.threads[t];
    forall fd :: fd in pc.std && fd in s.parent && fd != pc.pipe.r ==> !Private(s, s.parent[fd].file)
  }

  ghost predicate CleanStep(s: State, a: Action)
    requires Enabled(s, a)
  {
    a.Fork? && a.ok ==> CleanFork(s, a.t)
  }

  ghost predicate CleanRun(s: State, run: seq<Action>)
    requires IsRun(s, run)
    decreases |run|
  {
    run == [] || (CleanStep(s, run[0]) && CleanRun(Step(s, run[0]), run[1..]))
  }

  // ---------- what clean steps keep ----------

  /** Nothing that a child passes on is private, and afterwards nothing that it has. */
  ghost predicate CleanProc(s: State, pid: nat)
    requires pid in s.procs
  {
    var p := s.procs[pid];
    && p.pipe.w !in p.std
    && match p.phase
       case Starting => forall fd :: fd in p.std && fd in p.fds && fd != p.pipe.r ==> !Private(s, p.fds[fd].file)
       case Redirecting => forall fd :: fd in p.std && fd in p.fds ==> !Private(s, p.fds[fd].file)
       case Execing => forall fd :: fd in p.fds && fd < 3 ==> !Private(s, p.fds[fd].file)
       case _ => forall fd :: fd in p.fds ==> !Private(s, p.fds[fd].file)
  }

  ghost predicate CleanProcs(s: State) {
    forall pid :: pid in s.procs ==> CleanProc(s, pid)
  }

  /** A message is that of the child that has failed, and only a redirection of the write end lets one get lost. */
  ghost predicate Told(s: State, id: nat) {
    && (id in s.messages && id in s.owner ==> id in s.childOf)
    && (id in s.childOf && s.childOf[id] in s.procs ==>
          var p := s.procs[s.childOf[id]];
          (id in s.messages ==> p.phase == Exited) && (p.phase == Exited && Reports(p) ==> id in s.messages))
  }

  ghost predicate Messages(s: State) {
    forall id :: Told(s, id)
  }

  /** What a child may have become whose parent has read nothing: it has reached its program or was killed; or its
  write end was lost to redirection, and then it may also be about to call exec, or have failed. */
  predicate Launched(p: Proc) {
    p.phase == Running || p.phase == Killed || (!Reports(p) && (p.phase == Execing || p.phase == Exited))
  }

  /** The result of a call that is about to return, and what has become of the child. */
  ghost predicate ResultOk(s: State, t: nat)
    requires t in s.threads
  {
    var pc := s.threads[t];
    pc.ClosingRead? ==>
      var id := pc.pipe.id;
      if pc.result == ForkFailed then id !in s.childOf
      else
        && id in s.childOf && s.childOf[id] in s.procs
        && (pc.result == Started ==> Launched(s.procs[s.childOf[id]]))
        && (pc.result == ChildFailed ==> s.procs[s.childOf[id]].phase == Exited && id in s.messages)
  }

  ghost predicate Results(s: State) {
    forall t :: t in s.threads ==> ResultOk(s, t)
  }

  ghost predicate Clean(s: State) {
    CleanProcs(s) && Messages(s) && Results(s)
  }

  // ---------- a step of a thread ----------

  lemma ThreadStepKeeps(s: State, n: State, t: nat)
    requires Inv(s) && Clean(s) && n.procs == s.procs && n.childOf == s.childOf && n.messages == s.messages
    requires forall id :: id in n.owner && id < s.nextPipe ==> id in s.owner
    requires n.threads.Keys == s.threads.Keys && forall u :: u in s.threads && u != t ==> n.threads[u] == s.threads[u]
    requires t in n.threads ==> ResultOk(n, t)
    ensures Clean(n)
  {
    hide ThreadOk, LinkOk, EntryOk, ProcOk, ChildOk;
    forall pid | pid in n.procs
      ensures CleanProc(n, pid)
    {
      assert CleanProc(s, pid);
    }
    forall id: nat
      ensures Told(n, id)
    {
      assert Told(s, id);
    }
    forall u | u in n.threads && u != t
      ensures ResultOk(n, u)
    {
      assert ResultOk(s, u);
    }
  }

  /** The steps of threads that neither create a process nor end in a result. */
  predicate Quiet(a: Action) {
    a.Call? || a.Lock? || a.PipeCall? || a.Mark? || a.Abandon? || a.Unlock? || (a.Fork? && !a.ok) || a.CloseRead?
  }

  /** From `s` to `n` thread `t` moves without a result, and the processes do not notice. */
  ghost predicate MovesQuietly(s: State, n: State, t: nat) {
    && n.procs == s.procs && n.childOf == s.childOf && n.messages == s.messages
    && (forall id :: id in n.owner && id < s.nextPipe ==> id in s.owner)
    && n.threads.Keys == s.threads.Keys && (forall u :: u in s.threads && u != t ==> n.threads[u] == s.threads[u])
    && t in n.threads && !n.threads[t].ClosingRead?
  }

  lemma QuietEntry(s: State, a: Action)
    requires Enabled(s, a) && (a.Call? || a.Lock? || a.PipeCall? || a.CloseRead?)
    ensures MovesQuietly(s, Step(s, a), a.t)
  {
    hide FirstFree;
  }

  lemma QuietMark(s: State, t: nat, ok: bool)
    requires Enabled(s, Mark(t, ok))
    ensures MovesQuietly(s, Step(s, Mark(t, ok)), t)
  {
  }

  lemma QuietAbandon(s: State, t: nat)
    requires Enabled(s, Abandon(t))
    ensures MovesQuietly(s, Step(s, Abandon(t)), t)
  {
  }

  lemma QuietExit(s: State, a: Action)
    requires Enabled(s, a) && (a.Unlock? || (a.Fork? && !a.ok))
    ensures MovesQuietly(s, Step(s, a), a.t)
  {
  }

  lemma QuietStepKeeps(s: State, a: Action)
    requires Inv(s) && Clean(s) && Enabled(s, a) && Quiet(a)
    ensures Clean(Step(s, a))
  {
    hide Clean, Inv, Enabled, Step;
    if a.Mark? {
      QuietMark(s, a.t, a.ok);
    } else if a.Abandon? {
      QuietAbandon(s, a.t);
    } else if a.Unlock? || a.Fork? {
      QuietExit(s, a);
    } else {
      QuietEntry(s, a);
    }
    ThreadStepKeeps(s, Step(s, a), a.t);
  }

  /** A child whose write end is closed has reached its program or was killed, or failed, or redirection has taken
  the write end from it. */
  lemma WriteEndGone(s: State, t: nat)
    requires Inv(s) && t in s.threads && s.threads[t].Reading?
    ensures var pc := s.threads[t];
            && pc.pipe.id in s.childOf && s.childOf[pc.pipe.id] == pc.pid && pc.pid in s.procs
            && s.procs[pc.pid].pipe.id == pc.pipe.id
            && (!WriteEndOpen(s, pc.pipe.id) ==>
                  var p := s.procs[pc.pid];
                  p.phase != Starting && p.phase != Redirecting && (p.phase == Execing ==> !Reports(p)))
  {
    hide ThreadOk, EntryOk, NumbersOk;
    OfThread(s, t);
    assert ChildOk(s, s.threads[t].pipe.id);
    OfProc(s, s.threads[t].pid);
  }

  lemma ResultIsTrue(s: State, a: Action)
    requires Inv(s) && Messages(s) && Enabled(s, a) && (a.CloseWrite? || a.Read?)
    ensures ResultOk(Step(s, a), a.t)
  {
    hide ThreadOk, EntryOk, NumbersOk;
    OfThread(s, a.t);
    if a.Read? {
      WriteEndGone(s, a.t);
      assert Told(s, s.threads[a.t].pipe.id);
    } else if s.threads[a.t].child.Some? {
      assert ChildOk(s, s.threads[a.t].pipe.id);
    }
  }

  lemma ResultStepKeeps(s: State, a: Action)
    requires Inv(s) && Clean(s) && Enabled(s, a) && (a.CloseWrite? || a.Read?)
    ensures Clean(Step(s, a))
  {
    hide Inv, ResultOk, CleanProcs, Messages;
    ResultIsTrue(s, a);
    hide Clean;
    ThreadStepKeeps(s, Step(s, a), a.t);
  }

  lemma ParentChangeKeeps(s: State, fds: Fds)
    requires Inv(s) && Clean(s) && Enabled(s, ParentChange(fds))
    ensures Clean(Step(s, ParentChange(fds)))
  {
    hide Inv, ResultOk, CleanProcs, Messages;
    var n := Step(s, ParentChange(fds));
    forall t | t in s.threads
      ensures ResultOk(n, t)
    {
      SameResult(s, n, t);
    }
    hide Clean;
    if t :| t in s.threads {
      ThreadStepKeeps(s, n, t);
    } else {
      ThreadStepKeeps(s, n, 0);
    }
  }

  lemma SameResult(s: State, n: State, t: nat)
    requires Results(s) && t in s.threads && n.threads == s.threads && n.procs == s.procs && n.childOf == s.childOf
             && n.messages == s.messages
    ensures ResultOk(n, t)
  {
    assert ResultOk(s, t);
  }

  // ---------- a step of a process ----------

  /** What became of a child stays so: a program may be killed, an exited child stays exited. */
  ghost predicate FateKept(p: Phase, q: Phase) {
    && (p == Running || p == Killed ==> q == Running || q == Killed)
    && (p == Exited ==> q == Exited)
    && (p == Execing ==> q != Starting && q != Redirecting)
  }

  /** From `s` to `n` only process `pid` moves. It may leave a message when it fails: its own if it has one to leave,
  and never in another private pipe. */
  ghost predicate CleanMoves(s: State, n: State, pid: nat) {
    && pid in s.procs && pid in n.procs
    && n == s.(procs := s.procs[pid := n.procs[pid]], messages := n.messages) && s.messages <= n.messages
    && n.procs[pid].pipe == s.procs[pid].pipe && n.procs[pid].std == s.procs[pid].std
    && FateKept(s.procs[pid].phase, n.procs[pid].phase) && CleanProc(n, pid)
    && (forall id :: id in n.messages && id !in s.messages ==>
          BeforeExec(s.procs[pid].phase) && n.procs[pid].phase == Exited
              && (id == s.procs[pid].pipe.id || id !in s.owner))
    && (n.procs[pid].phase == Exited && s.procs[pid].phase != Exited && Reports(s.procs[pid]) ==>
          s.procs[pid].pipe.id in n.messages)
  }

  lemma CleanMoveKeepsMessages(s: State, n: State, pid: nat)
    requires Inv(s) && Clean(s) && CleanMoves(s, n, pid)
    ensures Messages(n)
  {
    hide ThreadOk, LinkOk, EntryOk, NumbersOk, CleanProc, ResultOk;
    OfProc(s, pid);
    forall id: nat
      ensures Told(n, id)
    {
      assert Told(s, id);
      assert id in s.childOf ==> ChildOk(s, id);
    }
  }

  lemma CleanMoveKeepsResults(s: State, n: State, pid: nat)
    requires Results(s) && CleanMoves(s, n, pid)
    ensures Results(n)
  {
    hide CleanProc;
    forall t | t in n.threads
      ensures ResultOk(n, t)
    {
      assert ResultOk(s, t);
    }
  }

  lemma CleanMoveKeeps(s: State, n: State, pid: nat)
    requires Inv(s) && Clean(s) && CleanMoves(s, n, pid)
    ensures Clean(n)
  {
    CleanMoveKeepsMessages(s, n, pid);
    CleanMoveKeepsResults(s, n, pid);
    hide Inv, Messages, Results, FateKept;
    forall other | other in n.procs && other != pid
      ensures CleanProc(n, other)
    {
      assert CleanProc(s, other);
    }
  }

  lemma ClosedReadIsClean(s: State, pid: nat)
    requires Inv(s) && CleanProcs(s) && Enabled(s, ChildCloseRead(pid))
    ensures CleanMoves(s, Step(s, ChildCloseRead(pid)), pid)
  {
    hide Inv;
    assert CleanProc(s, pid);
  }

  lemma ChangedDirIsClean(s: State, pid: nat, fd: nat)
    requires Inv(s) && CleanProcs(s) && Enabled(s, ChildChdir(pid, fd))
    ensures CleanMoves(s, Step(s, ChildChdir(pid, fd)), pid)
  {
    hide Inv;
    assert CleanProc(s, pid);
  }

  lemma PassedOn(fds: Fds, std: seq<nat>, fd: nat)
    requires |std| == 3 && AllOpen(fds, std) && fd < 3
    ensures fd in Redirected(fds, std) && Redirected(fds, std)[fd].file == fds[std[fd]].file && std[fd] in std
  {
  }

  lemma RedirectedIsClean(s: State, pid: nat)
    requires Inv(s) && CleanProcs(s) && Enabled(s, ChildRedirect(pid))
    ensures CleanMoves(s, Step(s, ChildRedirect(pid)), pid)
  {
    hide Inv, Redirected;
    assert CleanProc(s, pid);
    var p := s.procs[pid];
    forall fd | fd in Redirected(p.fds, p.std) && fd < 3
      ensures !Private(s, Redirected(p.fds, p.std)[fd].file)
    {
      PassedOn(p.fds, p.std, fd);
    }
  }

  lemma ProgramIsClean(s: State, pid: nat)
    requires Inv(s) && CleanProcs(s) && Enabled(s, ChildExec(pid))
    ensures CleanMoves(s, Step(s, ChildExec(pid)), pid)
  {
    hide Inv;
    OfProc(s, pid);
    assert CleanProc(s, pid);
  }

  lemma KilledIsClean(s: State, pid: nat)
    requires Inv(s) && CleanProcs(s) && Enabled(s, Kill(pid))
    ensures CleanMoves(s, Step(s, Kill(pid)), pid)
  {
    hide Inv;
    assert CleanProc(s, pid);
  }

  lemma ChangedProgramIsClean(s: State, pid: nat, fds: Fds)
    requires Inv(s) && CleanProcs(s) && Enabled(s, ProgramChange(pid, fds))
    ensures CleanMoves(s, Step(s, ProgramChange(pid, fds)), pid)
  {
    hide Inv;
    assert CleanProc(s, pid);
  }

  lemma ChildStepMoves(s: State, a: Action)
    requires Inv(s) && CleanProcs(s) && Enabled(s, a)
    requires a.ChildCloseRead? || a.ChildChdir? || a.ChildRedirect? || a.ChildExec? || a.Kill? || a.ProgramChange?
    ensures CleanMoves(s, Step(s, a), a.pid)
  {
    hide Inv, CleanProcs, CleanMoves, Enabled, Step;
    match a
    case ChildCloseRead(pid) => ClosedReadIsClean(s, pid);
    case ChildChdir(pid, fd) => ChangedDirIsClean(s, pid, fd);
    case ChildRedirect(pid) => RedirectedIsClean(s, pid);
    case ChildExec(pid) => ProgramIsClean(s, pid);
    case Kill(pid) => KilledIsClean(s, pid);
    case ProgramChange(pid, fds) => ChangedProgramIsClean(s, pid, fds);
  }

  lemma FailingMoves(s: State, pid: nat, to: Option<nat>)
    requires Inv(s) && CleanProcs(s) && Enabled(s, ChildFail(pid, to))
    ensures CleanMoves(s, Step(s, ChildFail(pid, to)), pid)
  {
    WhereFailuresGo(s, pid, to);
    hide Inv, Reports, Target, Astray;
    assert CleanProc(s, pid);
  }

  /** A failure is written to the child's own pipe, unless redirection takes its write end away, and never to another
  private one. */
  lemma WhereFailuresGo(s: State, pid: nat, to: Option<nat>)
    requires Inv(s) && CleanProcs(s) && Enabled(s, ChildFail(pid, to))
    ensures var p := s.procs[pid];
            && (Reports(p) ==> to == Some(p.pipe.id))
            && (to.Some? ==> to.value == p.pipe.id || to.value !in s.owner)
  {
    OfProc(s, pid);
    assert CleanProc(s, pid);
    hide Inv;
  }

  // ---------- a fork ----------

  /** From `s` to `n` process `pid` comes into being. */
  ghost predicate Grows(s: State, n: State, pid: nat) {
    && pid !in s.procs && pid in n.procs && n.procs == s.procs[pid := n.procs[pid]]
    && n.owner == s.owner && n.messages == s.messages && CleanProc(n, pid)
  }

  lemma GrownProcs(s: State, n: State, pid: nat)
    requires CleanProcs(s) && Grows(s, n, pid)
    ensures CleanProcs(n)
  {
    forall other | other in s.procs
      ensures CleanProc(n, other)
    {
      assert CleanProc(s, other);
    }
  }

  lemma NextPidIsNew(s: State)
    requires Inv(s)
    ensures s.nextPid !in s.procs && forall id :: id in s.childOf ==> s.childOf[id] in s.procs
  {
    hide ThreadOk, LinkOk, EntryOk, ProcOk;
    forall id | id in s.childOf
      ensures s.childOf[id] in s.procs
    {
      assert ChildOk(s, id);
    }
  }

  lemma ForkGrows(s: State, t: nat)
    requires Inv(s) && Enabled(s, Fork(t, true)) && CleanFork(s, t)
    ensures Grows(s, Step(s, Fork(t, true)), s.nextPid)
    ensures s.threads[t].pipe.id in s.owner && s.threads[t].pipe.id !in s.childOf
  {
    NextPidIsNew(s);
    hide EntryOk, ProcOk, ChildOk, NumbersOk;
    OfThread(s, t);
  }

  lemma ForkKeepsResults(s: State, t: nat)
    requires Inv(s) && Results(s) && Enabled(s, Fork(t, true))
    ensures Results(Step(s, Fork(t, true)))
  {
    NextPidIsNew(s);
    var n := Step(s, Fork(t, true));
    forall u | u in n.threads
      ensures ResultOk(n, u)
    {
      assert ResultOk(s, u);
      if u != t && s.threads[u].ClosingRead? {
        OwnPipe(s, t, u);
      }
      hide Inv;
    }
  }

  /** Two threads never hold the same pipe. */
  lemma OwnPipe(s: State, t: nat, u: nat)
    requires Inv(s) && t in s.threads && u in s.threads && t != u && HasPipe(s.threads[t]) && HasPipe(s.threads[u])
    ensures s.threads[t].pipe.id != s.threads[u].pipe.id
  {
    hide NumbersOk, EntryOk, ProcOk, ChildOk, LinkOk;
    assert ThreadOk(s, t) && ThreadOk(s, u);
  }

  lemma ForkKeepsMessages(s: State, t: nat)
    requires Inv(s) && Messages(s) && Enabled(s, Fork(t, true)) && CleanFork(s, t)
    ensures Messages(Step(s, Fork(t, true)))
  {
    NextPidIsNew(s);
    ForkGrows(s, t);
    hide Inv, CleanProc;
    forall id: nat
      ensures Told(Step(s, Fork(t, true)), id)
    {
      assert Told(s, id);
    }
  }

  lemma ForkKeeps(s: State, t: nat)
    requires Inv(s) && Clean(s) && Enabled(s, Fork(t, true)) && CleanFork(s, t)
    ensures Clean(Step(s, Fork(t, true)))
  {
    hide Inv, Enabled, Step, Grows, CleanProcs, Messages, Results;
    ForkGrows(s, t);
    GrownProcs(s, Step(s, Fork(t, true)), s.nextPid);
    ForkKeepsMessages(s, t);
    ForkKeepsResults(s, t);
  }

  lemma ProgramForkGrows(s: State, pid: nat)
    requires Inv(s) && CleanProcs(s) && Enabled(s, ProgramFork(pid))
    ensures var n := Step(s, ProgramFork(pid));
            Grows(s, n, s.nextPid) && n.childOf == s.childOf && n.threads == s.threads
  {
    NextPidIsNew(s);
    hide Inv;
    assert CleanProc(s, pid);
  }

  /** What is known of the children that there are does not depend on other processes. */
  lemma GrownRest(s: State, n: State, pid: nat)
    requires Inv(s) && Messages(s) && Results(s) && Grows(s, n, pid) && n.childOf == s.childOf && n.threads == s.threads
    ensures Messages(n) && Results(n)
  {
    NextPidIsNew(s);
    hide Inv, CleanProc;
    forall id: nat
      ensures Told(n, id)
    {
      assert Told(s, id);
    }
    forall t | t in n.threads
      ensures ResultOk(n, t)
    {
      assert ResultOk(s, t);
    }
  }

  lemma ProgramForkKeeps(s: State, pid: nat)
    requires Inv(s) && Clean(s) && Enabled(s, ProgramFork(pid))
    ensures Clean(Step(s, ProgramFork(pid)))
  {
    hide Inv, Enabled, Step, Grows, CleanProcs, Messages, Results;
    ProgramForkGrows(s, pid);
    GrownProcs(s, Step(s, ProgramFork(pid)), s.nextPid);
    GrownRest(s, Step(s, ProgramFork(pid)), s.nextPid);
  }

  lemma StepKeepsClean(s: State, a: Action)
    requires Inv(s) && Clean(s) && Enabled(s, a) && CleanStep(s, a)
    ensures Clean(Step(s, a))
  {
    hide Inv, Enabled, Step, CleanMoves, CleanProcs, Messages, Results;
    if a.ParentChange? {
      ParentChangeKeeps(s, a.fds);
    } else if a.ProgramFork? {
      ProgramForkKeeps(s, a.pid);
    } else if a.ChildFail? {
      FailingMoves(s, a.pid, a.to);
      CleanMoveKeeps(s, Step(s, a), a.pid);
    } else if a.CloseWrite? || a.Read? {
      ResultStepKeeps(s, a);
    } else if a.Fork? && a.ok {
      ForkKeeps(s, a.t);
    } else if a.Call? || a.Lock? || a.PipeCall? || a.Mark? || a.Abandon? || a.Unlock? || a.Fork? || a.CloseRead? {
      QuietStepKeeps(s, a);
    } else {
      ChildStepMoves(s, a);
      CleanMoveKeeps(s, Step(s, a), a.pid);
    }
  }

  lemma {:induction false} RunKeepsClean(s: State, run: seq<Action>)
    requires Inv(s) && Clean(s) && IsRun(s, run) && CleanRun(s, run)
    ensures Clean(After(s, run))
    decreases |run|
  {
    hide Inv, Clean, Enabled, CleanStep, Step;
    if run == [] {
    } else {
      StepKeeps(s, run[0]);
      StepKeepsClean(s, run[0]);
      RunKeepsClean(Step(s, run[0]), run[1..]);
    }
  }

  lemma InitIsClean(s: State)
    requires Init(s)
    ensures Inv(s) && Clean(s)
  {
    InitHolds(s);
  }

  /** In a run with only clean forks. */
  lemma AfterCleanRun(s: State, run: seq<Action>)
    requires Init(s) && IsRun(s, run) && CleanRun(s, run)
    ensures Inv(After(s, run)) && Clean(After(s, run))
  {
    hide Init, Inv, Clean;
    InitIsClean(s);
    RunKeeps(s, run);
    RunKeepsClean(s, run);
  }

  // ---------- calls with open standard descriptors ----------

  /** Open on files that the caller knows of. */
  predicate Usable(s: State, std: seq<nat>) {
    forall fd :: fd in std ==> fd in s.parent && !Private(s, s.parent[fd].file)
  }

  /** What the callers of `spawn_unix` owe it: the standard descriptors are open. */
  ghost predicate Proper(s: State, a: Action) {
    a.Call? && a.op.Spawn? ==> Usable(s, a.op.std)
  }

  /** Every call in the run meets its obligation. */
  ghost predicate ProperRun(s: State, run: seq<Action>)
    requires IsRun(s, run)
    decreases |run|
  {
    run == [] || (Proper(s, run[0]) && ProperRun(Step(s, run[0]), run[1..]))
  }

  /** The descriptors passed to calls in progress stay usable until the fork. */
  ghost predicate Pinned(s: State) {
    forall t :: t in s.threads ==> Usable(s, PinnedBy(s.threads[t]))
  }

  /** What is not private stays open on the same file, and nothing that exists becomes private. */
  ghost predicate KeepsOpen(s: State, n: State) {
    && (forall fd :: fd in s.parent && !Private(s, s.parent[fd].file) ==>
          fd in n.parent && n.parent[fd].file == s.parent[fd].file)
    && (forall id :: id in n.owner && id < s.nextPipe ==> id in s.owner)
  }

  lemma MovesKeepOpen(s: State, n: State, t: nat)
    requires Inv(s) && Moves(s, n, t)
    ensures KeepsOpen(s, n)
  {
    hide NumbersOk, EntryOk, ProcOk, ChildOk, LinkOk;
    assert ThreadOk(s, t);
  }

  lemma StepKeepsOpen(s: State, a: Action)
    requires Inv(s) && Enabled(s, a) && !a.ParentChange?
    ensures KeepsOpen(s, Step(s, a))
  {
    hide Inv, Moves, Step, Enabled;
    match a
    case Call(t, op) => CallMoves(s, t, op); MovesKeepOpen(s, Step(s, a), t);
    case Lock(t) => LockMoves(s, t); MovesKeepOpen(s, Step(s, a), t);
    case PipeCall(t, ok) =>
      if ok { CreationKeepsOpen(s, t); } else { FailedPipeMoves(s, t); MovesKeepOpen(s, Step(s, a), t); }
    case Mark(t, ok) => MarkMoves(s, t, ok); MovesKeepOpen(s, Step(s, a), t);
    case Abandon(t) => AbandonMoves(s, t); MovesKeepOpen(s, Step(s, a), t);
    case Unlock(t) =>
      UnlockKeepsOpen(s, t);
    case CloseWrite(t) => CloseWriteMoves(s, t); MovesKeepOpen(s, Step(s, a), t);
    case Read(t, ok) => ReadMoves(s, t, ok); MovesKeepOpen(s, Step(s, a), t);
    case CloseRead(t) => CloseReadMoves(s, t); MovesKeepOpen(s, Step(s, a), t);
    case Fork(t, ok) => ForkKeepsOpen(s, t, ok);
    case _ => ProcessStep(s, a);
  }

  lemma CreationKeepsOpen(s: State, t: nat)
    requires Enabled(s, PipeCall(t, true))
    ensures KeepsOpen(s, Step(s, PipeCall(t, true)))
  {
    hide FirstFree;
    FreePair(s.parent);
  }

  lemma ForkKeepsOpen(s: State, t: nat, ok: bool)
    requires Enabled(s, Fork(t, ok))
    ensures KeepsOpen(s, Step(s, Fork(t, ok)))
  {
  }

  lemma UnlockKeepsOpen(s: State, t: nat)
    requires Enabled(s, Unlock(t))
    ensures KeepsOpen(s, Step(s, Unlock(t)))
  {
  }

  /** The steps of children and programs. */
  predicate OfProcess(a: Action) {
    || a.ChildCloseRead? || a.ChildChdir? || a.ChildRedirect? || a.ChildExec? || a.ChildFail? || a.Kill?
    || a.ProgramFork? || a.ProgramChange?
  }

  lemma ProcessStep(s: State, a: Action)
    requires Enabled(s, a) && OfProcess(a)
    ensures var n := Step(s, a); n.threads == s.threads && n.parent == s.parent && n.owner == s.owner
  {
    hide Redirected, AtExec;
  }

  /** What a thread will pass on changes only when it makes a call or has done so. */
  ghost predicate PassesOn(s: State, n: State, a: Action) {
    && n.threads.Keys == s.threads.Keys
    && (forall u :: u in s.threads ==>
          || PinnedBy(n.threads[u]) == PinnedBy(s.threads[u]) || PinnedBy(n.threads[u]) == []
          || (a.Call? && a.t == u && a.op.Spawn? && PinnedBy(n.threads[u]) == a.op.std && n.parent == s.parent
              && n.owner == s.owner))
  }

  lemma EntryPassesOn(s: State, a: Action)
    requires Enabled(s, a) && (a.Call? || a.Lock? || a.PipeCall?)
    ensures PassesOn(s, Step(s, a), a)
  {
    hide FirstFree;
  }

  lemma MarkPassesOn(s: State, t: nat, ok: bool)
    requires Enabled(s, Mark(t, ok))
    ensures PassesOn(s, Step(s, Mark(t, ok)), Mark(t, ok))
  {
  }

  lemma AbandonPassesOn(s: State, t: nat)
    requires Enabled(s, Abandon(t))
    ensures PassesOn(s, Step(s, Abandon(t)), Abandon(t))
  {
  }

  lemma ForkPassesOn(s: State, a: Action)
    requires Enabled(s, a) && (a.Unlock? || a.Fork?)
    ensures PassesOn(s, Step(s, a), a)
  {
  }

  lemma ExitPassesOn(s: State, a: Action)
    requires Enabled(s, a) && (a.CloseWrite? || a.Read? || a.CloseRead?)
    ensures PassesOn(s, Step(s, a), a)
  {
  }

  lemma ParentPassesOn(s: State, fds: Fds)
    requires Enabled(s, ParentChange(fds))
    ensures PassesOn(s, Step(s, ParentChange(fds)), ParentChange(fds))
  {
  }

  lemma NothingPassed(s: State, n: State, a: Action)
    requires n.threads == s.threads
    ensures PassesOn(s, n, a)
  {
  }

  lemma StepPassesOn(s: State, a: Action)
    requires Enabled(s, a)
    ensures PassesOn(s, Step(s, a), a)
  {
    hide Enabled, Step, PassesOn;
    if a.Call? || a.Lock? || a.PipeCall? {
      EntryPassesOn(s, a);
    } else if a.Mark? {
      MarkPassesOn(s, a.t, a.ok);
    } else if a.Abandon? {
      AbandonPassesOn(s, a.t);
    } else if a.Unlock? || a.Fork? {
      ForkPassesOn(s, a);
    } else if a.CloseWrite? || a.Read? || a.CloseRead? {
      ExitPassesOn(s, a);
    } else if a.ParentChange? {
      ParentPassesOn(s, a.fds);
    } else {
      ProcessStep(s, a);
      NothingPassed(s, Step(s, a), a);
    }
  }

  lemma UsableStays(s: State, n: State, std: seq<nat>)
    requires NumbersOk(s) && Usable(s, std) && KeepsOpen(s, n)
    ensures Usable(n, std)
  {
  }

  lemma UsableInChange(s: State, fds: Fds, u: nat)
    requires Enabled(s, ParentChange(fds)) && u in s.threads && Usable(s, PinnedBy(s.threads[u]))
    ensures u in Step(s, ParentChange(fds)).threads && Step(s, ParentChange(fds)).threads[u] == s.threads[u]
    ensures Usable(Step(s, ParentChange(fds)), PinnedBy(s.threads[u]))
  {
  }

  lemma StepKeepsPinned(s: State, a: Action)
    requires Inv(s) && Pinned(s) && Enabled(s, a) && Proper(s, a)
    ensures Pinned(Step(s, a))
  {
    hide Threads, Entries, Procs, Children, Enabled, Step, PinnedBy, KeepsOpen;
    StepPassesOn(s, a);
    var n := Step(s, a);
    forall u | u in n.threads
      ensures Usable(n, PinnedBy(n.threads[u]))
    {
      if a.ParentChange? {
        UsableInChange(s, a.fds, u);
      } else {
        StepKeepsOpen(s, a);
        UsableStays(s, n, PinnedBy(s.threads[u]));
      }
    }
  }

  lemma ForkIsClean(s: State, t: nat)
    requires Pinned(s) && t in s.threads && s.threads[t].Forking?
    ensures CleanFork(s, t)
  {
    assert Usable(s, PinnedBy(s.threads[t]));
  }

  lemma {:induction false} ProperRunIsCleanFrom(s: State, run: seq<Action>)
    requires Inv(s) && Pinned(s) && IsRun(s, run) && ProperRun(s, run)
    ensures CleanRun(s, run)
    decreases |run|
  {
    hide Inv, Pinned, Enabled, Step, CleanFork;
    if run == [] {
    } else {
      var a := run[0];
      if a.Fork? && a.ok {
        assert a.t in s.threads && s.threads[a.t].Forking? by {
          ForkIsForking(s, a);
        }
        ForkIsClean(s, a.t);
      }
      StepKeeps(s, a);
      StepKeepsPinned(s, a);
      ProperRunIsCleanFrom(Step(s, a), run[1..]);
    }
  }

  lemma ForkIsForking(s: State, a: Action)
    requires Enabled(s, a) && a.Fork?
    ensures a.t in s.threads && s.threads[a.t].Forking?
  {
  }

  /** A run in which every call passes open standard descriptors has only clean forks. */
  lemma ProperRunIsClean(s: State, run: seq<Action>)
    requires Init(s) && IsRun(s, run) && ProperRun(s, run)
    ensures CleanRun(s, run)
  {
    hide Inv;
    InitHolds(s);
    hide IsRun, ProperRun, CleanRun;
    ProperRunIsCleanFrom(s, run);
  }

  // ---------- what the protocol is for ----------

  /** No program started by exec, nor any program it forks, ever holds an end of an error pipe, or of a pipe that
  no caller has been given. */
  lemma NoProgramHoldsAPipe(s: State, run: seq<Action>, pid: nat, fd: nat)
    requires Init(s) && IsRun(s, run) && CleanRun(s, run)
    requires var n := After(s, run); pid in n.procs && n.procs[pid].phase == Running && fd in n.procs[pid].fds
    ensures !Private(After(s, run), After(s, run).procs[pid].fds[fd].file)
  {
    hide Init, Inv, Messages, Results;
    AfterCleanRun(s, run);
    assert CleanProc(After(s, run), pid);
  }

  /** The steps from a fork to its program. */
  function ToProgram(t: nat, pid: nat): seq<Action> {
    [Fork(t, true), ChildCloseRead(pid)] + [ChildRedirect(pid), ChildExec(pid)]
  }

  /** With the child of thread `t` in a later phase, with other descriptors. */
  function WithChild(n: State, t: nat, fds: Fds, phase: Phase): State
    requires t in n.threads && n.threads[t].Forking?
  {
    var pc := n.threads[t];
    At(n, t, Forked(pc.pipe, Some(n.nextPid))).(
      procs := n.procs[n.nextPid := Proc(fds, phase, pc.pipe, pc.std)],
      childOf := n.childOf[pc.pipe.id := n.nextPid],
      nextPid := n.nextPid + 1)
  }

  lemma ForkAndClose(n: State, t: nat)
    requires t in n.threads && n.threads[t].Forking?
    ensures var m := WithChild(n, t, n.parent, Starting);
            && Enabled(n, Fork(t, true)) && Step(n, Fork(t, true)) == m
            && Enabled(m, ChildCloseRead(n.nextPid))
            && Step(m, ChildCloseRead(n.nextPid)) == WithChild(n, t, n.parent - {n.threads[t].pipe.r}, Redirecting)
  {
  }

  lemma RedirectStep(n: State, t: nat, fds: Fds)
    requires t in n.threads && n.threads[t].Forking? && |n.threads[t].std| == 3 && AllOpen(fds, n.threads[t].std)
    ensures var m := WithChild(n, t, fds, Redirecting);
            && Enabled(m, ChildRedirect(n.nextPid))
            && Step(m, ChildRedirect(n.nextPid)) == WithChild(n, t, Redirected(fds, n.threads[t].std), Execing)
  {
    hide Redirected;
  }

  lemma ExecStep(n: State, t: nat, fds: Fds)
    requires t in n.threads && n.threads[t].Forking?
    ensures var m := WithChild(n, t, fds, Execing);
            Enabled(m, ChildExec(n.nextPid)) && Step(m, ChildExec(n.nextPid)) == WithChild(n, t, AtExec(fds), Running)
  {
    hide AtExec;
  }

  lemma ProgramReached(n: State, t: nat, std: seq<nat>, pipe: Pipe)
    requires t in n.threads && n.threads[t] == Forking(std, pipe) && |std| == 3 && AllOpen(n.parent - {pipe.r}, std)
    ensures && IsRun(n, ToProgram(t, n.nextPid))
            && After(n, ToProgram(t, n.nextPid))
               == WithChild(n, t, AtExec(Redirected(n.parent - {pipe.r}, std)), Running)
  {
    hide Step, Enabled, IsRun, After, Redirected, AtExec, WithChild;
    var pid, fds := n.nextPid, n.parent - {pipe.r};
    ForkAndClose(n, t);
    TwoSteps(n, Fork(t, true), ChildCloseRead(pid));
    RedirectStep(n, t, fds);
    ExecStep(n, t, Redirected(fds, std));
    TwoSteps(WithChild(n, t, fds, Redirecting), ChildRedirect(pid), ChildExec(pid));
    RunsJoin(n, [Fork(t, true), ChildCloseRead(pid)], [ChildRedirect(pid), ChildExec(pid)]);
  }

  lemma ProgramHoldsWhatItIsPassed(n: State, t: nat)
    requires Inv(n) && t in n.threads && n.threads[t].Forking? && |n.threads[t].std| == 3
    requires AllOpen(n.parent - {n.threads[t].pipe.r}, n.threads[t].std)
    ensures var program := AtExec(Redirected(n.parent - {n.threads[t].pipe.r}, n.threads[t].std));
            CleanFork(n, t) <==> forall fd :: fd in program ==> !Private(n, program[fd].file)
  {
    hide Inv, Redirected, AtExec;
    var fds, std := n.parent - {n.threads[t].pipe.r}, n.threads[t].std;
    var program := AtExec(Redirected(fds, std));
    forall fd | fd in program
      ensures if fd < 3 then program[fd].file == fds[std[fd]].file else !Private(n, program[fd].file)
    {
      ProgramTable(fds, std, fd);
      if fd >= 3 {
        MarkedAtFork(n, t, fd);
      }
    }
    forall i | 0 <= i < 3
      ensures i in program && program[i].file == fds[std[i]].file
    {
      ProgramTable(fds, std, i);
    }
  }

  /** Clean forks are exactly what that takes: after any run, a fork whose standard descriptors are open leads to a
  program that holds no private end if and only if it is clean. */
  lemma ForkLeaksUnlessClean(s: State, run: seq<Action>, t: nat)
    requires Init(s) && IsRun(s, run)
    requires var n := After(s, run);
             t in n.threads && n.threads[t].Forking? && AllOpen(n.parent - {n.threads[t].pipe.r}, n.threads[t].std)
    ensures var n := After(s, run);
            var more := ToProgram(t, n.nextPid);
            && IsRun(n, more)
            && var m := After(n, more);
               && n.nextPid in m.procs && m.procs[n.nextPid].phase == Running
               && (CleanFork(n, t)
                   <==> forall fd :: fd in m.procs[n.nextPid].fds ==> !Private(m, m.procs[n.nextPid].fds[fd].file))
  {
    hide Init, Inv, IsRun, After, Redirected, AtExec, CleanFork;
    InitHolds(s);
    RunKeeps(s, run);
    var n := After(s, run);
    OfThread(n, t);
    ProgramReached(n, t, n.threads[t].std, n.threads[t].pipe);
    ProgramHoldsWhatItIsPassed(n, t);
  }

  /** What the parent learns from its read. A message means that its own child has failed, and exited. A read of
  length zero means that the child has reached exec or was killed, if redirection has left its write end alone. */
  lemma ReadTellsOfOwnChild(s: State, run: seq<Action>, t: nat)
    requires Init(s) && IsRun(s, run) && CleanRun(s, run)
    requires var n := After(s, run); t in n.threads && n.threads[t].Reading? && Enabled(n, Read(t, true))
    ensures var n := After(s, run);
            var pc := n.threads[t];
            && pc.pid in n.procs && n.procs[pc.pid].pipe.id == pc.pipe.id
            && (if pc.pipe.id in n.messages then n.procs[pc.pid].phase == Exited else Launched(n.procs[pc.pid]))
            && (Reports(n.procs[pc.pid]) <==> n.procs[pc.pid].pipe.w >= 3)
  {
    AfterCleanRun(s, run);
    var n := After(s, run);
    assert n.threads[t].pipe.id in n.messages || !WriteEndOpen(n, n.threads[t].pipe.id);
    hide Init, Inv, Enabled, Results, WriteEndOpen;
    WriteEndGone(n, t);
    assert Told(n, n.threads[t].pipe.id) && CleanProc(n, n.threads[t].pid);
  }

  /** A failure of exec, whoever the child is, reaches its own parent if and only if the write end of its pipe is
  none of 0, 1 and 2. */
  lemma FailureIsToldFromThree(s: State, run: seq<Action>, pid: nat, to: Option<nat>)
    requires Init(s) && IsRun(s, run) && CleanRun(s, run)
    requires var n := After(s, run); pid in n.procs && n.procs[pid].phase == Execing && Enabled(n, ChildFail(pid, to))
    ensures var p := After(s, run).procs[pid]; to == Some(p.pipe.id) <==> p.pipe.w >= 3
  {
    AfterCleanRun(s, run);
    var n := After(s, run);
    hide Init, Messages, Results, ThreadOk, LinkOk, EntryOk;
    OfProc(n, pid);
    assert CleanProc(n, pid) && ChildOk(n, n.procs[pid].pipe.id);
  }

  /** The write end of a new pipe is one of 0, 1 and 2 if and only if the parent has at most one of these open. */
  lemma WriteEndBelowThree(s: State, t: nat)
    requires Enabled(s, PipeCall(t, true))
    ensures var pc := Step(s, PipeCall(t, true)).threads[t];
            pc.Marking? && (pc.pipe.w < 3 <==> StandardInUse(s.parent) <= 1)
  {
    var r := FirstFree(s.parent, 0);
    var w := FirstFree(s.parent, r + 1);
    assert w >= 3 && r < 3 ==> forall k :: 0 <= k < 3 && k != r ==> k in s.parent;
    hide FirstFree;
  }

  /** While a thread waits for its child, the parent itself has no write end of the pipe. */
  lemma ParentHasNoWriteEnd(s: State, t: nat, fd: nat)
    requires Inv(s) && t in s.threads && s.threads[t].Reading? && fd in s.parent
    ensures s.parent[fd].file != PipeEnd(s.threads[t].pipe.id, true)
  {
    hide ProcOk, ChildOk, NumbersOk;
    OfThread(s, t);
    assert EntryOk(s, fd);
  }

  lemma WriteEndIsAChilds(s: State, t: nat)
    requires Inv(s) && CleanProcs(s) && t in s.threads && s.threads[t].Reading? && WriteEndOpen(s, s.threads[t].pipe.id)
    ensures exists pid :: pid in s.procs && BeforeExec(s.procs[pid].phase)
  {
    var end := PipeEnd(s.threads[t].pipe.id, true);
    hide Inv, EntryOk, LinkOk;
    OfThread(s, t);
    forall fd | fd in s.parent
      ensures s.parent[fd].file != end
    {
      ParentHasNoWriteEnd(s, t, fd);
    }
    var pid, fd :| pid in s.procs && fd in s.procs[pid].fds && s.procs[pid].fds[fd].file == end;
    assert CleanProc(s, pid) && Private(s, end);
  }

  /** A waiting read can be held up only by children that have not reached their program yet: once they all
  have, or are gone, it can return. */
  lemma OnlyChildrenBeforeExecDelayTheRead(s: State, run: seq<Action>, t: nat)
    requires Init(s) && IsRun(s, run) && CleanRun(s, run)
    requires var n := After(s, run); t in n.threads && n.threads[t].Reading? && !Enabled(n, Read(t, true))
    ensures exists pid :: pid in After(s, run).procs && BeforeExec(After(s, run).procs[pid].phase)
  {
    hide After, IsRun, Inv, WriteEndOpen, Init, CleanRun, CleanProcs, Messages, Results;
    AfterCleanRun(s, run);
    WriteEndIsAChilds(After(s, run), t);
  }

  /** What the caller of `spawn_unix` is told of its own child. A child that failed has exited and left its message,
  and the fork has failed if and only if there is no child. A child that was started has reached its program or was
  killed, if the write end of the pipe was none of 0, 1 and 2. */
  lemma CallerIsToldTheTruth(s: State, run: seq<Action>, t: nat)
    requires Init(s) && IsRun(s, run) && CleanRun(s, run) && t in After(s, run).threads
             && After(s, run).threads[t].ClosingRead?
    ensures var n := After(s, run);
            var pc := n.threads[t];
            var id := pc.pipe.id;
            && (pc.result == ForkFailed <==> id !in n.childOf)
            && (pc.result != ForkFailed ==>
                  && n.childOf[id] in n.procs
                  && var p := n.procs[n.childOf[id]];
                     && p.pipe.id == id
                     && (pc.result == ChildFailed ==> p.phase == Exited && id in n.messages)
                     && (pc.result == Started ==>
                           || p.phase == Running || p.phase == Killed
                           || (p.pipe.w < 3 && (p.phase == Execing || p.phase == Exited))))
  {
    hide IsRun, After, CleanRun, Init, Messages;
    AfterCleanRun(s, run);
    var n := After(s, run);
    hide ThreadOk, LinkOk, EntryOk, ProcOk, NumbersOk;
    assert ResultOk(n, t);
    if n.threads[t].pipe.id in n.childOf {
      assert ChildOk(n, n.threads[t].pipe.id) && CleanProc(n, n.childOf[n.threads[t].pipe.id]);
    }
  }
}
