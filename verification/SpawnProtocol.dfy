/** The pipe and fork protocol of `spawn_pipe` and `spawn_unix` where `pipe2` is missing: one mutex for the whole
process, pipes that are marked close-on-exec only after they exist, and a read that waits for the child.
Every step of every thread and of every child is an action; a run is any sequence of enabled actions. */
module SpawnProtocol {
  import opened FdTables

  datatype File = PipeEnd(id: nat, write: bool) | Other(n: nat)

  type Fds = Table<File>

  /** A pipe and the descriptors that its creator holds. */
  datatype Pipe = Pipe(id: nat, r: nat, w: nat)

  datatype Op = MakePipe | Spawn(std: seq<nat>)

  datatype Result = Started | ChildFailed | ForkFailed | ReadFailed

  /** Where a thread stands in `spawn_pipe` or `spawn_unix`. */
  datatype Pc =
    | Idle
    | Waiting(op: Op)
    | Piping(op: Op)
    | Marking(op: Op, pipe: Pipe, marked: nat)
    | Abandoning(op: Op, pipe: Pipe, closed: nat)
    | PipeFailed
    | PipeReady(pipe: Pipe)
    | Forking(std: seq<nat>, pipe: Pipe)
    | Forked(pipe: Pipe, child: Option<nat>)
    | ClosingWrite(pipe: Pipe, child: Option<nat>)
    | Reading(pipe: Pipe, pid: nat)
    | ClosingRead(pipe: Pipe, result: Result)

  datatype Phase = Starting | Redirecting | Execing | Running | Exited | Killed

  /** A process forked by `spawn_unix`, or by a program started by it. */
  datatype Proc = Proc(fds: Fds, phase: Phase, pipe: Pipe, std: seq<nat>)

  /** `owner` has the pipes that no caller has been given yet, and the thread that made each; error pipes stay in
  it for ever. `childOf` has the child forked for each error pipe, `messages` the pipes into which a child has
  written its failure. */
  datatype State = State(
    mutex: Option<nat>,
    threads: map<nat, Pc>,
    parent: Fds,
    procs: map<nat, Proc>,
    owner: map<nat, nat>,
    childOf: map<nat, nat>,
    messages: set<nat>,
    nextPipe: nat,
    nextPid: nat)

  datatype Action =
    | Call(t: nat, op: Op)
    | Lock(t: nat)
    | PipeCall(t: nat, ok: bool)
    | Mark(t: nat, ok: bool)
    | Abandon(t: nat)
    | Unlock(t: nat)
    | Fork(t: nat, ok: bool)
    | CloseWrite(t: nat)
    | Read(t: nat, ok: bool)
    | CloseRead(t: nat)
    | ChildCloseRead(pid: nat)
    | ChildChdir(pid: nat, fd: nat)
    | ChildRedirect(pid: nat)
    | ChildExec(pid: nat)
    | ChildFail(pid: nat, to: Option<nat>)
    | Kill(pid: nat)
    | ProgramFork(pid: nat)
    | ProgramChange(pid: nat, fds: Fds)
    | ParentChange(fds: Fds)

  predicate Private(s: State, f: File) {
    f.PipeEnd? && f.id in s.owner
  }

  predicate HoldsMutex(pc: Pc) {
    pc.Piping? || pc.Marking? || pc.Abandoning? || pc.PipeFailed? || pc.PipeReady? || pc.Forking? || pc.Forked?
  }

  predicate HasPipe(pc: Pc) {
    !pc.Idle? && !pc.Waiting? && !pc.Piping? && !pc.PipeFailed?
  }

  predicate HasRead(pc: Pc) {
    HasPipe(pc) && (pc.Abandoning? ==> pc.closed == 0)
  }

  predicate HasWrite(pc: Pc) {
    HasPipe(pc) && !pc.Reading? && !pc.ClosingRead?
  }

  /** Between the creation of a pipe and its last mark. */
  predicate InWindow(pc: Pc) {
    pc.Marking? || pc.Abandoning?
  }

  /** The descriptors that the thread will pass on to its child. */
  function PinnedBy(pc: Pc): seq<nat> {
    if pc.Forking? then pc.std
    else if (pc.Waiting? || pc.Piping? || pc.Marking? || pc.Abandoning?) && pc.op.Spawn? then pc.op.std
    else []
  }

  /** A child that has not yet reached its program. */
  predicate BeforeExec(p: Phase) {
    p == Starting || p == Redirecting || p == Execing
  }

  /** Redirection leaves the write end of the error pipe where it is. */
  predicate Reports(p: Proc) {
    p.pipe.w >= 3 && p.pipe.w !in p.std
  }

  /** The pipe that a failure of exec is written to: the one at the number of the write end, if there is one. */
  function Target(p: Proc): Option<nat> {
    if p.pipe.w in p.fds && p.fds[p.pipe.w].file.PipeEnd? && p.fds[p.pipe.w].file.write
    then Some(p.fds[p.pipe.w].file.id)
    else None
  }

  /** The pipe that a failure during redirection is written to: the error pipe, unless redirection is just the
  thing that takes its number away. */
  ghost predicate Astray(p: Proc, to: Option<nat>) {
    !Reports(p) && (to == None || exists fd :: fd in p.std && fd in p.fds && p.fds[fd].file == PipeEnd(to.value, true))
  }

  predicate WriteEndOpen(s: State, id: nat) {
    || (exists fd :: fd in s.parent && s.parent[fd].file == PipeEnd(id, true))
    || (exists pid, fd :: pid in s.procs && fd in s.procs[pid].fds && s.procs[pid].fds[fd].file == PipeEnd(id, true))
  }

  /** What the system lets happen. */
  ghost predicate Enabled(s: State, a: Action) {
    match a
    case Call(t, op) => t in s.threads && s.threads[t].Idle? && (op.Spawn? ==> |op.std| == 3)
    case Lock(t) => t in s.threads && s.threads[t].Waiting? && s.mutex == None
    case PipeCall(t, ok) => t in s.threads && s.threads[t].Piping?
    case Mark(t, ok) => t in s.threads && s.threads[t].Marking?
    case Abandon(t) => t in s.threads && s.threads[t].Abandoning?
    case Unlock(t) => t in s.threads && (s.threads[t].PipeFailed? || s.threads[t].PipeReady? || s.threads[t].Forked?)
    case Fork(t, ok) => t in s.threads && s.threads[t].Forking?
    case CloseWrite(t) => t in s.threads && s.threads[t].ClosingWrite?
    case Read(t, ok) => t in s.threads && s.threads[t].Reading?
                        && (ok ==> s.threads[t].pipe.id in s.messages || !WriteEndOpen(s, s.threads[t].pipe.id))
    case CloseRead(t) => t in s.threads && s.threads[t].ClosingRead?
    case ChildCloseRead(pid) => pid in s.procs && s.procs[pid].phase == Starting
    case ChildChdir(pid, fd) =>
      // a directory is no pipe
      pid in s.procs && s.procs[pid].phase == Redirecting && fd in s.procs[pid].fds && s.procs[pid].fds[fd].file.Other?
    case ChildRedirect(pid) => pid in s.procs && s.procs[pid].phase == Redirecting
                               && |s.procs[pid].std| == 3 && AllOpen(s.procs[pid].fds, s.procs[pid].std)
    case ChildExec(pid) => pid in s.procs && s.procs[pid].phase == Execing
    case ChildFail(pid, to) =>
      && pid in s.procs
      && (|| (s.procs[pid].phase == Redirecting && (to == Some(s.procs[pid].pipe.id) || Astray(s.procs[pid], to)))
          || (s.procs[pid].phase == Execing && to == Target(s.procs[pid])))
    case Kill(pid) => pid in s.procs
    case ProgramFork(pid) => pid in s.procs && s.procs[pid].phase == Running
    case ProgramChange(pid, fds) =>
      // a program works with its own files and with files that are not pipes of ours
      && pid in s.procs && s.procs[pid].phase == Running
      && forall fd :: fd in fds ==>
           fds[fd].file.Other? || exists k :: k in s.procs[pid].fds && s.procs[pid].fds[k].file == fds[fd].file
    case ParentChange(fds) =>
      // the rest of the parent leaves alone the pipes it was not given, and keeps open the descriptors it has
      // passed to a call in progress
      && (forall fd :: fd in s.parent && Private(s, s.parent[fd].file) ==> fd in fds && fds[fd] == s.parent[fd])
      && (forall fd :: fd in fds && !(fd in s.parent && fds[fd] == s.parent[fd]) ==>
            || fds[fd].file.Other?
            || exists k :: k in s.parent && !Private(s, s.parent[k].file) && s.parent[k].file == fds[fd].file)
      && (forall t, fd :: t in s.threads && fd in PinnedBy(s.threads[t]) && fd in s.parent ==> fd in fds)
  }

  function At(s: State, t: nat, pc: Pc): State {
    s.(threads := s.threads[t := pc])
  }

  function WithFds(s: State, pid: nat, fds: Fds, phase: Phase): State
    requires pid in s.procs
  {
    s.(procs := s.procs[pid := s.procs[pid].(fds := fds, phase := phase)])
  }

  /** What an action does. */
  ghost function Step(s: State, a: Action): State
    requires Enabled(s, a)
  {
    match a
    case Call(t, op) => At(s, t, Waiting(op))
    case Lock(t) => At(s, t, Piping(s.threads[t].op)).(mutex := Some(t))
    case PipeCall(t, ok) =>
      if !ok then At(s, t, PipeFailed)
      else
        var r := FirstFree(s.parent, 0);
        var w := FirstFree(s.parent, r + 1);
        var p := Pipe(s.nextPipe, r, w);
        At(s, t, Marking(s.threads[t].op, p, 0)).(
          parent := s.parent[r := Entry(PipeEnd(p.id, false), false)][w := Entry(PipeEnd(p.id, true), false)],
          owner := s.owner[p.id := t],
          nextPipe := s.nextPipe + 1)
    case Mark(t, ok) =>
      var pc := s.threads[t];
      if !ok then At(s, t, Abandoning(pc.op, pc.pipe, 0))
      else if pc.marked == 0 then
        At(s, t, Marking(pc.op, pc.pipe, 1)).(parent := s.parent[pc.pipe.r := Entry(PipeEnd(pc.pipe.id, false), true)])
      else
        At(s, t, if pc.op.Spawn? then Forking(pc.op.std, pc.pipe) else PipeReady(pc.pipe)).(
          parent := s.parent[pc.pipe.w := Entry(PipeEnd(pc.pipe.id, true), true)])
    case Abandon(t) =>
      var pc := s.threads[t];
      if pc.closed == 0 then At(s, t, Abandoning(pc.op, pc.pipe, 1)).(parent := s.parent - {pc.pipe.r})
      else At(s, t, PipeFailed).(parent := s.parent - {pc.pipe.w})
    case Unlock(t) =>
      var pc := s.threads[t];
      if pc.PipeFailed? then At(s, t, Idle).(mutex := None)
      else if pc.PipeReady? then At(s, t, Idle).(mutex := None, owner := s.owner - {pc.pipe.id})
      else At(s, t, ClosingWrite(pc.pipe, pc.child)).(mutex := None)
    case Fork(t, ok) =>
      var pc := s.threads[t];
      if !ok then At(s, t, Forked(pc.pipe, None))
      else At(s, t, Forked(pc.pipe, Some(s.nextPid))).(
             procs := s.procs[s.nextPid := Proc(s.parent, Starting, pc.pipe, pc.std)],
             childOf := s.childOf[pc.pipe.id := s.nextPid],
             nextPid := s.nextPid + 1)
    case CloseWrite(t) =>
      var pc := s.threads[t];
      At(s, t, if pc.child.Some? then Reading(pc.pipe, pc.child.value) else ClosingRead(pc.pipe, ForkFailed)).(
        parent := s.parent - {pc.pipe.w})
    case Read(t, ok) =>
      var pc := s.threads[t];
      var result := if !ok then ReadFailed else if pc.pipe.id in s.messages then ChildFailed else Started;
      At(s, t, ClosingRead(pc.pipe, result))
    case CloseRead(t) => At(s, t, Idle).(parent := s.parent - {s.threads[t].pipe.r})
    case ChildCloseRead(pid) => WithFds(s, pid, s.procs[pid].fds - {s.procs[pid].pipe.r}, Redirecting)
    case ChildChdir(pid, fd) => WithFds(s, pid, s.procs[pid].fds - {fd}, Redirecting)
    case ChildRedirect(pid) => WithFds(s, pid, Redirected(s.procs[pid].fds, s.procs[pid].std), Execing)
    case ChildExec(pid) => WithFds(s, pid, AtExec(s.procs[pid].fds), Running)
    case ChildFail(pid, to) =>
      WithFds(s, pid, map[], Exited).(messages := s.messages + if to.Some? then {to.value} else {})
    case Kill(pid) => WithFds(s, pid, map[], if s.procs[pid].phase == Exited then Exited else Killed)
    case ProgramFork(pid) => s.(procs := s.procs[s.nextPid := s.procs[pid]], nextPid := s.nextPid + 1)
    case ProgramChange(pid, fds) => WithFds(s, pid, fds, Running)
    case ParentChange(fds) => s.(parent := fds)
  }

  // ---------- what every step keeps ----------

  /** The holder of the mutex is the one thread inside the section; each thread holds the ends of its own pipe. */
  ghost predicate ThreadOk(s: State, t: nat)
    requires t in s.threads
  {
    var pc := s.threads[t];
    && (HoldsMutex(pc) <==> s.mutex == Some(t))
    && (HasPipe(pc) ==> pc.pipe.id in s.owner && s.owner[pc.pipe.id] == t && pc.pipe.r < pc.pipe.w)
    && (HasRead(pc) ==> pc.pipe.r in s.parent && s.parent[pc.pipe.r].file == PipeEnd(pc.pipe.id, false))
    && (HasWrite(pc) ==> pc.pipe.w in s.parent && s.parent[pc.pipe.w].file == PipeEnd(pc.pipe.id, true))
    && (pc.Marking? ==> pc.marked < 2 && (pc.marked == 1 ==> s.parent[pc.pipe.r].cloexec))
    && ((pc.Waiting? || pc.Piping? || InWindow(pc)) && pc.op.Spawn? ==> |pc.op.std| == 3)
    && (pc.Forking? ==> |pc.std| == 3)
  }

  /** A descriptor of the parent on a private pipe is the one its owner knows of, and is marked outside the window. */
  ghost predicate EntryOk(s: State, fd: nat)
    requires fd in s.parent
  {
    Private(s, s.parent[fd].file) ==>
      var f := s.parent[fd].file;
      var t := s.owner[f.id];
      && t in s.threads && HasPipe(s.threads[t]) && s.threads[t].pipe.id == f.id
      && (if f.write then fd == s.threads[t].pipe.w && HasWrite(s.threads[t])
          else fd == s.threads[t].pipe.r && HasRead(s.threads[t]))
      && (!s.parent[fd].cloexec ==> InWindow(s.threads[t]))
  }

  /** Before exec a child holds private pipes only on marked descriptors, except for what it passes on as 0, 1 and
  2, and its own write end, except where redirection takes it away. */
  ghost predicate ProcOk(s: State, pid: nat)
    requires pid in s.procs
  {
    var p := s.procs[pid];
    BeforeExec(p.phase) ==>
      && p.pipe.id in s.childOf && s.childOf[p.pipe.id] == pid && |p.std| == 3 && p.pipe.r != p.pipe.w
      && (forall fd :: fd in p.fds && Private(s, p.fds[fd].file) && (p.phase == Execing ==> fd >= 3) ==>
            p.fds[fd].cloexec)
      && (p.phase != Execing || Reports(p) ==> p.pipe.w in p.fds && p.fds[p.pipe.w].file == PipeEnd(p.pipe.id, true))
      && (p.phase == Starting ==> p.pipe.r in p.fds && p.fds[p.pipe.r].file == PipeEnd(p.pipe.id, false))
      && (p.phase == Redirecting ==> p.pipe.r !in p.fds)
  }

  /** The child whose end a thread waits for. */
  ghost predicate LinkOk(s: State, t: nat)
    requires t in s.threads
  {
    var pc := s.threads[t];
    && (pc.Forked? || pc.ClosingWrite? ==>
          if pc.child.Some? then pc.pipe.id in s.childOf && s.childOf[pc.pipe.id] == pc.child.value
          else pc.pipe.id !in s.childOf)
    && (pc.Reading? ==> pc.pipe.id in s.childOf && s.childOf[pc.pipe.id] == pc.pid)
    && (pc.Marking? || pc.Abandoning? || pc.PipeReady? || pc.Forking? ==> pc.pipe.id !in s.childOf)
  }

  ghost predicate ChildOk(s: State, id: nat)
    requires id in s.childOf
  {
    id in s.owner && s.childOf[id] in s.procs && s.procs[s.childOf[id]].pipe.id == id
  }

  ghost predicate Known(s: State, fds: Fds) {
    forall fd :: fd in fds && fds[fd].file.PipeEnd? ==> fds[fd].file.id < s.nextPipe
  }

  ghost predicate NumbersOk(s: State) {
    && (forall id :: id in s.owner || id in s.childOf || id in s.messages ==> id < s.nextPipe)
    && (forall pid :: pid in s.procs ==> pid < s.nextPid && Known(s, s.procs[pid].fds))
    && Known(s, s.parent)
    && (s.mutex.Some? ==> s.mutex.value in s.threads)
  }

  ghost predicate Threads(s: State) {
    forall t :: t in s.threads ==> ThreadOk(s, t) && LinkOk(s, t)
  }

  ghost predicate Entries(s: State) {
    forall fd :: fd in s.parent ==> EntryOk(s, fd)
  }

  ghost predicate Procs(s: State) {
    forall pid :: pid in s.procs ==> ProcOk(s, pid)
  }

  ghost predicate Children(s: State) {
    forall id :: id in s.childOf ==> ChildOk(s, id)
  }

  ghost predicate Inv(s: State) {
    NumbersOk(s) && Threads(s) && Entries(s) && Procs(s) && Children(s)
  }

  // ---------- one thread moves ----------

  ghost predicate Own(pc: Pc, fd: nat) {
    (HasRead(pc) && fd == pc.pipe.r) || (HasWrite(pc) && fd == pc.pipe.w)
  }

  /** From `s` to `n` only thread `t` moves: it may take or release the mutex, and close or mark its own pipe. */
  ghost predicate Moves(s: State, n: State, t: nat) {
    && t in s.threads && t in n.threads
    && n == s.(threads := s.threads[t := n.threads[t]], mutex := n.mutex, parent := n.parent)
    && (n.mutex == s.mutex || (s.mutex == None && n.mutex == Some(t)) || (s.mutex == Some(t) && n.mutex == None))
    && (forall fd :: fd in s.parent && !Own(s.threads[t], fd) ==> fd in n.parent && n.parent[fd] == s.parent[fd])
    && (forall fd :: fd in n.parent && !Own(s.threads[t], fd) ==> fd in s.parent)
    && (forall fd :: fd in n.parent && Own(s.threads[t], fd) ==>
          fd in s.parent && n.parent[fd].file == s.parent[fd].file && EntryOk(n, fd))
    && ThreadOk(n, t) && LinkOk(n, t)
  }

  lemma MoveKeepsThreads(s: State, n: State, t: nat)
    requires Inv(s) && Moves(s, n, t)
    ensures Threads(n)
  {
    hide ProcOk, ChildOk, NumbersOk;
    forall u | u in n.threads && u != t
      ensures ThreadOk(n, u) && LinkOk(n, u)
    {
      assert ThreadOk(s, u) && LinkOk(s, u);
      assert ThreadOk(s, t);
    }
  }

  lemma MoveKeepsEntries(s: State, n: State, t: nat)
    requires Inv(s) && Moves(s, n, t)
    ensures Entries(n)
  {
    hide ProcOk, ChildOk, ThreadOk, LinkOk;
    forall fd | fd in n.parent
      ensures EntryOk(n, fd)
    {
      if !Own(s.threads[t], fd) {
        assert EntryOk(s, fd);
      }
    }
  }

  lemma MoveKeepsRest(s: State, n: State, t: nat)
    requires Inv(s) && Moves(s, n, t)
    ensures NumbersOk(n) && Procs(n) && Children(n)
  {
    hide LinkOk, EntryOk;
    assert ThreadOk(s, t);
    forall pid | pid in n.procs
      ensures ProcOk(n, pid)
    {
      assert ProcOk(s, pid);
    }
    forall id | id in n.childOf
      ensures ChildOk(n, id)
    {
      assert ChildOk(s, id);
    }
  }

  lemma MoveKeeps(s: State, n: State, t: nat)
    requires Inv(s) && Moves(s, n, t)
    ensures Inv(n)
  {
    hide ThreadOk, LinkOk, EntryOk, ProcOk, ChildOk, NumbersOk;
    MoveKeepsThreads(s, n, t);
    MoveKeepsEntries(s, n, t);
    MoveKeepsRest(s, n, t);
  }

  lemma OfThread(s: State, t: nat)
    requires Inv(s) && t in s.threads
    ensures ThreadOk(s, t) && LinkOk(s, t)
    ensures forall fd :: fd in s.parent && Own(s.threads[t], fd) ==> EntryOk(s, fd)
  {
  }

  lemma OfProc(s: State, pid: nat)
    requires Inv(s) && pid in s.procs
    ensures ProcOk(s, pid) && Known(s, s.procs[pid].fds) && pid < s.nextPid
  {
  }

  lemma CallMoves(s: State, t: nat, op: Op)
    requires Inv(s) && Enabled(s, Call(t, op))
    ensures Moves(s, Step(s, Call(t, op)), t)
  {
    hide Inv;
    OfThread(s, t);
  }

  lemma LockMoves(s: State, t: nat)
    requires Inv(s) && Enabled(s, Lock(t))
    ensures Moves(s, Step(s, Lock(t)), t)
  {
    hide Inv;
    OfThread(s, t);
  }

  lemma FailedPipeMoves(s: State, t: nat)
    requires Inv(s) && Enabled(s, PipeCall(t, false))
    ensures Moves(s, Step(s, PipeCall(t, false)), t)
  {
    hide Inv;
    OfThread(s, t);
  }

  lemma MarkKeepsThread(s: State, t: nat, ok: bool)
    requires Inv(s) && Enabled(s, Mark(t, ok))
    ensures ThreadOk(Step(s, Mark(t, ok)), t) && LinkOk(Step(s, Mark(t, ok)), t)
  {
    hide Inv, EntryOk, Moves;
    OfThread(s, t);
  }

  lemma MarkMoves(s: State, t: nat, ok: bool)
    requires Inv(s) && Enabled(s, Mark(t, ok))
    ensures Moves(s, Step(s, Mark(t, ok)), t)
  {
    hide Inv, LinkOk;
    MarkKeepsThread(s, t, ok);
    OfThread(s, t);
  }

  lemma AbandonKeepsThread(s: State, t: nat)
    requires Inv(s) && Enabled(s, Abandon(t))
    ensures ThreadOk(Step(s, Abandon(t)), t) && LinkOk(Step(s, Abandon(t)), t)
  {
    hide Inv, EntryOk, Moves;
    OfThread(s, t);
  }

  lemma AbandonMoves(s: State, t: nat)
    requires Inv(s) && Enabled(s, Abandon(t))
    ensures Moves(s, Step(s, Abandon(t)), t)
  {
    hide Inv, LinkOk;
    AbandonKeepsThread(s, t);
    OfThread(s, t);
  }

  lemma UnlockMoves(s: State, t: nat)
    requires Inv(s) && Enabled(s, Unlock(t)) && !s.threads[t].PipeReady?
    ensures Moves(s, Step(s, Unlock(t)), t)
  {
    hide Inv;
    OfThread(s, t);
  }

  lemma FailedForkMoves(s: State, t: nat)
    requires Inv(s) && Enabled(s, Fork(t, false))
    ensures Moves(s, Step(s, Fork(t, false)), t)
  {
    hide Inv;
    OfThread(s, t);
  }

  lemma CloseWriteMoves(s: State, t: nat)
    requires Inv(s) && Enabled(s, CloseWrite(t))
    ensures Moves(s, Step(s, CloseWrite(t)), t)
  {
    hide Inv;
    OfThread(s, t);
  }

  lemma ReadMoves(s: State, t: nat, ok: bool)
    requires Inv(s) && Enabled(s, Read(t, ok))
    ensures Moves(s, Step(s, Read(t, ok)), t)
  {
    hide Inv;
    OfThread(s, t);
  }

  lemma CloseReadMoves(s: State, t: nat)
    requires Inv(s) && Enabled(s, CloseRead(t))
    ensures Moves(s, Step(s, CloseRead(t)), t)
  {
    hide Inv;
    OfThread(s, t);
  }

  // ---------- one process moves ----------

  /** From `s` to `n` only process `pid` moves, and it may leave a message. */
  ghost predicate ProcMoves(s: State, n: State, pid: nat) {
    && pid in s.procs && pid in n.procs
    && n == s.(procs := s.procs[pid := n.procs[pid]], messages := n.messages)
    && n.procs[pid].pipe == s.procs[pid].pipe && ProcOk(n, pid) && Known(n, n.procs[pid].fds)
    && (forall id :: id in n.messages && id !in s.messages ==> id < s.nextPipe)
  }

  /** The threads and the parent's descriptors do not notice what the processes do. */
  lemma ParentSideKeeps(s: State, n: State)
    requires Inv(s)
    requires n.threads == s.threads && n.parent == s.parent && n.owner == s.owner && n.mutex == s.mutex
             && n.childOf == s.childOf
    ensures Threads(n) && Entries(n)
  {
    hide ProcOk, ChildOk, NumbersOk;
    forall t | t in n.threads
      ensures ThreadOk(n, t) && LinkOk(n, t)
    {
      assert ThreadOk(s, t) && LinkOk(s, t);
    }
    forall fd | fd in n.parent
      ensures EntryOk(n, fd)
    {
      assert EntryOk(s, fd);
    }
  }

  lemma ProcMoveKeepsProcs(s: State, n: State, pid: nat)
    requires Inv(s) && ProcMoves(s, n, pid)
    ensures Procs(n) && NumbersOk(n)
  {
    hide ThreadOk, LinkOk, EntryOk, ChildOk;
    assert ProcOk(s, pid);
    forall other | other in n.procs
      ensures ProcOk(n, other)
    {
      assert ProcOk(s, other);
    }
  }

  lemma ProcMoveKeepsChildren(s: State, n: State, pid: nat)
    requires Inv(s) && ProcMoves(s, n, pid)
    ensures Children(n)
  {
    hide ThreadOk, LinkOk, EntryOk, NumbersOk;
    assert ProcOk(s, pid);
    forall id | id in n.childOf
      ensures ChildOk(n, id)
    {
      assert ChildOk(s, id);
    }
  }

  lemma ProcMoveKeeps(s: State, n: State, pid: nat)
    requires Inv(s) && ProcMoves(s, n, pid)
    ensures Inv(n)
  {
    hide ThreadOk, LinkOk, EntryOk, ProcOk, ChildOk, NumbersOk;
    ParentSideKeeps(s, n);
    ProcMoveKeepsProcs(s, n, pid);
    ProcMoveKeepsChildren(s, n, pid);
  }

  lemma ChildCloseReadMoves(s: State, pid: nat)
    requires Inv(s) && Enabled(s, ChildCloseRead(pid))
    ensures ProcMoves(s, Step(s, ChildCloseRead(pid)), pid)
  {
    hide Inv;
    OfProc(s, pid);
  }

  lemma ChildChdirMoves(s: State, pid: nat, fd: nat)
    requires Inv(s) && Enabled(s, ChildChdir(pid, fd))
    ensures ProcMoves(s, Step(s, ChildChdir(pid, fd)), pid)
  {
    hide Inv;
    OfProc(s, pid);
  }

  lemma ChildRedirectMoves(s: State, pid: nat)
    requires Inv(s) && Enabled(s, ChildRedirect(pid))
    ensures ProcMoves(s, Step(s, ChildRedirect(pid)), pid)
  {
    hide Inv;
    OfProc(s, pid);
  }

  lemma ChildExecMoves(s: State, pid: nat)
    requires Inv(s) && Enabled(s, ChildExec(pid))
    ensures ProcMoves(s, Step(s, ChildExec(pid)), pid)
  {
    hide Inv;
    OfProc(s, pid);
  }

  lemma ChildFailMoves(s: State, pid: nat, to: Option<nat>)
    requires Inv(s) && Enabled(s, ChildFail(pid, to))
    ensures ProcMoves(s, Step(s, ChildFail(pid, to)), pid)
  {
    hide ThreadOk, LinkOk, EntryOk;
    OfProc(s, pid);
    if BeforeExec(s.procs[pid].phase) {
      assert ChildOk(s, s.procs[pid].pipe.id);
    }
  }

  lemma KillMoves(s: State, pid: nat)
    requires Inv(s) && Enabled(s, Kill(pid))
    ensures ProcMoves(s, Step(s, Kill(pid)), pid)
  {
    hide Inv;
    OfProc(s, pid);
  }

  lemma ProgramChangeMoves(s: State, pid: nat, fds: Fds)
    requires Inv(s) && Enabled(s, ProgramChange(pid, fds))
    ensures ProcMoves(s, Step(s, ProgramChange(pid, fds)), pid)
  {
    hide Inv;
    OfProc(s, pid);
  }

  // ---------- the steps that create and hand over ----------

  lemma FreePair(fds: Fds)
    ensures var r := FirstFree(fds, 0); var w := FirstFree(fds, r + 1);
            r < w && r !in fds && w !in fds
  {
  }

  /** The processes do not notice a new pipe, nor one given to its caller. */
  lemma ProcessesKeep(s: State, n: State)
    requires Inv(s) && n.procs == s.procs && n.childOf == s.childOf
    requires forall id :: id in n.owner && id < s.nextPipe ==> id in s.owner
    requires forall id :: id in s.owner && id in s.childOf ==> id in n.owner
    ensures Procs(n) && Children(n)
  {
    hide ThreadOk, LinkOk, EntryOk;
    forall pid | pid in n.procs
      ensures ProcOk(n, pid)
    {
      assert ProcOk(s, pid);
    }
    forall id | id in n.childOf
      ensures ChildOk(n, id)
    {
      assert ChildOk(s, id);
    }
  }

  lemma CreatedThreads(s: State, t: nat)
    requires Inv(s) && Enabled(s, PipeCall(t, true))
    ensures Threads(Step(s, PipeCall(t, true)))
  {
    hide FirstFree, EntryOk, ProcOk, ChildOk;
    var n := Step(s, PipeCall(t, true));
    FreePair(s.parent);
    forall u | u in n.threads
      ensures ThreadOk(n, u) && LinkOk(n, u)
    {
      OfThread(s, u);
      OfThread(s, t);
    }
  }

  lemma CreatedEntries(s: State, t: nat)
    requires Inv(s) && Enabled(s, PipeCall(t, true))
    ensures Entries(Step(s, PipeCall(t, true)))
  {
    hide FirstFree, ThreadOk, LinkOk, ProcOk, ChildOk;
    var n := Step(s, PipeCall(t, true));
    FreePair(s.parent);
    forall fd | fd in n.parent
      ensures EntryOk(n, fd)
    {
      assert fd in s.parent ==> EntryOk(s, fd);
    }
  }

  lemma CreatedNumbers(s: State, t: nat)
    requires Inv(s) && Enabled(s, PipeCall(t, true))
    ensures NumbersOk(Step(s, PipeCall(t, true)))
  {
    hide FirstFree, ThreadOk, LinkOk, EntryOk, ProcOk, ChildOk;
  }

  lemma PipeCreated(s: State, t: nat)
    requires Inv(s) && Enabled(s, PipeCall(t, true))
    ensures Inv(Step(s, PipeCall(t, true)))
  {
    hide FirstFree, ThreadOk, LinkOk, EntryOk, ProcOk, ChildOk;
    CreatedThreads(s, t);
    CreatedEntries(s, t);
    CreatedNumbers(s, t);
    ProcessesKeep(s, Step(s, PipeCall(t, true)));
  }

  lemma PipeReturned(s: State, t: nat)
    requires Inv(s) && Enabled(s, Unlock(t)) && s.threads[t].PipeReady?
    ensures Inv(Step(s, Unlock(t)))
  {
    hide ProcOk, ChildOk;
    var n := Step(s, Unlock(t));
    OfThread(s, t);
    forall u | u in n.threads
      ensures ThreadOk(n, u) && LinkOk(n, u)
    {
      OfThread(s, u);
    }
    forall fd | fd in n.parent
      ensures EntryOk(n, fd)
    {
      assert EntryOk(s, fd);
    }
    ProcessesKeep(s, n);
  }

  lemma ForkedThreads(s: State, t: nat)
    requires Inv(s) && Enabled(s, Fork(t, true))
    ensures var n := Step(s, Fork(t, true)); Threads(n)
  {
    hide EntryOk, ProcOk, ChildOk;
    var n := Step(s, Fork(t, true));
    OfThread(s, t);
    forall u | u in n.threads
      ensures ThreadOk(n, u) && LinkOk(n, u)
    {
      OfThread(s, u);
    }
  }

  lemma ForkedEntries(s: State, t: nat)
    requires Inv(s) && Enabled(s, Fork(t, true))
    ensures var n := Step(s, Fork(t, true)); Entries(n) && NumbersOk(n)
  {
    hide LinkOk, ProcOk, ChildOk;
    var n := Step(s, Fork(t, true));
    OfThread(s, t);
    forall fd | fd in n.parent
      ensures EntryOk(n, fd)
    {
      assert EntryOk(s, fd);
    }
  }

  lemma ForkedProcs(s: State, t: nat)
    requires Inv(s) && Enabled(s, Fork(t, true))
    ensures Procs(Step(s, Fork(t, true)))
  {
    hide EntryOk, ChildOk;
    var n := Step(s, Fork(t, true));
    OfThread(s, t);
    forall fd | fd in s.parent
      ensures Private(s, s.parent[fd].file) ==> s.parent[fd].cloexec
    {
      MarkedAtFork(s, t, fd);
    }
    forall pid | pid in n.procs
      ensures ProcOk(n, pid)
    {
      assert pid in s.procs ==> ProcOk(s, pid);
    }
  }

  lemma ForkedChildren(s: State, t: nat)
    requires Inv(s) && Enabled(s, Fork(t, true))
    ensures Children(Step(s, Fork(t, true)))
  {
    hide EntryOk, ProcOk;
    var n := Step(s, Fork(t, true));
    OfThread(s, t);
    forall id | id in n.childOf
      ensures ChildOk(n, id)
    {
      assert id in s.childOf ==> ChildOk(s, id);
    }
  }

  /** Whenever a thread is about to fork, every pipe that these functions have created and not yet given
  away is marked close-on-exec, whoever created it. */
  lemma MarkedAtFork(s: State, t: nat, fd: nat)
    requires Inv(s) && t in s.threads && s.threads[t].Forking? && fd in s.parent
    ensures Private(s, s.parent[fd].file) ==> s.parent[fd].cloexec
  {
    assert EntryOk(s, fd) && ThreadOk(s, t);
    if Private(s, s.parent[fd].file) {
      assert ThreadOk(s, s.owner[s.parent[fd].file.id]);
    }
  }

  lemma ChildForked(s: State, t: nat)
    requires Inv(s) && Enabled(s, Fork(t, true))
    ensures Inv(Step(s, Fork(t, true)))
  {
    hide ThreadOk, LinkOk, EntryOk, ProcOk, ChildOk;
    ForkedThreads(s, t);
    ForkedEntries(s, t);
    ForkedProcs(s, t);
    ForkedChildren(s, t);
  }

  lemma ProgramForkedProcs(s: State, pid: nat)
    requires Inv(s) && Enabled(s, ProgramFork(pid))
    ensures Procs(Step(s, ProgramFork(pid))) && NumbersOk(Step(s, ProgramFork(pid)))
  {
    hide ThreadOk, LinkOk, EntryOk, ChildOk;
    var n := Step(s, ProgramFork(pid));
    OfProc(s, pid);
    forall other | other in n.procs
      ensures ProcOk(n, other)
    {
      assert other in s.procs ==> ProcOk(s, other);
    }
  }

  lemma ProgramForkedChildren(s: State, pid: nat)
    requires Inv(s) && Enabled(s, ProgramFork(pid))
    ensures Children(Step(s, ProgramFork(pid)))
  {
    hide ThreadOk, LinkOk, EntryOk, ProcOk;
    var n := Step(s, ProgramFork(pid));
    forall id | id in n.childOf
      ensures ChildOk(n, id)
    {
      assert ChildOk(s, id);
    }
  }

  lemma ProgramForked(s: State, pid: nat)
    requires Inv(s) && Enabled(s, ProgramFork(pid))
    ensures Inv(Step(s, ProgramFork(pid)))
  {
    hide ThreadOk, LinkOk, EntryOk, ProcOk, ChildOk, NumbersOk;
    ParentSideKeeps(s, Step(s, ProgramFork(pid)));
    ProgramForkedProcs(s, pid);
    ProgramForkedChildren(s, pid);
  }

  lemma ParentChanged(s: State, fds: Fds)
    requires Inv(s) && Enabled(s, ParentChange(fds))
    ensures Inv(Step(s, ParentChange(fds)))
  {
    hide ProcOk, ChildOk;
    var n := Step(s, ParentChange(fds));
    forall u | u in n.threads
      ensures ThreadOk(n, u) && LinkOk(n, u)
    {
      OfThread(s, u);
    }
    forall fd | fd in n.parent
      ensures EntryOk(n, fd)
    {
      assert fd in s.parent ==> EntryOk(s, fd);
    }
    ProcessesKeep(s, n);
  }

  // ---------- every run ----------

  /** At the start no call is in progress, and no pipe is private. */
  ghost predicate Init(s: State) {
    && s.mutex == None && s.procs == map[] && s.owner == map[] && s.childOf == map[] && s.messages == {}
    && (forall t :: t in s.threads ==> s.threads[t].Idle?) && Known(s, s.parent)
  }

  lemma StepKeeps(s: State, a: Action)
    requires Inv(s) && Enabled(s, a)
    ensures Inv(Step(s, a))
  {
    hide Inv, Moves, ProcMoves;
    match a
    case Call(t, op) => CallMoves(s, t, op); MoveKeeps(s, Step(s, a), t);
    case Lock(t) => LockMoves(s, t); MoveKeeps(s, Step(s, a), t);
    case PipeCall(t, ok) =>
      if ok { PipeCreated(s, t); } else { FailedPipeMoves(s, t); MoveKeeps(s, Step(s, a), t); }
    case Mark(t, ok) => MarkMoves(s, t, ok); MoveKeeps(s, Step(s, a), t);
    case Abandon(t) => AbandonMoves(s, t); MoveKeeps(s, Step(s, a), t);
    case Unlock(t) =>
      if s.threads[t].PipeReady? { PipeReturned(s, t); } else { UnlockMoves(s, t); MoveKeeps(s, Step(s, a), t); }
    case Fork(t, ok) =>
      if ok { ChildForked(s, t); } else { FailedForkMoves(s, t); MoveKeeps(s, Step(s, a), t); }
    case CloseWrite(t) => CloseWriteMoves(s, t); MoveKeeps(s, Step(s, a), t);
    case Read(t, ok) => ReadMoves(s, t, ok); MoveKeeps(s, Step(s, a), t);
    case CloseRead(t) => CloseReadMoves(s, t); MoveKeeps(s, Step(s, a), t);
    case ChildCloseRead(pid) => ChildCloseReadMoves(s, pid); ProcMoveKeeps(s, Step(s, a), pid);
    case ChildChdir(pid, fd) => ChildChdirMoves(s, pid, fd); ProcMoveKeeps(s, Step(s, a), pid);
    case ChildRedirect(pid) => ChildRedirectMoves(s, pid); ProcMoveKeeps(s, Step(s, a), pid);
    case ChildExec(pid) => ChildExecMoves(s, pid); ProcMoveKeeps(s, Step(s, a), pid);
    case ChildFail(pid, to) => ChildFailMoves(s, pid, to); ProcMoveKeeps(s, Step(s, a), pid);
    case Kill(pid) => KillMoves(s, pid); ProcMoveKeeps(s, Step(s, a), pid);
    case ProgramFork(pid) => ProgramForked(s, pid);
    case ProgramChange(pid, fds) => ProgramChangeMoves(s, pid, fds); ProcMoveKeeps(s, Step(s, a), pid);
    case ParentChange(fds) => ParentChanged(s, fds);
  }

  /** A run from `s` by the actions `run`, each enabled in its turn. */
  ghost predicate IsRun(s: State, run: seq<Action>)
    decreases |run|
  {
    run == [] || (Enabled(s, run[0]) && IsRun(Step(s, run[0]), run[1..]))
  }

  ghost function After(s: State, run: seq<Action>): State
    requires IsRun(s, run)
    decreases |run|
  {
    if run == [] then s else After(Step(s, run[0]), run[1..])
  }

  lemma RunStep(s: State, a: Action, rest: seq<Action>)
    requires Enabled(s, a) && IsRun(Step(s, a), rest)
    ensures IsRun(s, [a] + rest) && After(s, [a] + rest) == After(Step(s, a), rest)
  {
    assert ([a] + rest)[1..] == rest;
  }

  lemma RunEnds(s: State)
    ensures IsRun(s, []) && After(s, []) == s
  {
  }

  lemma TwoSteps(s: State, a: Action, b: Action)
    requires Enabled(s, a) && Enabled(Step(s, a), b)
    ensures IsRun(s, [a, b]) && After(s, [a, b]) == Step(Step(s, a), b)
  {
    hide Enabled, Step, IsRun, After;
    RunEnds(Step(Step(s, a), b));
    RunStep(Step(s, a), b, []);
    RunStep(s, a, [b] + []);
    assert [a] + ([b] + []) == [a, b];
  }

  /** One run after another is a run. */
  lemma {:induction false} RunsJoin(s: State, run: seq<Action>, more: seq<Action>)
    requires IsRun(s, run) && IsRun(After(s, run), more)
    ensures IsRun(s, run + more) && After(s, run + more) == After(After(s, run), more)
    decreases |run|
  {
    hide Enabled, Step;
    if run == [] {
      assert run + more == more;
    } else {
      RunsJoin(Step(s, run[0]), run[1..], more);
      assert (run + more)[1..] == run[1..] + more;
    }
  }

  lemma {:induction false} RunKeeps(s: State, run: seq<Action>)
    requires Inv(s) && IsRun(s, run)
    ensures Inv(After(s, run))
    decreases |run|
  {
    hide Inv, Enabled, Step;
    if run == [] {
    } else {
      StepKeeps(s, run[0]);
      RunKeeps(Step(s, run[0]), run[1..]);
    }
  }

  lemma InitHolds(s: State)
    requires Init(s)
    ensures Inv(s)
  {
  }

  /** In every run, no fork happens while a pipe in the making lacks its mark, whatever descriptors the parent has
  open and whatever it passes on. */
  lemma NoForkInTheWindow(s: State, run: seq<Action>, t: nat, fd: nat)
    requires Init(s) && IsRun(s, run)
    requires var n := After(s, run);
             t in n.threads && n.threads[t].Forking? && fd in n.parent && Private(n, n.parent[fd].file)
    ensures After(s, run).parent[fd].cloexec
  {
    hide Inv, Init;
    InitHolds(s);
    RunKeeps(s, run);
    MarkedAtFork(After(s, run), t, fd);
  }

  /** In every run, the mutex is held by exactly the thread inside the section: a thread that has left, by whichever
  way, has released it, and two threads are never inside at once. */
  lemma MutexIsReleased(s: State, run: seq<Action>, t: nat)
    requires Init(s) && IsRun(s, run) && t in After(s, run).threads
    ensures After(s, run).mutex == Some(t) <==> HoldsMutex(After(s, run).threads[t])
  {
    hide Inv, Init;
    InitHolds(s);
    RunKeeps(s, run);
    OfThread(After(s, run), t);
  }
}
