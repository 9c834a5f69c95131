/** The descriptor table of a child process between fork and exec: redirection of the standard descriptors. */
module FdTables {
  datatype Option<+T> = None | Some(value: T)

  /** What a descriptor refers to, and whether exec closes it. */
  datatype Entry<File> = Entry(file: File, cloexec: bool)

  type Table<File> = map<nat, Entry<File>>

  /** The lowest descriptor from `k` on that is not in use. */
  function FirstFree<File>(t: Table<File>, k: nat): (r: nat)
    ensures k <= r && r !in t && forall j :: k <= j < r ==> j in t
    decreases |set j | j in t && j >= k|
  {
    if k !in t then k
    else
      assert (set j | j in t && j >= k) == {k} + (set j | j in t && j >= k + 1);
      FirstFree(t, k + 1)
  }

  /** How many of 0, 1 and 2 are in use. */
  function StandardInUse<File>(t: Table<File>): nat {
    (if 0 in t then 1 else 0) + (if 1 in t then 1 else 0) + if 2 in t then 1 else 0
  }

  lemma FirstFreeUnique<File>(t: Table<File>, k: nat, r: nat)
    requires k <= r && r !in t && forall j :: k <= j < r ==> j in t
    ensures FirstFree(t, k) == r
  {
  }

  /** exec keeps the descriptors that are not marked. */
  function AtExec<File>(t: Table<File>): Table<File> {
    map k | k in t && !t[k].cloexec :: t[k]
  }

  /** The table that redirection aims at: 0, 1 and 2 are the files of `std`, open across exec; the other
  descriptors below 3 and the originals of `std` are gone, and the rest is as it was. */
  function Redirected<File>(t: Table<File>, std: seq<nat>): Table<File>
    requires |std| == 3 && forall i :: 0 <= i < 3 ==> std[i] in t
  {
    (map k | k in t && k >= 3 && k !in std :: t[k]) + (map i: nat | i < 3 :: Entry(t[std[i]].file, false))
  }

  /** The child's side of `spawn_unix`. */
  class Child<File> {
    var table: Table<File>
    const limit: nat
    const failureFd: nat
    /** Where the description of a failure was written; the process has exited once there is one. */
    var report: Option<Option<File>>

    constructor (table: Table<File>, limit: nat, failureFd: nat)
      ensures this.table == table && this.limit == limit && this.failureFd == failureFd && report == None
    {
      this.table, this.limit, this.failureFd, report := table, limit, failureFd, None;
    }

    /** `subprocess_failure`: describes the failure to whatever `failureFd` refers to now, and exits. */
    method SubprocessFailure()
      modifies this`report
      ensures report == Some(if failureFd in table then Some(table[failureFd].file) else None)
    {
      report := Some(if failureFd in table then Some(table[failureFd].file) else None);
    }

    /** `dup`: the lowest free descriptor, or failure on a closed one or when there are too many. */
    method Dup(fd: nat) returns (r: Option<nat>)
      modifies this`table
      ensures r == if fd in old(table) && FirstFree(old(table), 0) < limit then Some(FirstFree(old(table), 0)) else None
      ensures table == if r.Some? then old(table)[r.value := Entry(old(table)[fd].file, false)] else old(table)
    {
      var free := FirstFree(table, 0);
      if fd in table && free < limit {
        table := table[free := Entry(table[fd].file, false)];
        r := Some(free);
      } else {
        r := None;
      }
    }

    /** `close`; closing a descriptor that is not open changes nothing. */
    method Close(fd: nat)
      modifies this`table
      ensures table == old(table) - {fd}
    {
      table := table - {fd};
    }

    /** `dup2`: closes the target, and clears the close-on-exec mark on it. */
    method Dup2(from: nat, to: nat) returns (ok: bool)
      requires from != to
      modifies this`table
      ensures ok == (from in old(table) && to < limit)
      ensures table == if ok then old(table)[to := Entry(old(table)[from].file, false)] else old(table)
    {
      ok := from in table && to < limit;
      if ok {
        table := table[to := Entry(table[from].file, false)];
      }
    }

    /** `safe_dup`: duplicates until the copy is not one of 0, 1 and 2, then gives those back. It calls itself at
    most once for each of them, and its result is the lowest free descriptor from 3 on. */
    method SafeDup(fd: nat) returns (r: Option<nat>, calls: nat)
      requires report == None && failureFd in table
      modifies this`table, this`report
      ensures r.Some? <==> fd in old(table) && FirstFree(old(table), 3) < limit
      ensures r.Some? ==> r.value == FirstFree(old(table), 3) && report == None
                          && table == old(table)[r.value := Entry(old(table)[fd].file, false)]
      ensures r.None? ==> report == Some(Some(old(table)[failureFd].file))
      ensures calls <= 4 - StandardInUse(old(table))
      decreases 3 - StandardInUse(table)
    {
      var newFd := Dup(fd);
      assert FirstFree(old(table), 0) <= FirstFree(old(table), 3);
      if newFd.None? {
        SubprocessFailure();
        return None, 1;
      }
      if newFd.value >= 3 {
        FirstFreeUnique(old(table), 3, newFd.value);
        return newFd, 1;
      }
      FirstFreeUnique(table, 3, FirstFree(old(table), 3));
      r, calls := SafeDup(fd);
      calls := calls + 1;
      if r.Some? {
        Close(newFd.value);
      }
    }

    /** The descriptor for failures still refers to the pipe. */
    ghost predicate CanReport(t: Table<File>)
      reads this
    {
      report == None && failureFd in t && failureFd in table && table[failureFd] == t[failureFd]
    }

    /** The first loop of the redirection in `subprocess`: copies of the standard descriptors. A closed one can be
    copied only if an earlier copy has taken its number. */
    method CopyAway(std: seq<nat>, tmp: array<nat>) returns (ok: bool)
      requires |std| == tmp.Length == 3 && CanReport(table)
      modifies this`table, this`report, tmp
      ensures if ok then CanReport(old(table)) && Copied(old(table), std, tmp[..3], table) && limit >= 3
              else report == Some(Some(old(table)[failureFd].file))
      ensures AllOpen(old(table), std) ==>
                && (ok <==> FreeAbove(old(table), 2) < limit)
                && (ok ==> Stage(old(table), std, tmp[..3], 0, 0, table))
    {
      hide Stage, Places, Copied;
      ghost var t := table;
      ghost var open := AllOpen(t, std);
      if open {
        NothingCopied(t, std);
      }
      var fd := 0;
      assert tmp[..0] == [];
      CopiedNone(t, std);
      while fd < 3
        invariant 0 <= fd <= 3 && CanReport(t) && Copied(t, std, tmp[..fd], table) && (fd > 0 ==> limit >= 3)
        invariant open ==> Stage(t, std, tmp[..fd], 0, 0, table) && Places(t, tmp[..fd])
        invariant open && fd > 0 ==> FreeAbove(t, fd - 1) < limit
      {
        ghost var before, made := table, tmp[..fd];
        if open {
          CopyPlace(t, std, made, table);
        }
        var r, _ := SafeDup(std[fd]);
        if r.None? {
          if open && fd < 2 {
            FreeAboveIncreases(t, fd, 2);
          }
          return false;
        }
        tmp[fd] := r.value;
        assert tmp[..fd + 1] == made + [r.value];
        CopiedOne(t, std, made, before, r.value);
        if open {
          CopyMade(t, std, made, before, r.value);
        }
        fd := fd + 1;
      }
      return true;
    }

    /** The second loop: the originals are closed. */
    method CloseOriginals(std: seq<nat>, ghost t: Table<File>, ghost tmp: seq<nat>)
      requires |std| == |tmp| == 3 && CanReport(t)
      requires AllOpen(t, std) ==> Stage(t, std, tmp, 0, 0, table)
      modifies this`table
      ensures failureFd !in std ==> CanReport(t)
      ensures forall fd :: fd in std ==> fd !in table
      ensures AllOpen(t, std) ==> Stage(t, std, tmp, 3, 0, table)
    {
      hide Stage;
      var fd := 0;
      while fd < 3
        invariant 0 <= fd <= 3 && (failureFd !in std ==> CanReport(t))
        invariant forall i :: 0 <= i < fd ==> std[i] !in table
        invariant AllOpen(t, std) ==> Stage(t, std, tmp, fd, 0, table)
      {
        if AllOpen(t, std) {
          OriginalClosed(t, std, tmp, fd, table);
        }
        Close(std[fd]);
        fd := fd + 1;
      }
    }

    /** The third loop: the copies are moved to 0, 1 and 2, unless one of them has been closed. */
    method MoveIntoPlace(std: seq<nat>, tmp: array<nat>, ghost t: Table<File>) returns (ok: bool)
      requires |std| == tmp.Length == 3 && report == None && failureFd in t && limit >= 3
      requires failureFd >= 3 && failureFd !in std ==> CanReport(t)
      requires forall i :: 0 <= i < 3 ==> tmp[i] >= 3 && tmp[i] !in t
      requires if AllOpen(t, std) then Stage(t, std, tmp[..3], 3, 0, table)
               else exists i :: 0 <= i < 3 && tmp[i] !in table
      modifies this`table, this`report
      ensures ok <==> AllOpen(t, std)
      ensures ok ==> table == Redirected(t, std) && report == None
      ensures !ok ==> report.Some? && (failureFd >= 3 && failureFd !in std ==> report == Some(Some(t[failureFd].file)))
    {
      hide Stage;
      ghost var copies := tmp[..3];
      var fd := 0;
      while fd < 3
        invariant 0 <= fd <= 3 && report == None
        invariant failureFd >= 3 && failureFd !in std ==> CanReport(t)
        invariant if AllOpen(t, std) then Stage(t, std, copies, 3, fd, table)
                  else exists i :: fd <= i < 3 && tmp[i] !in table
      {
        if AllOpen(t, std) {
          CopyMoved(t, std, copies, fd, table);
        }
        var moved := Dup2(tmp[fd], fd);
        if !moved {
          SubprocessFailure();
          return false;
        }
        Close(tmp[fd]);
        fd := fd + 1;
      }
      if AllOpen(t, std) {
        AllMoved(t, std, copies, table);
      }
      return true;
    }

    /** The redirection of `subprocess`: copy the standard descriptors out of the way, close the originals,
    move the copies to 0, 1 and 2. It succeeds exactly if they are open and there is room for three copies. */
    method Redirect(std: seq<nat>) returns (ok: bool)
      requires |std| == 3 && report == None && failureFd in table
      modifies this`table, this`report
      ensures ok <==> AllOpen(old(table), std) && FreeAbove(old(table), 2) < limit
      ensures ok ==> table == Redirected(old(table), std) && report == None
      ensures !ok ==>
                report.Some?
                && (failureFd >= 3 && failureFd !in std ==> report == Some(Some(old(table)[failureFd].file)))
    {
      hide Stage, Redirected, Copied;
      ghost var t := table;
      var tmp := new nat[3];
      ok := CopyAway(std, tmp);
      if !ok {
        return;
      }
      CopiesAreNew(t, std, tmp[..3], table);
      CloseOriginals(std, t, tmp[..3]);
      if !AllOpen(t, std) {
        ClosedTwice(t, std, tmp[..3], table);
      }
      ok := MoveIntoPlace(std, tmp, t);
    }

    /** `subprocess`, without its signal handling: the working directory, the redirection, and exec. The program runs
    exactly if all of them succeed. A failure is told to the pipe, if that is neither 0, 1 or 2 nor itself passed
    on; the failure of exec, to whatever the redirection has left there. The pipe is no directory, so changing to it
    fails. */
    method Subprocess(cwd: WorkingDir, std: seq<nat>, execSucceeds: bool) returns (running: Option<Table<File>>)
      requires |std| == 3 && report == None && failureFd in table
      requires cwd.Fd? && cwd.fd == failureFd ==> !cwd.reachable
      modifies this`table, this`report
      ensures var t := if cwd.Fd? then old(table) - {cwd.fd} else old(table);
              && (running.Some?
                  <==> (cwd.Inherit? || cwd.reachable) && AllOpen(t, std) && FreeAbove(t, 2) < limit && execSucceeds)
              && (running.Some? ==> running.value == AtExec(Redirected(t, std)) && report == None)
              && ((cwd.Inherit? || cwd.reachable) && AllOpen(t, std) && FreeAbove(t, 2) < limit && !execSucceeds ==>
                    report == Some(FileAt(Redirected(t, std), failureFd)))
      ensures running.None? ==>
                report.Some?
                && (failureFd >= 3 && failureFd !in std ==> report == Some(Some(old(table)[failureFd].file)))
    {
      hide Redirected, AtExec;
      if !cwd.Inherit? && !cwd.reachable {
        SubprocessFailure();
        return None;
      }
      if cwd.Fd? {
        Close(cwd.fd);
      }
      ghost var t := table;
      var ok := Redirect(std);
      if !ok {
        return None;
      }
      if failureFd >= 3 && failureFd !in std {
        OthersStay(t, std, failureFd);
      }
      if !execSucceeds {
        SubprocessFailure();
        return None;
      }
      return Some(AtExec(table));
    }
  }

  /** What a descriptor refers to, if it is open. */
  function FileAt<File>(t: Table<File>, fd: nat): Option<File> {
    if fd in t then Some(t[fd].file) else None
  }

  lemma OthersStay<File>(t: Table<File>, std: seq<nat>, fd: nat)
    requires |std| == 3 && AllOpen(t, std) && fd in t && fd >= 3 && fd !in std
    ensures fd in Redirected(t, std) && Redirected(t, std)[fd] == t[fd]
  {
  }

  /** Copies at new numbers from 3 on, of descriptors that were open or whose number an earlier copy has taken. */
  ghost predicate Copied<File>(t: Table<File>, std: seq<nat>, tmp: seq<nat>, now: Table<File>) {
    && |tmp| <= |std| && (forall k: nat :: k in now <==> k in t || k in tmp)
    && (forall i :: 0 <= i < |tmp| ==> tmp[i] >= 3 && tmp[i] !in t)
    && (forall i :: 0 <= i < |tmp| ==> std[i] in t || std[i] in tmp)
  }

  lemma CopiedNone<File>(t: Table<File>, std: seq<nat>)
    ensures Copied(t, std, [], t)
  {
  }

  lemma CopiedOne<File>(t: Table<File>, std: seq<nat>, tmp: seq<nat>, now: Table<File>, place: nat)
    requires |tmp| < |std| && Copied(t, std, tmp, now) && std[|tmp|] in now && place >= 3 && place !in now
    ensures Copied(t, std, tmp + [place], now[place := Entry(now[std[|tmp|]].file, false)])
  {
    var more := tmp + [place];
    assert forall k: nat :: k in more <==> k in tmp || k == place;
  }

  lemma CopiesAreNew<File>(t: Table<File>, std: seq<nat>, tmp: seq<nat>, now: Table<File>)
    requires |std| == |tmp| == 3 && Copied(t, std, tmp, now)
    ensures forall i :: 0 <= i < 3 ==> tmp[i] >= 3 && tmp[i] !in t
    ensures forall i :: 0 <= i < 3 ==> std[i] in t || std[i] in tmp
  {
  }

  /** A closed descriptor that could be copied is the number of a copy, which is closed with the originals. */
  lemma ClosedTwice<File>(t: Table<File>, std: seq<nat>, tmp: seq<nat>, now: Table<File>)
    requires |std| == |tmp| == 3 && !AllOpen(t, std) && forall fd :: fd in std ==> fd !in now
    requires forall i :: 0 <= i < 3 ==> std[i] in t || std[i] in tmp
    ensures exists i :: 0 <= i < 3 && tmp[i] !in now
  {
    var i :| 0 <= i < 3 && std[i] !in t;
    var j :| 0 <= j < 3 && tmp[j] == std[i];
  }

  /** The working directory of a subprocess, and whether changing to it succeeds. */
  datatype WorkingDir = Inherit | Path(reachable: bool) | Fd(reachable: bool, fd: nat)

  /** What the program finds after exec: the files asked for as 0, 1 and 2, the other descriptors it may
  inherit, and none that is marked, such as the pipe for failures. */
  lemma ProgramTable<File>(t: Table<File>, std: seq<nat>, fd: nat)
    requires |std| == 3 && AllOpen(t, std)
    ensures var program := AtExec(Redirected(t, std));
            && (fd < 3 ==> fd in program && program[fd].file == t[std[fd]].file)
            && (fd >= 3 ==> (fd in program <==> fd in t && fd !in std && !t[fd].cloexec))
            && (fd >= 3 && fd in program ==> program[fd] == t[fd])
            && (fd in program ==> !program[fd].cloexec)
  {
    assert fd < 3 ==> std[fd] in std;
  }

  /** A pipe end whose file is not one of the standard files is still there when exec fails if and only if its
  descriptor is not 0, 1 or 2; redirection overwrites those without looking. */
  lemma PipeSurvives<File>(t: Table<File>, std: seq<nat>, failureFd: nat)
    requires |std| == 3 && AllOpen(t, std) && failureFd in t
    requires forall fd :: fd in std ==> t[fd].file != t[failureFd].file
    ensures FileAt(Redirected(t, std), failureFd) == Some(t[failureFd].file) <==> failureFd >= 3
  {
    assert failureFd < 3 ==> std[failureFd] in std;
  }

  ghost predicate AllOpen<File>(t: Table<File>, std: seq<nat>) {
    forall fd :: fd in std ==> fd in t
  }

  /** The free descriptors from 3 on, in increasing order. */
  function FreeAbove<File>(t: Table<File>, n: nat): (r: nat)
    ensures r >= 3 + n && r !in t
  {
    FirstFree(t, if n == 0 then 3 else FreeAbove(t, n - 1) + 1)
  }

  /** The free descriptors of `t` that the copies take. */
  ghost predicate Places<File>(t: Table<File>, tmp: seq<nat>) {
    forall i :: 0 <= i < |tmp| ==> tmp[i] == FreeAbove(t, i)
  }

  ghost predicate Fresh<File>(t: Table<File>, tmp: seq<nat>) {
    && (forall i :: 0 <= i < |tmp| ==> tmp[i] !in t && tmp[i] >= 3)
    && (forall i, j :: 0 <= i < j < |tmp| ==> tmp[i] != tmp[j])
  }

  ghost predicate Among(fds: seq<nat>, from: nat, to: nat, fd: nat) {
    exists i :: from <= i < to <= |fds| && fds[i] == fd
  }

  /** A stage of the redirection of `t`: `tmp` are the copies made so far, `closed` originals are closed and
  `moved` copies have been moved into place. */
  ghost predicate Stage<File>(t: Table<File>, std: seq<nat>, tmp: seq<nat>, closed: nat, moved: nat, now: Table<File>) {
    && |tmp| <= |std| == 3 && AllOpen(t, std) && closed <= 3 && moved <= |tmp| && Fresh(t, tmp)
    && (forall k: nat :: k in now <==>
          k < moved || (k in t && !Among(std, 0, closed, k)) || Among(tmp, moved, |tmp|, k))
    && (forall k: nat :: k in now && k < moved ==> now[k] == Entry(t[std[k]].file, false))
    && (forall k: nat :: k in now && k >= moved && k in t ==> now[k] == t[k])
    && (forall i :: moved <= i < |tmp| ==> tmp[i] in now && now[tmp[i]] == Entry(t[std[i]].file, false))
  }

  lemma AmongNone(fds: seq<nat>, k: nat, fd: nat)
    ensures !Among(fds, k, k, fd)
  {
  }

  lemma AmongLast(fds: seq<nat>, from: nat, to: nat, fd: nat)
    requires from <= to < |fds|
    ensures Among(fds, from, to + 1, fd) <==> Among(fds, from, to, fd) || fd == fds[to]
  {
  }

  lemma AmongFirst(fds: seq<nat>, from: nat, to: nat, fd: nat)
    requires from < to <= |fds|
    ensures Among(fds, from, to, fd) <==> fd == fds[from] || Among(fds, from + 1, to, fd)
  {
  }

  lemma AmongMore(fds: seq<nat>, from: nat, place: nat, fd: nat)
    requires from <= |fds|
    ensures Among(fds + [place], from, |fds| + 1, fd) <==> Among(fds, from, |fds|, fd) || fd == place
  {
    if Among(fds, from, |fds|, fd) {
      var i :| from <= i < |fds| && fds[i] == fd;
      assert (fds + [place])[i] == fd;
    }
    assert (fds + [place])[|fds|] == place;
  }

  lemma NothingCopied<File>(t: Table<File>, std: seq<nat>)
    requires |std| == 3 && AllOpen(t, std)
    ensures Stage(t, std, [], 0, 0, t) && Places(t, [])
  {
    hide Among;
    forall k: nat
      ensures !Among(std, 0, 0, k) && !Among([], 0, 0, k)
    {
      AmongNone(std, 0, k);
      AmongNone([], 0, k);
    }
  }

  lemma {:induction false} FreeAboveIncreases<File>(t: Table<File>, i: nat, j: nat)
    requires i < j
    ensures FreeAbove(t, i) < FreeAbove(t, j)
  {
    hide FirstFree;
    if i == j - 1 {
    } else {
      FreeAboveIncreases(t, i, j - 1);
    }
  }

  /** The next copy goes to the next free descriptor of the original table. */
  lemma CopyPlace<File>(t: Table<File>, std: seq<nat>, tmp: seq<nat>, now: Table<File>)
    requires Stage(t, std, tmp, 0, 0, now) && Places(t, tmp)
    ensures FirstFree(now, 3) == FreeAbove(t, |tmp|) && forall fd :: fd in std ==> fd in now && now[fd] == t[fd]
  {
    hide FreeAbove, FirstFree;
    forall i | 0 <= i < |tmp|
      ensures tmp[i] < FreeAbove(t, |tmp|)
    {
      FreeAboveIncreases(t, i, |tmp|);
    }
    UsedBelow(t, tmp, |tmp|);
    FirstFreeUnique(now, 3, FreeAbove(t, |tmp|));
  }

  lemma {:induction false} UsedBelow<File>(t: Table<File>, tmp: seq<nat>, n: nat)
    requires n <= |tmp| && Places(t, tmp)
    ensures forall j :: 3 <= j < FreeAbove(t, n) ==> j in t || Among(tmp, 0, |tmp|, j)
  {
    hide FreeAbove;
    BetweenFree(t, n);
    if n == 0 {
    } else {
      UsedBelow(t, tmp, n - 1);
      assert tmp[n - 1] == FreeAbove(t, n - 1);
      assert Among(tmp, 0, |tmp|, tmp[n - 1]);
    }
  }

  lemma BetweenFree<File>(t: Table<File>, n: nat)
    ensures forall j :: (if n == 0 then 2 else FreeAbove(t, n - 1)) < j < FreeAbove(t, n) ==> j in t
  {
  }

  lemma CopyMade<File>(t: Table<File>, std: seq<nat>, tmp: seq<nat>, before: Table<File>, place: nat)
    requires |tmp| < 3 && Stage(t, std, tmp, 0, 0, before) && Places(t, tmp) && place == FreeAbove(t, |tmp|)
    ensures Stage(t, std, tmp + [place], 0, 0, before[place := Entry(t[std[|tmp|]].file, false)])
    ensures Places(t, tmp + [place])
  {
    hide FreeAbove, Among;
    var more := tmp + [place];
    forall i | 0 <= i < |tmp|
      ensures tmp[i] != place
    {
      FreeAboveIncreases(t, i, |tmp|);
    }
    forall k: nat {
      AmongMore(tmp, 0, place, k);
    }
    forall i | 0 <= i < |more|
      ensures more[i] == if i < |tmp| then tmp[i] else place
    {
    }
  }

  lemma OriginalClosed<File>(t: Table<File>, std: seq<nat>, tmp: seq<nat>, closed: nat, before: Table<File>)
    requires closed < 3 && |tmp| == 3 && Stage(t, std, tmp, closed, 0, before)
    ensures Stage(t, std, tmp, closed + 1, 0, before - {std[closed]})
  {
    hide Among;
    forall k: nat {
      AmongLast(std, 0, closed, k);
    }
    assert forall i :: 0 <= i < 3 ==> tmp[i] != std[closed];
    assert !Among(tmp, 0, 3, std[closed]) by {
      NotAmong(tmp, std[closed]);
    }
  }

  lemma NotAmong(fds: seq<nat>, fd: nat)
    requires fd !in fds
    ensures !Among(fds, 0, |fds|, fd)
  {
  }

  lemma CopyMoved<File>(t: Table<File>, std: seq<nat>, tmp: seq<nat>, moved: nat, before: Table<File>)
    requires moved < 3 && |tmp| == 3 && Stage(t, std, tmp, 3, moved, before)
    ensures tmp[moved] in before
    ensures Stage(t, std, tmp, 3, moved + 1, before[moved := Entry(before[tmp[moved]].file, false)] - {tmp[moved]})
  {
    hide Among;
    var now := before[moved := Entry(before[tmp[moved]].file, false)] - {tmp[moved]};
    assert tmp[moved] >= 3 && tmp[moved] !in t && before[tmp[moved]] == Entry(t[std[moved]].file, false);
    OnceOnly(t, tmp, moved);
    forall i | moved < i < 3
      ensures tmp[i] in now && now[tmp[i]] == Entry(t[std[i]].file, false)
    {
      assert tmp[i] in before && tmp[i] >= 3 && tmp[i] != tmp[moved];
    }
    forall k: nat
      ensures k in now <==> k < moved + 1 || (k in t && !Among(std, 0, 3, k)) || Among(tmp, moved + 1, 3, k)
      ensures k in now && k < moved + 1 ==> now[k] == Entry(t[std[k]].file, false)
    {
      AmongFirst(tmp, moved, 3, k);
    }
  }

  lemma OnceOnly<File>(t: Table<File>, tmp: seq<nat>, i: nat)
    requires i < |tmp| && Fresh(t, tmp)
    ensures !Among(tmp, i + 1, |tmp|, tmp[i])
  {
  }

  lemma AllMoved<File>(t: Table<File>, std: seq<nat>, tmp: seq<nat>, now: Table<File>)
    requires |tmp| == 3 && Stage(t, std, tmp, 3, 3, now)
    ensures now == Redirected(t, std)
  {
    forall k: nat
      ensures Among(std, 0, 3, k) <==> k in std
    {
    }
  }
}
