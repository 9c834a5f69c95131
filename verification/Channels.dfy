/** Output of bigstrings to a buffered channel and input from one, against a kernel whose every
answer is arbitrary: the script of its answers is an input of each operation. */
module Channels {
  import opened KernelAnswers
  import opened MachineWords

  /** An OCaml channel. The bytes waiting to be written are `buff[..curr]`; those read ahead are `buff[curr..max]`. */
  class Channel {
    const buff: array<Byte>
    var curr: nat
    var max: nat
    var offset: int
    var locked: bool

    constructor (size: nat)
      ensures fresh(buff) && buff.Length == size && curr == max == 0 && offset == 0 && !locked
    {
      buff := new Byte[size];
      curr, max, offset, locked := 0, 0, 0, false;
    }

    ghost predicate Valid()
      reads this
    {
      curr <= buff.Length && max <= buff.Length
    }

    /** The bytes that wait to be written. */
    ghost function Unwritten(): seq<Byte>
      requires Valid()
      reads this, buff
    {
      buff[..curr]
    }

    /** The bytes that wait to be delivered. */
    ghost function ReadAhead(): seq<Byte>
      requires Valid() && curr <= max
      reads this, buff
    {
      buff[curr..max]
    }
  }

  /** A piece of an array handed to the kernel. */
  datatype Iovec = Iovec(base: nat, len: nat)

  predicate Within(v: Iovec, a: array<Byte>) {
    v.base + v.len <= a.Length
  }

  ghost function Bytes(a: array<Byte>, v: Iovec): seq<Byte>
    requires Within(v, a)
    reads a
  {
    a[v.base..v.base + v.len]
  }

  /** `now` is `orig` with `bytes` written at `at`. */
  ghost predicate Filled(orig: seq<Byte>, at: nat, bytes: seq<Byte>, now: seq<Byte>) {
    at + |bytes| <= |orig| && now == orig[..at] + bytes + orig[at + |bytes|..]
  }

  /** `memcpy` and `memmove`. */
  method Move(dst: array<Byte>, at: nat, src: array<Byte>, from: nat, n: nat)
    requires at + n <= dst.Length && from + n <= src.Length
    modifies dst
    ensures Filled(old(dst[..]), at, old(src[from..from + n]), dst[..])
  {
    forall i | 0 <= i < n {
      dst[at + i] := src[from + i];
    }
  }

  method Store(a: array<Byte>, at: nat, bytes: seq<Byte>)
    requires at + |bytes| <= a.Length
    modifies a
    ensures Filled(old(a[..]), at, bytes, a[..])
  {
    forall i | 0 <= i < |bytes| {
      a[at + i] := bytes[i];
    }
  }

  // ---------- output ----------

  class WriteKernel {
    var script: seq<WriteAnswer>
    ghost var sent: seq<Byte>

    constructor (script: seq<WriteAnswer>)
      ensures this.script == script && sent == []
    {
      this.script := script;
      sent := [];
    }

    /** `writev` of two pieces: the next answer of the script; what it sends is a prefix of the pieces. */
    method Writev(a: array<Byte>, u: Iovec, b: array<Byte>, v: Iovec) returns (answer: WriteAnswer)
      requires script != [] && Within(u, a) && Within(v, b)
      modifies this
      ensures script == old(script)[1..] && answer == Clipped(old(script)[0], u.len + v.len)
      ensures if answer.Written?
              then answer.count <= u.len + v.len && sent == old(sent) + (Bytes(a, u) + Bytes(b, v))[..answer.count]
              else sent == old(sent)
    {
      answer := Clipped(script[0], u.len + v.len);
      script := script[1..];
      if answer.Written? {
        sent := sent + (Bytes(a, u) + Bytes(b, v))[..answer.count];
      }
    }
  }

  /** Where the direct path of the output stands: the two pieces, and how much of each is unsent. */
  datatype Progress = Progress(buffIov: Iovec, buffLen: nat, bstrIov: Iovec, bstrLen: nat)

  /** What the loop keeps: the bigstring is offered only behind all that is left of the channel, and touched
  only when the channel is empty. */
  ghost predicate OnTrack(s: Progress, waiting: nat, pos: nat, len: nat) {
    && s.buffIov.len <= s.buffLen <= waiting && s.buffIov.base + s.buffLen <= waiting
    && (s.buffLen > 0 ==> s.buffIov.base + s.buffLen == waiting && s.bstrIov.base == pos)
    && pos <= s.bstrIov.base && s.bstrIov.base + s.bstrLen == pos + len && s.bstrIov.len <= s.bstrLen
    && (s.bstrIov.len > 0 ==> s.buffIov.len == s.buffLen)
  }

  /** The pieces offer what the answers so far demand. */
  ghost predicate Matches(s: Progress, st: Sending, waiting: nat, pos: nat) {
    && st.done == SentCount(s, waiting, pos)
    && match st.offer
       case Everything => s.buffIov.len == s.buffLen && s.bstrIov.len == s.bstrLen
       case ChannelOnly => 0 < s.buffIov.len == s.buffLen && s.bstrIov.len == 0
       case OneByte => if s.buffLen > 0 then s.buffIov.len == 1 && s.bstrIov.len == 0 else s.bstrIov.len == 1
  }

  /** How many bytes have been sent. */
  ghost function SentCount(s: Progress, waiting: nat, pos: nat): int {
    waiting - s.buffLen + s.bstrIov.base - pos
  }

  /** The two pieces handed to the kernel are the bytes that come next: `left` bytes of the channel are
  unsent, and `p` bytes of the bigstring are sent already. */
  lemma PiecesComeNext(waiting: seq<Byte>, user: seq<Byte>, left: nat, first: nat, p: nat, second: nat)
    requires first <= left <= |waiting| && p + second <= |user|
    requires (second > 0 ==> first == left) && (left > 0 ==> p == 0)
    ensures var done := |waiting| - left + p;
            waiting[|waiting| - left..|waiting| - left + first] + user[p..p + second]
                == (waiting + user)[done..done + first + second]
  {
  }

  /** What was sent before and then the first `done` bytes of `all`. */
  ghost predicate SentSoFar(before: seq<Byte>, all: seq<Byte>, sent: seq<Byte>, done: int) {
    0 <= done <= |all| && sent == before + all[..done]
  }

  /** The first `used` answers do not end the output, and lead to `st`. */
  ghost predicate AnsweredBy(st: Sending, script: seq<WriteAnswer>, used: nat, job: Job)
    requires used <= |script|
  {
    Sends(script, used, job) && st == AfterAnswers(script[..used], job)
  }

  /** Sending some prefix of the two pieces continues the prefix of all the bytes sent before. */
  lemma SendingContinues(before: seq<Byte>, buff: array<Byte>, curr: nat, bstr: array<Byte>, pos: nat, len: nat,
                         s: Progress,
                         sent: seq<Byte>, now: seq<Byte>, n: nat)
    requires curr <= buff.Length && pos + len <= bstr.Length && OnTrack(s, curr, pos, len)
             && n <= s.buffIov.len + s.bstrIov.len
    requires SentSoFar(before, buff[..curr] + bstr[pos..pos + len], sent, SentCount(s, curr, pos))
    requires now == sent + (Bytes(buff, s.buffIov) + Bytes(bstr, s.bstrIov))[..n]
    ensures SentSoFar(before, buff[..curr] + bstr[pos..pos + len], now, SentCount(s, curr, pos) + n)
  {
    PiecesAreNext(buff, curr, bstr, pos, len, s);
    PrefixGrows(before, buff[..curr] + bstr[pos..pos + len], SentCount(s, curr, pos),
                Bytes(buff, s.buffIov) + Bytes(bstr, s.bstrIov), n);
  }

  lemma SubSlice(a: seq<Byte>, lo: nat, hi: nat, at: nat, n: nat)
    requires lo <= hi <= |a| && lo + at + n <= hi
    ensures a[lo..hi][at..at + n] == a[lo + at..lo + at + n]
  {
    var x, y := a[lo..hi][at..at + n], a[lo + at..lo + at + n];
    forall i | 0 <= i < n
      ensures x[i] == y[i]
    {
      assert x[i] == a[lo..hi][at + i] && y[i] == a[lo + at + i];
    }
  }

  /** The first piece, as a part of the bytes that waited in the channel. */
  lemma ChannelPiece(buff: array<Byte>, curr: nat, s: Progress, pos: nat, len: nat)
    requires curr <= buff.Length && OnTrack(s, curr, pos, len)
    ensures Bytes(buff, s.buffIov) == buff[..curr][curr - s.buffLen..curr - s.buffLen + s.buffIov.len]
  {
    if s.buffLen > 0 {
      SubSlice(buff[..], 0, curr, s.buffIov.base, s.buffIov.len);
      assert buff[..][0..curr] == buff[..curr];
    }
  }

  /** The second piece, as a part of the bytes to be sent from the bigstring. */
  lemma BigstringPiece(bstr: array<Byte>, curr: nat, s: Progress, pos: nat, len: nat)
    requires pos + len <= bstr.Length && OnTrack(s, curr, pos, len)
    ensures Bytes(bstr, s.bstrIov) == bstr[pos..pos + len][s.bstrIov.base - pos..s.bstrIov.base - pos + s.bstrIov.len]
  {
    SubSlice(bstr[..], pos, pos + len, s.bstrIov.base - pos, s.bstrIov.len);
    assert bstr[..][pos..pos + len] == bstr[pos..pos + len];
  }

  lemma PiecesAreNext(buff: array<Byte>, curr: nat, bstr: array<Byte>, pos: nat, len: nat, s: Progress)
    requires curr <= buff.Length && pos + len <= bstr.Length && OnTrack(s, curr, pos, len)
    ensures var all := buff[..curr] + bstr[pos..pos + len];
            var done := SentCount(s, curr, pos);
            var piece := Bytes(buff, s.buffIov) + Bytes(bstr, s.bstrIov);
            |piece| == s.buffIov.len + s.bstrIov.len && 0 <= done && done + |piece| <= |all|
                && piece == all[done..done + |piece|]
  {
    ChannelPiece(buff, curr, s, pos, len);
    BigstringPiece(bstr, curr, s, pos, len);
    hide Bytes;
    PiecesComeNext(buff[..curr], bstr[pos..pos + len], s.buffLen, s.buffIov.len, s.bstrIov.base - pos, s.bstrIov.len);
  }

  lemma PrefixGrows(before: seq<Byte>, all: seq<Byte>, done: nat, piece: seq<Byte>, n: nat)
    requires done + |piece| <= |all| && piece == all[done..done + |piece|] && n <= |piece|
    ensures before + all[..done] + piece[..n] == before + all[..done + n]
  {
    assert piece[..n] == all[done..done + n];
    assert all[..done] + piece[..n] == all[..done + n];
  }

  lemma OfferedLength(s: Progress, st: Sending, waiting: nat, pos: nat, job: Job)
    requires OnTrack(s, waiting, pos, job.len) && Matches(s, st, waiting, pos) && job.waiting == waiting
    ensures Offered(st, job) == s.buffIov.len + s.bstrIov.len
  {
  }

  /** After a would-block a single byte is offered: of the channel as long as there is one, or else of the bigstring. */
  function OneByteOffered(s: Progress): Progress {
    if s.buffLen > 0 then s.(buffIov := s.buffIov.(len := 1), bstrIov := s.bstrIov.(len := 0))
    else s.(bstrIov := s.bstrIov.(len := 1))
  }

  /** After `n` bytes were sent. */
  function Advanced(s: Progress, n: nat): Progress
    requires n <= s.buffIov.len + s.bstrIov.len && s.buffIov.len <= s.buffLen && s.bstrIov.len <= s.bstrLen
    requires s.bstrIov.len > 0 ==> s.buffIov.len == s.buffLen
  {
    if s.buffLen > n then
      s.(buffIov := Iovec(s.buffIov.base + n, s.buffLen - n), buffLen := s.buffLen - n)
    else
      var left := s.bstrLen - (n - s.buffLen);
      Progress(s.buffIov.(len := 0), 0, Iovec(s.bstrIov.base + n - s.buffLen, left), left)
  }

  lemma RetryMatches(s: Progress, st: Sending, waiting: nat, pos: nat, job: Job)
    requires OnTrack(s, waiting, pos, job.len) && Matches(s, st, waiting, pos) && job.waiting == waiting
    requires s.buffIov.len + s.bstrIov.len > 1
    ensures !EndsOutput(WouldBlock, st, job)
    ensures SentCount(OneByteOffered(s), waiting, pos) == SentCount(s, waiting, pos)
    ensures OnTrack(OneByteOffered(s), waiting, pos, job.len)
            && Matches(OneByteOffered(s), NextSending(WouldBlock, st, job), waiting, pos)
  {
    OfferedLength(s, st, waiting, pos, job);
  }

  lemma AdvanceMatches(s: Progress, st: Sending, waiting: nat, pos: nat, job: Job, a: WriteAnswer, n: nat)
    requires OnTrack(s, waiting, pos, job.len) && Matches(s, st, waiting, pos) && job.waiting == waiting
    requires a.Written? && n == Least(a.count, s.buffIov.len + s.bstrIov.len)
    ensures var next := Advanced(s, n);
            && OnTrack(next, waiting, pos, job.len) && Matches(next, NextSending(a, st, job), waiting, pos)
            && SentCount(next, waiting, pos) == SentCount(s, waiting, pos) + n
            && (EndsOutput(a, st, job) <==> next.buffLen == 0 && next.bstrIov.base >= pos + job.minLen)
  {
    OfferedLength(s, st, waiting, pos, job);
  }

  /** The loop of `bigstring_output_stub`. */
  method WriteOut(chan: Channel, bstr: array<Byte>, pos: nat, len: nat, minLen: nat, kernel: WriteKernel)
    returns (o: Outcome, s: Progress)
    requires chan.Valid() && pos + len <= bstr.Length && minLen <= len
    modifies chan`offset, kernel
    ensures OutputOutcome(o, old(kernel.script), kernel.script, Job(chan.curr, len, minLen))
    ensures OnTrack(s, chan.curr, pos, len) && !o.EndOfFile?
    ensures kernel.sent == old(kernel.sent) + (chan.Unwritten() + bstr[pos..pos + len])[..SentCount(s, chan.curr, pos)]
    ensures chan.offset - old(chan.offset) == SentCount(s, chan.curr, pos)
    ensures match o
            case Done(n) => minLen <= n && s.buffLen == 0 && s.bstrIov.base == pos + n
            case Failed(n) => s.bstrIov.base == pos + n
            case _ => true
  {
    hide Bytes, OnTrack, Matches, EndsOutput, NextSending, AnsweredBy, SentSoFar, SentCount, OutputOutcome, Offered,
         AfterAnswers, Sends, Least;
    ghost var all, before := chan.Unwritten() + bstr[pos..pos + len], kernel.sent;
    ghost var job, script, used := Job(chan.curr, len, minLen), kernel.script, 0;
    var bstrMin := pos + minLen;
    s := Progress(Iovec(0, chan.curr), chan.curr, Iovec(pos, len), len);
    ghost var st := Sending(0, Everything);
    OutputStarts(s, script, pos, job, before, all);
    while kernel.script != []
      modifies chan`offset, kernel
      invariant used <= |script| && kernel.script == script[used..] && AnsweredBy(st, script, used, job)
      invariant OnTrack(s, chan.curr, pos, len) && Matches(s, st, chan.curr, pos)
      invariant SentSoFar(before, all, kernel.sent, SentCount(s, chan.curr, pos))
      invariant chan.offset - old(chan.offset) == SentCount(s, chan.curr, pos)
      decreases |kernel.script|
    {
      ghost var answer, sent := script[used], kernel.sent;
      OfferedLength(s, st, chan.curr, pos, job);
      PiecesWithin(s, chan.curr, pos, len);
      var written := kernel.Writev(chan.buff, s.buffIov, bstr, s.bstrIov);
      used := used + 1;
      if !written.Written? {
        if written.WriteInterrupted? {
          InterruptGoesOn(st, script, used - 1, job);
          continue;
        }
        if written.WouldBlock? && s.buffIov.len + s.bstrIov.len > 1 {
          RetryMatches(s, st, chan.curr, pos, job);
          AnsweredOn(st, script, used - 1, job);
          st := NextSending(answer, st, job);
          if s.buffLen > 0 {
            s := s.(buffIov := s.buffIov.(len := 1), bstrIov := s.bstrIov.(len := 0));
          } else {
            s := s.(bstrIov := s.bstrIov.(len := 1));
          }
          continue;
        }
        o := Failed(s.bstrIov.base - pos);
        FailureOutcome(o, script, used, s, st, pos, job);
        SentIsPrefix(before, all, kernel.sent, s, chan.curr, pos);
        return;
      }
      SendingContinues(before, chan.buff, chan.curr, bstr, pos, len, s, sent, kernel.sent, written.count);
      AdvanceMatches(s, st, chan.curr, pos, job, answer, written.count);
      chan.offset := chan.offset + written.count;
      ghost var next, last := Advanced(s, written.count), s;
      if s.buffLen > written.count {
        var left := s.buffLen - written.count;
        s := s.(buffIov := Iovec(s.buffIov.base + written.count, left), buffLen := left);
      } else {
        var bstrWritten := written.count - s.buffLen;
        var newBstr := s.bstrIov.base + bstrWritten;
        var left := s.bstrLen - bstrWritten;
        s := Progress(s.buffIov.(len := 0), 0, Iovec(newBstr, left), left);
        if newBstr >= bstrMin {
          o := Done(newBstr - pos);
          SuccessOutcome(o, script, used, last, s, st, pos, job);
          SentIsPrefix(before, all, kernel.sent, s, chan.curr, pos);
          return;
        }
      }
      assert s == next;
      AnsweredOn(st, script, used - 1, job);
      st := NextSending(answer, st, job);
    }
    o := Blocked;
    NoAnswerLeft(st, script, used, job);
    SentIsPrefix(before, all, kernel.sent, s, chan.curr, pos);
  }

  lemma OutputStarts(s: Progress, script: seq<WriteAnswer>, pos: nat, job: Job, before: seq<Byte>, all: seq<Byte>)
    requires s == Progress(Iovec(0, job.waiting), job.waiting, Iovec(pos, job.len), job.len)
    ensures OnTrack(s, job.waiting, pos, job.len) && Matches(s, Sending(0, Everything), job.waiting, pos)
    ensures SentCount(s, job.waiting, pos) == 0 && AnsweredBy(Sending(0, Everything), script, 0, job)
    ensures SentSoFar(before, all, before, 0)
  {
  }

  lemma PiecesWithin(s: Progress, waiting: nat, pos: nat, len: nat)
    requires OnTrack(s, waiting, pos, len)
    ensures s.buffIov.base + s.buffIov.len <= waiting && s.bstrIov.base + s.bstrIov.len <= pos + len
    ensures s.buffIov.len <= s.buffLen && s.bstrIov.len <= s.bstrLen
            && (s.bstrIov.len > 0 ==> s.buffIov.len == s.buffLen)
    ensures pos <= s.bstrIov.base
  {
  }

  lemma InterruptGoesOn(st: Sending, script: seq<WriteAnswer>, k: nat, job: Job)
    requires k < |script| && AnsweredBy(st, script, k, job) && script[k].WriteInterrupted?
    ensures AnsweredBy(st, script, k + 1, job)
  {
    AnsweredOn(st, script, k, job);
  }

  lemma AnsweredOn(st: Sending, script: seq<WriteAnswer>, k: nat, job: Job)
    requires k < |script| && AnsweredBy(st, script, k, job) && !EndsOutput(script[k], st, job)
    ensures AnsweredBy(NextSending(script[k], st, job), script, k + 1, job)
  {
    SendsOn(script, k, job);
  }

  lemma NoAnswerLeft(st: Sending, script: seq<WriteAnswer>, used: nat, job: Job)
    requires used <= |script| && AnsweredBy(st, script, used, job) && script[used..] == []
    ensures OutputOutcome(Blocked, script, script[used..], job)
  {
  }

  lemma SentIsPrefix(before: seq<Byte>, all: seq<Byte>, sent: seq<Byte>, s: Progress, waiting: nat, pos: nat)
    requires SentSoFar(before, all, sent, SentCount(s, waiting, pos))
    ensures 0 <= SentCount(s, waiting, pos) <= |all| && sent == before + all[..SentCount(s, waiting, pos)]
  {
  }

  lemma FailureOutcome(o: Outcome, script: seq<WriteAnswer>, used: nat, s: Progress, st: Sending, pos: nat, job: Job)
    requires 0 < used <= |script| && AnsweredBy(st, script, used - 1, job)
    requires OnTrack(s, job.waiting, pos, job.len) && Matches(s, st, job.waiting, pos)
    requires s.bstrIov.base >= pos && o == Failed(s.bstrIov.base - pos)
    requires script[used - 1].WriteError? || (script[used - 1].WouldBlock? && s.buffIov.len + s.bstrIov.len <= 1)
    ensures OutputOutcome(o, script, script[used..], job)
  {
    hide Sends, AfterAnswers;
    OfferedLength(s, st, job.waiting, pos, job);
  }

  lemma SuccessOutcome(o: Outcome, script: seq<WriteAnswer>, used: nat, s: Progress, next: Progress, st: Sending,
                       pos: nat, job: Job)
    requires 0 < used <= |script| && AnsweredBy(st, script, used - 1, job)
    requires OnTrack(s, job.waiting, pos, job.len) && Matches(s, st, job.waiting, pos) && script[used - 1].Written?
    requires OnTrack(next, job.waiting, pos, job.len)
             && Matches(next, NextSending(script[used - 1], st, job), job.waiting, pos)
    requires EndsOutput(script[used - 1], st, job)
    requires next.buffLen == 0 && next.bstrIov.base >= pos && o == Done(next.bstrIov.base - pos)
    ensures OutputOutcome(o, script, script[used..], job)
  {
    hide Sends, AfterAnswers, EndsOutput;
    OfferedLength(s, st, job.waiting, pos, job);
  }

  lemma SentAndLeft(waiting: seq<Byte>, user: seq<Byte>, left: nat, p: nat)
    requires left <= |waiting| && p <= |user| && (left > 0 ==> p == 0)
    ensures (waiting + user)[..|waiting| - left + p] + waiting[|waiting| - left..] == waiting + user[..p]
    ensures left == 0 ==> (waiting + user)[..|waiting| + p] == waiting + user[..p]
  {
  }

  /** The bytes sent, then the bytes left in the channel, then the rest of the bigstring are the old contents
  of the channel followed by the bigstring; and the count returned is that of the bigstring's bytes. */
  ghost predicate OutputConserves(o: Outcome, fits: bool, minLen: nat,
                                  waiting: seq<Byte>, user: seq<Byte>, sent: seq<Byte>, left: seq<Byte>) {
    match o
    case Done(n) =>
      if fits then n == |user| && sent == [] && left == waiting + user
      else minLen <= n <= |user| && sent == waiting + user[..n] && left == []
    case Failed(n) =>
      && n == (if |sent| <= |waiting| then 0 else |sent| - |waiting|)
      && n <= |user| && sent + left == waiting + user[..n]
    case EndOfFile(_) => false
    case Blocked => sent <= waiting + user
  }

  lemma OutputEnds(o: Outcome, minLen: nat, waiting: seq<Byte>, user: seq<Byte>, s: Progress, pos: nat)
    requires OnTrack(s, |waiting|, pos, |user|) && !o.EndOfFile?
    requires o.Done? ==> minLen <= o.count && s.buffLen == 0 && s.bstrIov.base == pos + o.count
    requires o.Failed? ==> s.bstrIov.base == pos + o.good
    ensures var sent := (waiting + user)[..SentCount(s, |waiting|, pos)];
            var left := match o case Done(_) => [] case Blocked => waiting case _ => waiting[|waiting| - s.buffLen..];
            OutputConserves(o, false, minLen, waiting, user, sent, left)
  {
    SentAndLeft(waiting, user, s.buffLen, s.bstrIov.base - pos);
  }

  /** `bigstring_output_stub`, for every script of kernel answers. */
  method Output(chan: Channel, bstr: array<Byte>, pos: nat, len: nat, minLen: nat, kernel: WriteKernel)
    returns (o: Outcome)
    requires chan.Valid() && !chan.locked && chan.buff != bstr
    requires pos + len <= bstr.Length && minLen <= len
    modifies chan, chan.buff, kernel
    ensures chan.Valid() && chan.locked == o.Blocked?
    ensures if len <= chan.buff.Length - old(chan.curr) then o == Done(len) && kernel.script == old(kernel.script)
            else OutputOutcome(o, old(kernel.script), kernel.script, Job(old(chan.curr), len, minLen))
    ensures old(kernel.sent) <= kernel.sent && chan.offset - old(chan.offset) == |kernel.sent| - |old(kernel.sent)|
    ensures OutputConserves(o, len <= chan.buff.Length - old(chan.curr), minLen, old(chan.Unwritten()),
                            bstr[pos..pos + len],
                            kernel.sent[|old(kernel.sent)|..], chan.Unwritten())
  {
    hide OutputConserves, OutputOutcome;
    chan.locked := true;
    if len <= chan.buff.Length - chan.curr {
      Append(chan, bstr, pos, len, minLen);
      chan.locked := false;
      assert kernel.sent[|kernel.sent|..] == [];
      return Done(len);
    }
    ghost var waiting, user, before := chan.Unwritten(), bstr[pos..pos + len], kernel.sent;
    var s;
    o, s := WriteOut(chan, bstr, pos, len, minLen, kernel);
    assert kernel.sent[|before|..] == (waiting + user)[..SentCount(s, |waiting|, pos)];
    OutputEnds(o, minLen, waiting, user, s, pos);
    match o {
      case Done(n) =>
        chan.curr := 0;
        chan.locked := false;
        assert chan.Unwritten() == [];
      case Failed(n) =>
        chan.curr := s.buffLen;
        if s.buffLen > 0 {
          Move(chan.buff, 0, chan.buff, s.buffIov.base, s.buffLen);
        }
        assert chan.Unwritten() == waiting[|waiting| - s.buffLen..];
        chan.locked := false;
      case _ =>
    }
  }

  /** The path of the output on which the channel has room for everything. */
  method Append(chan: Channel, bstr: array<Byte>, pos: nat, len: nat, ghost minLen: nat)
    requires chan.Valid() && pos + len <= bstr.Length && chan.buff != bstr && len <= chan.buff.Length - chan.curr
    modifies chan`curr, chan.buff
    ensures chan.Valid()
    ensures OutputConserves(Done(len), true, minLen, old(chan.Unwritten()), bstr[pos..pos + len], [], chan.Unwritten())
  {
    Move(chan.buff, chan.curr, bstr, pos, len);
    chan.curr := chan.curr + len;
  }

  // ---------- input ----------

  /** What `readv` returns; a count of zero means the end of the file. */
  datatype ReadCount = Count(n: nat) | Interrupted | Error

  /** What `readv` tells of an answer, with room for so many bytes. */
  ghost predicate Tells(answer: ReadAnswer, room: nat, r: ReadCount, got: seq<Byte>) {
    match answer
    case ReadInterrupted => r == Interrupted && got == []
    case ReadError => r == Error && got == []
    case Data(bytes) => r == Count(|got|) && got == Accepted(bytes, room)
  }

  /** The bytes are in the two pieces, and nothing else has changed. */
  ghost predicate Landed(got: seq<Byte>, u: Iovec, a0: seq<Byte>, a1: seq<Byte>, v: Iovec, b0: seq<Byte>,
                         b1: seq<Byte>) {
    var first := Least(|got|, u.len);
    |got| <= u.len + v.len && Filled(a0, u.base, got[..first], a1) && Filled(b0, v.base, got[first..], b1)
  }

  class ReadKernel {
    var script: seq<ReadAnswer>
    ghost var received: seq<Byte>

    constructor (script: seq<ReadAnswer>)
      ensures this.script == script && received == []
    {
      this.script := script;
      received := [];
    }

    /** `readv` into two pieces: the next answer of the script; it fills some prefix of the first and goes on in
    the second. */
    method Readv(a: array<Byte>, u: Iovec, b: array<Byte>, v: Iovec) returns (r: ReadCount, ghost got: seq<Byte>)
      requires script != [] && Within(u, a) && Within(v, b) && a != b
      modifies this, a, b
      ensures script == old(script)[1..] && received == old(received) + got
      ensures Tells(old(script)[0], u.len + v.len, r, got)
      ensures Landed(got, u, old(a[..]), a[..], v, old(b[..]), b[..])
    {
      hide Filled;
      var answer := script[0];
      script := script[1..];
      NothingFilled(a[..], u.base);
      NothingFilled(b[..], v.base);
      match answer {
        case ReadInterrupted => r, got := Interrupted, [];
        case ReadError => r, got := Error, [];
        case Data(bytes) =>
          var filled := Accepted(bytes, u.len + v.len);
          var first := Least(|filled|, u.len);
          Store(a, u.base, filled[..first]);
          Store(b, v.base, filled[first..]);
          got := filled;
          received := received + got;
          r := Count(|filled|);
      }
    }
  }

  /** What a call of the loop has done: all it read went into the bigstring, but for the last `spilled` bytes,
  which are at the start of the channel's buffer; the count returned is that of the bytes in the bigstring. */
  ghost predicate ReadSoFar(o: Outcome, spilled: nat, orig: seq<Byte>, from: nat, max: nat, pos: nat, minLen: nat,
                            read: seq<Byte>, now: seq<Byte>, buff: seq<Byte>) {
    && spilled <= |read| && spilled <= |buff| && from + |read| - spilled <= max
    && Filled(orig, from, read[..|read| - spilled], now) && buff[..spilled] == read[|read| - spilled..]
    && (spilled > 0 ==> from + |read| - spilled == max && o.Done?)
    && match o
       case Done(m) => minLen <= m && pos + m == from + |read| - spilled
       case EndOfFile(m) => pos + m == from + |read| - spilled
       case Failed(m) => pos + m == from + |read| - spilled
       case Blocked => true
  }

  /** Writing one piece after another is writing the two at once. */
  lemma FillingContinues(orig: seq<Byte>, from: nat, done: seq<Byte>, now: seq<Byte>, piece: seq<Byte>, next: seq<Byte>)
    requires Filled(orig, from, done, now) && Filled(now, from + |done|, piece, next)
    ensures Filled(orig, from, done + piece, next)
  {
    assert now[..from + |done|] == orig[..from] + done;
  }

  lemma NothingFilled(orig: seq<Byte>, at: nat)
    requires at <= |orig|
    ensures Filled(orig, at, [], orig)
  {
  }

  /** The read that ends the loop: `first` of its bytes went into the bigstring, the rest into the channel. */
  lemma LastRead(m: nat, first: nat, orig: seq<Byte>, from: nat, max: nat, pos: nat, minLen: nat,
                 done: seq<Byte>, got: seq<Byte>, now: seq<Byte>, next: seq<Byte>, oldBuff: seq<Byte>, buff: seq<Byte>)
    requires first <= |got| && Filled(orig, from, done, now) && Filled(now, from + |done|, got[..first], next)
    requires Filled(oldBuff, 0, got[first..], buff)
    requires minLen <= m && pos + m == from + |done| + first <= max && (first < |got| ==> pos + m == max)
    ensures ReadSoFar(Done(m), |got| - first, orig, from, max, pos, minLen, done + got, next, buff)
  {
    FillingContinues(orig, from, done, now, got[..first], next);
    assert (done + got)[..|done| + first] == done + got[..first];
    assert buff[..|got| - first] == got[first..];
  }

  lemma AllRead(o: Outcome, orig: seq<Byte>, from: nat, max: nat, pos: nat, minLen: nat,
                read: seq<Byte>, now: seq<Byte>, buff: seq<Byte>)
    requires from + |read| <= max && Filled(orig, from, read, now)
    requires o.Done? ==> minLen <= o.count && pos + o.count == from + |read|
    requires o.EndOfFile? || o.Failed? ==> pos + o.good == from + |read|
    ensures ReadSoFar(o, 0, orig, from, max, pos, minLen, read, now, buff)
  {
    assert read[..|read|] == read;
  }

  /** A call of the input under way: the first `used` answers have not ended it, and what they delivered is in the
  bigstring from `from` on. */
  ghost predicate Underway(read: seq<Byte>, orig: seq<Byte>, from: nat, now: seq<Byte>, script: seq<ReadAnswer>,
                           used: nat, q: Request)
    requires used <= |script|
  {
    && Reads(script, used, q) && read == Received(script[..used])
    && Filled(orig, from, read, now)
  }

  lemma InputStarts(orig: seq<Byte>, from: nat, script: seq<ReadAnswer>, q: Request)
    requires from <= |orig|
    ensures Underway([], orig, from, orig, script, 0, q)
  {
    NothingFilled(orig, from);
  }

  lemma AnswersEnd(read: seq<Byte>, orig: seq<Byte>, from: nat, max: nat, pos: nat, now: seq<Byte>, buff: seq<Byte>,
                   script: seq<ReadAnswer>, used: nat, q: Request)
    requires used <= |script| && script[used..] == [] && Underway(read, orig, from, now, script, used, q)
             && from + |read| <= max
    ensures InputOutcome(Blocked, read, script, script[used..], q)
    ensures ReadSoFar(Blocked, 0, orig, from, max, pos, q.minLen, read, now, buff)
  {
    assert script[..used] == script;
    AllRead(Blocked, orig, from, max, pos, q.minLen, read, now, buff);
  }

  lemma InterruptStep(read: seq<Byte>, orig: seq<Byte>, from: nat, now: seq<Byte>, next: seq<Byte>, room: nat,
                      got: seq<Byte>,
                      u: Iovec, v: Iovec, b0: seq<Byte>, b1: seq<Byte>, script: seq<ReadAnswer>, used: nat, q: Request)
    requires used < |script| && Underway(read, orig, from, now, script, used, q)
    requires Tells(script[used], room, Interrupted, got) && Landed(got, u, now, next, v, b0, b1)
             && u.base == from + |read|
    ensures got == [] && Underway(read, orig, from, next, script, used + 1, q)
  {
    ReadsOn(script, used, q);
    FillingContinues(orig, from, read, now, [], next);
    assert read + [] == read;
  }

  lemma ErrorStep(read: seq<Byte>, orig: seq<Byte>, from: nat, max: nat, pos: nat, now: seq<Byte>, next: seq<Byte>,
                  room: nat,
                  got: seq<Byte>, u: Iovec, v: Iovec, b0: seq<Byte>, b1: seq<Byte>, script: seq<ReadAnswer>, used: nat,
                  q: Request)
    requires used < |script| && Underway(read, orig, from, now, script, used, q)
    requires Tells(script[used], room, Error, got) && Landed(got, u, now, next, v, b0, b1)
             && u.base == from + |read| <= max
    requires pos <= from && q.copied == from - pos
    ensures got == []
    ensures var o := Failed(from + |read| - pos);
            InputOutcome(o, read, script, script[used + 1..], q)
                && ReadSoFar(o, 0, orig, from, max, pos, q.minLen, read, next, b1)
  {
    FillingContinues(orig, from, read, now, [], next);
    assert read + [] == read;
    AllRead(Failed(from + |read| - pos), orig, from, max, pos, q.minLen, read, next, b1);
  }

  /** No bytes were read. */
  lemma NoDataStep(o: Outcome, read: seq<Byte>, orig: seq<Byte>, from: nat, max: nat, pos: nat, now: seq<Byte>,
                   next: seq<Byte>,
                   got: seq<Byte>, u: Iovec, v: Iovec, b0: seq<Byte>, b1: seq<Byte>, script: seq<ReadAnswer>,
                   used: nat, q: Request)
    requires used < |script| && Underway(read, orig, from, now, script, used, q)
    requires Tells(script[used], Room(q, |read|), Count(0), got) && Landed(got, u, now, next, v, b0, b1)
    requires u.base == from + |read| <= max && pos <= from && q.copied == from - pos && q.len == max - pos
             && q.minLen <= q.len
    requires o == if q.len == 0 then Done(0) else EndOfFile(from + |read| - pos)
    ensures got == []
    ensures InputOutcome(o, read, script, script[used + 1..], q)
            && ReadSoFar(o, 0, orig, from, max, pos, q.minLen, read, next, b1)
  {
    FillingContinues(orig, from, read, now, [], next);
    assert read + [] == read;
    AllRead(o, orig, from, max, pos, q.minLen, read, next, b1);
    hide Received, Reads, Filled, ReadSoFar;
  }

  /** Enough bytes were read. */
  lemma LastStep(read: seq<Byte>, orig: seq<Byte>, from: nat, max: nat, pos: nat, now: seq<Byte>, next: seq<Byte>,
                 got: seq<Byte>,
                 u: Iovec, v: Iovec, b0: seq<Byte>, b1: seq<Byte>, script: seq<ReadAnswer>, used: nat, q: Request)
    requires used < |script| && Underway(read, orig, from, now, script, used, q)
    requires Tells(script[used], Room(q, |read|), Count(|got|), got) && Landed(got, u, now, next, v, b0, b1)
             && got != []
    requires u.base == from + |read| && u.base + u.len == max && v.base == 0
    requires pos <= from && q.copied == from - pos && q.len == max - pos && q.minLen <= q.len
    requires from + |read| + |got| >= pos + q.minLen
    ensures var spilled := if |got| > u.len then |got| - u.len else 0;
            var o := Done(Least(max - pos, from + |read| + |got| - pos));
            && InputOutcome(o, read + got, script, script[used + 1..], q)
            && ReadSoFar(o, spilled, orig, from, max, pos, q.minLen, read + got, next, b1)
  {
    var first := Least(|got|, u.len);
    LastRead(Least(max - pos, from + |read| + |got| - pos), first, orig, from, max, pos, q.minLen, read, got, now,
             next, b0, b1);
    hide Received, Reads, Filled, ReadSoFar;
  }

  /** Some bytes were read, but not enough. */
  lemma ShortStep(read: seq<Byte>, orig: seq<Byte>, from: nat, now: seq<Byte>, next: seq<Byte>, got: seq<Byte>,
                  u: Iovec, v: Iovec, b0: seq<Byte>, b1: seq<Byte>, script: seq<ReadAnswer>, used: nat, q: Request)
    requires used < |script| && Underway(read, orig, from, now, script, used, q)
    requires Tells(script[used], Room(q, |read|), Count(|got|), got) && Landed(got, u, now, next, v, b0, b1)
             && got != []
    requires u.base == from + |read| && q.copied + |read| + |got| < q.minLen <= q.len
             && u.len == q.len - q.copied - |read|
    ensures Underway(read + got, orig, from, next, script, used + 1, q)
  {
    assert got == script[used].bytes;
    ReadsOn(script, used, q);
    assert got[..|got|] == got;
    FillingContinues(orig, from, read, now, got, next);
  }

  /** The loop of `bigstring_input_stub`: fills `bstr[from..max]` and lets the last read spill into the channel. */
  method ReadIn(chan: Channel, bstr: array<Byte>, pos: nat, from: nat, max: nat, minLen: nat, kernel: ReadKernel)
    returns (o: Outcome, spilled: nat, ghost read: seq<Byte>)
    requires chan.Valid() && chan.buff != bstr
    requires pos <= from <= max <= bstr.Length && minLen <= max - pos && (max == pos ==> from == pos)
    modifies chan`offset, chan.buff, bstr, kernel
    ensures InputOutcome(o, read, old(kernel.script), kernel.script,
                         Request(max - pos, from - pos, minLen, chan.buff.Length))
    ensures kernel.received == old(kernel.received) + read && chan.offset == old(chan.offset) + |read|
    ensures ReadSoFar(o, spilled, old(bstr[..]), from, max, pos, minLen, read, bstr[..], chan.buff[..])
  {
    hide Tells, Landed, Underway, InputOutcome, ReadSoFar, Filled;
    ghost var q, script, used := Request(max - pos, from - pos, minLen, chan.buff.Length), kernel.script, 0;
    ghost var orig := bstr[..];
    spilled, read := 0, [];
    var bstrMin := pos + minLen;
    var bstrIov, buffIov := Iovec(from, max - from), Iovec(0, chan.buff.Length);
    InputStarts(orig, from, script, q);
    while kernel.script != []
      invariant used <= |script| && kernel.script == script[used..]
                && Underway(read, orig, from, bstr[..], script, used, q)
      invariant bstrIov.base == from + |read| && bstrIov.base + bstrIov.len == max && spilled == 0
      invariant kernel.received == old(kernel.received) + read && chan.offset == old(chan.offset) + |read|
      decreases |kernel.script|
    {
      ghost var now, buff, room := bstr[..], chan.buff[..], bstrIov.len + buffIov.len;
      var r;
      ghost var got;
      r, got := kernel.Readv(bstr, bstrIov, chan.buff, buffIov);
      if r.Interrupted? {
        InterruptStep(read, orig, from, now, bstr[..], room, got, bstrIov, buffIov, buff, chan.buff[..], script, used,
                      q);
        used := used + 1;
        continue;
      }
      if r.Error? {
        ErrorStep(read, orig, from, max, pos, now, bstr[..], room, got, bstrIov, buffIov, buff, chan.buff[..], script,
                  used, q);
        o := Failed(bstrIov.base - pos);
        return;
      }
      var n := r.n;
      CountIs(script[used], room, n, got);
      if n == 0 {
        o := if max == pos then Done(0) else EndOfFile(bstrIov.base - pos);
        NoDataStep(o, read, orig, from, max, pos, now, bstr[..], got, bstrIov, buffIov, buff, chan.buff[..], script,
                   used, q);
        return;
      }
      chan.offset := chan.offset + n;
      var next := bstrIov.base + n;
      if next >= bstrMin {
        var m := if next > max then max - pos else next - pos;
        spilled := if next > max then next - max else 0;
        LastStep(read, orig, from, max, pos, now, bstr[..], got, bstrIov, buffIov, buff, chan.buff[..], script, used,
                 q);
        read := read + got;
        o := Done(m);
        return;
      }
      ShortStep(read, orig, from, now, bstr[..], got, bstrIov, buffIov, buff, chan.buff[..], script, used, q);
      used := used + 1;
      read := read + got;
      bstrIov := Iovec(next, bstrIov.len - n);
    }
    AnswersEnd(read, orig, from, max, pos, bstr[..], chan.buff[..], script, used, q);
    o := Blocked;
  }

  lemma CountIs(answer: ReadAnswer, room: nat, n: nat, got: seq<Byte>)
    requires Tells(answer, room, Count(n), got)
    ensures n == |got|
  {
  }

  /** The bytes read ahead, then the bytes read by this call, are the bytes delivered followed by those left in
  the channel. Only a full bigstring leaves any; an error or the end of the file leaves none. */
  ghost predicate InputConserves(o: Outcome, len: nat, minLen: nat, ahead: seq<Byte>, read: seq<Byte>,
                                 orig: seq<Byte>, pos: nat, now: seq<Byte>, left: seq<Byte>) {
    var all := ahead + read;
    match o
    case Done(n) =>
      && minLen <= n <= len && n <= |all| && Filled(orig, pos, all[..n], now) && left == all[n..]
      && (n < len ==> left == []) && (len <= |ahead| && ahead != [] ==> read == [])
    case Blocked => |all| <= len && Filled(orig, pos, all, now)
    case EndOfFile(n) => n == |all| <= len && Filled(orig, pos, all, now) && left == []
    case Failed(n) => n == |all| <= len && Filled(orig, pos, all, now) && left == []
  }

  lemma InputEnds(o: Outcome, spilled: nat, len: nat, minLen: nat, ahead: seq<Byte>, read: seq<Byte>,
                  orig: seq<Byte>, pos: nat, mid: seq<Byte>, now: seq<Byte>, buff: seq<Byte>)
    requires |ahead| < len || ahead == []
    requires Filled(orig, pos, ahead, mid)
    requires ReadSoFar(o, spilled, mid, pos + |ahead|, pos + len, pos, minLen, read, now, buff)
    ensures InputConserves(o, len, minLen, ahead, read, orig, pos, now, if o.Done? then buff[..spilled] else [])
  {
    var all, n := ahead + read, |read| - spilled;
    FillingContinues(orig, pos, ahead, mid, read[..n], now);
    assert all[..|ahead| + n] == ahead + read[..n];
    assert all[|ahead| + n..] == read[n..];
    assert spilled == 0 ==> read[..n] == read;
  }

  lemma InputFromAhead(len: nat, minLen: nat, ahead: seq<Byte>, orig: seq<Byte>, pos: nat, now: seq<Byte>)
    requires minLen <= len <= |ahead| && Filled(orig, pos, ahead[..len], now)
    ensures InputConserves(Done(len), len, minLen, ahead, [], orig, pos, now, ahead[len..])
  {
    assert ahead + [] == ahead;
  }

  /** The copy that begins `bigstring_input_stub`: as much of the bytes read ahead as there is room for. */
  method CopyAhead(chan: Channel, bstr: array<Byte>, pos: nat, len: nat) returns (n: nat)
    requires chan.Valid() && chan.curr <= chan.max && chan.buff != bstr && pos + len <= bstr.Length
    modifies bstr
    ensures n == if len <= |chan.ReadAhead()| then len else |chan.ReadAhead()|
    ensures Filled(old(bstr[..]), pos, chan.ReadAhead()[..n], bstr[..])
  {
    var avail := chan.max - chan.curr;
    n := if len <= avail then len else avail;
    Move(bstr, pos, chan.buff, chan.curr, n);
    assert chan.ReadAhead()[..n] == chan.buff[chan.curr..chan.curr + n];
  }

  /** Every way out of the loop of `bigstring_input_stub`: the channel keeps what spilled into it, and nothing else. */
  method Keep(chan: Channel, spilled: nat)
    requires chan.Valid() && chan.curr <= chan.max && spilled <= chan.buff.Length
    modifies chan`curr, chan`max, chan`locked
    ensures chan.Valid() && chan.curr <= chan.max && !chan.locked && chan.ReadAhead() == chan.buff[..spilled]
  {
    if spilled > 0 {
      chan.max := spilled;
      chan.curr := 0;
    } else {
      chan.curr := chan.max;
    }
    chan.locked := false;
  }

  /** The part of `bigstring_input_stub` after the copy, when the channel has not got all that is asked for. */
  method InputFromKernel(chan: Channel, bstr: array<Byte>, pos: nat, len: nat, minLen: nat, copied: nat,
                         kernel: ReadKernel,
                         ghost orig: seq<Byte>) returns (o: Outcome, ghost read: seq<Byte>)
    requires chan.Valid() && chan.curr <= chan.max && chan.locked && chan.buff != bstr
    requires pos + len <= bstr.Length && minLen <= len && copied == |chan.ReadAhead()| && (copied < len || copied == 0)
    requires Filled(orig, pos, chan.ReadAhead(), bstr[..])
    modifies chan, chan.buff, bstr, kernel
    ensures chan.Valid() && chan.curr <= chan.max && chan.locked == o.Blocked?
    ensures InputOutcome(o, read, old(kernel.script), kernel.script, Request(len, copied, minLen, chan.buff.Length))
    ensures kernel.received == old(kernel.received) + read && chan.offset == old(chan.offset) + |read|
    ensures InputConserves(o, len, minLen, old(chan.ReadAhead()), read, orig, pos, bstr[..],
                           if o.Blocked? then [] else chan.ReadAhead())
  {
    hide InputConserves, ReadSoFar, Filled, InputOutcome;
    ghost var ahead, mid := chan.ReadAhead(), bstr[..];
    var spilled;
    ghost var q := Request(pos + len - pos, pos + copied - pos, minLen, chan.buff.Length);
    assert q == Request(len, copied, minLen, chan.buff.Length);
    o, spilled, read := ReadIn(chan, bstr, pos, pos + copied, pos + len, minLen, kernel);
    assert InputOutcome(o, read, old(kernel.script), kernel.script, q);
    FitsChannel(o, spilled, mid, pos + copied, pos + len, pos, minLen, read, bstr[..], chan.buff[..]);
    InputEnds(o, spilled, len, minLen, ahead, read, orig, pos, mid, bstr[..], chan.buff[..]);
    if !o.Blocked? {
      Keep(chan, spilled);
      assert spilled == 0 ==> chan.ReadAhead() == [];
    }
  }

  /** `bigstring_input_stub`, for every script of kernel answers. */
  method Input(chan: Channel, bstr: array<Byte>, pos: nat, len: nat, minLen: nat, kernel: ReadKernel)
    returns (o: Outcome, ghost read: seq<Byte>)
    requires chan.Valid() && chan.curr <= chan.max && !chan.locked && chan.buff != bstr
    requires pos + len <= bstr.Length && minLen <= len
    modifies chan, chan.buff, bstr, kernel
    ensures chan.Valid() && chan.curr <= chan.max && chan.locked == o.Blocked?
    ensures var ahead := |old(chan.ReadAhead())|;
            if 0 < ahead && len <= ahead then o == Done(len) && read == [] && kernel.script == old(kernel.script)
            else InputOutcome(o, read, old(kernel.script), kernel.script, Request(len, ahead, minLen, chan.buff.Length))
    ensures kernel.received == old(kernel.received) + read && chan.offset == old(chan.offset) + |read|
    ensures InputConserves(o, len, minLen, old(chan.ReadAhead()), read, old(bstr[..]), pos, bstr[..],
                           if o.Blocked? then [] else chan.ReadAhead())
  {
    hide InputConserves, ReadSoFar, Filled, InputOutcome;
    ghost var ahead, orig := chan.ReadAhead(), bstr[..];
    var avail := chan.max - chan.curr;
    chan.locked := true;
    var copied := CopyAhead(chan, bstr, pos, len);
    if avail > 0 && len <= avail {
      InputFromAhead(len, minLen, ahead, orig, pos, bstr[..]);
      assert ahead[len..] == chan.buff[chan.curr + len..chan.max];
      chan.curr := chan.curr + copied;
      chan.locked := false;
      return Done(len), [];
    }
    assert ahead[..copied] == ahead;
    o, read := InputFromKernel(chan, bstr, pos, len, minLen, copied, kernel, orig);
  }

  lemma FitsChannel(o: Outcome, spilled: nat, orig: seq<Byte>, from: nat, max: nat, pos: nat, minLen: nat,
                    read: seq<Byte>, now: seq<Byte>, buff: seq<Byte>)
    requires ReadSoFar(o, spilled, orig, from, max, pos, minLen, read, now, buff)
    ensures spilled <= |buff| && (spilled > 0 ==> o.Done?)
  {
  }
}
