/** What a sequence of kernel answers means for the output and the input of a bigstring, apart from the bytes:
which answer ends the call, and with what outcome. */
module KernelAnswers {
  import opened MachineWords

  /** What a call returns; `Blocked` means that it is still waiting when the answers end. */
  datatype Outcome = Done(count: nat) | EndOfFile(good: nat) | Failed(good: nat) | Blocked

  function Least(x: nat, y: nat): nat {
    if x <= y then x else y
  }

  // ---------- output ----------

  datatype WriteAnswer = Written(count: nat) | WriteInterrupted | WouldBlock | WriteError

  /** What the next `writev` is offered: all that is unsent, only what is left of the channel, or a single byte. */
  datatype Offer = Everything | ChannelOnly | OneByte

  datatype Sending = Sending(done: nat, offer: Offer)

  /** An output of `waiting` bytes of the channel and `len` bytes of the bigstring, at least `minLen` of them. */
  datatype Job = Job(waiting: nat, len: nat, minLen: nat)

  function Offered(s: Sending, job: Job): nat {
    match s.offer
    case Everything => if s.done <= job.waiting + job.len then job.waiting + job.len - s.done else 0
    case ChannelOnly => if s.done <= job.waiting then job.waiting - s.done else 0
    case OneByte => 1
  }

  /** The kernel's answer: no more than it was offered. */
  function Clipped(a: WriteAnswer, offered: nat): WriteAnswer {
    if a.Written? then Written(Least(a.count, offered)) else a
  }

  /** The answer that ends the output: enough sent, an error, or a would-block to an offer of at most one byte. */
  predicate EndsOutput(a: WriteAnswer, s: Sending, job: Job) {
    match a
    case Written(n) => s.done + Least(n, Offered(s, job)) >= job.waiting + job.minLen
    case WriteInterrupted => false
    case WouldBlock => Offered(s, job) <= 1
    case WriteError => true
  }

  /** After an answer that does not end the output. A would-block is answered with a single byte; when some of the
  channel is left after that, only the channel is offered until it is empty. */
  function NextSending(a: WriteAnswer, s: Sending, job: Job): Sending {
    match a
    case Written(n) =>
      var done := s.done + Least(n, Offered(s, job));
      Sending(done, if done < job.waiting && s.offer != Everything then ChannelOnly else Everything)
    case WouldBlock => s.(offer := OneByte)
    case _ => s
  }

  function AfterAnswers(answers: seq<WriteAnswer>, job: Job): Sending
    decreases |answers|
  {
    if answers == [] then Sending(0, Everything)
    else NextSending(answers[|answers| - 1], AfterAnswers(answers[..|answers| - 1], job), job)
  }

  /** None of the first `k` answers ends the output. */
  ghost predicate Sends(script: seq<WriteAnswer>, k: nat, job: Job)
    requires k <= |script|
  {
    forall i :: 0 <= i < k ==> !EndsOutput(script[i], AfterAnswers(script[..i], job), job)
  }

  lemma SendsOn(script: seq<WriteAnswer>, k: nat, job: Job)
    requires k < |script| && Sends(script, k, job)
    requires !EndsOutput(script[k], AfterAnswers(script[..k], job), job)
    ensures Sends(script, k + 1, job)
    ensures AfterAnswers(script[..k + 1], job) == NextSending(script[k], AfterAnswers(script[..k], job), job)
  {
    assert script[..k + 1][..k] == script[..k];
  }

  /** The outcome that the answers demand: that of the first one that ends the output; `rest` are the answers
  behind it. A failure counts the bytes of the bigstring sent before it. */
  ghost predicate OutputOutcome(o: Outcome, script: seq<WriteAnswer>, rest: seq<WriteAnswer>, job: Job) {
    && |rest| <= |script| && rest == script[|script| - |rest|..]
    && var used := |script| - |rest|;
       if o.Blocked? then rest == [] && Sends(script, used, job)
       else
         && used > 0 && Sends(script, used - 1, job)
         && var s := AfterAnswers(script[..used - 1], job);
            var last := script[used - 1];
            && EndsOutput(last, s, job)
            && o == if last.Written? then Done(s.done + Least(last.count, Offered(s, job)) - job.waiting)
                    else Failed(if s.done <= job.waiting then 0 else s.done - job.waiting)
  }

  lemma OutputDetermined(o1: Outcome, rest1: seq<WriteAnswer>, o2: Outcome, rest2: seq<WriteAnswer>,
                         script: seq<WriteAnswer>, job: Job)
    requires OutputOutcome(o1, script, rest1, job) && OutputOutcome(o2, script, rest2, job)
    ensures o1 == o2 && rest1 == rest2
  {
    hide AfterAnswers, EndsOutput, Offered;
  }

  lemma {:induction false} OneByteIsARetry(script: seq<WriteAnswer>, k: nat, job: Job) returns (j: nat)
    requires k <= |script| && AfterAnswers(script[..k], job).offer == OneByte
    ensures j < k && script[j].WouldBlock? && forall i :: j < i < k ==> !script[i].Written?
    decreases k
  {
    assert k > 0 && script[..k][..k - 1] == script[..k - 1];
    if script[k - 1].WouldBlock? {
      j := k - 1;
    } else {
      j := OneByteIsARetry(script, k - 1, job);
    }
  }

  /** A would-block ends the output only when it answers the offer of a single byte: the last one left to offer, or
  the retry after an earlier would-block with nothing sent and no error in between. */
  lemma WouldBlockFailsOnlyForOneByte(o: Outcome, script: seq<WriteAnswer>, rest: seq<WriteAnswer>, job: Job)
    requires OutputOutcome(o, script, rest, job) && !o.Blocked? && script[|script| - |rest| - 1].WouldBlock?
    ensures var last := |script| - |rest| - 1;
            var s := AfterAnswers(script[..last], job);
            || (s.offer == Everything && s.done + 1 >= job.waiting + job.len)
            || (s.offer == ChannelOnly && s.done + 1 >= job.waiting)
            || exists j ::
                 && 0 <= j < last && script[j].WouldBlock?
                 && forall i :: j < i < last ==> script[i].WriteInterrupted? || script[i].WouldBlock?
  {
    var last := |script| - |rest| - 1;
    if AfterAnswers(script[..last], job).offer == OneByte {
      var j := OneByteIsARetry(script, last, job);
      forall i | j < i < last
        ensures script[i].WriteInterrupted? || script[i].WouldBlock?
      {
        assert !EndsOutput(script[i], AfterAnswers(script[..i], job), job);
      }
    }
  }

  // ---------- input ----------

  datatype ReadAnswer = Data(bytes: seq<Byte>) | ReadInterrupted | ReadError

  /** An input into `len` bytes, of which `copied` came from the channel and at least `minLen` are wanted; `size` more
  fit into the channel's buffer. */
  datatype Request = Request(len: nat, copied: nat, minLen: nat, size: nat)

  /** The bytes that a `readv` delivers: no more than there is room for. */
  function Accepted(bytes: seq<Byte>, room: nat): (r: seq<Byte>)
    ensures |r| <= room && r <= bytes
  {
    bytes[..Least(|bytes|, room)]
  }

  function Room(q: Request, got: nat): nat {
    if q.copied + got <= q.len then q.len - q.copied - got + q.size else q.size
  }

  /** The answer that ends the input: an error, no bytes at all, or enough of them. */
  predicate EndsInput(a: ReadAnswer, got: nat, q: Request) {
    match a
    case Data(bytes) => Accepted(bytes, Room(q, got)) == []
        || q.copied + got + |Accepted(bytes, Room(q, got))| >= q.minLen
    case ReadInterrupted => false
    case ReadError => true
  }

  function Received(answers: seq<ReadAnswer>): seq<Byte>
    decreases |answers|
  {
    if answers == [] then []
    else Received(answers[..|answers| - 1]) + if answers[|answers| - 1].Data? then answers[|answers| - 1].bytes else []
  }

  /** None of the first `k` answers ends the input. */
  ghost predicate Reads(script: seq<ReadAnswer>, k: nat, q: Request)
    requires k <= |script|
  {
    forall i :: 0 <= i < k ==> !EndsInput(script[i], |Received(script[..i])|, q)
  }

  lemma ReadsOn(script: seq<ReadAnswer>, k: nat, q: Request)
    requires k < |script| && Reads(script, k, q) && !EndsInput(script[k], |Received(script[..k])|, q)
    ensures Reads(script, k + 1, q)
    ensures Received(script[..k + 1]) == Received(script[..k]) + if script[k].Data? then script[k].bytes else []
  {
    assert script[..k + 1][..k] == script[..k];
  }

  /** The outcome that the answers demand, and the bytes read: those of the first answer that ends the input. */
  ghost predicate InputOutcome(o: Outcome, read: seq<Byte>, script: seq<ReadAnswer>, rest: seq<ReadAnswer>,
                               q: Request) {
    && |rest| <= |script| && rest == script[|script| - |rest|..]
    && var used := |script| - |rest|;
       if o.Blocked? then rest == [] && Reads(script, used, q) && read == Received(script)
       else
         && used > 0 && Reads(script, used - 1, q)
         && var got := Received(script[..used - 1]);
            EndsInput(script[used - 1], |got|, q) && EndedBy(script[used - 1], got, q, o, read)
  }

  /** An error fails with the bytes so far; no bytes are the end of the file, except for an empty request; anything
  else is a success, and what does not fit stays in the channel. */
  ghost predicate EndedBy(a: ReadAnswer, got: seq<Byte>, q: Request, o: Outcome, read: seq<Byte>) {
    match a
    case ReadInterrupted => false
    case ReadError => o == Failed(q.copied + |got|) && read == got
    case Data(bytes) =>
      var more := Accepted(bytes, Room(q, |got|));
      && read == got + more
      && o == if more != [] then Done(Least(q.len, q.copied + |got| + |more|))
              else if q.len == 0 then Done(0)
              else EndOfFile(q.copied + |got|)
  }

  lemma InputDetermined(o1: Outcome, read1: seq<Byte>, rest1: seq<ReadAnswer>,
                        o2: Outcome, read2: seq<Byte>, rest2: seq<ReadAnswer>, script: seq<ReadAnswer>, q: Request)
    requires InputOutcome(o1, read1, script, rest1, q) && InputOutcome(o2, read2, script, rest2, q)
    ensures o1 == o2 && read1 == read2 && rest1 == rest2
  {
    hide Received, EndsInput, Room, Accepted;
  }

  /** If the bytes copied from the channel already reach the minimum, the first answer that is not an interrupt
  decides: the input still asks, and what it has does not protect it from an error or the end of the file. */
  lemma FirstAnswerDecides(o: Outcome, read: seq<Byte>, script: seq<ReadAnswer>, rest: seq<ReadAnswer>, q: Request,
                           k: nat)
    requires q.minLen <= q.copied && k < |script| && !script[k].ReadInterrupted?
    requires forall i :: 0 <= i < k ==> script[i].ReadInterrupted?
    ensures InputOutcome(o, read, script, rest, q) <==> rest == script[k + 1..] && EndedBy(script[k], [], q, o, read)
  {
    NothingReceived(script, k);
    assert EndsInput(script[k], 0, q);
    forall i | 0 <= i < k
      ensures !EndsInput(script[i], |Received(script[..i])|, q)
    {
    }
  }

  lemma {:induction false} NothingReceived(script: seq<ReadAnswer>, k: nat)
    requires k <= |script| && forall i :: 0 <= i < k ==> script[i].ReadInterrupted?
    ensures Received(script[..k]) == []
    decreases k
  {
    if k == 0 {
    } else {
      assert script[..k][..k - 1] == script[..k - 1];
      NothingReceived(script, k - 1);
    }
  }

  /** Three bytes were read ahead, two were wanted, and the end of the file is reported all the same. */
  lemma EndOfFilePastTheMinimum(o: Outcome, read: seq<Byte>, rest: seq<ReadAnswer>, q: Request)
    requires q.len == 5 && q.copied == 3 && q.minLen == 2 && InputOutcome(o, read, [Data([])], rest, q)
    ensures o == EndOfFile(3)
  {
    FirstAnswerDecides(o, read, [Data([])], rest, q, 0);
  }
}
