/**
 The byte-stream view of a link, over counting readers and writers, under every schedule of Pending and
 Ready polls. The inner reader and writer are the sequences of answers their polls will give.
 */
module LinkStream {
  import opened Bytes

  // ---------- Polls ----------

  datatype PollRead = Got(parts: seq<seq<byte>>) | Ended | ReadFailed | NotReady

  /** The inner writer takes everything or nothing. */
  datatype PollWrite = Accepted | Closed | WriteFailed | Busy

  function PolledBytes(answer: PollRead): seq<byte> {
    if answer.Got? then Flatten(answer.parts) else []
  }

  /** The bytes of the first k answers. */
  function Came(answers: seq<PollRead>, k: nat): seq<byte>
    requires k <= |answers|
  {
    if k == 0 then [] else Came(answers, k - 1) + PolledBytes(answers[k - 1])
  }

  lemma CameStep(answers: seq<PollRead>, k: nat)
    requires k < |answers|
    ensures Came(answers, k + 1) == Came(answers, k) + PolledBytes(answers[k])
  {
  }

  /** Counts the bytes of successful reads. */
  class SizeStatReader {
    const answers: seq<PollRead>
    var next: nat
    var counter: nat

    ghost predicate Valid()
      reads this
    {
      next <= |answers| && counter == |Came(answers, next)|
    }

    constructor (answers: seq<PollRead>)
      ensures Valid() && this.answers == answers && next == 0
    {
      this.answers, next, counter := answers, 0, 0;
    }

    /** Past its answers the inner reader stays pending. */
    method Poll() returns (r: PollRead)
      requires Valid()
      modifies this
      ensures Valid()
      ensures if old(next) < |answers| then next == old(next) + 1 && r == answers[old(next)] else next == old(next) && r == NotReady
    {
      hide PolledBytes;
      if next == |answers| {
        return NotReady;
      }
      CameStep(answers, next);
      r := answers[next];
      next := next + 1;
      if r.Got? {
        PolledBytesGot(r);
        counter := counter + Length(r.parts);
      } else {
        PolledBytesNone(r);
      }
    }
  }

  function Length(parts: seq<seq<byte>>): (n: nat)
    ensures n == |Flatten(parts)|
  {
    if parts == [] then 0 else |parts[0]| + Length(parts[1..])
  }

  lemma PolledBytesGot(answer: PollRead)
    requires answer.Got?
    ensures |PolledBytes(answer)| == Length(answer.parts)
  {
  }

  lemma PolledBytesNone(answer: PollRead)
    requires !answer.Got?
    ensures PolledBytes(answer) == []
  {
  }

  /** Counts the bytes of every write that completes, whether it succeeds or not. */
  class SizeStatWriter {
    const answers: seq<PollWrite>
    var next: nat
    var counter: nat
    /** What reached the inner writer. */
    ghost var reached: seq<byte>

    ghost predicate Valid()
      reads this
    {
      next <= |answers|
    }

    constructor (answers: seq<PollWrite>)
      ensures Valid() && this.answers == answers && next == 0 && counter == 0 && reached == []
    {
      this.answers, next, counter, reached := answers, 0, 0, [];
    }

    /** A write that is pending keeps its buffer and is not counted. */
    method Poll(data: seq<byte>) returns (r: PollWrite)
      requires Valid()
      modifies this
      ensures Valid()
      ensures old(next) < |answers| ==> next == old(next) + 1 && r == answers[old(next)]
      ensures old(next) == |answers| ==> next == old(next) && r == Busy
      ensures reached == old(reached) + if r.Accepted? then data else []
      ensures counter == old(counter) + if r.Busy? then 0 else |data|
    {
      if next == |answers| {
        return Busy;
      }
      r := answers[next];
      next := next + 1;
      if r.Accepted? {
        reached := reached + data;
      }
      if !r.Busy? {
        counter := counter + |data|;
      }
    }
  }

  // ---------- Taking bytes out of a list of buffers ----------

  /** Moves up to `cap` bytes out, dropping buffers that are used up. */
  method ReadTo(parts: seq<seq<byte>>, cap: nat) returns (out: seq<byte>, rest: seq<seq<byte>>)
    ensures out + Flatten(rest) == Flatten(parts)
    ensures |out| == if cap < |Flatten(parts)| then cap else |Flatten(parts)|
  {
    out, rest := [], parts;
    while |out| < cap && rest != []
      invariant out + Flatten(rest) == Flatten(parts) && |out| <= cap
      decreases |rest|, cap - |out|
    {
      var n := if |rest[0]| < cap - |out| then |rest[0]| else cap - |out|;
      FrontMoves(out, rest, n);
      if n == |rest[0]| {
        out, rest := out + rest[0][..n], rest[1..];
      } else {
        out, rest := out + rest[0][..n], [rest[0][n..]] + rest[1..];
      }
    }
    if rest == [] {
      FlattenNone();
    }
  }

  lemma FrontMoves(out: seq<byte>, rest: seq<seq<byte>>, n: nat)
    requires rest != [] && n <= |rest[0]|
    ensures var moved := out + rest[0][..n];
            && moved + Flatten([rest[0][n..]] + rest[1..]) == out + Flatten(rest)
            && (n == |rest[0]| ==> moved + Flatten(rest[1..]) == out + Flatten(rest))
  {
    var front := rest[0];
    assert front == front[..n] + front[n..];
    assert ([front[n..]] + rest[1..])[1..] == rest[1..];
  }

  // ---------- What one call does ----------

  datatype ReadStatus = Ready | ReadError | ReadPending

  datatype WriteStatus = Wrote(n: nat) | BrokenPipe | WriteError | WritePending

  /** Bytes handed out and how the call ended; the bytes still pending and the answers used so far. */
  datatype ReadDone = ReadDone(out: seq<byte>, status: ReadStatus, pending: seq<byte>, used: nat)

  /**
   A read hands out pending bytes first. With none, or into an empty buffer, which drops them, the inner reader
   is asked; an answer with bytes starts over, any other one ends the call.
   */
  function ReadOutcome(answers: seq<PollRead>, pending: seq<byte>, used: nat, cap: nat): (r: ReadDone)
    requires used <= |answers|
    ensures used <= r.used <= |answers|
    decreases |answers| - used
  {
    if pending != [] && cap > 0 then
      var n := if cap < |pending| then cap else |pending|;
      ReadDone(pending[..n], Ready, pending[n..], used)
    else if used == |answers| then ReadDone([], ReadPending, [], used)
    else match answers[used]
      case Got(parts) =>
        if Flatten(parts) == [] then ReadDone([], Ready, [], used + 1)
        else ReadOutcome(answers, Flatten(parts), used + 1, cap)
      case Ended => ReadDone([], Ready, [], used + 1)
      case ReadFailed => ReadDone([], ReadError, [], used + 1)
      case NotReady => ReadDone([], ReadPending, [], used + 1)
  }

  function WriteOutcome(answers: seq<PollWrite>, used: nat, buf: seq<byte>): (r: (WriteStatus, nat))
    requires used <= |answers|
    ensures used <= r.1 <= |answers|
  {
    if buf == [] then (Wrote(0), used)
    else if used == |answers| then (WritePending, used)
    else (match answers[used]
          case Accepted => Wrote(|buf|)
          case Closed => BrokenPipe
          case WriteFailed => WriteError
          case Busy => WritePending,
          used + 1)
  }

  /** The bytes of the answers from a up to b. */
  function Between(answers: seq<PollRead>, a: nat, b: nat): seq<byte>
    requires a <= b <= |answers|
    decreases b - a
  {
    if a == b then [] else PolledBytes(answers[a]) + Between(answers, a + 1, b)
  }

  lemma {:induction false} CameBetween(answers: seq<PollRead>, a: nat, b: nat)
    requires a <= b <= |answers|
    ensures Came(answers, b) == Came(answers, a) + Between(answers, a, b)
    decreases b - a
  {
    hide PolledBytes;
    if a < b {
      CameStep(answers, a);
      CameBetween(answers, a + 1, b);
      assert (Came(answers, a) + PolledBytes(answers[a])) + Between(answers, a + 1, b)
          == Came(answers, a) + (PolledBytes(answers[a]) + Between(answers, a + 1, b));
    }
  }

  /** Bytes are neither made up nor reordered by a read into a non-empty buffer; an empty one loses them all. */
  lemma {:induction false} ReadBytes(answers: seq<PollRead>, pending: seq<byte>, used: nat, cap: nat)
    requires used <= |answers|
    ensures var r := ReadOutcome(answers, pending, used, cap);
            && (cap > 0 ==> r.out + r.pending == pending + Between(answers, used, r.used))
            && (cap == 0 ==> r.out == [] && r.pending == [])
    decreases |answers| - used
  {
    hide Flatten;
    var r := ReadOutcome(answers, pending, used, cap);
    if pending != [] && cap > 0 {
      assert r.out + r.pending == pending;
    } else if used < |answers| {
      var got := answers[used];
      assert Between(answers, used + 1, used + 1) == [];
      if got.Got? && Flatten(got.parts) != [] {
        ReadBytes(answers, Flatten(got.parts), used + 1, cap);
      }
    }
  }

  /** An answer with bytes in it. */
  predicate HasBytes(answer: PollRead) {
    answer.Got? && Flatten(answer.parts) != []
  }

  /**
   How a read ends. Bytes always mean success, and fewer than asked for leave nothing pending; otherwise the last
   answer taken decides: the end of the stream, a failure, or nothing yet. Only answers with bytes are passed over.
   */
  lemma {:induction false} ReadEnds(answers: seq<PollRead>, pending: seq<byte>, used: nat, cap: nat)
    requires used <= |answers|
    ensures
      var r := ReadOutcome(answers, pending, used, cap);
      && (r.out != [] ==> r.status.Ready? && (|r.out| == cap || r.pending == []))
      && (r.out == [] && r.status.Ready? ==>
            used < r.used && (answers[r.used - 1].Ended? || (answers[r.used - 1].Got? && !HasBytes(answers[r.used - 1]))))
      && (r.status.ReadError? <==> used < r.used && answers[r.used - 1].ReadFailed?)
      && (r.status.ReadPending? ==> r.used == |answers| || (used < r.used && answers[r.used - 1].NotReady?))
      && (used < r.used && answers[r.used - 1].NotReady? ==> r.status.ReadPending?)
      && (forall j: nat | used <= j && j + 1 < r.used :: HasBytes(answers[j]))
    decreases |answers| - used
  {
    hide Flatten;
    if (pending == [] || cap == 0) && used < |answers| && HasBytes(answers[used]) {
      ReadEnds(answers, Flatten(answers[used].parts), used + 1, cap);
    }
  }

  // ---------- Runs ----------

  datatype Call = ReadInto(cap: nat) | WriteFrom(buf: seq<byte>)

  datatype Result = ReadResult(out: seq<byte>, read: ReadStatus) | WriteResult(write: WriteStatus)

  /** The stream after some calls: pending bytes, answers used on both sides, and what the calls returned. */
  datatype Trace = Trace(pending: seq<byte>, readAt: nat, writeAt: nat, results: seq<Result>)

  function Called(rs: seq<PollRead>, ws: seq<PollWrite>, t: Trace, call: Call): (t': Trace)
    requires t.readAt <= |rs| && t.writeAt <= |ws|
    ensures t.readAt <= t'.readAt <= |rs| && t'.writeAt <= |ws| && |t'.results| == |t.results| + 1
  {
    match call
    case ReadInto(cap) =>
      var r := ReadOutcome(rs, t.pending, t.readAt, cap);
      Trace(r.pending, r.used, t.writeAt, t.results + [ReadResult(r.out, r.status)])
    case WriteFrom(buf) =>
      var r := WriteOutcome(ws, t.writeAt, buf);
      t.(writeAt := r.1, results := t.results + [WriteResult(r.0)])
  }

  /** The run of a new stream through the calls, with these answers to come. */
  function Traced(rs: seq<PollRead>, ws: seq<PollWrite>, calls: seq<Call>): (t: Trace)
    ensures t.readAt <= |rs| && t.writeAt <= |ws| && |t.results| == |calls|
  {
    if calls == [] then Trace([], 0, 0, [])
    else Called(rs, ws, Traced(rs, ws, calls[..|calls| - 1]), calls[|calls| - 1])
  }

  /** What the reads of a run handed out. */
  function Delivered(results: seq<Result>): seq<byte> {
    if results == [] then []
    else
      var last := results[|results| - 1];
      Delivered(results[..|results| - 1]) + if last.ReadResult? then last.out else []
  }

  /** The part of the buffer that a write says it has written. */
  function Reported(call: Call, result: Result): seq<byte> {
    if call.WriteFrom? && result.WriteResult? && result.write.Wrote? && result.write.n <= |call.buf| then
      call.buf[..result.write.n]
    else []
  }

  /** The bytes of the writes as far as they were reported written. */
  function Written(calls: seq<Call>, results: seq<Result>): seq<byte>
    requires |calls| == |results|
  {
    if calls == [] then []
    else
      var n := |calls| - 1;
      Written(calls[..n], results[..n])
      + Reported(calls[n], results[n])
  }

  /** The total length of the writes that ended in an error. */
  function FailedLength(calls: seq<Call>, results: seq<Result>): nat
    requires |calls| == |results|
  {
    if calls == [] then 0
    else
      var n := |calls| - 1;
      FailedLength(calls[..n], results[..n])
      + if calls[n].WriteFrom? && results[n].WriteResult? && (results[n].write.BrokenPipe? || results[n].write.WriteError?)
        then |calls[n].buf| else 0
  }

  /** The bytes delivered and pending are those that came, in order. */
  ghost predicate Intact(rs: seq<PollRead>, ws: seq<PollWrite>, calls: seq<Call>) {
    var t := Traced(rs, ws, calls);
    Delivered(t.results) + t.pending == Came(rs, t.readAt)
  }

  /** A read into an empty buffer that meets bytes: pending ones, or ones that arrive during the call. */
  ghost predicate Loses(rs: seq<PollRead>, ws: seq<PollWrite>, calls: seq<Call>, k: nat)
    requires k < |calls|
  {
    var before, after := Traced(rs, ws, calls[..k]), Traced(rs, ws, calls[..k + 1]);
    calls[k] == ReadInto(0) && (before.pending != [] || Came(rs, before.readAt) != Came(rs, after.readAt))
  }

  /** None of the first n calls loses bytes. */
  ghost predicate NoneLoses(rs: seq<PollRead>, ws: seq<PollWrite>, calls: seq<Call>, n: nat)
    requires n <= |calls|
  {
    forall k: nat | k < n :: !Loses(rs, ws, calls, k)
  }

  ghost predicate NoEmptyReads(calls: seq<Call>) {
    forall k | 0 <= k < |calls| :: calls[k] != ReadInto(0)
  }

  lemma TraceStep(rs: seq<PollRead>, ws: seq<PollWrite>, calls: seq<Call>, k: nat)
    requires k < |calls|
    ensures Traced(rs, ws, calls[..k + 1]) == Called(rs, ws, Traced(rs, ws, calls[..k]), calls[k])
  {
    assert calls[..k + 1][..k] == calls[..k];
  }

  /** No call brings more than what came, and a run that has lost something never makes up for it. */
  lemma CallBytes(rs: seq<PollRead>, ws: seq<PollWrite>, t: Trace, call: Call)
    requires t.readAt <= |rs| && t.writeAt <= |ws|
    requires |Delivered(t.results)| + |t.pending| <= |Came(rs, t.readAt)|
    ensures var t' := Called(rs, ws, t, call);
            var had, has := |Delivered(t.results)| + |t.pending|, |Delivered(t'.results)| + |t'.pending|;
            var lost := call == ReadInto(0) && (t.pending != [] || Came(rs, t.readAt) != Came(rs, t'.readAt));
            && has <= |Came(rs, t'.readAt)|
            && (has == |Came(rs, t'.readAt)| <==> had == |Came(rs, t.readAt)| && !lost)
            && (!lost && Delivered(t.results) + t.pending == Came(rs, t.readAt) ==>
                  Delivered(t'.results) + t'.pending == Came(rs, t'.readAt))
  {
    hide ReadOutcome, WriteOutcome, Came, Between;
    var t' := Called(rs, ws, t, call);
    assert t'.results[..|t.results|] == t.results;
    if call.ReadInto? {
      ReadBytes(rs, t.pending, t.readAt, call.cap);
      var r := ReadOutcome(rs, t.pending, t.readAt, call.cap);
      CameBetween(rs, t.readAt, r.used);
      if call.cap > 0 {
        Regroup(Delivered(t.results), r.out, r.pending);
        Regroup(Delivered(t.results), t.pending, Between(rs, t.readAt, r.used));
      }
    }
  }

  /** How a trace stands: never ahead of what came, and level with it exactly when nothing was lost. */
  ghost predicate Standing(rs: seq<PollRead>, t: Trace, lossless: bool)
    requires t.readAt <= |rs|
  {
    var has := |Delivered(t.results)| + |t.pending|;
    && has <= |Came(rs, t.readAt)| && (has == |Came(rs, t.readAt)| <==> lossless)
    && (lossless ==> Delivered(t.results) + t.pending == Came(rs, t.readAt))
  }

  lemma StandingCall(rs: seq<PollRead>, ws: seq<PollWrite>, calls: seq<Call>, k: nat)
    requires k < |calls| && Standing(rs, Traced(rs, ws, calls[..k]), NoneLoses(rs, ws, calls, k))
    ensures Standing(rs, Traced(rs, ws, calls[..k + 1]), NoneLoses(rs, ws, calls, k + 1))
  {
    hide Traced, Called, Came, Delivered, NoneLoses;
    TraceStep(rs, ws, calls, k);
    CallBytes(rs, ws, Traced(rs, ws, calls[..k]), calls[k]);
    NoneLosesSnoc(rs, ws, calls, k);
  }

  lemma NoneLosesSnoc(rs: seq<PollRead>, ws: seq<PollWrite>, calls: seq<Call>, k: nat)
    requires k < |calls|
    ensures NoneLoses(rs, ws, calls, k + 1) <==> NoneLoses(rs, ws, calls, k) && !Loses(rs, ws, calls, k)
  {
    hide Loses;
  }

  lemma StandingStart(rs: seq<PollRead>, ws: seq<PollWrite>, calls: seq<Call>)
    ensures Standing(rs, Traced(rs, ws, calls[..0]), NoneLoses(rs, ws, calls, 0))
  {
    hide Loses;
    assert calls[..0] == [];
  }

  lemma {:induction false} StandingAlways(rs: seq<PollRead>, ws: seq<PollWrite>, calls: seq<Call>, k: nat)
    requires k <= |calls|
    ensures Standing(rs, Traced(rs, ws, calls[..k]), NoneLoses(rs, ws, calls, k))
  {
    hide Standing, Traced, NoneLoses;
    if k == 0 {
      StandingStart(rs, ws, calls);
    } else {
      StandingAlways(rs, ws, calls, k - 1);
      StandingCall(rs, ws, calls, k - 1);
    }
  }

  /** Under a given schedule the stream stays intact if and only if no read into an empty buffer meets bytes. */
  lemma IntactExactly(rs: seq<PollRead>, ws: seq<PollWrite>, calls: seq<Call>)
    ensures Intact(rs, ws, calls) <==> NoneLoses(rs, ws, calls, |calls|)
  {
    StandingAlways(rs, ws, calls, |calls|);
    assert calls[..|calls|] == calls;
    hide Traced, Came, Delivered, NoneLoses;
    var t := Traced(rs, ws, calls);
    assert |Delivered(t.results) + t.pending| == |Delivered(t.results)| + |t.pending|;
  }

  // ---------- Every schedule ----------

  function ReadCount(calls: seq<Call>): nat {
    if calls == [] then 0 else ReadCount(calls[..|calls| - 1]) + if calls[|calls| - 1].ReadInto? then 1 else 0
  }

  /** The inner reader stays pending n times and then gives one byte. */
  function Delayed(n: nat): seq<PollRead> {
    seq(n, _ => NotReady) + [Got([[0]])]
  }

  lemma {:induction false} DelayedCame(n: nat, k: nat)
    requires k <= n
    ensures Came(Delayed(n), k) == []
  {
    if k > 0 {
      DelayedCame(n, k - 1);
      CameStep(Delayed(n), k - 1);
    }
  }

  /** Each read uses up one pending answer. */
  lemma {:induction false} DelayedTrace(n: nat, calls: seq<Call>)
    requires ReadCount(calls) <= n
    ensures var t := Traced(Delayed(n), [], calls); t.readAt == ReadCount(calls) && t.pending == []
  {
    if calls != [] {
      DelayedTrace(n, calls[..|calls| - 1]);
    }
  }

  /** Whoever makes a read into an empty buffer can be given answers under which it loses a byte. */
  lemma EmptyReadCanLose(calls: seq<Call>, k: nat)
    requires k < |calls| && calls[k] == ReadInto(0)
    ensures Loses(Delayed(ReadCount(calls[..k])), [], calls, k)
  {
    var n := ReadCount(calls[..k]);
    var rs := Delayed(n);
    DelayedTrace(n, calls[..k]);
    TraceStep(rs, [], calls, k);
    DelayedCame(n, n);
    CameStep(rs, n);
    FlattenNone();
    assert Flatten([[0]]) == [0] + Flatten([[0]][1..]);
    assert [[0 as byte]][1..] == [];
    var t := Traced(rs, [], calls[..k]);
    var r := ReadOutcome(rs, [], n, 0);
    assert ReadOutcome(rs, [0], n + 1, 0) == ReadDone([], ReadPending, [], n + 1);
    assert Came(rs, n + 1) == [0];
  }

  ghost predicate AlwaysIntact(calls: seq<Call>) {
    forall rs, ws :: Intact(rs, ws, calls)
  }

  /** The stream is intact under every schedule if and only if no read has an empty buffer. */
  lemma IntactUnderAllSchedules(calls: seq<Call>)
    ensures AlwaysIntact(calls) <==> NoEmptyReads(calls)
  {
    hide Intact, Loses;
    if NoEmptyReads(calls) {
      forall rs, ws
        ensures Intact(rs, ws, calls)
      {
        IntactExactly(rs, ws, calls);
        NoneLosesUnlessEmpty(rs, ws, calls);
      }
    } else {
      var k: nat :| k < |calls| && calls[k] == ReadInto(0);
      var rs := Delayed(ReadCount(calls[..k]));
      EmptyReadCanLose(calls, k);
      IntactExactly(rs, [], calls);
      assert !Intact(rs, [], calls);
    }
  }

  lemma NoneLosesUnlessEmpty(rs: seq<PollRead>, ws: seq<PollWrite>, calls: seq<Call>)
    requires NoEmptyReads(calls)
    ensures NoneLoses(rs, ws, calls, |calls|)
  {
    hide Traced, Came;
  }

  /** Two bytes come in one piece; a one-byte read, an empty read and a large one deliver only the first. */
  lemma EmptyReadLoses(a: byte, b: byte)
    ensures var t := Traced([Got([[a, b]])], [], [ReadInto(1), ReadInto(0), ReadInto(2)]);
            Delivered(t.results) == [a] && t.pending == [] && Came([Got([[a, b]])], t.readAt) == [a, b]
  {
    var rs := [Got([[a, b]])];
    var c := [ReadInto(1), ReadInto(0), ReadInto(2)];
    FlattenNone();
    assert Flatten([[a, b]]) == [a, b] + Flatten([[a, b]][1..]) == [a, b];
    assert Came(rs, 0) == [] && Came(rs, 1) == [a, b];
    hide Flatten, Came;
    assert ReadOutcome(rs, [a, b], 1, 1) == ReadDone([a], Ready, [b], 1);
    assert ReadOutcome(rs, [], 0, 1) == ReadDone([a], Ready, [b], 1);
    assert c[..0] == [] && c[..3] == c;
    TraceStep(rs, [], c, 0);
    TraceStep(rs, [], c, 1);
    TraceStep(rs, [], c, 2);
    assert Traced(rs, [], []) == Trace([], 0, 0, []);
    hide Traced;
    var t1, t2, t3 := Traced(rs, [], c[..1]), Traced(rs, [], c[..2]), Traced(rs, [], c);
    assert t1 == Trace([b], 1, 0, [ReadResult([a], Ready)]);
    assert t2 == Trace([], 1, 0, [ReadResult([a], Ready), ReadResult([], ReadPending)]);
    assert t3 == Trace([], 1, 0, [ReadResult([a], Ready), ReadResult([], ReadPending), ReadResult([], ReadPending)]);
    assert t3.results[..2] == t2.results && t2.results[..1] == t1.results && t1.results[..0] == [];
    assert Delivered([]) == [];
    assert Delivered(t1.results) == [a];
    assert Delivered(t2.results) == [a];
    assert Delivered(t3.results) == [a];
  }

  // ---------- The stream object ----------

  class Stream {
    var pending: seq<seq<byte>>
    const reader: SizeStatReader
    const writer: SizeStatWriter

    ghost predicate Valid()
      reads this, reader, writer
    {
      reader.Valid() && writer.Valid()
    }

    constructor (reader: SizeStatReader, writer: SizeStatWriter)
      requires reader.Valid() && writer.Valid()
      ensures Valid() && this.reader == reader && this.writer == writer && pending == []
    {
      this.reader, this.writer := reader, writer;
      pending := [];
    }

    method PollRead(cap: nat) returns (out: seq<byte>, status: ReadStatus)
      requires Valid()
      modifies this`pending, reader
      ensures Valid()
      ensures ReadDone(out, status, Flatten(pending), reader.next)
           == ReadOutcome(reader.answers, Flatten(old(pending)), old(reader.next), cap)
    {
      hide Came, PolledBytes, Flatten;
      while true
        invariant Valid()
        invariant ReadOutcome(reader.answers, Flatten(pending), reader.next, cap)
               == ReadOutcome(reader.answers, Flatten(old(pending)), old(reader.next), cap)
        decreases |reader.answers| - reader.next
      {
        FlattenNone();
        if Length(pending) > 0 {
          var rest;
          out, rest := ReadTo(pending, cap);
          if |out| > 0 {
            FrontOf(out, Flatten(rest), Flatten(pending));
            pending := rest;
            return out, Ready;
          }
          pending := [];
        }
        var got := reader.Poll();
        match got {
          case Got(parts) =>
            if Length(parts) == 0 {
              return [], Ready;
            }
            FlattenConcat(pending, parts);
            assert [] + Flatten(parts) == Flatten(parts);
            pending := pending + parts;
          case Ended =>
            return [], Ready;
          case ReadFailed =>
            return [], ReadError;
          case NotReady =>
            return [], ReadPending;
        }
      }
    }

    /** A write is passed on whole and reported whole; while it is pending nothing is passed on. */
    method PollWrite(buf: seq<byte>) returns (r: WriteStatus)
      requires Valid()
      modifies writer
      ensures Valid() && (r, writer.next) == WriteOutcome(writer.answers, old(writer.next), buf)
      ensures r.Wrote? ==> r.n == |buf|
      ensures old(writer.next) < |writer.answers| && buf != [] ==>
                var answer := writer.answers[old(writer.next)];
                && (r.Wrote? <==> answer.Accepted?) && (r.BrokenPipe? <==> answer.Closed?)
                && (r.WriteError? <==> answer.WriteFailed?) && (r.WritePending? <==> answer.Busy?)
      ensures old(writer.next) == |writer.answers| && buf != [] ==> r.WritePending?
      ensures writer.reached == old(writer.reached) + if r.Wrote? then buf else []
      ensures writer.counter == old(writer.counter) + if r.WritePending? then 0 else |buf|
    {
      if buf == [] {
        return Wrote(0);
      }
      var got := writer.Poll(buf);
      match got {
        case Accepted => r := Wrote(|buf|);
        case Closed => r := BrokenPipe;
        case WriteFailed => r := WriteError;
        case Busy => r := WritePending;
      }
    }

    /** The calls in turn. What they return and where the stream ends up is the traced run. */
    method Run(calls: seq<Call>) returns (results: seq<Result>)
      requires Valid() && pending == [] && reader.next == 0 && writer.next == 0 && writer.reached == [] && writer.counter == 0
      modifies this`pending, reader, writer
      ensures Valid()
      ensures Trace(Flatten(pending), reader.next, writer.next, results) == Traced(reader.answers, writer.answers, calls)
      ensures |results| == |calls| && writer.reached == Written(calls, results)
      ensures writer.counter == |Written(calls, results)| + FailedLength(calls, results)
      ensures reader.counter == |Came(reader.answers, reader.next)|
    {
      results := [];
      FlattenNone();
      for i := 0 to |calls|
        invariant Valid()
        invariant Trace(Flatten(pending), reader.next, writer.next, results) == Traced(reader.answers, writer.answers, calls[..i])
        invariant writer.reached == Written(calls[..i], results)
        invariant writer.counter == |Written(calls[..i], results)| + FailedLength(calls[..i], results)
      {
        hide Came, Flatten, Traced, ReadOutcome, WriteOutcome;
        TraceStep(reader.answers, writer.answers, calls, i);
        var result;
        match calls[i] {
          case ReadInto(cap) =>
            var out, status := PollRead(cap);
            result := ReadResult(out, status);
          case WriteFrom(buf) =>
            var r := PollWrite(buf);
            result := WriteResult(r);
        }
        Recorded(calls, results, result, i);
        assert calls[i].WriteFrom? ==> calls[i].buf[..|calls[i].buf|] == calls[i].buf;
        hide Written, FailedLength;
        results := results + [result];
      }
      assert calls[..|calls|] == calls;
    }
  }

  lemma Recorded(calls: seq<Call>, results: seq<Result>, result: Result, i: nat)
    requires i < |calls| && |results| == i
    ensures var all := results + [result]; var call := calls[i];
            && Written(calls[..i + 1], all) == Written(calls[..i], results)
                 + Reported(call, result)
            && FailedLength(calls[..i + 1], all) == FailedLength(calls[..i], results)
                 + (if call.WriteFrom? && result.WriteResult? && (result.write.BrokenPipe? || result.write.WriteError?)
                    then |call.buf| else 0)
  {
    assert calls[..i + 1][..i] == calls[..i];
    assert (results + [result])[..i] == results;
  }

  lemma FrontOf(out: seq<byte>, rest: seq<byte>, whole: seq<byte>)
    requires out + rest == whole
    ensures out == whole[..|out|] && rest == whole[|out|..]
  {
  }
}
