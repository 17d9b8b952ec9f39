/**
 Reading ahead to recognise a protocol: the caching reader and the retry loop around the sniffer. Time and
 the sniffer's verdicts are given per round, so any sniffer state and any timing is covered.
 */
module SniffLoop {
  import opened Bytes

  const SNIFF_BUDGET: nat := 200

  // ---------- The source ----------

  /** The bytes still to come from the k-th answer on. */
  function Left(answers: seq<Read>, k: nat): seq<byte>
    requires k <= |answers|
    decreases |answers| - k
  {
    if k == |answers| then [] else BytesOf(answers[k]) + Left(answers, k + 1)
  }

  lemma LeftStep(answers: seq<Read>, k: nat)
    requires k < |answers|
    ensures Left(answers, k) == BytesOf(answers[k]) + Left(answers, k + 1)
  {
  }

  function CachedBytes(cache: Option<seq<seq<byte>>>): seq<byte> {
    if cache.Some? then Flatten(cache.value) else []
  }

  /** What one attempt to fill the cache came to; `Late` is a read that did not finish in time. */
  datatype Filled = More | AtEnd | IoFailed | Late

  class CachedReader {
    const hasInner: bool
    const answers: seq<Read>
    var next: nat
    var cache: Option<seq<seq<byte>>>

    ghost predicate Valid()
      reads this
    {
      next <= |answers| && (cache.Some? ==> Flatten(cache.value) != [])
    }

    /** Everything a consumer of this reader will see: the cache, then the rest of the source. */
    ghost function Rest(): seq<byte>
      requires Valid()
      reads this
    {
      CachedBytes(cache) + Left(answers, next)
    }

    constructor (answers: seq<Read>)
      ensures Valid() && hasInner && this.answers == answers && Rest() == Left(answers, 0) && cache == None && next == 0
    {
      hasInner, this.answers, next, cache := true, answers, 0, None;
    }

    /** A reader that was given no source. */
    constructor Empty()
      ensures Valid() && !hasInner && Rest() == [] && cache == None
    {
      hasInner, answers, next, cache := false, [], 0, None;
    }

    /** Reads the first packet, unless one is cached already; an empty one is not cached. */
    method ReadFirst() returns (r: Filled)
      requires Valid() && (cache.None? && hasInner ==> next < |answers|)
      modifies this`next, this`cache
      ensures Valid() && Rest() == old(Rest()) && (r.More? || r.IoFailed?)
      ensures old(cache).Some? ==> r.More? && cache == old(cache) && next == old(next)
      ensures old(cache).None? && hasInner ==> next == old(next) + 1 && CachedBytes(cache) == BytesOf(answers[old(next)])
      ensures old(cache).None? ==> (r.IoFailed? <==> !hasInner || answers[old(next)].Failed?)
      ensures old(cache).None? && !hasInner ==> next == old(next) && cache == None
    {
      hide Flatten, Left;
      if cache.Some? {
        return More;
      }
      if !hasInner {
        return IoFailed;
      }
      LeftStep(answers, next);
      var got := answers[next];
      next := next + 1;
      if got.Failed? {
        return IoFailed;
      }
      if Flatten(got.parts) != [] {
        cache := Some(got.parts);
      }
      r := More;
    }

    /** Appends one more packet behind the cached ones. */
    method ReadMore() returns (r: Filled)
      requires Valid() && (hasInner ==> next < |answers|)
      modifies this`next, this`cache
      ensures Valid() && Rest() == old(Rest())
      ensures !hasInner ==> r.IoFailed? && next == old(next) && cache == old(cache)
      ensures hasInner ==>
        && next == old(next) + 1
        && CachedBytes(cache) == CachedBytes(old(cache)) + BytesOf(answers[old(next)])
        && r == if answers[old(next)].Failed? then IoFailed else if BytesOf(answers[old(next)]) == [] then AtEnd else More
    {
      hide Flatten, Left;
      if !hasInner {
        return IoFailed;
      }
      LeftStep(answers, next);
      var got := answers[next];
      next := next + 1;
      if got.Failed? {
        return IoFailed;
      }
      if Flatten(got.parts) == [] {
        return AtEnd;
      }
      if cache.Some? {
        FlattenConcat(cache.value, got.parts);
        Regroup(Flatten(cache.value), Flatten(got.parts), Left(answers, next));
        cache := Some(cache.value + got.parts);
      } else {
        cache := Some(got.parts);
      }
      r := More;
    }

    /** The handler's read: the cache once, then the source. */
    method ReadMultiBuffer() returns (r: Option<seq<seq<byte>>>)
      requires Valid() && (cache.None? && hasInner ==> next < |answers|)
      modifies this`next, this`cache
      ensures Valid() && cache.None? && old(Rest()) == (if r.Some? then Flatten(r.value) else []) + Rest()
      ensures next == if old(cache).None? && hasInner then old(next) + 1 else old(next)
      ensures r.None? ==> old(cache).None? && (!hasInner || answers[old(next)].Failed?)
    {
      hide Flatten, Left;
      if cache.Some? {
        r := cache;
        cache := None;
        return;
      }
      if !hasInner {
        return None;
      }
      LeftStep(answers, next);
      var got := answers[next];
      next := next + 1;
      r := if got.Buffers? then Some(got.parts) else None;
    }

    /** A handler that reads the source to its end receives exactly what was left to see. */
    method ReadAll() returns (all: seq<byte>)
      requires Valid() && hasInner
      modifies this`next, this`cache
      ensures all == old(Rest())
    {
      hide Flatten, Left;
      all := [];
      while cache.Some? || next < |answers|
        invariant Valid() && all + Rest() == old(Rest())
        decreases |answers| - next, if cache.Some? then 1 else 0
      {
        ghost var before, rest := all, Rest();
        var r := ReadMultiBuffer();
        if r.Some? {
          Regroup(before, Flatten(r.value), Rest());
          all := all + Flatten(r.value);
        }
      }
      LeftNone(answers);
    }
  }

  lemma LeftNone(answers: seq<Read>)
    ensures Left(answers, |answers|) == []
  {
  }

  // ---------- The retry loop ----------

  datatype Verdict = Hit(protocol: string, domain: string) | NoClue | NeedMore | Refused(reason: string)

  datatype Outcome = Recognised(protocol: string, domain: string) | StreamEnded | ReadFailed | GaveUp | Rejected(reason: string)

  /** What a round may bring: the read does not finish in time, or takes so many milliseconds. */
  datatype Pace = TimesOut | Takes(millis: nat)

  /** The verdict of the sniffer in a round; it may depend on all earlier rounds through its number. */
  type Judge = (nat, seq<byte>) -> Verdict

  /** A round that counts as an attempt: nothing to look at, or no clue in it. */
  predicate Quiet(judge: Judge, k: nat, payload: seq<byte>) {
    payload == [] || judge(k, payload).NoClue?
  }

  /** The number of attempts used by the payloads so far. */
  function Attempts(judge: Judge, payloads: seq<seq<byte>>): nat {
    if payloads == [] then 0
    else
      var k := |payloads| - 1;
      Attempts(judge, payloads[..k]) + if Quiet(judge, k, payloads[k]) then 1 else 0
  }

  /** A round after which the loop may go on. */
  predicate Inconclusive(judge: Judge, k: nat, payload: seq<byte>) {
    Quiet(judge, k, payload) || judge(k, payload).NeedMore?
  }

  /** The budget left after k rounds. */
  function Budget(pace: nat -> Pace, k: nat): nat {
    if k == 0 then SNIFF_BUDGET
    else
      var before := Budget(pace, k - 1);
      var spent := if pace(k - 1).Takes? then pace(k - 1).millis else 0;
      if spent < before then before - spent else 0
  }

  /** Each payload is a part of the stream from its start, and strictly extends the one before. */
  ghost predicate Growing(payloads: seq<seq<byte>>, whole: seq<byte>) {
    && (forall k | 0 <= k < |payloads| :: payloads[k] <= whole)
    && (forall j, k | 0 <= j < k < |payloads| :: payloads[j] < payloads[k])
  }

  lemma GrowingSnoc(payloads: seq<seq<byte>>, whole: seq<byte>, p: seq<byte>)
    requires Growing(payloads, whole) && p <= whole
    requires payloads != [] ==> payloads[|payloads| - 1] < p
    ensures Growing(payloads + [p], whole)
  {
    forall j | 0 <= j < |payloads|
      ensures payloads[j] < p
    {
      if j < |payloads| - 1 {
        assert payloads[j] < payloads[|payloads| - 1];
      }
    }
  }

  /** The loop went on after every one of these rounds: inconclusive, under two attempts, budget left. */
  ghost predicate WentOn(judge: Judge, pace: nat -> Pace, payloads: seq<seq<byte>>, n: nat)
    requires n <= |payloads|
  {
    forall k: nat | k < n :: GoesOn(judge, pace, payloads, k)
  }

  predicate GoesOn(judge: Judge, pace: nat -> Pace, payloads: seq<seq<byte>>, k: nat)
    requires k < |payloads|
  {
    Inconclusive(judge, k, payloads[k]) && Attempts(judge, payloads[..k + 1]) < 2 && Budget(pace, k + 1) > 0
  }

  /** Why the loop ended, from the rounds it went through. */
  ghost predicate EndsWith(judge: Judge, pace: nat -> Pace, payloads: seq<seq<byte>>, o: Outcome) {
    var n := |payloads|;
    match o
    case Recognised(protocol, domain) =>
      n > 0 && WentOn(judge, pace, payloads, n - 1) && payloads[n - 1] != [] && judge(n - 1, payloads[n - 1]) == Hit(protocol, domain)
    case Rejected(reason) =>
      n > 0 && WentOn(judge, pace, payloads, n - 1) && payloads[n - 1] != [] && judge(n - 1, payloads[n - 1]) == Refused(reason)
    case StreamEnded => n > 0 && WentOn(judge, pace, payloads, n)
    case ReadFailed => WentOn(judge, pace, payloads, n)
    case GaveUp =>
      || WentOn(judge, pace, payloads, n)
      || (n > 0 && WentOn(judge, pace, payloads, n - 1) && Inconclusive(judge, n - 1, payloads[n - 1])
          && (Attempts(judge, payloads) == 2 || Budget(pace, n) == 0))
  }

  lemma AttemptsSnoc(judge: Judge, payloads: seq<seq<byte>>, p: seq<byte>)
    ensures Attempts(judge, payloads + [p]) == Attempts(judge, payloads) + if Quiet(judge, |payloads|, p) then 1 else 0
  {
    assert (payloads + [p])[..|payloads|] == payloads;
  }

  lemma WentOnKept(judge: Judge, pace: nat -> Pace, payloads: seq<seq<byte>>, p: seq<byte>)
    requires WentOn(judge, pace, payloads, |payloads|)
    ensures WentOn(judge, pace, payloads + [p], |payloads|)
  {
    hide Inconclusive, Attempts, Budget;
    forall k: nat | k < |payloads|
      ensures GoesOn(judge, pace, payloads + [p], k)
    {
      assert GoesOn(judge, pace, payloads, k);
      assert (payloads + [p])[..k + 1] == payloads[..k + 1];
    }
  }

  lemma WentOnSnoc(judge: Judge, pace: nat -> Pace, payloads: seq<seq<byte>>, p: seq<byte>)
    requires WentOn(judge, pace, payloads + [p], |payloads|)
    requires Inconclusive(judge, |payloads|, p) && Attempts(judge, payloads + [p]) < 2 && Budget(pace, |payloads| + 1) > 0
    ensures WentOn(judge, pace, payloads + [p], |payloads| + 1)
  {
    hide Inconclusive, Attempts, Budget;
    assert (payloads + [p])[..|payloads| + 1] == payloads + [p];
  }

  lemma PayloadIsPrefix(cached: seq<byte>, left: seq<byte>, whole: seq<byte>)
    requires cached + left == whole
    ensures cached <= whole
  {
  }

  // ---------- What each round reads ----------

  /** The connection before sniffing: bytes cached already, and the source from its answer `start` on. */
  datatype Source = Source(hasInner: bool, answers: seq<Read>, cached: seq<byte>, start: nat) {
    ghost predicate Valid() {
      start <= |answers|
    }
  }

  /** Where the source stands after n rounds: one answer each, except that a cached packet serves the first. */
  function Reached(src: Source, n: nat): nat {
    src.start + if src.cached != [] && n > 0 then n - 1 else n
  }

  /** All that was read after n rounds: the cache and every answer since. */
  function Seen(src: Source, n: nat): seq<byte>
    requires src.Valid() && Reached(src, n) <= |src.answers|
  {
    src.cached + Arrived(src.answers[src.start..Reached(src, n)])
  }

  /** How the read of round n ends the loop, if it does: no source, too late, a failure, or the end. */
  function ReadEnds(src: Source, n: nat, pace: Pace): Option<Outcome>
    requires Reached(src, n) <= |src.answers|
  {
    var at := Reached(src, n);
    if n == 0 && src.cached != [] then None
    else if !src.hasInner then Some(ReadFailed)
    else if pace.TimesOut? || at == |src.answers| then Some(GaveUp)
    else if src.answers[at].Failed? then Some(ReadFailed)
    else if n > 0 && EndOfStream(src.answers[at]) then Some(StreamEnded)
    else None
  }

  /** Every one of these rounds got its read, and its payload is all that was read so far. */
  ghost predicate Rounds(src: Source, pace: nat -> Pace, payloads: seq<seq<byte>>) {
    && src.Valid() && Reached(src, |payloads|) <= |src.answers|
    && forall k: nat | k < |payloads| :: ReadEnds(src, k, pace(k)).None? && payloads[k] == Seen(src, k + 1)
  }

  lemma SeenStep(src: Source, n: nat)
    requires src.Valid() && Reached(src, n) < |src.answers| && !(n == 0 && src.cached != [])
    ensures Reached(src, n + 1) == Reached(src, n) + 1
    ensures Seen(src, n + 1) == Seen(src, n) + BytesOf(src.answers[Reached(src, n)])
  {
    hide Arrived, BytesOf;
    var rest, k := src.answers[src.start..], Reached(src, n) - src.start;
    ArrivedStep(rest, k);
    assert rest[..k] == src.answers[src.start..Reached(src, n)];
    assert rest[..k + 1] == src.answers[src.start..Reached(src, n) + 1];
    Regroup(src.cached, Arrived(rest[..k]), BytesOf(rest[k]));
  }

  lemma SeenFirst(src: Source)
    requires src.Valid()
    ensures Seen(src, 0) == src.cached
    ensures src.cached != [] ==> Reached(src, 1) == src.start && Seen(src, 1) == src.cached
  {
    ArrivedNone();
    assert src.answers[src.start..src.start] == [];
  }

  lemma RoundsSnoc(src: Source, pace: nat -> Pace, payloads: seq<seq<byte>>, p: seq<byte>)
    requires Rounds(src, pace, payloads) && Reached(src, |payloads| + 1) <= |src.answers|
    requires ReadEnds(src, |payloads|, pace(|payloads|)).None? && p == Seen(src, |payloads| + 1)
    ensures Rounds(src, pace, payloads + [p])
  {
    hide Seen, ReadEnds;
  }

  /** The read of one round. */
  method Fetch(cr: CachedReader, round: nat, pace: Pace, ghost src: Source) returns (filled: Filled)
    requires cr.Valid() && src.Valid() && src.hasInner == cr.hasInner && src.answers == cr.answers
    requires Reached(src, round) == cr.next && CachedBytes(cr.cache) == Seen(src, round)
    modifies cr`next, cr`cache
    ensures cr.Valid() && cr.Rest() == old(cr.Rest())
    ensures match ReadEnds(src, round, pace)
            case None =>
              && filled.More? && Reached(src, round + 1) == cr.next && CachedBytes(cr.cache) == Seen(src, round + 1)
              && (round > 0 ==> CachedBytes(old(cr.cache)) < CachedBytes(cr.cache) && cr.next == old(cr.next) + 1)
            case Some(o) =>
              && CachedBytes(cr.cache) == CachedBytes(old(cr.cache))
              && (if o.GaveUp? then filled.Late? else if o.StreamEnded? then filled.AtEnd? else filled.IoFailed?)
              && cr.next == old(cr.next) + if o.GaveUp? || !cr.hasInner then 0 else 1
  {
    hide Flatten, Left, Seen;
    SeenFirst(src);
    if cr.hasInner && !(round == 0 && cr.cache.Some?) && (pace.TimesOut? || cr.next == |cr.answers|) {
      return Late;
    }
    if cr.next < |cr.answers| && !(round == 0 && src.cached != []) {
      SeenStep(src, round);
    }
    if round == 0 {
      filled := cr.ReadFirst();
    } else {
      filled := cr.ReadMore();
    }
  }

  /** The state of the loop between two rounds. */
  ghost predicate Ongoing(judge: Judge, pace: nat -> Pace, payloads: seq<seq<byte>>, whole: seq<byte>, attempts: nat, deadline: nat) {
    && Growing(payloads, whole) && WentOn(judge, pace, payloads, |payloads|)
    && attempts == Attempts(judge, payloads) < 2 && deadline == Budget(pace, |payloads|)
  }

  /** The state of the loop once it has ended. */
  ghost predicate Over(judge: Judge, pace: nat -> Pace, payloads: seq<seq<byte>>, whole: seq<byte>, o: Outcome) {
    Growing(payloads, whole) && EndsWith(judge, pace, payloads, o) && Attempts(judge, payloads) <= 2
  }

  lemma OverBeforeRound(judge: Judge, pace: nat -> Pace, payloads: seq<seq<byte>>, whole: seq<byte>, attempts: nat, deadline: nat)
    requires Ongoing(judge, pace, payloads, whole, attempts, deadline)
    ensures Over(judge, pace, payloads, whole, GaveUp) && Over(judge, pace, payloads, whole, ReadFailed)
    ensures payloads != [] ==> Over(judge, pace, payloads, whole, StreamEnded)
  {
    hide Growing, WentOn, Attempts, Budget, Inconclusive;
  }

  /** What a round makes of its payload: an outcome, or the attempts and budget to go on with. */
  method Conclude(judge: Judge, ghost pace: nat -> Pace, ghost payloads: seq<seq<byte>>, ghost whole: seq<byte>,
                  round: nat, payload: seq<byte>, attempts: nat, ghost deadline: nat, left: nat)
    returns (o: Option<Outcome>, attempts': nat)
    requires Ongoing(judge, pace, payloads, whole, attempts, deadline) && round == |payloads| && payload <= whole
    requires payloads != [] ==> payloads[|payloads| - 1] < payload
    requires left == Budget(pace, round + 1)
    ensures o.Some? ==> Over(judge, pace, payloads + [payload], whole, o.value)
    ensures o.Some? ==> !o.value.ReadFailed? && !o.value.StreamEnded?
    ensures o.Some? ==> !WentOn(judge, pace, payloads + [payload], |payloads| + 1)
    ensures o.None? ==> Ongoing(judge, pace, payloads + [payload], whole, attempts', left)
  {
    hide Growing, WentOn, Attempts, Budget;
    GrowingSnoc(payloads, whole, payload);
    AttemptsSnoc(judge, payloads, payload);
    WentOnKept(judge, pace, payloads, payload);
    attempts' := attempts;
    if payload == [] {
      attempts' := attempts + 1;
    } else {
      match judge(round, payload) {
        case Hit(protocol, domain) =>
          Decisive(judge, pace, payloads, payload);
          return Some(Recognised(protocol, domain)), attempts;
        case NoClue => attempts' := attempts + 1;
        case NeedMore =>
        case Refused(reason) =>
          Decisive(judge, pace, payloads, payload);
          return Some(Rejected(reason)), attempts;
      }
    }
    if attempts' >= 2 || left == 0 {
      LastRound(judge, pace, payloads, payload);
      return Some(GaveUp), attempts';
    }
    WentOnSnoc(judge, pace, payloads, payload);
    o := None;
  }

  /**
   The rounds of one connection. Every payload shown to the sniffer is all that was read so far, each round but a
   cached first one takes one answer, and the loop ends at the first read or verdict that ends it. Whatever the
   outcome, what the handler will read is what it would have read without sniffing.
   */
  method SniffConnection(cr: CachedReader, judge: Judge, pace: nat -> Pace) returns (o: Outcome, ghost payloads: seq<seq<byte>>)
    requires cr.Valid()
    modifies cr`next, cr`cache
    ensures cr.Valid() && cr.Rest() == old(cr.Rest())
    ensures Over(judge, pace, payloads, cr.Rest(), o)
    ensures payloads != [] ==> CachedBytes(cr.cache) == payloads[|payloads| - 1]
    ensures var src := Source(cr.hasInner, cr.answers, CachedBytes(old(cr.cache)), old(cr.next)); var n := |payloads|;
            && Rounds(src, pace, payloads)
            && (WentOn(judge, pace, payloads, n) ==> ReadEnds(src, n, pace(n)) == Some(o))
            && cr.next == Reached(src, n)
                 + if WentOn(judge, pace, payloads, n) && cr.hasInner && !o.GaveUp? then 1 else 0
  {
    hide Flatten, Left, Attempts, Growing, WentOn, Budget, Over, Seen, ReadEnds;
    payloads := [];
    NothingYet(judge, pace, cr.Rest());
    ghost var src := Source(cr.hasInner, cr.answers, CachedBytes(cr.cache), cr.next);
    SeenFirst(src);
    var deadline := SNIFF_BUDGET;
    var attempts: nat := 0;
    var round: nat := 0;
    assert Rounds(src, pace, payloads);
    hide Ongoing, Rounds;
    while true
      invariant cr.Valid() && cr.Rest() == old(cr.Rest()) && round == |payloads|
      invariant Ongoing(judge, pace, payloads, cr.Rest(), attempts, deadline)
      invariant round > 0 ==> CachedBytes(cr.cache) == payloads[round - 1]
      invariant Rounds(src, pace, payloads) && Reached(src, round) == cr.next && CachedBytes(cr.cache) == Seen(src, round)
      decreases |cr.answers| - cr.next, if round == 0 then 1 else 0
    {
      OverBeforeRound(judge, pace, payloads, cr.Rest(), attempts, deadline);
      var filled := Fetch(cr, round, pace(round), src);
      ReadEndsHow(src, round, pace(round));
      match filled {
        case Late => return GaveUp, payloads;
        case AtEnd => return StreamEnded, payloads;
        case IoFailed => return ReadFailed, payloads;
        case More =>
      }
      BudgetLeft(judge, pace, payloads, cr.Rest(), attempts, deadline);
      var spent := if pace(round).Takes? then pace(round).millis else 0;
      var left := if spent < deadline then deadline - spent else 0;
      var payload := CachedBytes(cr.cache);
      PayloadIsPrefix(payload, Left(cr.answers, cr.next), cr.Rest());
      var done;
      done, attempts := Conclude(judge, pace, payloads, cr.Rest(), round, payload, attempts, deadline, left);
      RoundsSnoc(src, pace, payloads, payload);
      payloads := payloads + [payload];
      if done.Some? {
        return done.value, payloads;
      }
      deadline := left;
      round := round + 1;
    }
  }

  lemma ReadEndsHow(src: Source, n: nat, pace: Pace)
    requires Reached(src, n) <= |src.answers|
    ensures var e := ReadEnds(src, n, pace); e.Some? ==> e.value.GaveUp? || e.value.ReadFailed? || e.value.StreamEnded?
    ensures var e := ReadEnds(src, n, pace); e.Some? && e.value.StreamEnded? ==> n > 0 && src.hasInner
  {
  }

  lemma BudgetLeft(judge: Judge, pace: nat -> Pace, payloads: seq<seq<byte>>, whole: seq<byte>, attempts: nat, deadline: nat)
    requires Ongoing(judge, pace, payloads, whole, attempts, deadline)
    ensures var spent := if pace(|payloads|).Takes? then pace(|payloads|).millis else 0;
            Budget(pace, |payloads| + 1) == if spent < deadline then deadline - spent else 0
  {
    hide Growing, WentOn, Attempts;
    BudgetStep(pace, |payloads|);
  }

  lemma NothingYet(judge: Judge, pace: nat -> Pace, whole: seq<byte>)
    ensures Growing([], whole) && WentOn(judge, pace, [], 0) && Attempts(judge, []) == 0 && Budget(pace, 0) == SNIFF_BUDGET
  {
  }

  lemma BudgetStep(pace: nat -> Pace, k: nat)
    ensures var spent := if pace(k).Takes? then pace(k).millis else 0;
            Budget(pace, k + 1) == if spent < Budget(pace, k) then Budget(pace, k) - spent else 0
  {
  }

  lemma Decisive(judge: Judge, pace: nat -> Pace, payloads: seq<seq<byte>>, p: seq<byte>)
    requires !Inconclusive(judge, |payloads|, p)
    ensures !WentOn(judge, pace, payloads + [p], |payloads| + 1)
  {
    hide Inconclusive, Attempts, Budget;
    assert !GoesOn(judge, pace, payloads + [p], |payloads|);
  }

  /** A round that used up the attempts or the budget is not one the loop went on after. */
  lemma LastRound(judge: Judge, pace: nat -> Pace, payloads: seq<seq<byte>>, p: seq<byte>)
    requires Attempts(judge, payloads + [p]) >= 2 || Budget(pace, |payloads| + 1) == 0
    ensures !WentOn(judge, pace, payloads + [p], |payloads| + 1)
  {
    hide Inconclusive, Attempts, Budget;
    var all, k := payloads + [p], |payloads|;
    assert all[..k + 1] == all;
    assert !GoesOn(judge, pace, all, k);
  }

  // ---------- When the loop goes on ----------

  /** The milliseconds of the first k rounds. */
  function Spent(pace: nat -> Pace, k: nat): nat {
    if k == 0 then 0 else Spent(pace, k - 1) + if pace(k - 1).Takes? then pace(k - 1).millis else 0
  }

  lemma {:induction false} BudgetIs(pace: nat -> Pace, k: nat)
    ensures Budget(pace, k) == if Spent(pace, k) < 200 then 200 - Spent(pace, k) else 0
  {
    if k > 0 {
      BudgetIs(pace, k - 1);
    }
  }

  /** A round that brings nothing new to go by. */
  ghost predicate SaysNothing(judge: Judge, payloads: seq<seq<byte>>, k: nat)
    requires k < |payloads|
  {
    payloads[k] == [] || judge(k, payloads[k]) == NoClue
  }

  /** Among the first n rounds two say nothing. */
  ghost predicate TwiceNothing(judge: Judge, payloads: seq<seq<byte>>, n: nat)
    requires n <= |payloads|
  {
    exists i: nat, j: nat | i < j < n :: SaysNothing(judge, payloads, i) && SaysNothing(judge, payloads, j)
  }

  lemma {:induction false} AttemptsAre(judge: Judge, payloads: seq<seq<byte>>, n: nat)
    requires n <= |payloads|
    ensures Attempts(judge, payloads[..n]) == 0 <==> forall i: nat | i < n :: !SaysNothing(judge, payloads, i)
    ensures Attempts(judge, payloads[..n]) >= 2 <==> TwiceNothing(judge, payloads, n)
  {
    if n > 0 {
      AttemptsAre(judge, payloads, n - 1);
      assert payloads[..n] == payloads[..n - 1] + [payloads[n - 1]];
      AttemptsSnoc(judge, payloads[..n - 1], payloads[n - 1]);
      assert Quiet(judge, n - 1, payloads[n - 1]) <==> SaysNothing(judge, payloads, n - 1);
      hide SaysNothing, Attempts;
      if SaysNothing(judge, payloads, n - 1) && Attempts(judge, payloads[..n - 1]) > 0 {
        var i: nat :| i < n - 1 && SaysNothing(judge, payloads, i);
        assert TwiceNothing(judge, payloads, n);
      }
    }
  }

  lemma SpentGrows(pace: nat -> Pace, j: nat, k: nat)
    requires j <= k
    ensures Spent(pace, j) <= Spent(pace, k)
    decreases k
  {
    if j < k {
      SpentGrows(pace, j, k - 1);
    }
  }

  /**
   The loop goes on after n rounds if and only if each of them was inconclusive, at most one said nothing, and
   together they took less than 200 milliseconds.
   */
  lemma GoesOnExactly(judge: Judge, pace: nat -> Pace, payloads: seq<seq<byte>>, n: nat)
    requires 0 < n <= |payloads|
    ensures WentOn(judge, pace, payloads, n) <==>
            && (forall k: nat | k < n :: SaysNothing(judge, payloads, k) || judge(k, payloads[k]) == NeedMore)
            && !TwiceNothing(judge, payloads, n) && Spent(pace, n) < 200
  {
    hide GoesOn, SaysNothing, TwiceNothing, Spent;
    forall k: nat | k < n
      ensures GoesOn(judge, pace, payloads, k) <==>
              && (SaysNothing(judge, payloads, k) || judge(k, payloads[k]) == NeedMore)
              && !TwiceNothing(judge, payloads, k + 1) && Spent(pace, k + 1) < 200
      ensures !TwiceNothing(judge, payloads, n) && Spent(pace, n) < 200 ==>
                (GoesOn(judge, pace, payloads, k) <==> SaysNothing(judge, payloads, k) || judge(k, payloads[k]) == NeedMore)
    {
      GoesOnIs(judge, pace, payloads, k);
      SpentGrows(pace, k + 1, n);
      TwiceLater(judge, payloads, k + 1, n);
    }
    assert WentOn(judge, pace, payloads, n) ==> GoesOn(judge, pace, payloads, n - 1);
  }

  lemma GoesOnIs(judge: Judge, pace: nat -> Pace, payloads: seq<seq<byte>>, k: nat)
    requires k < |payloads|
    ensures GoesOn(judge, pace, payloads, k) <==>
            && (SaysNothing(judge, payloads, k) || judge(k, payloads[k]) == NeedMore)
            && !TwiceNothing(judge, payloads, k + 1) && Spent(pace, k + 1) < 200
  {
    hide Attempts, Budget, TwiceNothing, Spent;
    AttemptsAre(judge, payloads, k + 1);
    BudgetIs(pace, k + 1);
  }

  lemma TwiceLater(judge: Judge, payloads: seq<seq<byte>>, m: nat, n: nat)
    requires m <= n <= |payloads|
    ensures TwiceNothing(judge, payloads, m) ==> TwiceNothing(judge, payloads, n)
  {
    hide SaysNothing;
  }
}
