/**
 The parallel query seen from outside: which client's answer comes back, in terms of the replies and the order of
 arrival alone, and which errors are merged when there is none.
 */
module DnsRace {
  import opened DnsTypes
  import opened DnsMerge
  import opened DnsQuery

  /** The name, in any mixture of upper and lower case. */
  predicate NamesFakeDns(name: string) {
    |name| == 7 && forall i | 0 <= i < 7 :: name[i] == "fakedns"[i] || name[i] == "FAKEDNS"[i]
  }

  /** Exactly the FakeDNS servers are passed over, and only by queries that do not allow fake answers. */
  lemma AskedExactly(q: Query, i: nat)
    requires i < |q.clients|
    ensures Asked(q, i) <==> q.fake || !NamesFakeDns(q.clients[i].name)
  {
    var name := q.clients[i].name;
    if |name| == 7 {
      forall j | 0 <= j < 7
        ensures Lower(name[j]) == "fakedns"[j] <==> name[j] == "fakedns"[j] || name[j] == "FAKEDNS"[j]
      {
        LowerIs(name[j], "fakedns"[j], "FAKEDNS"[j]);
      }
    }
  }

  lemma LowerIs(c: char, lower: char, upper: char)
    requires 'A' <= upper <= 'Z' && lower == upper + ('a' - 'A')
    ensures Lower(c) == lower <==> c == lower || c == upper
  {
  }

  // ---------- Who is seen to win ----------

  /** After k arrivals client i is known not to have an answer. A task that panicked is never heard of. */
  ghost predicate SeenToFail(q: Query, order: seq<nat>, k: nat, i: nat)
    requires q.Valid() && k <= |order| && i < |q.clients|
  {
    !Asked(q, i) || (i in order[..k] && (q.replies[i].Fails? || (q.replies[i].Answers? && q.replies[i].ips == [])))
  }

  /** After k arrivals client w has answered and every client of an earlier group is known to have failed. */
  ghost predicate Ahead(q: Query, order: seq<nat>, k: nat, w: nat)
    requires q.Valid()
  {
    && k <= |order| && w < |q.clients| && Good(q, w) && w in order[..k]
    && forall j: nat | j < |q.clients| && GroupOf(q.clients, j) < GroupOf(q.clients, w) :: SeenToFail(q, order, k, j)
  }

  /** The first client that is ahead after k arrivals. */
  ghost predicate Leader(q: Query, order: seq<nat>, k: nat, w: nat)
    requires q.Valid()
  {
    Ahead(q, order, k, w) && forall v: nat | v < w :: !Ahead(q, order, k, v)
  }

  /** Nobody is ahead within the first n arrivals. */
  ghost predicate Open(q: Query, order: seq<nat>, n: nat)
    requires q.Valid()
  {
    forall k: nat, v: nat | k < n :: !Ahead(q, order, k, v)
  }

  /**
   The winner: the leader at the first moment when there is one, or, when panicked tasks keep that moment from
   coming, the first client in the list with an answer.
   */
  ghost predicate Winner(q: Query, order: seq<nat>, w: nat)
    requires q.Valid()
  {
    || (exists k: nat :: Leader(q, order, k, w) && Open(q, order, k))
    || (Open(q, order, |order| + 1) && FirstGood(q, w))
  }

  // ---------- The stages say the same ----------

  lemma StageSays(q: Query, order: seq<nat>, k: nat, i: nat)
    requires q.Valid() && Schedule(q, order) && k <= |order| && i < |q.clients|
    ensures Stage(q, order, k)[i].Success? <==> Good(q, i) && i in order[..k]
    ensures Stage(q, order, k)[i].Failure? <==> SeenToFail(q, order, k, i)
  {
    hide IsFakeDns;
  }

  lemma DecidedIsLeader(q: Query, order: seq<nat>, k: nat, w: nat)
    requires q.Valid() && Schedule(q, order) && k <= |order|
    ensures Decides(q.clients, Stage(q, order, k), w) <==> Leader(q, order, k, w)
  {
    hide GroupOf, Stage, Good, Schedule, SeenToFail;
    var cs := q.clients;
    forall i: nat | i < |cs|
      ensures Stage(q, order, k)[i].Success? <==> Good(q, i) && i in order[..k]
      ensures Stage(q, order, k)[i].Failure? <==> SeenToFail(q, order, k, i)
    {
      StageSays(q, order, k, i);
    }
    if Ahead(q, order, k, w) {
      forall v: nat | v < w
        ensures Ahead(q, order, k, v) <==> GroupOf(cs, v) == GroupOf(cs, w) && Stage(q, order, k)[v].Success?
      {
        GroupMonotone(cs, v, w);
      }
    }
  }

  lemma {:induction false} SomeLeader(q: Query, order: seq<nat>, k: nat, v: nat) returns (w: nat)
    requires q.Valid() && Ahead(q, order, k, v)
    ensures w <= v && Leader(q, order, k, w)
  {
    hide Ahead;
    w := v;
    while exists u: nat | u < w :: Ahead(q, order, k, u)
      invariant w <= v && Ahead(q, order, k, w)
      decreases w
    {
      var u: nat :| u < w && Ahead(q, order, k, u);
      w := u;
    }
  }

  lemma SettledIsAhead(q: Query, order: seq<nat>, k: nat)
    requires q.Valid() && Schedule(q, order) && k <= |order|
    ensures Settled(q.clients, Stage(q, order, k)) <==> exists v: nat :: Ahead(q, order, k, v)
  {
    hide Ahead, Stage, Schedule, Decides;
    if Settled(q.clients, Stage(q, order, k)) {
      var w: nat :| Decides(q.clients, Stage(q, order, k), w);
      DecidedIsLeader(q, order, k, w);
      assert Ahead(q, order, k, w);
    }
    if v: nat :| Ahead(q, order, k, v) {
      var w := SomeLeader(q, order, k, v);
      DecidedIsLeader(q, order, k, w);
      DecidedIsSettled(q.clients, Stage(q, order, k), w);
    }
  }

  lemma OpenIsUnsettled(q: Query, order: seq<nat>, n: nat)
    requires q.Valid() && Schedule(q, order) && n <= |order| + 1
    ensures Open(q, order, n) <==> forall k: nat | k < n :: !Settled(q.clients, Stage(q, order, k))
  {
    hide Ahead, Stage, Schedule, Settled;
    forall k: nat | k < n
      ensures Settled(q.clients, Stage(q, order, k)) <==> exists v: nat :: Ahead(q, order, k, v)
    {
      SettledIsAhead(q, order, k);
    }
    if !Open(q, order, n) {
      var k: nat, v: nat :| k < n && Ahead(q, order, k, v);
      assert Settled(q.clients, Stage(q, order, k));
    }
  }

  lemma LastIsFirstGood(q: Query, order: seq<nat>, w: nat)
    requires q.Valid() && Schedule(q, order)
    ensures Decides(q.clients, Stage(q, order, |order| + 1), w) <==> FirstGood(q, w)
  {
    hide GroupOf, Stage, Good, Schedule;
    var last := Stage(q, order, |order| + 1);
    forall j: nat | j < |q.clients|
      ensures if Good(q, j) then last[j].Success? else last[j].Failure?
    {
      OthersFailAtLast(q, order, j);
    }
    if FirstGood(q, w) {
      LeastGoodDecides(q, order, w);
    }
    if Decides(q.clients, last, w) {
      forall j: nat | j < w
        ensures !Good(q, j)
      {
        GroupMonotone(q.clients, j, w);
      }
    }
  }

  lemma WinnerWins(q: Query, order: seq<nat>, w: nat)
    requires q.Valid() && Schedule(q, order)
    ensures Winner(q, order, w) <==> exists k: nat :: Wins(q, order, k, w)
  {
    hide Stage, Schedule, Settled, Decides, Leader, Open, FirstGood;
    if k: nat :| Wins(q, order, k, w) {
      OpenIsUnsettled(q, order, k);
      if k <= |order| {
        DecidedIsLeader(q, order, k, w);
        assert Leader(q, order, k, w) && Open(q, order, k);
      } else {
        LastIsFirstGood(q, order, w);
      }
    }
    if k: nat :| Leader(q, order, k, w) && Open(q, order, k) {
      LeaderBounds(q, order, k, w);
      OpenIsUnsettled(q, order, k);
      DecidedIsLeader(q, order, k, w);
      assert Wins(q, order, k, w);
    } else if Winner(q, order, w) {
      OpenIsUnsettled(q, order, |order| + 1);
      LastIsFirstGood(q, order, w);
      FirstGoodBounds(q, w);
      assert Wins(q, order, |order| + 1, w);
    }
  }

  lemma LeaderBounds(q: Query, order: seq<nat>, k: nat, w: nat)
    requires q.Valid() && Leader(q, order, k, w)
    ensures k <= |order| && w < |q.clients|
  {
  }

  lemma FirstGoodBounds(q: Query, w: nat)
    requires q.Valid() && FirstGood(q, w)
    ensures w < |q.clients|
  {
  }

  // ---------- The result ----------

  /** One error for every client: its own if it was asked and failed, EmptyResponse otherwise. */
  ghost predicate ErrorsOf(q: Query, errs: seq<DnsError>)
    requires q.Valid()
  {
    && |errs| == |q.clients|
    && forall i: nat | i < |errs| ::
         if Asked(q, i) && q.replies[i].Fails? then q.replies[i] == Fails(errs[i]) else errs[i] == EmptyResponse
  }

  /** The result that this order of arrival must give. */
  ghost predicate Outcomes(q: Query, order: seq<nat>, domain: string, show: DnsError -> string, r: Result)
    requires q.Valid()
  {
    match r
    case Ok(ips, ttl) => exists w: nat :: Winner(q, order, w) && w < |q.clients| && q.replies[w] == Answers(ips, ttl)
    case Err(e) => !SomeGood(q) && exists errs :: ErrorsOf(q, errs) && e == Render(domain, Summarise(errs), show)
    case Panicked => false
  }

  lemma ErrorsAreRaw(q: Query, errs: seq<DnsError>)
    requires q.Valid()
    ensures ErrorsOf(q, errs) <==> errs == RawErrors(q)
  {
    hide Asked;
  }

  /** The parallel query returns exactly that result, for every order of arrival. */
  lemma ParallelExactly(q: Query, order: seq<nat>, domain: string, show: DnsError -> string, r: Result)
    requires q.Valid() && Schedule(q, order)
    ensures ParallelResult(q, order, domain, show, r) <==> Outcomes(q, order, domain, show, r)
  {
    hide Stage, Schedule, Settled, Wins, Winner, SomeGood, ErrorsOf, RawErrors, Render, Summarise;
    forall w: nat
      ensures Winner(q, order, w) <==> exists k: nat :: Wins(q, order, k, w)
    {
      WinnerWins(q, order, w);
    }
    ErrorsAreRaw(q, RawErrors(q));
    forall errs | ErrorsOf(q, errs)
      ensures errs == RawErrors(q)
    {
      ErrorsAreRaw(q, errs);
    }
    match r {
      case Ok(ips, ttl) =>
        WinsBounds(q, order);
      case Panicked =>
      case Err(e) =>
        NeverSettled(q, order);
    }
  }

  lemma WinsBounds(q: Query, order: seq<nat>)
    requires q.Valid()
    ensures forall k: nat, w: nat | Wins(q, order, k, w) :: w < |q.clients|
  {
    hide Stage, Settled, Decides;
  }

  /** No stage settles exactly when nobody has an answer. */
  lemma NeverSettled(q: Query, order: seq<nat>)
    requires q.Valid() && Schedule(q, order)
    ensures (forall k: nat | k <= |order| + 1 :: !Settled(q.clients, Stage(q, order, k))) <==> !SomeGood(q)
  {
    hide Stage, Schedule, Good, Decides;
    if k: nat :| k <= |order| + 1 && Settled(q.clients, Stage(q, order, k)) {
      var w: nat :| Decides(q.clients, Stage(q, order, k), w);
      WinnerBounds(q, order, k, w);
      WinnerReply(q, order, k, w);
    }
    if i: nat :| i < |q.clients| && Good(q, i) {
      var w := LeastGood(q, i);
      LeastGoodDecides(q, order, w);
      DecidedIsSettled(q.clients, Stage(q, order, |order| + 1), w);
    }
  }

  lemma WinnerBounds(q: Query, order: seq<nat>, k: nat, w: nat)
    requires q.Valid() && k <= |order| + 1 && Decides(q.clients, Stage(q, order, k), w)
    ensures w < |q.clients|
  {
    hide Stage;
  }
}
