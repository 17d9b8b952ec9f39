/**
 Asking several name servers: the parallel query with its policy groups, over every order in which the
 answers can arrive, and the serial query it should agree with.
 */
module DnsQuery {
  import opened DnsTypes
  import opened DnsMerge

  // ---------- One query ----------

  /** What asking one client comes to. */
  datatype Reply = Answers(ips: seq<Ip>, ttl: nat) | Fails(error: DnsError) | Panics

  /** What the caller gets. A panic inside the serial loop is a panic of the caller. */
  datatype Result = Ok(ips: seq<Ip>, ttl: nat) | Err(error: DnsError) | Panicked

  datatype Query = Query(clients: seq<Client>, replies: seq<Reply>, fake: bool) {
    ghost predicate Valid() {
      |replies| == |clients|
    }
  }

  function Lower(c: char): char {
    if 'A' <= c <= 'Z' then c + ('a' - 'A') else c
  }

  predicate IsFakeDns(name: string) {
    |name| == 7 && forall i | 0 <= i < 7 :: Lower(name[i]) == "fakedns"[i]
  }

  /** FakeDNS servers are asked only when the query allows fake answers. */
  predicate Asked(q: Query, i: nat)
    requires i < |q.clients|
  {
    q.fake || !IsFakeDns(q.clients[i].name)
  }

  /** A queried client with a non-empty answer. */
  predicate Good(q: Query, i: nat)
    requires q.Valid() && i < |q.clients|
  {
    Asked(q, i) && q.replies[i].Answers? && q.replies[i].ips != []
  }

  // ---------- Policy groups ----------

  /** `end` is inclusive. */
  datatype Group = Group(start: nat, end: nat)

  /** The group of client i: how often the policy changes up to it. */
  function GroupOf(cs: seq<Client>, i: nat): nat
    requires i < |cs|
  {
    if i == 0 then 0
    else GroupOf(cs, i - 1) + if cs[i - 1].policyId == cs[i].policyId then 0 else 1
  }

  lemma GroupStep(cs: seq<Client>, i: nat)
    requires 0 < i < |cs|
    ensures GroupOf(cs, i) == GroupOf(cs, i - 1) + if cs[i - 1].policyId == cs[i].policyId then 0 else 1
  {
  }

  lemma {:induction false} GroupMonotone(cs: seq<Client>, i: nat, j: nat)
    requires i <= j < |cs|
    ensures GroupOf(cs, i) <= GroupOf(cs, j)
    decreases j
  {
    if i < j {
      GroupMonotone(cs, i, j - 1);
    }
  }

  /** Groups are the maximal runs of equal policy. */
  lemma {:induction false} GroupsAreRuns(cs: seq<Client>, i: nat, j: nat)
    requires i <= j < |cs|
    ensures GroupOf(cs, i) == GroupOf(cs, j) <==> forall k | i <= k <= j :: cs[k].policyId == cs[i].policyId
    decreases j
  {
    if i < j {
      GroupsAreRuns(cs, i, j - 1);
      GroupMonotone(cs, i, j - 1);
    }
  }

  /** `groups[g]` is exactly the range of clients in group g. */
  ghost predicate IsGroups(cs: seq<Client>, groups: seq<Group>) {
    && (cs == [] ==> groups == [])
    && (cs != [] ==> |groups| == GroupOf(cs, |cs| - 1) + 1)
    && forall g | 0 <= g < |groups| :: IsGroup(cs, groups[g], g)
  }

  ghost predicate IsGroup(cs: seq<Client>, group: Group, g: nat) {
    && group.start <= group.end < |cs|
    && forall i: nat | i < |cs| :: group.start <= i <= group.end <==> GroupOf(cs, i) == g
  }

  /** A run whose neighbours have other policies is a whole group. */
  lemma RunIsGroup(cs: seq<Client>, s: nat, e: nat)
    requires s <= e < |cs| && GroupOf(cs, s) == GroupOf(cs, e)
    requires s == 0 || GroupOf(cs, s - 1) < GroupOf(cs, s)
    requires e + 1 == |cs| || GroupOf(cs, e) < GroupOf(cs, e + 1)
    ensures IsGroup(cs, Group(s, e), GroupOf(cs, s))
  {
    hide GroupOf;
    forall i: nat | i < |cs|
      ensures s <= i <= e <==> GroupOf(cs, i) == GroupOf(cs, s)
    {
      if i < s {
        GroupMonotone(cs, i, s - 1);
      } else if i <= e {
        GroupMonotone(cs, s, i);
        GroupMonotone(cs, i, e);
      } else {
        GroupMonotone(cs, e + 1, i);
      }
    }
  }

  ghost predicate Found(cs: seq<Client>, groups: seq<Group>) {
    forall g | 0 <= g < |groups| :: IsGroup(cs, groups[g], g)
  }

  lemma FoundOneMore(cs: seq<Client>, groups: seq<Group>, group: Group)
    requires Found(cs, groups) && IsGroup(cs, group, |groups|)
    ensures Found(cs, groups + [group])
  {
    hide IsGroup;
  }

  ghost predicate Stamped(cs: seq<Client>, groupOf: seq<nat>, n: nat) {
    n <= |groupOf| == |cs| && forall k: nat | k < n :: groupOf[k] == GroupOf(cs, k)
  }

  method MakeGroups(cs: seq<Client>) returns (groups: seq<Group>, groupOf: seq<nat>)
    ensures IsGroups(cs, groups)
    ensures Stamped(cs, groupOf, |cs|)
  {
    groups, groupOf := [], [];
    if cs == [] {
      return;
    }
    assert GroupOf(cs, 0) == 0;
    groupOf := seq(|cs|, _ => 0);
    assert Stamped(cs, groupOf, 0);
    assert Found(cs, groups);
    hide GroupOf, IsGroup, Found, Stamped;
    var s, e: nat := 0, 0;
    var i: nat := 1;
    while i < |cs|
      invariant 1 <= i <= |cs| && s <= e && e == i - 1
      invariant Stamped(cs, groupOf, s) && Found(cs, groups)
      invariant |groups| == GroupOf(cs, s) == GroupOf(cs, e)
      invariant s == 0 || GroupOf(cs, s - 1) < GroupOf(cs, s)
    {
      GroupStep(cs, i);
      if cs[i - 1].policyId == cs[i].policyId {
        e := i;
      } else {
        RunIsGroup(cs, s, e);
        groupOf := Stamp(cs, groupOf, s, e, |groups|);
        FoundOneMore(cs, groups, Group(s, e));
        groups := groups + [Group(s, e)];
        s, e := i, i;
      }
      i := i + 1;
    }
    RunIsGroup(cs, s, e);
    groupOf := Stamp(cs, groupOf, s, e, |groups|);
    FoundOneMore(cs, groups, Group(s, e));
    groups := groups + [Group(s, e)];
    FoundAll(cs, groups);
  }

  lemma FoundAll(cs: seq<Client>, groups: seq<Group>)
    requires cs != [] && Found(cs, groups) && |groups| == GroupOf(cs, |cs| - 1) + 1
    ensures IsGroups(cs, groups)
  {
    hide IsGroup, GroupOf;
  }

  /** Writes g for the members of one run. */
  method Stamp(cs: seq<Client>, groupOf: seq<nat>, s: nat, e: nat, g: nat) returns (stamped: seq<nat>)
    requires Stamped(cs, groupOf, s) && s <= e < |cs| && IsGroup(cs, Group(s, e), g)
    ensures Stamped(cs, stamped, e + 1)
  {
    hide GroupOf;
    stamped := groupOf;
    var k := s;
    while k <= e
      invariant s <= k <= e + 1 && Stamped(cs, stamped, k)
    {
      stamped := stamped[k := g];
      k := k + 1;
    }
  }

  // ---------- Outcomes and the decision they allow ----------

  datatype Outcome = Success(ips: seq<Ip>, ttl: nat) | Failure | Pending

  /**
   The outcomes settle on client w: every earlier group has failed entirely, and w is the first client
   of its own group whose success is known.
   */
  ghost predicate Decides(cs: seq<Client>, outcomes: seq<Outcome>, w: nat) {
    && |outcomes| == |cs| && w < |cs| && outcomes[w].Success?
    && (forall j: nat | j < |cs| && GroupOf(cs, j) < GroupOf(cs, w) :: outcomes[j].Failure?)
    && (forall j: nat | j < w && GroupOf(cs, j) == GroupOf(cs, w) :: !outcomes[j].Success?)
  }

  ghost predicate Settled(cs: seq<Client>, outcomes: seq<Outcome>) {
    exists w: nat :: Decides(cs, outcomes, w)
  }

  /** All groups before g have failed. */
  ghost predicate FailedBefore(cs: seq<Client>, outcomes: seq<Outcome>, g: nat) {
    |outcomes| == |cs| && forall j: nat | j < |cs| && GroupOf(cs, j) < g :: outcomes[j].Failure?
  }

  /** The first success within `lo..=hi`, or `hi + 1`. */
  function GroupSuccess(outcomes: seq<Outcome>, lo: nat, hi: nat): (k: nat)
    requires lo <= hi + 1 && hi < |outcomes|
    ensures lo <= k <= hi + 1
    ensures k <= hi ==> outcomes[k].Success?
    ensures forall j | lo <= j < k :: !outcomes[j].Success?
    decreases hi + 1 - lo
  {
    if lo > hi || outcomes[lo].Success? then lo else GroupSuccess(outcomes, lo + 1, hi)
  }

  predicate GroupPending(outcomes: seq<Outcome>, g: Group)
    requires g.end < |outcomes|
  {
    exists j: nat | g.start <= j <= g.end :: outcomes[j].Pending?
  }

  lemma GroupWins(cs: seq<Client>, outcomes: seq<Outcome>, group: Group, g: nat, w: nat)
    requires FailedBefore(cs, outcomes, g) && IsGroup(cs, group, g)
    requires group.start <= w <= group.end && outcomes[w].Success?
    requires forall j: nat | group.start <= j < w :: !outcomes[j].Success?
    ensures Decides(cs, outcomes, w)
  {
    hide GroupOf;
    assert GroupOf(cs, w) == g;
  }

  lemma GroupStuck(cs: seq<Client>, outcomes: seq<Outcome>, group: Group, g: nat)
    requires FailedBefore(cs, outcomes, g) && IsGroup(cs, group, g) && GroupPending(outcomes, group)
    requires forall j: nat | group.start <= j <= group.end :: !outcomes[j].Success?
    ensures !Settled(cs, outcomes)
  {
    hide GroupOf;
    var p: nat :| group.start <= p <= group.end && outcomes[p].Pending?;
    assert GroupOf(cs, p) == g;
    forall w: nat
      ensures !Decides(cs, outcomes, w)
    {
      if w < |cs| && GroupOf(cs, w) == g {
        assert group.start <= w <= group.end;
      }
    }
  }

  lemma GroupFails(cs: seq<Client>, outcomes: seq<Outcome>, group: Group, g: nat)
    requires FailedBefore(cs, outcomes, g) && IsGroup(cs, group, g) && !GroupPending(outcomes, group)
    requires forall j: nat | group.start <= j <= group.end :: !outcomes[j].Success?
    ensures FailedBefore(cs, outcomes, g + 1)
  {
    hide GroupOf;
    forall j: nat | j < |cs| && GroupOf(cs, j) < g + 1
      ensures outcomes[j].Failure?
    {
      if GroupOf(cs, j) == g {
        assert group.start <= j <= group.end;
      }
    }
  }

  lemma AllFailed(cs: seq<Client>, outcomes: seq<Outcome>, groups: seq<Group>)
    requires FailedBefore(cs, outcomes, |groups|) && IsGroups(cs, groups)
    ensures !Settled(cs, outcomes)
    ensures forall j: nat | j < |cs| :: outcomes[j].Failure?
  {
    hide GroupOf, IsGroup;
    forall j: nat | j < |cs|
      ensures outcomes[j].Failure?
    {
      GroupMonotone(cs, j, |cs| - 1);
    }
  }

  /** Moves on over groups that have failed; a winner is found exactly when the outcomes settle on one. */
  method AdvanceGroups(cs: seq<Client>, outcomes: seq<Outcome>, groups: seq<Group>, nextGroup: nat)
    returns (winner: nat, next: nat)
    requires IsGroups(cs, groups) && nextGroup <= |groups| && FailedBefore(cs, outcomes, nextGroup)
    ensures winner <= |cs|
    ensures winner < |cs| ==> Decides(cs, outcomes, winner)
    ensures winner == |cs| ==> !Settled(cs, outcomes)
    ensures next <= |groups| && FailedBefore(cs, outcomes, next)
  {
    hide GroupOf, IsGroup, Decides, Settled, FailedBefore, GroupPending;
    next := nextGroup;
    while next < |groups|
      invariant next <= |groups| && FailedBefore(cs, outcomes, next)
    {
      var g := groups[next];
      assert IsGroup(cs, g, next);
      GroupShape(cs, outcomes, g, next);
      var k := GroupSuccess(outcomes, g.start, g.end);
      if k <= g.end {
        GroupWins(cs, outcomes, g, next, k);
        return k, next;
      }
      if GroupPending(outcomes, g) {
        GroupStuck(cs, outcomes, g, next);
        return |cs|, next;
      }
      GroupFails(cs, outcomes, g, next);
      next := next + 1;
    }
    AllFailed(cs, outcomes, groups);
    winner := |cs|;
  }

  lemma GroupShape(cs: seq<Client>, outcomes: seq<Outcome>, group: Group, g: nat)
    requires FailedBefore(cs, outcomes, g) && IsGroup(cs, group, g)
    ensures group.start <= group.end < |cs| == |outcomes|
  {
    hide GroupOf;
  }

  // ---------- Arrivals ----------

  /** Every spawned query finishes once, in any order; nothing else is spawned. */
  ghost predicate Schedule(q: Query, order: seq<nat>) {
    && (forall k | 0 <= k < |order| :: order[k] < |q.clients| && Asked(q, order[k]))
    && (forall i: nat | i < |q.clients| && Asked(q, i) :: i in order)
    && (forall j, k | 0 <= j < k < |order| :: order[j] != order[k])
  }

  /** What a reply is recorded as; a panicked task reports no index and is recorded as nothing. */
  function Recorded(reply: Reply): Outcome {
    match reply
    case Answers(ips, ttl) => if ips != [] then Success(ips, ttl) else Failure
    case Fails(_) => Failure
    case Panics => Pending
  }

  /** The outcome of client i once the queries in `arrived` have finished. */
  function Known(q: Query, arrived: seq<nat>, i: nat): Outcome
    requires q.Valid() && i < |q.clients|
  {
    if !Asked(q, i) then Failure else if i in arrived then Recorded(q.replies[i]) else Pending
  }

  function Filled(outcome: Outcome): Outcome {
    if outcome.Pending? then Failure else outcome
  }

  /** The outcomes after k arrivals; the stage after the last one counts what never reported as failed. */
  function Stage(q: Query, order: seq<nat>, k: nat): (r: seq<Outcome>)
    requires q.Valid() && k <= |order| + 1
    ensures |r| == |q.clients|
  {
    if k <= |order| then seq(|q.clients|, i requires 0 <= i < |q.clients| => Known(q, order[..k], i))
    else seq(|q.clients|, i requires 0 <= i < |q.clients| => Filled(Known(q, order, i)))
  }

  /** The error held for client i when nothing won. */
  function RawError(q: Query, i: nat): DnsError
    requires q.Valid() && i < |q.clients|
  {
    if Asked(q, i) && q.replies[i].Fails? then q.replies[i].error else EmptyResponse
  }

  function RawErrors(q: Query): (r: seq<DnsError>)
    requires q.Valid()
    ensures |r| == |q.clients|
  {
    seq(|q.clients|, i requires 0 <= i < |q.clients| => RawError(q, i))
  }

  /** Stage k is the first that settles, and it settles on w. */
  ghost predicate Wins(q: Query, order: seq<nat>, k: nat, w: nat)
    requires q.Valid()
  {
    && k <= |order| + 1 && w < |q.clients| && Decides(q.clients, Stage(q, order, k), w)
    && forall j: nat | j < k :: !Settled(q.clients, Stage(q, order, j))
  }

  /** The result of the parallel query when answers arrive in this order. */
  ghost predicate ParallelResult(q: Query, order: seq<nat>, domain: string, show: DnsError -> string, r: Result)
    requires q.Valid()
  {
    match r
    case Ok(ips, ttl) =>
      exists k: nat, w: nat :: Wins(q, order, k, w) && q.replies[w] == Answers(ips, ttl)
    case Err(e) =>
      && e == Render(domain, Summarise(RawErrors(q)), show)
      && forall k: nat | k <= |order| + 1 :: !Settled(q.clients, Stage(q, order, k))
    case Panicked => false
  }

  /** Later stages only turn Pending into something. */
  lemma StageGrows(q: Query, order: seq<nat>, k: nat, i: nat)
    requires q.Valid() && k <= |order| && i < |q.clients|
    ensures Stage(q, order, k)[i].Pending? || Stage(q, order, k + 1)[i] == Stage(q, order, k)[i]
  {
    hide Asked, Recorded;
    if k < |order| {
      assert i in order[..k] ==> i in order[..k + 1];
    } else {
      assert order[..k] == order;
    }
  }

  lemma FailedGrows(q: Query, order: seq<nat>, k: nat, g: nat)
    requires q.Valid() && k <= |order| && FailedBefore(q.clients, Stage(q, order, k), g)
    ensures FailedBefore(q.clients, Stage(q, order, k + 1), g)
  {
    hide GroupOf, Stage;
    forall j: nat | j < |q.clients| && GroupOf(q.clients, j) < g
      ensures Stage(q, order, k + 1)[j].Failure?
    {
      StageGrows(q, order, k, j);
    }
  }

  /** One arrival changes one slot. */
  lemma StageStep(q: Query, order: seq<nat>, k: nat)
    requires q.Valid() && Schedule(q, order) && k < |order|
    ensures order[k] < |q.clients|
    ensures Stage(q, order, k + 1) == Stage(q, order, k)[order[k] := Recorded(q.replies[order[k]])]
  {
    hide Asked, Recorded;
    var next := Stage(q, order, k)[order[k] := Recorded(q.replies[order[k]])];
    forall i: nat | i < |q.clients|
      ensures Stage(q, order, k + 1)[i] == next[i]
    {
      assert order[..k + 1] == order[..k] + [order[k]];
    }
  }

  /** A panicked task leaves everything as it was. */
  lemma StagePanic(q: Query, order: seq<nat>, k: nat)
    requires q.Valid() && Schedule(q, order) && k < |order| && q.replies[order[k]].Panics?
    ensures Stage(q, order, k + 1) == Stage(q, order, k)
  {
    StageStep(q, order, k);
    assert order[k] !in order[..k];
  }

  lemma StageStart(q: Query, order: seq<nat>)
    requires q.Valid()
    ensures forall i: nat | i < |q.clients| :: Stage(q, order, 0)[i] == if Asked(q, i) then Pending else Failure
    ensures !Settled(q.clients, Stage(q, order, 0))
  {
    hide Asked, GroupOf;
  }

  /** The last stage fills in the tasks that never reported. */
  lemma StageEnd(q: Query, order: seq<nat>, outcomes: seq<Outcome>)
    requires q.Valid() && |outcomes| == |q.clients|
    requires forall i: nat | i < |q.clients| :: outcomes[i] == Filled(Stage(q, order, |order|)[i])
    ensures outcomes == Stage(q, order, |order| + 1)
  {
    hide Asked, Recorded, Known;
    assert order[..|order|] == order;
  }

  // ---------- The parallel query ----------

  /** Slots of skipped FakeDNS servers start out failed. */
  method Launch(q: Query, ghost order: seq<nat>) returns (outcomes: seq<Outcome>)
    requires q.Valid()
    ensures outcomes == Stage(q, order, 0)
  {
    StageStart(q, order);
    hide IsFakeDns, Stage, Settled;
    outcomes := seq(|q.clients|, _ => Pending);
    for i := 0 to |q.clients|
      invariant |outcomes| == |q.clients|
      invariant forall j: nat | j < |q.clients| :: outcomes[j] == if j < i && !Asked(q, j) then Failure else Pending
    {
      if !q.fake && IsFakeDns(q.clients[i].name) {
        outcomes := outcomes[i := Failure];
      }
    }
  }

  /** Tasks that never reported count as failed. */
  method Drain(q: Query, ghost order: seq<nat>, reported: seq<Outcome>) returns (outcomes: seq<Outcome>)
    requires q.Valid() && reported == Stage(q, order, |order|)
    ensures outcomes == Stage(q, order, |order| + 1)
  {
    hide Stage;
    outcomes := reported;
    for i := 0 to |outcomes|
      invariant |outcomes| == |reported|
      invariant forall j: nat | j < |outcomes| :: outcomes[j] == if j < i then Filled(reported[j]) else reported[j]
    {
      if outcomes[i].Pending? {
        outcomes := outcomes[i := Failure];
      }
    }
    StageEnd(q, order, outcomes);
  }

  /** The errors held after k arrivals. */
  ghost predicate ErrorsSoFar(q: Query, order: seq<nat>, k: nat, errors: seq<DnsError>)
    requires q.Valid() && k <= |order|
  {
    && |errors| == |q.clients|
    && forall i: nat | i < |q.clients| :: errors[i] == if i in order[..k] then RawError(q, i) else EmptyResponse
  }

  lemma ErrorsStep(q: Query, order: seq<nat>, k: nat, before: seq<DnsError>, after: seq<DnsError>)
    requires q.Valid() && Schedule(q, order) && k < |order| && ErrorsSoFar(q, order, k, before)
    requires after == if q.replies[order[k]].Fails? then before[order[k] := q.replies[order[k]].error] else before
    ensures ErrorsSoFar(q, order, k + 1, after)
  {
    hide IsFakeDns;
    assert order[..k + 1] == order[..k] + [order[k]];
  }

  lemma ErrorsEnd(q: Query, order: seq<nat>, errors: seq<DnsError>)
    requires q.Valid() && Schedule(q, order) && ErrorsSoFar(q, order, |order|, errors)
    ensures errors == RawErrors(q)
  {
    hide IsFakeDns;
    assert order[..|order|] == order;
  }

  lemma WinnerReply(q: Query, order: seq<nat>, k: nat, w: nat)
    requires q.Valid() && k <= |order| + 1 && Decides(q.clients, Stage(q, order, k), w)
    ensures Good(q, w) && Stage(q, order, k)[w].Success?
    ensures q.replies[w] == Answers(Stage(q, order, k)[w].ips, Stage(q, order, k)[w].ttl)
  {
    hide GroupOf, IsFakeDns;
  }

  method ParallelQuery(q: Query, order: seq<nat>, domain: string, show: DnsError -> string) returns (r: Result)
    requires q.Valid() && Schedule(q, order)
    ensures ParallelResult(q, order, domain, show, r)
  {
    hide Stage, Schedule, Settled, Decides, IsGroups, FailedBefore, ErrorsSoFar, Render, Summarise;
    var groups, groupOf := MakeGroups(q.clients);
    if groups == [] {
      NoClients(q, order, domain, show, groups);
      return Err(EmptyResponse);
    }
    var outcomes := Launch(q, order);
    StageStart(q, order);
    var errors: seq<DnsError> := seq(|q.clients|, _ => EmptyResponse);
    ErrorsStart(q, order, errors);
    var nextGroup: nat := 0;
    NothingFailed(q.clients, outcomes);
    for k := 0 to |order|
      invariant outcomes == Stage(q, order, k) && ErrorsSoFar(q, order, k, errors)
      invariant nextGroup <= |groups| && FailedBefore(q.clients, outcomes, nextGroup)
      invariant forall j: nat | j <= k :: !Settled(q.clients, Stage(q, order, j))
    {
      var idx := order[k];
      StageStep(q, order, k);
      ErrorsShape(q, order, k, errors);
      FailedGrows(q, order, k, nextGroup);
      if q.replies[idx].Panics? {
        StagePanic(q, order, k);
        ErrorsStep(q, order, k, errors, errors);
        continue;
      }
      ghost var before := errors;
      if q.replies[idx].Answers? && q.replies[idx].ips != [] {
        outcomes := outcomes[idx := Success(q.replies[idx].ips, q.replies[idx].ttl)];
      } else if q.replies[idx].Answers? {
        outcomes := outcomes[idx := Failure];
      } else {
        outcomes := outcomes[idx := Failure];
        errors := errors[idx := q.replies[idx].error];
      }
      ErrorsStep(q, order, k, before, errors);
      var winner, next := AdvanceGroups(q.clients, outcomes, groups, nextGroup);
      if winner < |q.clients| {
        WinnerReply(q, order, k + 1, winner);
        assert Wins(q, order, k + 1, winner);
        return Ok(outcomes[winner].ips, outcomes[winner].ttl);
      }
      nextGroup := next;
    }
    FailedGrows(q, order, |order|, nextGroup);
    outcomes := Drain(q, order, outcomes);
    var winner, next := AdvanceGroups(q.clients, outcomes, groups, nextGroup);
    if winner < |q.clients| {
      WinnerReply(q, order, |order| + 1, winner);
      assert Wins(q, order, |order| + 1, winner);
      return Ok(outcomes[winner].ips, outcomes[winner].ttl);
    }
    ErrorsEnd(q, order, errors);
    var merged := MergeQueryErrors(domain, errors, show);
    return Err(merged);
  }

  lemma ErrorsStart(q: Query, order: seq<nat>, errors: seq<DnsError>)
    requires q.Valid() && errors == seq(|q.clients|, _ => EmptyResponse)
    ensures ErrorsSoFar(q, order, 0, errors)
  {
  }

  lemma ErrorsShape(q: Query, order: seq<nat>, k: nat, errors: seq<DnsError>)
    requires q.Valid() && k <= |order| && ErrorsSoFar(q, order, k, errors)
    ensures |errors| == |q.clients|
  {
  }

  lemma NothingFailed(cs: seq<Client>, outcomes: seq<Outcome>)
    requires |outcomes| == |cs|
    ensures FailedBefore(cs, outcomes, 0)
  {
    hide GroupOf;
  }

  lemma NoClients(q: Query, order: seq<nat>, domain: string, show: DnsError -> string, groups: seq<Group>)
    requires q.Valid() && IsGroups(q.clients, groups) && groups == []
    ensures ParallelResult(q, order, domain, show, Err(EmptyResponse))
  {
    assert q.clients == [];
  }

  // ---------- Every arrival order ----------

  lemma GoodNeverFails(q: Query, order: seq<nat>, k: nat, j: nat)
    requires q.Valid() && Schedule(q, order) && k <= |order| + 1 && j < |q.clients| && Good(q, j)
    ensures !Stage(q, order, k)[j].Failure?
  {
    hide IsFakeDns;
  }

  lemma OthersFailAtLast(q: Query, order: seq<nat>, j: nat)
    requires q.Valid() && Schedule(q, order) && j < |q.clients|
    ensures var last := Stage(q, order, |order| + 1)[j];
            if Good(q, j) then last == Success(q.replies[j].ips, q.replies[j].ttl) else last.Failure?
  {
    hide IsFakeDns;
  }

  /** The winner is in the lowest group that has any non-empty answer. */
  lemma WinnerGroup(q: Query, order: seq<nat>, k: nat, w: nat, j: nat)
    requires q.Valid() && Schedule(q, order) && k <= |order| + 1 && Decides(q.clients, Stage(q, order, k), w)
    requires j < |q.clients| && Good(q, j)
    ensures GroupOf(q.clients, w) <= GroupOf(q.clients, j)
  {
    hide GroupOf, Stage, Good, Schedule;
    GoodNeverFails(q, order, k, j);
  }

  lemma LeastGood(q: Query, i: nat) returns (w: nat)
    requires q.Valid() && i < |q.clients| && Good(q, i)
    ensures w <= i && Good(q, w) && forall j: nat | j < w :: !Good(q, j)
  {
    hide Good;
    w := 0;
    while !Good(q, w)
      invariant w <= i && forall j: nat | j < w :: !Good(q, j)
      decreases i - w
    {
      w := w + 1;
    }
  }

  lemma LeastGoodDecides(q: Query, order: seq<nat>, w: nat)
    requires q.Valid() && Schedule(q, order) && w < |q.clients|
    requires Good(q, w) && forall j: nat | j < w :: !Good(q, j)
    ensures Decides(q.clients, Stage(q, order, |order| + 1), w)
  {
    hide GroupOf, Stage, Good, Schedule;
    OthersFailAtLast(q, order, w);
    var last := Stage(q, order, |order| + 1);
    forall j: nat | j < w
      ensures last[j].Failure?
    {
      OthersFailAtLast(q, order, j);
    }
    forall j: nat | w <= j < |q.clients|
      ensures GroupOf(q.clients, w) <= GroupOf(q.clients, j)
    {
      GroupMonotone(q.clients, w, j);
    }
  }

  ghost predicate SomeGood(q: Query)
    requires q.Valid()
  {
    exists i: nat | i < |q.clients| :: Good(q, i)
  }

  /** Whatever the order, panics and skipped servers: Ok exactly when some queried client has a non-empty answer. */
  lemma OkExactlyWhenGood(q: Query, order: seq<nat>, domain: string, show: DnsError -> string, r: Result)
    requires q.Valid() && Schedule(q, order) && ParallelResult(q, order, domain, show, r)
    ensures r.Ok? <==> SomeGood(q)
    ensures !r.Panicked?
  {
    hide GroupOf, Stage, Good, Schedule, Decides, Render, Summarise;
    if r.Ok? {
      var k: nat, w: nat :| Wins(q, order, k, w) && q.replies[w] == Answers(r.ips, r.ttl);
      WinnerReply(q, order, k, w);
    }
    if SomeGood(q) {
      var i: nat :| i < |q.clients| && Good(q, i);
      var w := LeastGood(q, i);
      LeastGoodDecides(q, order, w);
      assert Settled(q.clients, Stage(q, order, |order| + 1));
    }
  }

  /** The answer is that of one client, from the lowest group with a non-empty answer. */
  lemma WinnerInLowestGroup(q: Query, order: seq<nat>, domain: string, show: DnsError -> string, r: Result)
    returns (w: nat)
    requires q.Valid() && Schedule(q, order) && ParallelResult(q, order, domain, show, r) && r.Ok?
    ensures w < |q.clients| && Good(q, w) && q.replies[w] == Answers(r.ips, r.ttl)
    ensures forall j: nat | j < |q.clients| && Good(q, j) :: GroupOf(q.clients, w) <= GroupOf(q.clients, j)
  {
    hide GroupOf, Stage, Good, Schedule, Decides;
    var k: nat;
    k, w :| Wins(q, order, k, w) && q.replies[w] == Answers(r.ips, r.ttl);
    WinnerReply(q, order, k, w);
    forall j: nat | j < |q.clients| && Good(q, j)
      ensures GroupOf(q.clients, w) <= GroupOf(q.clients, j)
    {
      WinnerGroup(q, order, k, w, j);
    }
  }

  lemma SlotKept(q: Query, order: seq<nat>, k: nat, i: nat)
    requires q.Valid() && Schedule(q, order) && k < |order| && i < |q.clients| && i != order[k]
    ensures Stage(q, order, k + 1)[i] == Stage(q, order, k)[i]
  {
    hide Recorded, Asked;
    StageStep(q, order, k);
  }

  lemma SuccessStays(q: Query, order: seq<nat>, k: nat, i: nat)
    requires q.Valid() && k <= |order| && i < |q.clients| && Stage(q, order, k)[i].Success?
    ensures Stage(q, order, k + 1)[i].Success?
  {
    hide Stage;
    StageGrows(q, order, k, i);
  }

  /**
   The race inside a group: when the arrival that settles the query comes from the winner's own group,
   that arrival is the winner.
   */
  lemma FirstArrivalWins(q: Query, order: seq<nat>, k: nat, w: nat)
    requires q.Valid() && Schedule(q, order) && 0 < k <= |order| && Wins(q, order, k, w)
    requires order[k - 1] < |q.clients| && GroupOf(q.clients, order[k - 1]) == GroupOf(q.clients, w)
    ensures w == order[k - 1]
  {
    hide GroupOf, Stage, Schedule, Settled;
    if w != order[k - 1] {
      var before := Stage(q, order, k - 1);
      SlotKept(q, order, k - 1, w);
      forall j: nat | j < |q.clients| && GroupOf(q.clients, j) < GroupOf(q.clients, w)
        ensures before[j].Failure?
      {
        SlotKept(q, order, k - 1, j);
      }
      forall j: nat | j < w && GroupOf(q.clients, j) == GroupOf(q.clients, w)
        ensures !before[j].Success?
      {
        if before[j].Success? {
          SuccessStays(q, order, k - 1, j);
        }
      }
      DecidedIsSettled(q.clients, before, w);
    }
  }

  lemma DecidedIsSettled(cs: seq<Client>, outcomes: seq<Outcome>, w: nat)
    requires Decides(cs, outcomes, w)
    ensures Settled(cs, outcomes)
  {
    hide Decides;
  }

  // ---------- Policies that all differ ----------

  ghost predicate AdjacentDiffer(cs: seq<Client>) {
    forall i | 0 < i < |cs| :: cs[i - 1].policyId != cs[i].policyId
  }

  lemma {:induction false} OwnGroup(cs: seq<Client>, i: nat)
    requires AdjacentDiffer(cs) && i < |cs|
    ensures GroupOf(cs, i) == i
  {
    if i > 0 {
      OwnGroup(cs, i - 1);
    }
  }

  /** The answer of the first client that has a non-empty one. */
  ghost predicate FirstGood(q: Query, w: nat)
    requires q.Valid()
  {
    w < |q.clients| && Good(q, w) && forall j: nat | j < w :: !Good(q, j)
  }

  /** When neighbouring policies differ the arrival order does not matter: the first good client in the list wins. */
  lemma FirstGoodWins(q: Query, order: seq<nat>, domain: string, show: DnsError -> string, r: Result)
    returns (w: nat)
    requires q.Valid() && Schedule(q, order) && ParallelResult(q, order, domain, show, r) && r.Ok?
    requires AdjacentDiffer(q.clients)
    ensures FirstGood(q, w) && q.replies[w] == Answers(r.ips, r.ttl)
  {
    w := WinnerInLowestGroup(q, order, domain, show, r);
    hide GroupOf, Good, Schedule, ParallelResult, AdjacentDiffer;
    OwnGroup(q.clients, w);
    forall j: nat | j < w
      ensures !Good(q, j)
    {
      OwnGroup(q.clients, j);
    }
  }

  /** Whether there is an answer, and the error if there is none, do not depend on the order of arrival. */
  lemma OrderIndependent(q: Query, o1: seq<nat>, o2: seq<nat>, domain: string, show: DnsError -> string, r1: Result, r2: Result)
    requires q.Valid() && Schedule(q, o1) && Schedule(q, o2)
    requires ParallelResult(q, o1, domain, show, r1) && ParallelResult(q, o2, domain, show, r2)
    ensures r1.Ok? == r2.Ok?
    ensures r1.Err? ==> r1 == r2
    ensures AdjacentDiffer(q.clients) ==> r1 == r2
  {
    OkExactlyWhenGood(q, o1, domain, show, r1);
    OkExactlyWhenGood(q, o2, domain, show, r2);
    if r1.Ok? && AdjacentDiffer(q.clients) {
      var w1 := FirstGoodWins(q, o1, domain, show, r1);
      var w2 := FirstGoodWins(q, o2, domain, show, r2);
      hide Good, Schedule, ParallelResult;
      assert w1 == w2;
    }
  }

  // ---------- The serial query ----------

  /** The errors of the queried clients below n, in order. */
  function Failed(q: Query, n: nat): (r: seq<DnsError>)
    requires q.Valid() && n <= |q.clients|
    ensures |r| <= n
  {
    if n == 0 then []
    else Failed(q, n - 1) + if Asked(q, n - 1) && q.replies[n - 1].Fails? then [q.replies[n - 1].error] else []
  }

  /** The first queried client that does not fail. */
  ghost predicate Leads(q: Query, f: nat)
    requires q.Valid()
  {
    && f < |q.clients| && Asked(q, f) && !q.replies[f].Fails?
    && AllFail(q, f)
  }

  ghost predicate AllFail(q: Query, n: nat)
    requires q.Valid() && n <= |q.clients|
  {
    forall i: nat | i < n && Asked(q, i) :: q.replies[i].Fails?
  }

  ghost predicate SerialResult(q: Query, domain: string, show: DnsError -> string, r: Result)
    requires q.Valid()
  {
    match r
    case Ok(ips, ttl) => exists f: nat :: Leads(q, f) && q.replies[f] == Answers(ips, ttl)
    case Panicked => exists f: nat :: Leads(q, f) && q.replies[f].Panics?
    case Err(e) => AllFail(q, |q.clients|) && e == Render(domain, Summarise(Failed(q, |q.clients|)), show)
  }

  method SerialQuery(q: Query, domain: string, show: DnsError -> string) returns (r: Result)
    requires q.Valid()
    ensures SerialResult(q, domain, show, r)
  {
    hide IsFakeDns, Render, Summarise;
    var errors: seq<DnsError> := [];
    for i := 0 to |q.clients|
      invariant AllFail(q, i) && errors == Failed(q, i)
    {
      if !q.fake && IsFakeDns(q.clients[i].name) {
        continue;
      }
      match q.replies[i] {
        case Answers(ips, ttl) =>
          assert Leads(q, i);
          return Ok(ips, ttl);
        case Panics =>
          assert Leads(q, i);
          return Panicked;
        case Fails(e) =>
          errors := errors + [e];
      }
    }
    var merged := MergeQueryErrors(domain, errors, show);
    return Err(merged);
  }

  // ---------- Parallel against serial ----------

  ghost predicate NoPanic(q: Query)
    requires q.Valid()
  {
    forall i: nat | i < |q.clients| && Asked(q, i) :: !q.replies[i].Panics?
  }

  /** Every client is queried: no FakeDNS server is passed over. */
  ghost predicate NoneSkipped(q: Query) {
    forall i: nat | i < |q.clients| :: Asked(q, i)
  }

  lemma {:induction false} AllAskedErrors(q: Query, n: nat)
    requires q.Valid() && n <= |q.clients| && NoneSkipped(q) && AllFail(q, |q.clients|)
    ensures Failed(q, n) == RawErrors(q)[..n]
  {
    hide IsFakeDns;
    if n > 0 {
      AllAskedErrors(q, n - 1);
      assert Asked(q, n - 1);
      assert RawErrors(q)[..n] == RawErrors(q)[..n - 1] + [RawError(q, n - 1)];
    }
  }

  lemma NoGoodWhenAllFail(q: Query)
    requires q.Valid() && AllFail(q, |q.clients|)
    ensures !SomeGood(q)
  {
    hide Asked;
  }

  lemma LeadIsFirstGood(q: Query, f: nat)
    requires q.Valid() && Leads(q, f) && q.replies[f].Answers? && q.replies[f].ips != []
    ensures FirstGood(q, f)
  {
    hide Asked;
  }

  /**
   With differing neighbouring policies and no panic, a serial answer is also the parallel one exactly
   when it is not empty; a serial error is a parallel error, and the same one if no server is skipped.
   */
  lemma ParallelMatchesSerial(q: Query, order: seq<nat>, domain: string, show: DnsError -> string, p: Result, s: Result)
    requires q.Valid() && Schedule(q, order) && AdjacentDiffer(q.clients) && NoPanic(q)
    requires ParallelResult(q, order, domain, show, p) && SerialResult(q, domain, show, s)
    ensures s.Ok? ==> (p == s <==> s.ips != [])
    ensures s.Err? ==> p.Err?
    ensures s.Err? && NoneSkipped(q) ==> p == s
    ensures !s.Panicked?
  {
    OkExactlyWhenGood(q, order, domain, show, p);
    if p.Ok? {
      var w := FirstGoodWins(q, order, domain, show, p);
      MatchWhenParallelOk(q, domain, show, p, s, w);
    } else {
      MatchWhenParallelErr(q, order, domain, show, p, s);
    }
  }

  lemma MatchWhenParallelOk(q: Query, domain: string, show: DnsError -> string, p: Result, s: Result, w: nat)
    requires q.Valid() && NoPanic(q) && p.Ok? && SerialResult(q, domain, show, s)
    requires FirstGood(q, w) && q.replies[w] == Answers(p.ips, p.ttl)
    ensures s.Ok? && (p == s <==> s.ips != [])
  {
    hide IsFakeDns, Asked, Render, Summarise;
    assert !AllFail(q, |q.clients|) by {
      assert q.replies[w].Answers? && Asked(q, w);
    }
    var f: nat :| Leads(q, f);
    assert q.replies[f].Answers?;
    if q.replies[f].ips != [] {
      LeadIsFirstGood(q, f);
      hide Good;
      assert f == w;
    }
  }

  lemma MatchWhenParallelErr(q: Query, order: seq<nat>, domain: string, show: DnsError -> string, p: Result, s: Result)
    requires q.Valid() && NoPanic(q) && p.Err? && SerialResult(q, domain, show, s)
    requires ParallelResult(q, order, domain, show, p) && !SomeGood(q)
    ensures s.Ok? ==> s.ips == []
    ensures !s.Panicked?
    ensures s.Err? && NoneSkipped(q) ==> p == s
  {
    hide IsFakeDns, Render, Summarise, Settled;
    if s.Ok? {
      var f: nat :| Leads(q, f) && q.replies[f] == Answers(s.ips, s.ttl);
      if s.ips != [] {
        LeadIsFirstGood(q, f);
      }
    } else if s.Err? && NoneSkipped(q) {
      AllAskedErrors(q, |q.clients|);
      assert RawErrors(q)[..|q.clients|] == RawErrors(q);
    }
  }

  // ---------- Skipped servers and the merged error ----------

  lemma {:induction false} FailedMembers(q: Query, n: nat, e: DnsError)
    requires q.Valid() && n <= |q.clients| && AllFail(q, |q.clients|)
    ensures e in Failed(q, n) <==> exists i: nat | i < n :: Asked(q, i) && q.replies[i] == Fails(e)
  {
    hide IsFakeDns, Asked;
    if n > 0 {
      FailedMembers(q, n - 1, e);
      if exists i: nat | i < n :: Asked(q, i) && q.replies[i] == Fails(e) {
        var i: nat :| i < n && Asked(q, i) && q.replies[i] == Fails(e);
      }
    }
  }

  lemma {:induction false} FailedShorter(q: Query, n: nat, i: nat)
    requires q.Valid() && i < n <= |q.clients| && !Asked(q, i)
    ensures |Failed(q, n)| < n
  {
    hide IsFakeDns, Asked;
    if i < n - 1 {
      FailedShorter(q, n - 1, i);
    }
  }

  /** With a skipped server the raw errors are those of the queried servers and EmptyResponse. */
  lemma RawMembers(q: Query, skipped: nat, e: DnsError)
    requires q.Valid() && AllFail(q, |q.clients|) && skipped < |q.clients| && !Asked(q, skipped)
    ensures e in RawErrors(q) <==> e == EmptyResponse || e in Failed(q, |q.clients|)
  {
    hide IsFakeDns, Asked;
    var raw := RawErrors(q);
    FailedMembers(q, |q.clients|, e);
    assert raw[skipped] == EmptyResponse;
    if e in raw {
      var i: nat :| i < |raw| && raw[i] == e;
      assert RawError(q, i) == e;
    }
    if e in Failed(q, |q.clients|) {
      var i: nat :| i < |q.clients| && Asked(q, i) && q.replies[i] == Fails(e);
      assert raw[i] == e;
    }
  }

  /**
   A skipped FakeDNS server shows in the merged error unless every other error is EmptyResponse or
   RecordNotFound with at least one EmptyResponse, or there is no other server at all.
   */
  lemma SkipKeepsError(q: Query, skipped: nat)
    requires q.Valid() && AllFail(q, |q.clients|) && skipped < |q.clients| && !Asked(q, skipped)
    ensures var failed := Failed(q, |q.clients|);
            Summarise(RawErrors(q)) == Summarise(failed) <==> failed == [] || Kinds(failed) == {EMPTY_KIND}
  {
    var failed, raw := Failed(q, |q.clients|), RawErrors(q);
    FailedShorter(q, |q.clients|, skipped);
    forall e
      ensures e in raw <==> e == EmptyResponse || e in failed
    {
      RawMembers(q, skipped, e);
    }
    hide Failed, RawErrors, AllFail, Asked;
    ExtraEmpty(failed, raw);
  }

  lemma ExtraKinds(failed: seq<DnsError>, raw: seq<DnsError>)
    requires forall e :: e in raw <==> e == EmptyResponse || e in failed
    ensures Kinds(raw) == Kinds(failed) + {EMPTY_KIND}
  {
    assert EmptyResponse in raw;
    assert Kind(EmptyResponse) == EMPTY_KIND;
    assert EMPTY_KIND in Kinds(raw);
    forall e | e in failed && Kind(e) != NOT_FOUND_KIND
      ensures Kind(e) in Kinds(raw)
    {
      assert e in raw;
    }
  }

  lemma SummaryByKinds(errs: seq<DnsError>)
    requires errs != []
    ensures Summarise(errs).NotFound? <==> Kinds(errs) == {}
    ensures Summarise(errs).Single? ==> Kinds(errs) == {Kind(Summarise(errs).error)}
    ensures Summarise(errs).Several? ==> Summarise(errs).errors == errs
  {
    NoKinds(errs);
    if FirstOther(errs) < |errs| {
      OneKindSet(errs);
    }
    hide Kinds, OneKind;
  }

  lemma SingleByKinds(errs: seq<DnsError>, k: nat)
    requires errs != [] && Kinds(errs) == {k}
    ensures Summarise(errs).Single? && Kind(Summarise(errs).error) == k
  {
    NoKinds(errs);
    OneKindSet(errs);
    hide Kinds, OneKind;
    assert Kind(errs[FirstOther(errs)]) in {k};
  }

  lemma EmptyKind(e: DnsError)
    ensures Kind(e) == EMPTY_KIND <==> e == EmptyResponse
  {
  }

  lemma ExtraEmpty(failed: seq<DnsError>, raw: seq<DnsError>)
    requires forall e :: e in raw <==> e == EmptyResponse || e in failed
    requires |failed| < |raw|
    ensures Summarise(raw) == Summarise(failed) <==> failed == [] || Kinds(failed) == {EMPTY_KIND}
  {
    ExtraKinds(failed, raw);
    SummaryByKinds(raw);
    if failed == [] {
      assert Kinds(failed) == {};
      SingleByKinds(raw, EMPTY_KIND);
      EmptyKind(Summarise(raw).error);
    } else {
      SummaryByKinds(failed);
      hide Kinds, Summarise;
      assert EMPTY_KIND in Kinds(raw);
      if Kinds(failed) == {EMPTY_KIND} {
        SingleByKinds(raw, EMPTY_KIND);
        SingleByKinds(failed, EMPTY_KIND);
        EmptyKind(Summarise(raw).error);
        EmptyKind(Summarise(failed).error);
      }
    }
  }

  lemma {:induction false} RawWeighsMore(q: Query, n: nat, skipped: nat, show: DnsError -> string)
    requires q.Valid() && n <= |q.clients| && AllFail(q, |q.clients|) && skipped < |q.clients| && !Asked(q, skipped)
    ensures Weight(RawErrors(q)[..n], show) >= Weight(Failed(q, n), show) + if skipped < n then 2 else 0
  {
    hide IsFakeDns, Asked;
    if n > 0 {
      RawWeighsMore(q, n - 1, skipped, show);
      var raw := RawErrors(q);
      assert raw[..n] == raw[..n - 1] + [raw[n - 1]];
      assert [raw[n - 1]][1..] == [];
      WeightAppend(raw[..n - 1], [raw[n - 1]], show);
      var more := if Asked(q, n - 1) && q.replies[n - 1].Fails? then [q.replies[n - 1].error] else [];
      WeightAppend(Failed(q, n - 1), more, show);
    }
  }

  lemma SummaryMember(errs: seq<DnsError>)
    requires errs != []
    ensures Summarise(errs).Single? ==> Summarise(errs).error in errs
  {
    hide OneKind;
  }

  /** The error a caller receives: the same with a skipped server under exactly the same condition. */
  lemma SkipKeepsMergedError(q: Query, skipped: nat, domain: string, show: DnsError -> string)
    requires q.Valid() && AllFail(q, |q.clients|) && skipped < |q.clients| && !Asked(q, skipped) && Quotes(show)
    ensures var failed := Failed(q, |q.clients|);
            Render(domain, Summarise(RawErrors(q)), show) == Render(domain, Summarise(failed), show)
            <==> failed == [] || Kinds(failed) == {EMPTY_KIND}
  {
    var failed, raw := Failed(q, |q.clients|), RawErrors(q);
    SkipKeepsError(q, skipped);
    RawWeighsMore(q, |q.clients|, skipped, show);
    assert raw[..|q.clients|] == raw;
    forall e
      ensures e in raw <==> e == EmptyResponse || e in failed
    {
      RawMembers(q, skipped, e);
    }
    hide Failed, RawErrors, AllFail, Asked, Summarise, Kinds;
    if failed != [] && Kinds(failed) != {EMPTY_KIND} {
      RenderedApart(domain, failed, raw, show);
    }
  }

  lemma RenderedApart(domain: string, failed: seq<DnsError>, raw: seq<DnsError>, show: DnsError -> string)
    requires forall e :: e in raw <==> e == EmptyResponse || e in failed
    requires failed != [] && Kinds(failed) != {EMPTY_KIND} && Quotes(show) && Weight(raw, show) != Weight(failed, show)
    ensures Render(domain, Summarise(raw), show) != Render(domain, Summarise(failed), show)
  {
    ExtraKinds(failed, raw);
    SummaryByKinds(raw);
    SummaryByKinds(failed);
    SummaryMember(failed);
    assert EmptyResponse in raw;
    hide Kinds, Summarise, Joined, Weight, Quotes;
    var r, f := Summarise(raw), Summarise(failed);
    assert EMPTY_KIND in Kinds(raw);
    if r.Single? {
      EmptyKind(r.error);
      assert Kinds(raw) == {EMPTY_KIND};
      assert f.NotFound? by {
        OnlyEmptyLeft(Kinds(failed), Kinds(raw));
      }
    } else if f.Single? {
      PartIsNotWhole(domain, raw, f.error, show);
    } else if f.Several? {
      DifferentWeights(domain, raw, failed, show);
    }
  }

  lemma OnlyEmptyLeft(failed: set<nat>, raw: set<nat>)
    requires raw == failed + {EMPTY_KIND} && raw == {EMPTY_KIND} && failed != {EMPTY_KIND}
    ensures failed == {}
  {
    assert forall k | k in failed :: k in raw;
    assert failed <= {EMPTY_KIND};
  }

  /** Parallel and serial report the same error beside a skipped server exactly then. */
  lemma SkippedErrorsAgree(q: Query, order: seq<nat>, domain: string, show: DnsError -> string, p: Result, s: Result, skipped: nat)
    requires q.Valid() && Schedule(q, order) && Quotes(show) && skipped < |q.clients| && !Asked(q, skipped)
    requires ParallelResult(q, order, domain, show, p) && SerialResult(q, domain, show, s) && s.Err?
    ensures p == s <==> Failed(q, |q.clients|) == [] || Kinds(Failed(q, |q.clients|)) == {EMPTY_KIND}
  {
    hide Asked, Kinds, Render, Summarise, Quotes, Schedule, Failed, Settled;
    NoGoodWhenAllFail(q);
    OkExactlyWhenGood(q, order, domain, show, p);
    SkipKeepsMergedError(q, skipped, domain, show);
  }

  ghost function SkipExample(): Query {
    Query([Client(1, "FakeDNS", false, false), Client(2, "a", false, false)], [Panics, Fails(RecordNotFound)], false)
  }

  lemma SkipExampleErrors()
    ensures var q := SkipExample();
            && Schedule(q, [1]) && AllFail(q, 2)
            && Failed(q, 2) == [RecordNotFound] && RawErrors(q) == [EmptyResponse, RecordNotFound]
  {
    var q := SkipExample();
    assert IsFakeDns("FakeDNS") && !IsFakeDns("a");
    assert !Asked(q, 0) && Asked(q, 1);
    assert Failed(q, 0) == [] && Failed(q, 1) == [];
  }

  /** One skipped FakeDNS server beside one that finds nothing: the two forms report different errors. */
  lemma {:induction false} SkipChangesError(domain: string, show: DnsError -> string, p: Result, s: Result)
    requires ParallelResult(SkipExample(), [1], domain, show, p) && SerialResult(SkipExample(), domain, show, s)
    ensures s == Err(RecordNotFound) && p == Err(EmptyResponse)
  {
    var q := SkipExample();
    SkipExampleErrors();
    NoGoodWhenAllFail(q);
    OkExactlyWhenGood(q, [1], domain, show, p);
    hide Failed, RawErrors, Asked, Schedule, SomeGood, Settled, Leads, AllFail, Wins, Stage;
    assert !s.Ok? && !s.Panicked? by {
      NotLeading(q, 0);
      NotLeading(q, 1);
    }
    SkipExampleSummaries();
    hide Summarise;
  }

  lemma SkipExampleSummaries()
    ensures Summarise([RecordNotFound]) == NotFound
    ensures Summarise([EmptyResponse, RecordNotFound]) == Single(EmptyResponse)
  {
    assert FirstOther([EmptyResponse, RecordNotFound]) == 0;
  }

  lemma NotLeading(q: Query, f: nat)
    requires q.Valid() && AllFail(q, |q.clients|)
    ensures !Leads(q, f)
  {
    hide Asked;
  }
}
