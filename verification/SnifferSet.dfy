/**
 The set of protocol probes that shrinks from round to round. After a round without a hit the set
 is cut down to the probes that asked for a retry; the cut walks one iterator with relative steps.
 */
module SnifferSet {
  import opened Bytes

  datatype Network = TCP | UDP | Unix

  /** A probe; `id` tells the members of a set apart. */
  datatype Probe = Probe(id: nat, metadataOnly: bool, network: Network)

  /** What a probe says of a payload: a result, "not mine", a retry, "mine but incomplete", or another error. */
  datatype Answer = Hit(protocol: string, domain: string) | NotMine | NoClue | NeedMore | Broken

  /** What a round says. */
  datatype Outcome = Found(protocol: string, domain: string) | RetryAll | RetryOne | Unknown

  type Oracle = (Probe, seq<byte>) -> Answer

  // ---- cutting the set down ----

  /** `nth` consumes the iterator: every index counts from behind the previous pick. */
  function RetainAt(xs: seq<Probe>, indices: seq<nat>): seq<Probe>
    decreases |indices|
  {
    if indices == [] then []
    else if indices[0] < |xs| then [xs[indices[0]]] + RetainAt(xs[indices[0] + 1..], indices[1..])
    else RetainAt([], indices[1..])
  }

  method Retain(xs: seq<Probe>, indices: seq<nat>) returns (kept: seq<Probe>)
    ensures kept == RetainAt(xs, indices)
  {
    kept := [];
    var it := xs;
    assert indices[0..] == indices;
    for k := 0 to |indices|
      invariant RetainAt(xs, indices) == kept + RetainAt(it, indices[k..])
    {
      assert indices[k..][1..] == indices[k + 1..];
      if indices[k] < |it| {
        kept, it := kept + [it[indices[k]]], it[indices[k] + 1..];
      } else {
        it := [];
      }
    }
  }

  /** The members at the given places, which is what the cut is for. */
  function Select(xs: seq<Probe>, indices: seq<nat>): seq<Probe>
    requires forall i | i in indices :: i < |xs|
  {
    seq(|indices|, k requires 0 <= k < |indices| => assert indices[k] in indices; xs[indices[k]])
  }

  predicate Increasing(indices: seq<nat>) {
    forall j, k | 0 <= j < k < |indices| :: indices[j] < indices[k]
  }

  lemma IncreasingSnoc(w: seq<nat>, x: nat)
    requires Increasing(w) && forall i | i in w :: i < x
    ensures Increasing(w + [x])
  {
    assert forall k | 0 <= k < |w| :: w[k] in w;
  }

  predicate Distinct(xs: seq<Probe>) {
    forall i, j | 0 <= i < j < |xs| :: xs[i] != xs[j]
  }

  /** The cut keeps the intended members exactly when it is asked for at most one. */
  lemma RetainIntended(xs: seq<Probe>, indices: seq<nat>)
    requires Distinct(xs) && Increasing(indices) && forall i | i in indices :: i < |xs|
    ensures RetainAt(xs, indices) == Select(xs, indices) <==> |indices| <= 1
  {
    if indices != [] {
      var i := indices[0];
      assert i in indices;
      var rest := RetainAt(xs[i + 1..], indices[1..]);
      assert RetainAt(xs, indices) == [xs[i]] + rest;
      if |indices| == 1 {
        assert rest == [];
      } else {
        var j := indices[1];
        assert indices[1..][0] == j;
        if j < |xs[i + 1..]| {
          assert rest[0] == xs[i + 1 + j];
          assert RetainAt(xs, indices)[1] != xs[j];
        } else {
          RetainNothing(indices[2..]);
          assert indices[1..][1..] == indices[2..];
        }
      }
    }
  }

  lemma {:induction false} RetainNothing(indices: seq<nat>)
    ensures RetainAt([], indices) == []
  {
    if indices != [] {
      RetainNothing(indices[1..]);
    }
  }

  /** Places of a subsequence, in order. */
  ghost predicate Picks(ys: seq<Probe>, xs: seq<Probe>, places: seq<nat>) {
    |places| == |ys| && Increasing(places) && forall k | 0 <= k < |ys| :: places[k] < |xs| && ys[k] == xs[places[k]]
  }

  ghost predicate Subsequence(ys: seq<Probe>, xs: seq<Probe>) {
    exists places :: Picks(ys, xs, places)
  }

  lemma PicksCons(xs: seq<Probe>, i: nat, ys: seq<Probe>, places: seq<nat>)
    requires i < |xs| && Picks(ys, xs[i + 1..], places)
    ensures Subsequence([xs[i]] + ys, xs)
  {
    var shifted := seq(|places|, k requires 0 <= k < |places| => places[k] + i + 1);
    var all := [i] + shifted;
    forall k | 0 <= k < |ys|
      ensures all[k + 1] == places[k] + i + 1 < |xs| && ys[k] == xs[all[k + 1]]
    {
    }
    forall j, k | 0 <= j < k < |all|
      ensures all[j] < all[k]
    {
      if j > 0 {
        assert places[j - 1] < places[k - 1];
      }
    }
    assert Picks([xs[i]] + ys, xs, all);
  }

  /** Whatever the indices, no member is invented, repeated or moved. */
  lemma {:induction false} RetainSubsequence(xs: seq<Probe>, indices: seq<nat>)
    ensures Subsequence(RetainAt(xs, indices), xs)
    decreases |indices|
  {
    if indices == [] {
      assert Picks([], xs, []);
    } else if indices[0] >= |xs| {
      RetainNothing(indices[1..]);
      assert Picks([], xs, []);
    } else {
      var i := indices[0];
      var tail := xs[i + 1..];
      RetainSubsequence(tail, indices[1..]);
      hide Picks;
      var rest := RetainAt(tail, indices[1..]);
      var places :| Picks(rest, tail, places);
      PicksCons(xs, i, rest, places);
    }
  }

  // ---- a round ----

  predicate Relevant(p: Probe, network: Network) {
    !p.metadataOnly && p.network == network
  }

  /** The round stops at a probe that hits or recognises an incomplete message. */
  predicate Decides(p: Probe, ask: Oracle, payload: seq<byte>, network: Network) {
    Relevant(p, network) && (ask(p, payload).Hit? || ask(p, payload).NeedMore?)
  }

  predicate Waits(p: Probe, ask: Oracle, payload: seq<byte>, network: Network) {
    Relevant(p, network) && ask(p, payload).NoClue?
  }

  /** The places before `end` whose probes asked for a retry. */
  function Waiting(probes: seq<Probe>, ask: Oracle, payload: seq<byte>, network: Network, end: nat): (w: seq<nat>)
    requires end <= |probes|
    ensures Increasing(w) && forall i :: i in w <==> 0 <= i < end && Waits(probes[i], ask, payload, network)
  {
    if end == 0 then []
    else
      var w := Waiting(probes, ask, payload, network, end - 1);
      if Waits(probes[end - 1], ask, payload, network) then IncreasingSnoc(w, end - 1); w + [end - 1] else w
  }

  /** The first probe that decides, or the size of the set. */
  function Decider(probes: seq<Probe>, ask: Oracle, payload: seq<byte>, network: Network): (at: nat)
    ensures at <= |probes| && (at < |probes| ==> Decides(probes[at], ask, payload, network))
    ensures forall j | 0 <= j < at :: !Decides(probes[j], ask, payload, network)
  {
    if probes == [] || Decides(probes[0], ask, payload, network) then 0
    else 1 + Decider(probes[1..], ask, payload, network)
  }

  /** What a round says and the set it leaves. */
  function Round(probes: seq<Probe>, ask: Oracle, payload: seq<byte>, network: Network): (Outcome, seq<Probe>) {
    var at := Decider(probes, ask, payload, network);
    if at < |probes| then
      match ask(probes[at], payload)
      case Hit(protocol, domain) => (Found(protocol, domain), probes)
      case _ => (RetryOne, [probes[at]])
    else
      var w := Waiting(probes, ask, payload, network, |probes|);
      (if w == [] then Unknown else RetryAll, RetainAt(probes, w))
  }

  class Sniffer {
    var sniffers: seq<Probe>

    constructor (sniffers: seq<Probe>)
      ensures this.sniffers == sniffers
    {
      this.sniffers := sniffers;
    }

    /** `at` is the first probe that decides the round, or the size of the set. */
    method Sniff(ask: Oracle, payload: seq<byte>, network: Network) returns (v: Outcome, ghost at: nat)
      modifies this
      ensures at <= |old(sniffers)| && forall j | 0 <= j < at :: !Decides(old(sniffers)[j], ask, payload, network)
      ensures at < |old(sniffers)| ==>
                var a := ask(old(sniffers)[at], payload);
                && Decides(old(sniffers)[at], ask, payload, network)
                && (if a.Hit? then v == Found(a.protocol, a.domain) && sniffers == old(sniffers)
                    else v == RetryOne && sniffers == [old(sniffers)[at]])
      ensures at == |old(sniffers)| ==>
                var w := Waiting(old(sniffers), ask, payload, network, at);
                sniffers == RetainAt(old(sniffers), w) && v == if w == [] then Unknown else RetryAll
      ensures (v, sniffers) == Round(old(sniffers), ask, payload, network)
    {
      var pending: seq<nat> := [];
      var needMore := false;
      at := |sniffers|;
      for i := 0 to |sniffers|
        invariant sniffers == old(sniffers) && !needMore && at == |sniffers|
        invariant forall j | 0 <= j < i :: !Decides(sniffers[j], ask, payload, network)
        invariant pending == Waiting(sniffers, ask, payload, network, i)
      {
        var s := sniffers[i];
        if s.metadataOnly || s.network != network {
          continue;
        }
        match ask(s, payload)
        case Hit(protocol, domain) =>
          return Found(protocol, domain), i;
        case NotMine =>
        case NoClue =>
          pending := pending + [i];
        case NeedMore =>
          pending, needMore, at := [i], true, i;
          break;
        case Broken =>
      }
      sniffers := Retain(sniffers, pending);
      if needMore {
        return RetryOne, at;
      }
      return if pending == [] then Unknown else RetryAll, at;
    }

    /** The metadata round keeps content probes and undecided metadata probes. */
    method SniffMetadata(ask: Oracle) returns (v: Outcome, ghost at: nat)
      modifies this
      ensures at <= |old(sniffers)|
      ensures forall j | 0 <= j < at :: !(old(sniffers)[j].metadataOnly && ask(old(sniffers)[j], []).Hit?)
      ensures at < |old(sniffers)| ==>
                var a := ask(old(sniffers)[at], []);
                old(sniffers)[at].metadataOnly && a.Hit? && v == Found(a.protocol, a.domain) && sniffers == old(sniffers)
      ensures at == |old(sniffers)| ==>
                var w := KeptForContent(old(sniffers), ask, at);
                sniffers == RetainAt(old(sniffers), w) && v == if w == [] then Unknown else RetryAll
    {
      var pending: seq<nat> := [];
      at := |sniffers|;
      for i := 0 to |sniffers|
        invariant sniffers == old(sniffers) && at == |sniffers|
        invariant forall j | 0 <= j < i :: !(sniffers[j].metadataOnly && ask(sniffers[j], []).Hit?)
        invariant pending == KeptForContent(sniffers, ask, i)
      {
        var s := sniffers[i];
        if !s.metadataOnly {
          pending := pending + [i];
          continue;
        }
        var a := ask(s, []);
        if a.Hit? {
          return Found(a.protocol, a.domain), i;
        }
        if a.NoClue? {
          pending := pending + [i];
        }
      }
      sniffers := Retain(sniffers, pending);
      return if pending == [] then Unknown else RetryAll, at;
    }
  }

  function KeptForContent(probes: seq<Probe>, ask: Oracle, end: nat): (w: seq<nat>)
    requires end <= |probes|
    ensures Increasing(w)
    ensures forall i :: i in w <==> 0 <= i < end && (!probes[i].metadataOnly || ask(probes[i], []).NoClue?)
  {
    if end == 0 then []
    else
      var w := KeptForContent(probes, ask, end - 1);
      if !probes[end - 1].metadataOnly || ask(probes[end - 1], []).NoClue? then IncreasingSnoc(w, end - 1); w + [end - 1] else w
  }

  /** The i-th probe looks at the contents of this network and gives the answer. */
  ghost predicate Answers(probes: seq<Probe>, ask: Oracle, payload: seq<byte>, network: Network, i: nat, a: Answer)
    requires i < |probes|
  {
    !probes[i].metadataOnly && probes[i].network == network && ask(probes[i], payload) == a
  }

  /** No probe before the i-th hits or recognises an incomplete message. */
  ghost predicate NoneBefore(probes: seq<Probe>, ask: Oracle, payload: seq<byte>, network: Network, i: nat)
    requires i <= |probes|
  {
    forall j: nat, a | j < i && Answers(probes, ask, payload, network, j, a) :: !a.Hit? && !a.NeedMore?
  }

  lemma DeciderIs(probes: seq<Probe>, ask: Oracle, payload: seq<byte>, network: Network, i: nat)
    requires i <= |probes|
    ensures NoneBefore(probes, ask, payload, network, i) <==> i <= Decider(probes, ask, payload, network)
  {
    var at := Decider(probes, ask, payload, network);
    if i > at {
      assert Answers(probes, ask, payload, network, at, ask(probes[at], payload));
    }
  }

  /**
   A round in terms of the answers: the first hit or incomplete message of a probe for this network decides; an
   incomplete message leaves that probe alone in the set. Without either, somebody has to ask for a retry.
   */
  lemma RoundExactly(probes: seq<Probe>, ask: Oracle, payload: seq<byte>, network: Network)
    ensures
      var (o, left) := Round(probes, ask, payload, network);
      && (forall i: nat, a | i < |probes| && Answers(probes, ask, payload, network, i, a) && NoneBefore(probes, ask, payload, network, i) ::
            (a.Hit? ==> o == Found(a.protocol, a.domain) && left == probes) && (a.NeedMore? ==> o == RetryOne && left == [probes[i]]))
      && (NoneBefore(probes, ask, payload, network, |probes|) ==>
            o == if exists i: nat | i < |probes| :: Answers(probes, ask, payload, network, i, NoClue) then RetryAll else Unknown)
  {
    var at := Decider(probes, ask, payload, network);
    forall i: nat | i <= |probes|
      ensures NoneBefore(probes, ask, payload, network, i) <==> i <= at
    {
      DeciderIs(probes, ask, payload, network, i);
    }
    hide Decider, NoneBefore, RetainAt;
    if at == |probes| {
      var w := Waiting(probes, ask, payload, network, |probes|);
      assert forall i: nat | i < |probes| :: i in w <==> Answers(probes, ask, payload, network, i, NoClue);
      assert w != [] ==> w[0] in w;
    }
  }

  // ---- what survives ----

  /** The probes a round without a hit leaves behind. */
  function Survivors(probes: seq<Probe>, ask: Oracle, payload: seq<byte>, network: Network): seq<Probe> {
    RetainAt(probes, Waiting(probes, ask, payload, network, |probes|))
  }

  /** After an undecided round the survivors are the probes that asked for a retry if at most one did. */
  lemma SurvivorsIntended(probes: seq<Probe>, ask: Oracle, payload: seq<byte>, network: Network)
    requires Distinct(probes)
    ensures
      var w := Waiting(probes, ask, payload, network, |probes|);
      Survivors(probes, ask, payload, network) == Select(probes, w) <==> |w| <= 1
  {
    RetainIntended(probes, Waiting(probes, ask, payload, network, |probes|));
  }

  /** The default set, in its order. */
  function DefaultSet(): seq<Probe> {
    [Probe(0, false, TCP), Probe(1, false, TCP), Probe(2, false, TCP), Probe(3, false, UDP), Probe(4, false, UDP)]
  }

  lemma WaitingStep(probes: seq<Probe>, ask: Oracle, payload: seq<byte>, network: Network, i: nat)
    requires i < |probes|
    ensures Waiting(probes, ask, payload, network, 0) == []
    ensures Waiting(probes, ask, payload, network, i + 1)
            == Waiting(probes, ask, payload, network, i) + if Waits(probes[i], ask, payload, network) then [i] else []
  {
  }

  lemma DefaultCut()
    ensures RetainAt(DefaultSet(), [0, 1]) == [DefaultSet()[0], DefaultSet()[2]]
  {
    var s := DefaultSet();
    assert [0, 1][1..] == [1] && [1][1..] == [];
    assert RetainAt(s[1..], [1]) == [s[2]];
  }

  /** HTTP and TLS both want more bytes: HTTP survives with BitTorrent instead of with TLS. */
  lemma TlsProbeLost(ask: Oracle, payload: seq<byte>)
    requires
      var s := DefaultSet();
      ask(s[0], payload) == NoClue && ask(s[1], payload) == NoClue && ask(s[2], payload) == NotMine
    ensures Survivors(DefaultSet(), ask, payload, TCP) == [DefaultSet()[0], DefaultSet()[2]]
  {
    hide RetainAt, Waiting, Increasing;
    var s := DefaultSet();
    WaitingStep(s, ask, payload, TCP, 0);
    WaitingStep(s, ask, payload, TCP, 1);
    WaitingStep(s, ask, payload, TCP, 2);
    WaitingStep(s, ask, payload, TCP, 3);
    WaitingStep(s, ask, payload, TCP, 4);
    assert Waiting(s, ask, payload, TCP, 5) == [0, 1];
    DefaultCut();
  }
}
