/** Which name servers a domain is sent to, and in which order. Clients are named by their index. */
module SortClients {
  import opened Bytes
  import opened DnsTypes

  datatype Policy = Policy(disableFallback: bool, disableFallbackIfMatch: bool)

  // ---------- Sorting rule ids ----------

  ghost predicate Ascending(s: seq<nat>) {
    forall i, j | 0 <= i < j < |s| :: s[i] <= s[j]
  }

  function Insert(x: nat, s: seq<nat>): seq<nat> {
    if s == [] || x <= s[0] then [x] + s else [s[0]] + Insert(x, s[1..])
  }

  function Sort(s: seq<nat>): seq<nat> {
    if s == [] then [] else Insert(s[0], Sort(s[1..]))
  }

  lemma {:induction false} Inserted(x: nat, s: seq<nat>)
    requires Ascending(s)
    ensures Ascending(Insert(x, s)) && forall y :: y in Insert(x, s) <==> y == x || y in s
  {
    if s != [] && x > s[0] {
      var rest := Insert(x, s[1..]);
      Inserted(x, s[1..]);
      assert s == [s[0]] + s[1..];
      forall j | 0 <= j < |rest|
        ensures s[0] <= rest[j]
      {
        assert rest[j] in rest;
      }
    }
  }

  lemma {:induction false} Sorted(s: seq<nat>)
    ensures Ascending(Sort(s)) && forall y :: y in Sort(s) <==> y in s
  {
    if s != [] {
      Sorted(s[1..]);
      Inserted(s[0], Sort(s[1..]));
      assert s == [s[0]] + s[1..];
    }
  }

  // ---------- The specification ----------

  /** The client a rule points to exists. */
  predicate Points(rule: nat, infos: seq<nat>, n: nat) {
    rule < |infos| && infos[rule] < n
  }

  /** The clients of the rules in order, each once. */
  function Matched(rules: seq<nat>, infos: seq<nat>, n: nat): seq<nat> {
    if rules == [] then []
    else
      var before, rule := Matched(rules[..|rules| - 1], infos, n), rules[|rules| - 1];
      if Points(rule, infos, n) && infos[rule] !in before then before + [infos[rule]] else before
  }

  /** Clients below k that are unused and not excluded from fallback, in configuration order. */
  function Fallback(clients: seq<Client>, used: seq<nat>, k: nat): seq<nat>
    requires k <= |clients|
  {
    if k == 0 then []
    else Fallback(clients, used, k - 1) + if k - 1 in used || clients[k - 1].skipFallback then [] else [k - 1]
  }

  /** The list up to and including the first final client. */
  function Cut(clients: seq<Client>, list: seq<nat>): seq<nat>
    requires InRange(list, |clients|)
  {
    if list == [] then []
    else if clients[list[0]].finalQuery then [list[0]]
    else [list[0]] + Cut(clients, list[1..])
  }

  ghost predicate InRange(list: seq<nat>, n: nat) {
    forall i | 0 <= i < |list| :: list[i] < n
  }

  ghost predicate NoFinal(clients: seq<Client>, list: seq<nat>)
    requires InRange(list, |clients|)
  {
    forall i | 0 <= i < |list| :: !clients[list[i]].finalQuery
  }

  predicate AllowsFallback(policy: Policy, matched: seq<nat>) {
    !(policy.disableFallback || (policy.disableFallbackIfMatch && matched != []))
  }

  /** Matched clients by ascending rule, then the fallback ones if allowed. */
  function Candidates(clients: seq<Client>, rules: seq<nat>, infos: seq<nat>, policy: Policy): seq<nat> {
    var matched := Matched(Sort(rules), infos, |clients|);
    matched + if AllowsFallback(policy, matched) then Fallback(clients, matched, |clients|) else []
  }

  lemma {:induction false} MatchedRange(rules: seq<nat>, infos: seq<nat>, n: nat)
    ensures InRange(Matched(rules, infos, n), n)
  {
    if rules != [] {
      MatchedRange(rules[..|rules| - 1], infos, n);
    }
  }

  lemma {:induction false} FallbackRange(clients: seq<Client>, used: seq<nat>, k: nat)
    requires k <= |clients|
    ensures InRange(Fallback(clients, used, k), k)
  {
    if k > 0 {
      FallbackRange(clients, used, k - 1);
    }
  }

  lemma CandidatesRange(clients: seq<Client>, rules: seq<nat>, infos: seq<nat>, policy: Policy)
    ensures InRange(Candidates(clients, rules, infos, policy), |clients|)
  {
    var matched := Matched(Sort(rules), infos, |clients|);
    MatchedRange(Sort(rules), infos, |clients|);
    FallbackRange(clients, matched, |clients|);
  }

  ghost function Chosen(clients: seq<Client>, rules: seq<nat>, infos: seq<nat>, policy: Policy): seq<nat> {
    CandidatesRange(clients, rules, infos, policy);
    var cut := Cut(clients, Candidates(clients, rules, infos, policy));
    if cut == [] && clients != [] then [0] else cut
  }

  // ---------- The method ----------

  lemma {:induction false} CutNone(clients: seq<Client>, list: seq<nat>)
    requires InRange(list, |clients|) && NoFinal(clients, list)
    ensures Cut(clients, list) == list
  {
    if list != [] {
      var rest := list[1..];
      assert forall i | 0 <= i < |rest| :: rest[i] == list[i + 1];
      CutNone(clients, rest);
    }
  }

  lemma {:induction false} CutAt(clients: seq<Client>, list: seq<nat>, k: nat)
    requires InRange(list, |clients|) && k < |list| && clients[list[k]].finalQuery && NoFinal(clients, list[..k])
    ensures Cut(clients, list) == list[..k + 1]
  {
    if k > 0 {
      var init, rest := list[..k], list[1..][..k - 1];
      assert init[0] == list[0];
      assert forall i | 0 <= i < k - 1 :: rest[i] == init[i + 1];
      CutAt(clients, list[1..], k - 1);
      assert list[..k + 1] == [list[0]] + list[1..][..k];
    } else {
      assert list[..1] == [list[0]];
    }
  }

  lemma {:induction false} MatchedPrefix(rules: seq<nat>, infos: seq<nat>, n: nat, k: nat)
    requires k <= |rules|
    ensures Matched(rules[..k], infos, n) <= Matched(rules, infos, n)
    decreases |rules|
  {
    if k < |rules| {
      assert rules[..|rules| - 1][..k] == rules[..k];
      MatchedPrefix(rules[..|rules| - 1], infos, n, k);
    } else {
      assert rules[..k] == rules;
    }
  }

  lemma {:induction false} FallbackPrefix(clients: seq<Client>, used: seq<nat>, k: nat, m: nat)
    requires k <= m <= |clients|
    ensures Fallback(clients, used, k) <= Fallback(clients, used, m)
    decreases m
  {
    if k < m {
      FallbackPrefix(clients, used, k, m - 1);
    }
  }

  ghost predicate Marks(used: seq<bool>, list: seq<nat>, n: nat) {
    |used| == n && forall c: nat | c < n :: used[c] <==> c in list
  }

  /** The list so far starts the candidates, ends in the first final client and so is the whole result. */
  lemma EndsHere(clients: seq<Client>, rules: seq<nat>, infos: seq<nat>, policy: Policy, list: seq<nat>, c: nat)
    requires InRange(list, |clients|) && c < |clients| && NoFinal(clients, list) && clients[c].finalQuery
    requires list + [c] <= Candidates(clients, rules, infos, policy)
    ensures Chosen(clients, rules, infos, policy) == list + [c]
  {
    var all := Candidates(clients, rules, infos, policy);
    CandidatesRange(clients, rules, infos, policy);
    assert all[..|list|] == list;
    assert all[|list|] == c;
    hide Candidates;
    CutAt(clients, all, |list|);
  }

  lemma EndsAll(clients: seq<Client>, rules: seq<nat>, infos: seq<nat>, policy: Policy)
    requires InRange(Candidates(clients, rules, infos, policy), |clients|)
    requires NoFinal(clients, Candidates(clients, rules, infos, policy))
    ensures var all := Candidates(clients, rules, infos, policy);
            Chosen(clients, rules, infos, policy) == if all == [] && clients != [] then [0] else all
  {
    hide Candidates;
    CutNone(clients, Candidates(clients, rules, infos, policy));
  }

  method Order(clients: seq<Client>, rules: seq<nat>, infos: seq<nat>, policy: Policy) returns (ordered: seq<nat>)
    ensures ordered == Chosen(clients, rules, infos, policy)
  {
    hide Sort, Matched, Fallback, Chosen, Marks, NoFinal;
    var sorted := Sort(rules);
    var used, stop;
    ordered, used, stop := TakeMatched(clients, rules, sorted, infos, policy);
    if stop {
      return;
    }
    if AllowsFallback(policy, ordered) {
      ordered, stop := TakeFallback(clients, rules, infos, policy, ordered, used);
      if stop {
        return;
      }
    } else {
      assert Candidates(clients, rules, infos, policy) == ordered;
    }
    EndsAll(clients, rules, infos, policy);
    if ordered == [] && clients != [] {
      ordered := [0];
    }
  }

  lemma MatchedNone(infos: seq<nat>, n: nat)
    ensures Matched([], infos, n) == []
  {
  }

  lemma MatchedStep(rules: seq<nat>, infos: seq<nat>, n: nat, i: nat)
    requires i < |rules|
    ensures Matched(rules[..i + 1], infos, n)
         == Matched(rules[..i], infos, n)
            + if Points(rules[i], infos, n) && infos[rules[i]] !in Matched(rules[..i], infos, n) then [infos[rules[i]]] else []
  {
    assert rules[..i + 1][..i] == rules[..i];
  }

  lemma MatchedFinal(clients: seq<Client>, rules: seq<nat>, infos: seq<nat>, policy: Policy, list: seq<nat>, c: nat, i: nat)
    requires InRange(list, |clients|) && c < |clients| && NoFinal(clients, list) && clients[c].finalQuery
    requires i < |Sort(rules)| && list + [c] == Matched(Sort(rules)[..i + 1], infos, |clients|)
    ensures Chosen(clients, rules, infos, policy) == list + [c]
  {
    hide Sort, Matched, Fallback, Chosen;
    MatchedPrefix(Sort(rules), infos, |clients|, i + 1);
    EndsHere(clients, rules, infos, policy, list, c);
  }

  /** The loop over matched rules; `stop` says a final client ended it. */
  method TakeMatched(clients: seq<Client>, ghost rules: seq<nat>, sorted: seq<nat>, infos: seq<nat>, policy: Policy)
    returns (ordered: seq<nat>, used: seq<bool>, stop: bool)
    requires sorted == Sort(rules)
    ensures InRange(ordered, |clients|)
    ensures stop ==> ordered == Chosen(clients, rules, infos, policy)
    ensures !stop ==> ordered == Matched(sorted, infos, |clients|) && NoFinal(clients, ordered) && Marks(used, ordered, |clients|)
  {
    hide Sort, Chosen, Matched;
    MatchedNone(infos, |clients|);
    ordered, stop := [], false;
    used := seq(|clients|, _ => false);
    for i := 0 to |sorted|
      invariant InRange(ordered, |clients|) && NoFinal(clients, ordered) && Marks(used, ordered, |clients|)
      invariant ordered == Matched(sorted[..i], infos, |clients|)
    {
      MatchedStep(sorted, infos, |clients|, i);
      var id := sorted[i];
      if id >= |infos| {
        continue;
      }
      var idx := infos[id];
      if idx >= |clients| || used[idx] {
        continue;
      }
      used := used[idx := true];
      if clients[idx].finalQuery {
        MatchedFinal(clients, rules, infos, policy, ordered, idx, i);
        ordered := ordered + [idx];
        return ordered, used, true;
      }
      ordered := ordered + [idx];
    }
    assert sorted[..|sorted|] == sorted;
  }

  /** The loop over the remaining clients. */
  method TakeFallback(clients: seq<Client>, ghost rules: seq<nat>, infos: seq<nat>, policy: Policy, matched: seq<nat>, marks: seq<bool>)
    returns (ordered: seq<nat>, stop: bool)
    requires matched == Matched(Sort(rules), infos, |clients|) && AllowsFallback(policy, matched)
    requires InRange(matched, |clients|) && NoFinal(clients, matched) && Marks(marks, matched, |clients|)
    ensures stop ==> ordered == Chosen(clients, rules, infos, policy)
    ensures !stop ==> ordered == Candidates(clients, rules, infos, policy) && InRange(ordered, |clients|) && NoFinal(clients, ordered)
  {
    hide Sort, Chosen, Matched;
    ordered, stop := matched, false;
    var used := marks;
    for i := 0 to |clients|
      invariant ordered == matched + Fallback(clients, matched, i)
      invariant InRange(ordered, |clients|) && NoFinal(clients, ordered)
      invariant |used| == |clients| && forall c: nat | i <= c < |clients| :: used[c] <==> c in matched
    {
      if used[i] || clients[i].skipFallback {
        continue;
      }
      used := used[i := true];
      if clients[i].finalQuery {
        FallbackPrefix(clients, matched, i + 1, |clients|);
        EndsHere(clients, rules, infos, policy, ordered, i);
        ordered := ordered + [i];
        return ordered, true;
      }
      ordered := ordered + [i];
    }
  }

  // ---------- What the order means ----------

  /** Some rule in the list points to the client. */
  ghost predicate Hit(rules: seq<nat>, infos: seq<nat>, n: nat, c: nat) {
    exists r | r in rules :: Points(r, infos, n) && infos[r] == c
  }

  /** The rule is the smallest one in the list that points to the client. */
  ghost predicate FirstRule(rules: seq<nat>, infos: seq<nat>, n: nat, c: nat, r: nat) {
    && r in rules && Points(r, infos, n) && infos[r] == c
    && forall q | q in rules && Points(q, infos, n) && infos[q] == c :: r <= q
  }

  lemma {:induction false} MatchedMembers(rules: seq<nat>, infos: seq<nat>, n: nat, c: nat)
    ensures c in Matched(rules, infos, n) <==> Hit(rules, infos, n, c)
    ensures NoRepeats(Matched(rules, infos, n))
  {
    if rules != [] {
      var init, last := rules[..|rules| - 1], rules[|rules| - 1];
      assert rules == init + [last];
      MatchedMembers(init, infos, n, c);
      if Points(last, infos, n) && infos[last] in Matched(init, infos, n) {
        MatchedMembers(init, infos, n, infos[last]);
      }
      assert Hit(rules, infos, n, c) <==> Hit(init, infos, n, c) || (Points(last, infos, n) && infos[last] == c);
    }
  }

  /** Matched clients come in the order of the smallest rule that points to them. */
  lemma {:induction false} MatchedByRule(rules: seq<nat>, infos: seq<nat>, n: nat, i: nat, j: nat, ri: nat, rj: nat)
    requires Ascending(rules) && i < j < |Matched(rules, infos, n)|
    requires FirstRule(rules, infos, n, Matched(rules, infos, n)[i], ri)
    requires FirstRule(rules, infos, n, Matched(rules, infos, n)[j], rj)
    ensures ri < rj
  {
    var init, last := rules[..|rules| - 1], rules[|rules| - 1];
    assert rules == init + [last];
    var before := Matched(init, infos, n);
    var ci, cj := Matched(rules, infos, n)[i], Matched(rules, infos, n)[j];
    assert ci == before[i] && ci in before;
    MatchedMembers(init, infos, n, ci);
    FirstInPrefix(init, last, infos, n, ci, ri);
    if j < |before| {
      assert cj in before;
      MatchedMembers(init, infos, n, cj);
      FirstInPrefix(init, last, infos, n, cj, rj);
      MatchedByRule(init, infos, n, i, j, ri, rj);
    } else {
      MatchedMembers(init, infos, n, cj);
      assert rj == last;
      MatchedMembers(rules, infos, n, ci);
      assert ci != cj;
    }
  }

  lemma FirstInPrefix(init: seq<nat>, last: nat, infos: seq<nat>, n: nat, c: nat, r: nat)
    requires Ascending(init + [last]) && Hit(init, infos, n, c) && FirstRule(init + [last], infos, n, c, r)
    ensures FirstRule(init, infos, n, c, r)
  {
    var q :| q in init && Points(q, infos, n) && infos[q] == c;
    var k :| 0 <= k < |init| && init[k] == q;
    assert (init + [last])[k] <= (init + [last])[|init|];
    assert q in init + [last];
    assert r <= q <= last;
  }

  /** The fallback list is exactly the unused, non-excluded clients in configuration order. */
  lemma {:induction false} FallbackMembers(clients: seq<Client>, used: seq<nat>, k: nat)
    requires k <= |clients|
    ensures forall c: nat :: c in Fallback(clients, used, k) <==> c < k && c !in used && !clients[c].skipFallback
    ensures forall i, j | 0 <= i < j < |Fallback(clients, used, k)| :: Fallback(clients, used, k)[i] < Fallback(clients, used, k)[j]
  {
    if k > 0 {
      FallbackMembers(clients, used, k - 1);
      FallbackRange(clients, used, k - 1);
    }
  }

  lemma {:induction false} CutIsPrefix(clients: seq<Client>, list: seq<nat>)
    requires InRange(list, |clients|)
    ensures Cut(clients, list) <= list
    ensures list != [] ==> Cut(clients, list) != []
  {
    if list != [] && !clients[list[0]].finalQuery {
      CutIsPrefix(clients, list[1..]);
      assert list == [list[0]] + list[1..];
    }
  }

  lemma CandidatesNoRepeats(clients: seq<Client>, rules: seq<nat>, infos: seq<nat>, policy: Policy)
    ensures NoRepeats(Candidates(clients, rules, infos, policy))
  {
    var matched := Matched(Sort(rules), infos, |clients|);
    var rest := Fallback(clients, matched, |clients|);
    MatchedMembers(Sort(rules), infos, |clients|, 0);
    FallbackMembers(clients, matched, |clients|);
    hide Sort, Matched, Fallback;
    forall j | 0 <= j < |rest|
      ensures rest[j] !in matched
    {
      assert rest[j] in rest;
    }
  }

  /** Every result names existing clients, each at most once, and at least one whenever there is one. */
  lemma ChosenShape(clients: seq<Client>, rules: seq<nat>, infos: seq<nat>, policy: Policy)
    ensures NoRepeats(Chosen(clients, rules, infos, policy))
    ensures InRange(Chosen(clients, rules, infos, policy), |clients|)
    ensures clients != [] ==> Chosen(clients, rules, infos, policy) != []
  {
    var all := Candidates(clients, rules, infos, policy);
    CandidatesRange(clients, rules, infos, policy);
    CandidatesNoRepeats(clients, rules, infos, policy);
    hide Candidates;
    CutIsPrefix(clients, all);
    var cut := Cut(clients, all);
    assert forall i | 0 <= i < |cut| :: cut[i] == all[i];
  }

  /**
   The first client asked: with a match it is the client of the smallest matching rule, whatever the order
   in which the matcher reports its hits.
   */
  lemma FirstChoice(clients: seq<Client>, rules: seq<nat>, infos: seq<nat>, policy: Policy, r: nat)
    requires r in rules && Points(r, infos, |clients|)
    requires forall q | q in rules && Points(q, infos, |clients|) :: r <= q
    ensures Chosen(clients, rules, infos, policy) != [] && Chosen(clients, rules, infos, policy)[0] == infos[r]
  {
    var n := |clients|;
    var matched := Matched(Sort(rules), infos, n);
    Sorted(rules);
    hide Sort, Matched;
    MatchedMembers(Sort(rules), infos, n, infos[r]);
    assert Hit(Sort(rules), infos, n, infos[r]);
    assert FirstRule(Sort(rules), infos, n, infos[r], r);
    var p :| 0 <= p < |matched| && matched[p] == infos[r];
    if p > 0 {
      var c := matched[0];
      MatchedMembers(Sort(rules), infos, n, c);
      var q := LeastRule(Sort(rules), infos, n, c);
      assert q in rules;
      MatchedByRule(Sort(rules), infos, n, 0, p, q, r);
    }
    CandidatesRange(clients, rules, infos, policy);
    CutIsPrefix(clients, Candidates(clients, rules, infos, policy));
  }

  lemma {:induction false} LeastRule(rules: seq<nat>, infos: seq<nat>, n: nat, c: nat) returns (r: nat)
    requires Hit(rules, infos, n, c)
    ensures FirstRule(rules, infos, n, c, r)
  {
    r :| r in rules && Points(r, infos, n) && infos[r] == c;
    while exists q | q in rules && Points(q, infos, n) && infos[q] == c :: q < r
      invariant r in rules && Points(r, infos, n) && infos[r] == c
      decreases r
    {
      var q :| q in rules && Points(q, infos, n) && infos[q] == c && q < r;
      r := q;
    }
  }

  // ---------- Who is asked ----------

  /** A matched rule belongs to the client. */
  ghost predicate IsMatch(clients: seq<Client>, rules: seq<nat>, infos: seq<nat>, c: nat) {
    c < |clients| && exists r | r in rules :: r < |infos| && infos[r] == c
  }

  /** The client may be asked: it matches, or the two flags leave it as a fallback. */
  ghost predicate MayAsk(clients: seq<Client>, rules: seq<nat>, infos: seq<nat>, policy: Policy, c: nat) {
    || IsMatch(clients, rules, infos, c)
    || (c < |clients| && !clients[c].skipFallback && !policy.disableFallback
        && !(policy.disableFallbackIfMatch && exists d: nat :: IsMatch(clients, rules, infos, d)))
  }

  lemma MatchedAreMatches(clients: seq<Client>, rules: seq<nat>, infos: seq<nat>, c: nat)
    ensures c in Matched(Sort(rules), infos, |clients|) <==> IsMatch(clients, rules, infos, c)
  {
    Sorted(rules);
    MatchedMembers(Sort(rules), infos, |clients|, c);
    hide Sort, Matched;
  }

  /** The candidates are those that may be asked. */
  lemma CandidatesMayAsk(clients: seq<Client>, rules: seq<nat>, infos: seq<nat>, policy: Policy, c: nat)
    ensures c in Candidates(clients, rules, infos, policy) <==> MayAsk(clients, rules, infos, policy, c)
  {
    var matched := Matched(Sort(rules), infos, |clients|);
    FallbackMembers(clients, matched, |clients|);
    MatchedRange(Sort(rules), infos, |clients|);
    hide Sort, Matched, Fallback, IsMatch;
    forall d: nat
      ensures d in matched <==> IsMatch(clients, rules, infos, d)
    {
      MatchedAreMatches(clients, rules, infos, d);
    }
    assert matched != [] <==> exists d: nat :: IsMatch(clients, rules, infos, d) by {
      if matched != [] {
        assert matched[0] in matched;
      }
    }
  }

  /**
   Who is asked under the two flags. Only clients that may be, all of them unless a final one ends the list, and
   nobody behind a final one; if nobody may be asked, the first client is.
   */
  lemma ChosenExactly(clients: seq<Client>, rules: seq<nat>, infos: seq<nat>, policy: Policy)
    requires clients != []
    ensures
      var chosen := Chosen(clients, rules, infos, policy);
      if exists c: nat :: MayAsk(clients, rules, infos, policy, c) then
        && chosen != [] && InRange(chosen, |clients|)
        && (forall i | 0 <= i < |chosen| :: MayAsk(clients, rules, infos, policy, chosen[i]))
        && (forall i | 0 <= i < |chosen| - 1 :: !clients[chosen[i]].finalQuery)
        && (!clients[chosen[|chosen| - 1]].finalQuery ==>
              forall c: nat | MayAsk(clients, rules, infos, policy, c) :: c in chosen)
      else chosen == [0]
  {
    var all := Candidates(clients, rules, infos, policy);
    CandidatesRange(clients, rules, infos, policy);
    forall c: nat
      ensures c in all <==> MayAsk(clients, rules, infos, policy, c)
    {
      CandidatesMayAsk(clients, rules, infos, policy, c);
    }
    hide Candidates, MayAsk;
    CutEnds(clients, all);
    if all != [] {
      CutIsPrefix(clients, all);
      assert all[0] in all;
      var cut := Cut(clients, all);
      forall i | 0 <= i < |cut|
        ensures cut[i] in all
      {
        assert cut[i] == all[i];
      }
    }
  }

  /** The cut stops behind the first final client, and only there. */
  lemma {:induction false} CutEnds(clients: seq<Client>, list: seq<nat>)
    requires InRange(list, |clients|)
    ensures var cut := Cut(clients, list);
            && InRange(cut, |clients|)
            && (forall i | 0 <= i < |cut| - 1 :: !clients[cut[i]].finalQuery)
            && (cut != [] && !clients[cut[|cut| - 1]].finalQuery ==> cut == list)
  {
    if list != [] {
      CutEnds(clients, list[1..]);
      CutIsPrefix(clients, list[1..]);
      assert list == [list[0]] + list[1..];
    }
  }

  /** Matching clients come before fallback ones, which keep the order of the configuration. */
  lemma ChosenOrder(clients: seq<Client>, rules: seq<nat>, infos: seq<nat>, policy: Policy, i: nat, j: nat)
    requires i < j < |Chosen(clients, rules, infos, policy)|
    ensures
      var chosen := Chosen(clients, rules, infos, policy);
      && (IsMatch(clients, rules, infos, chosen[j]) ==> IsMatch(clients, rules, infos, chosen[i]))
      && (!IsMatch(clients, rules, infos, chosen[i]) ==> chosen[i] < chosen[j])
  {
    CandidatesRange(clients, rules, infos, policy);
    hide Candidates, IsMatch;
    CutIsPrefix(clients, Candidates(clients, rules, infos, policy));
    CandidatesOrder(clients, rules, infos, policy, i, j);
  }

  lemma CandidatesOrder(clients: seq<Client>, rules: seq<nat>, infos: seq<nat>, policy: Policy, i: nat, j: nat)
    requires i < j < |Candidates(clients, rules, infos, policy)|
    ensures
      var all := Candidates(clients, rules, infos, policy);
      && (IsMatch(clients, rules, infos, all[j]) ==> IsMatch(clients, rules, infos, all[i]))
      && (!IsMatch(clients, rules, infos, all[i]) ==> all[i] < all[j])
  {
    var matched := Matched(Sort(rules), infos, |clients|);
    var rest := Fallback(clients, matched, |clients|);
    var all := Candidates(clients, rules, infos, policy);
    FallbackMembers(clients, matched, |clients|);
    MatchedAreMatches(clients, rules, infos, all[i]);
    MatchedAreMatches(clients, rules, infos, all[j]);
    hide Sort, Matched, Fallback, IsMatch;
    if i < |matched| {
      assert all[i] == matched[i];
    } else {
      assert all[i] == rest[i - |matched|] && all[j] == rest[j - |matched|];
      assert all[j] in rest;
    }
  }

  /** Of two matching clients the one with the smaller matching rule is asked first. */
  lemma ChosenByRule(clients: seq<Client>, rules: seq<nat>, infos: seq<nat>, policy: Policy, i: nat, j: nat, ri: nat, rj: nat)
    requires i < j < |Chosen(clients, rules, infos, policy)|
    requires FirstRule(rules, infos, |clients|, Chosen(clients, rules, infos, policy)[i], ri)
    requires FirstRule(rules, infos, |clients|, Chosen(clients, rules, infos, policy)[j], rj)
    ensures ri < rj
  {
    var n := |clients|;
    var matched := Matched(Sort(rules), infos, n);
    var all := Candidates(clients, rules, infos, policy);
    FallbackMembers(clients, matched, n);
    CandidatesRange(clients, rules, infos, policy);
    CandidatesNoRepeats(clients, rules, infos, policy);
    Sorted(rules);
    hide Sort, Matched, Fallback;
    CutIsPrefix(clients, all);
    var ci, cj := all[i], all[j];
    assert j >= |matched| ==> cj == all[|matched|..][j - |matched|] && cj in all[|matched|..];
    MatchedMembers(Sort(rules), infos, n, ci);
    MatchedMembers(Sort(rules), infos, n, cj);
    assert ci in matched && cj in matched;
    assert j < |matched|;
    assert FirstRule(Sort(rules), infos, n, ci, ri) && FirstRule(Sort(rules), infos, n, cj, rj);
    MatchedByRule(Sort(rules), infos, n, i, j, ri, rj);
  }
}
