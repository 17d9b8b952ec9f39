/** Static hosts: redirects are followed a bounded number of times, and what is left goes to the name servers. */
module Hosts {
  import opened Bytes
  import opened DnsTypes

  const MAX_DEPTH: nat := 5

  datatype Entry = IpEntry(ip: Ip) | DomainEntry(name: string) | RCodeEntry(code: nat)

  datatype Address = IpAddress(ip: Ip) | DomainAddress(name: string)

  /**
   `matched` is what the domain matcher reports for a lower-cased name, `lower` the lower-casing; without a
   matcher nothing is recorded.
   */
  datatype Table = Table(responses: seq<seq<Entry>>, hasMatcher: bool, matched: string -> seq<nat>, lower: string -> string)

  datatype Lookup = Absent | Rejected(error: DnsError) | Found(addresses: seq<Address>)

  // ---------- One name ----------

  /** All entries of the rules, in the order reported; rules without a response are passed over. */
  function EntriesOf(responses: seq<seq<Entry>>, rules: seq<nat>): seq<Entry> {
    if rules == [] then []
    else
      var last := rules[|rules| - 1];
      EntriesOf(responses, rules[..|rules| - 1]) + if last < |responses| then responses[last] else []
  }

  function Entries(t: Table, name: string): seq<Entry> {
    EntriesOf(t.responses, t.matched(t.lower(name)))
  }

  /** The first response code among the entries, or the length. */
  function FirstCode(entries: seq<Entry>): (k: nat)
    ensures k <= |entries| && (k < |entries| ==> entries[k].RCodeEntry?)
    ensures forall i | 0 <= i < k :: !entries[i].RCodeEntry?
  {
    if entries == [] || entries[0].RCodeEntry? then 0 else 1 + FirstCode(entries[1..])
  }

  function FilteredIps(entries: seq<Entry>, option: IpOption): seq<Address> {
    if entries == [] then []
    else
      var last := entries[|entries| - 1];
      FilteredIps(entries[..|entries| - 1], option)
      + if last.IpEntry? && Enabled(last.ip, option) then [IpAddress(last.ip)] else []
  }

  /** What one name says by itself. */
  datatype Verdict = Unrecorded | Code(code: nat) | Redirect(target: string) | Answer(addresses: seq<Address>)

  function Says(t: Table, name: string, option: IpOption): Verdict {
    var entries := Entries(t, name);
    var k := FirstCode(entries);
    if entries == [] then Unrecorded
    else if k < |entries| then Code(entries[k].code)
    else if |entries| == 1 && entries[0].DomainEntry? then Redirect(entries[0].name)
    else Answer(FilteredIps(entries, option))
  }

  // ---------- Following redirects ----------

  /** The k-th name of the redirect chain; a name that does not redirect repeats. */
  function Nth(t: Table, name: string, k: nat): string {
    if k == 0 then name
    else
      var prev := Nth(t, name, k - 1);
      if Target(t, prev).Some? then Target(t, prev).value else prev
  }

  /** Redirecting does not depend on the families asked for. */
  function Target(t: Table, name: string): Option<string> {
    var v := Says(t, name, IpOption(true, true, true));
    if v.Redirect? then Some(v.target) else None
  }

  lemma TargetIs(t: Table, name: string, option: IpOption)
    ensures Target(t, name).Some? <==> Says(t, name, option).Redirect?
    ensures Target(t, name).Some? ==> Target(t, name).value == Says(t, name, option).target
  {
    hide FilteredIps, Entries;
  }

  /** The first j names all redirect. */
  ghost predicate AllRedirect(t: Table, name: string, j: nat) {
    forall i: nat | i < j :: Target(t, Nth(t, name, i)).Some?
  }

  /** The answer of the name a chain of at least one redirect ends in. */
  function Ending(t: Table, name: string, option: IpOption): Lookup {
    match Says(t, name, option)
    case Unrecorded => Found([DomainAddress(name)])
    case Code(code) => Rejected(FromRcode(code))
    case Redirect(_) => Found([DomainAddress(name)])
    case Answer(addresses) => Found(addresses)
  }

  /**
   The meaning of a lookup with `depth` redirects to follow: k names redirect. If the chain ends within
   the depth, the answer is that of its last name; if not, the last target reached.
   */
  ghost predicate Follows(t: Table, name: string, option: IpOption, depth: nat, r: Lookup) {
    && (Target(t, name).None? ==>
          r == if Says(t, name, option).Unrecorded? then Absent else Ending(t, name, option))
    && (forall k: nat | 0 < k <= depth && AllRedirect(t, name, k) && Target(t, Nth(t, name, k)).None? ::
          r == Ending(t, Nth(t, name, k), option))
    && (AllRedirect(t, name, depth + 1) ==> r == Found([DomainAddress(Nth(t, name, depth + 1))]))
  }

  lemma {:induction false} NthShift(t: Table, name: string, k: nat)
    requires Target(t, name).Some?
    ensures Nth(t, name, k + 1) == Nth(t, Target(t, name).value, k)
  {
    hide Target;
    if k > 0 {
      NthShift(t, name, k - 1);
    }
  }

  lemma RedirectShift(t: Table, name: string, k: nat)
    requires Target(t, name).Some?
    ensures AllRedirect(t, name, k + 1) <==> AllRedirect(t, Target(t, name).value, k)
  {
    hide Target;
    var next := Target(t, name).value;
    if AllRedirect(t, name, k + 1) {
      forall i: nat | i < k
        ensures Target(t, Nth(t, next, i)).Some?
      {
        NthShift(t, name, i);
        assert Target(t, Nth(t, name, i + 1)).Some?;
      }
    }
    if AllRedirect(t, next, k) {
      forall i: nat | i < k + 1
        ensures Target(t, Nth(t, name, i)).Some?
      {
        if i > 0 {
          NthShift(t, name, i - 1);
        } else {
          assert Nth(t, name, 0) == name;
        }
      }
    }
  }

  lemma StopsAtOnce(t: Table, name: string, option: IpOption, depth: nat, r: Lookup)
    requires Target(t, name).None?
    requires r == if Says(t, name, option).Unrecorded? then Absent else Ending(t, name, option)
    ensures Follows(t, name, option, depth, r)
  {
    hide Target, Says, Ending;
    assert Nth(t, name, 0) == name;
    assert forall k: nat | 0 < k :: !AllRedirect(t, name, k);
  }

  lemma UnrecordedEnds(t: Table, name: string, option: IpOption)
    ensures Says(t, name, option).Unrecorded? ==> Ending(t, name, option) == Found([DomainAddress(name)])
  {
    hide Says;
  }

  /** One redirect in front of a lookup with one less to follow. */
  lemma OneMore(t: Table, name: string, option: IpOption, depth: nat, inner: Lookup, r: Lookup)
    requires Target(t, name).Some? && Follows(t, Target(t, name).value, option, depth, inner)
    requires r == if inner.Absent? then Found([DomainAddress(Target(t, name).value)]) else inner
    ensures Follows(t, name, option, depth + 1, r)
  {
    var next := Target(t, name).value;
    assert Nth(t, next, 0) == next;
    hide Target, Says, Ending;
    UnrecordedEnds(t, next, option);
    InnerAbsent(t, next, option, depth, inner);
    forall k: nat | 0 < k <= depth + 1 && AllRedirect(t, name, k) && Target(t, Nth(t, name, k)).None?
      ensures r == Ending(t, Nth(t, name, k), option)
    {
      RedirectShift(t, name, k - 1);
      NthShift(t, name, k - 1);
    }
    if AllRedirect(t, name, depth + 2) {
      RedirectShift(t, name, depth + 1);
      NthShift(t, name, depth + 1);
    }
  }

  /** A lookup is absent only when its own name is unrecorded. */
  lemma InnerAbsent(t: Table, name: string, option: IpOption, depth: nat, r: Lookup)
    requires Follows(t, name, option, depth, r)
    ensures r.Absent? <==> Says(t, name, option).Unrecorded?
  {
    TargetIs(t, name, option);
    hide Says, Target;
    if Target(t, name).Some? {
      var k := ChainEnd(t, name, depth);
      if k <= depth {
        assert r == Ending(t, Nth(t, name, k), option);
      }
    }
  }

  /** How many names redirect, up to depth + 1. */
  lemma {:induction false} ChainEnd(t: Table, name: string, depth: nat) returns (k: nat)
    requires Target(t, name).Some?
    ensures 0 < k <= depth + 1 && AllRedirect(t, name, k)
    ensures k <= depth ==> Target(t, Nth(t, name, k)).None?
  {
    hide Target;
    assert Nth(t, name, 0) == name;
    k := 1;
    while k <= depth && Target(t, Nth(t, name, k)).Some?
      invariant 0 < k <= depth + 1 && AllRedirect(t, name, k)
    {
      k := k + 1;
    }
  }

  lemma DepthSpent(t: Table, name: string, option: IpOption, r: Lookup)
    requires Target(t, name).Some? && r == Found([DomainAddress(Target(t, name).value)])
    ensures Follows(t, name, option, 0, r)
  {
    hide Target, Says, Ending;
    assert Nth(t, name, 0) == name;
    assert Nth(t, name, 1) == Target(t, name).value;
  }

  // ---------- The methods ----------

  method CollectEntries(t: Table, name: string) returns (entries: seq<Entry>)
    ensures entries == Entries(t, name)
  {
    var rules := t.matched(t.lower(name));
    entries := [];
    for i := 0 to |rules|
      invariant entries == EntriesOf(t.responses, rules[..i])
    {
      assert rules[..i + 1][..i] == rules[..i];
      if rules[i] < |t.responses| {
        entries := entries + t.responses[rules[i]];
      }
    }
    assert rules[..|rules|] == rules;
  }

  method FilterIpEntries(entries: seq<Entry>, option: IpOption) returns (out: seq<Address>)
    ensures out == FilteredIps(entries, option)
  {
    out := [];
    for i := 0 to |entries|
      invariant out == FilteredIps(entries[..i], option)
    {
      assert entries[..i + 1][..i] == entries[..i];
      if entries[i].IpEntry? && Enabled(entries[i].ip, option) {
        out := out + [IpAddress(entries[i].ip)];
      }
    }
    assert entries[..|entries|] == entries;
  }

  method LookupInner(t: Table, name: string, option: IpOption, depth: nat) returns (r: Lookup)
    ensures Follows(t, name, option, depth, r)
    decreases depth
  {
    hide Follows, Nth, FilteredIps, Entries;
    TargetIs(t, name, option);
    var entries := CollectEntries(t, name);
    if entries == [] {
      StopsAtOnce(t, name, option, depth, Absent);
      return Absent;
    }
    for i := 0 to |entries|
      invariant forall j | 0 <= j < i :: !entries[j].RCodeEntry?
    {
      if entries[i].RCodeEntry? {
        assert FirstCode(entries) == i;
        StopsAtOnce(t, name, option, depth, Rejected(FromRcode(entries[i].code)));
        return Rejected(FromRcode(entries[i].code));
      }
    }
    assert FirstCode(entries) == |entries|;
    if |entries| == 1 && entries[0].DomainEntry? {
      var target := entries[0].name;
      if depth > 0 {
        var inner := LookupInner(t, target, option, depth - 1);
        OneMore(t, name, option, depth - 1, inner, if inner.Absent? then Found([DomainAddress(target)]) else inner);
        if !inner.Absent? {
          return inner;
        }
      } else {
        DepthSpent(t, name, option, Found([DomainAddress(target)]));
      }
      return Found([DomainAddress(target)]);
    }
    var ips := FilterIpEntries(entries, option);
    StopsAtOnce(t, name, option, depth, Found(ips));
    return Found(ips);
  }

  /** A hosts lookup follows the redirect relation up to six names deep, on every table, cycles included. */
  method LookupHosts(t: Table, name: string, option: IpOption) returns (r: Lookup)
    ensures if t.hasMatcher then Follows(t, name, option, MAX_DEPTH, r) else r == Absent
  {
    if !t.hasMatcher {
      return Absent;
    }
    r := LookupInner(t, name, option, MAX_DEPTH);
  }

  // ---------- What a lookup can return ----------

  /** The meaning is a function: every table, name and depth has exactly one answer. */
  lemma FollowsUnique(t: Table, name: string, option: IpOption, depth: nat, r: Lookup, r': Lookup)
    requires Follows(t, name, option, depth, r) && Follows(t, name, option, depth, r')
    ensures r == r'
  {
    hide Says, Target, Ending;
    if Target(t, name).Some? {
      var k := ChainEnd(t, name, depth);
      if k <= depth {
        assert r == Ending(t, Nth(t, name, k), option);
        assert r' == Ending(t, Nth(t, name, k), option);
      }
    }
  }

  /** Only addresses of enabled families. */
  ghost predicate Allowed(addresses: seq<Address>, option: IpOption) {
    forall i | 0 <= i < |addresses| :: addresses[i].IpAddress? && Enabled(addresses[i].ip, option)
  }

  lemma {:induction false} FilteredAllowed(entries: seq<Entry>, option: IpOption)
    ensures Allowed(FilteredIps(entries, option), option)
  {
    if entries != [] {
      FilteredAllowed(entries[..|entries| - 1], option);
    }
  }

  lemma EndingShape(t: Table, name: string, option: IpOption)
    ensures var r := Ending(t, name, option);
            r.Rejected? || (r.Found? && (r.addresses == [DomainAddress(name)] || Allowed(r.addresses, option)))
  {
    FilteredAllowed(Entries(t, name), option);
    hide FilteredIps, Allowed, Entries;
  }

  /** A found list is one replacement name or only addresses of enabled families, never a mixture. */
  lemma FoundShape(t: Table, name: string, option: IpOption, depth: nat, r: Lookup)
    requires Follows(t, name, option, depth, r) && r.Found?
    ensures (|r.addresses| == 1 && r.addresses[0].DomainAddress?) || Allowed(r.addresses, option)
  {
    if Target(t, name).None? {
      EndingShape(t, name, option);
      hide Says, Target, Ending, Allowed;
    } else {
      var k := ChainEnd(t, name, depth);
      EndingShape(t, Nth(t, name, k), option);
      hide Says, Target, Ending, Allowed;
    }
  }

  /** A replacement name is the end of the redirect chain: six redirects on, or an unrecorded name. */
  lemma ReplacementIs(t: Table, name: string, option: IpOption, depth: nat, r: Lookup, target: string)
    requires Follows(t, name, option, depth, r) && r == Found([DomainAddress(target)])
    ensures exists k: nat | 0 < k <= depth + 1 ::
      && AllRedirect(t, name, k) && target == Nth(t, name, k)
      && (k == depth + 1 || Says(t, target, option).Unrecorded?)
  {
    TargetIs(t, name, option);
    if Target(t, name).None? {
      NotAReplacement(t, name, option, target);
    }
    var k := ChainEnd(t, name, depth);
    if k <= depth {
      EndsUnrecorded(t, Nth(t, name, k), option, target);
    }
    hide Says, Target, Ending;
  }

  lemma NotAReplacement(t: Table, name: string, option: IpOption, target: string)
    requires Target(t, name).None? && !Says(t, name, option).Unrecorded?
    ensures Ending(t, name, option) != Found([DomainAddress(target)])
  {
    TargetIs(t, name, option);
    FilteredAllowed(Entries(t, name), option);
    hide FilteredIps, Entries;
    if Says(t, name, option).Answer? {
      var found := FilteredIps(Entries(t, name), option);
      assert found != [] ==> found[0].IpAddress?;
    }
  }

  lemma EndsUnrecorded(t: Table, name: string, option: IpOption, target: string)
    requires Target(t, name).None? && Ending(t, name, option) == Found([DomainAddress(target)])
    ensures Says(t, name, option).Unrecorded? && target == name
  {
    if !Says(t, name, option).Unrecorded? {
      NotAReplacement(t, name, option, target);
    }
  }

  /** Two names that redirect to each other: six steps lead back to the first, which goes to the name servers. */
  lemma CycleComesBack(t: Table, a: string, b: string, option: IpOption, r: Lookup)
    requires Target(t, a) == Some(b) && Target(t, b) == Some(a)
    requires Follows(t, a, option, MAX_DEPTH, r)
    ensures r == Found([DomainAddress(a)])
  {
    hide Target, Says, Ending;
    assert Nth(t, a, 0) == a;
    assert Nth(t, a, 1) == b;
    assert Nth(t, a, 2) == a;
    assert Nth(t, a, 3) == b;
    assert Nth(t, a, 4) == a;
    assert Nth(t, a, 5) == b;
    assert Nth(t, a, 6) == a;
  }

  // ---------- A lookup in terms of the recorded entries ----------

  /** The entries of several rules are those of each, in the order reported. */
  lemma {:induction false} EntriesInOrder(responses: seq<seq<Entry>>, a: seq<nat>, b: seq<nat>)
    ensures EntriesOf(responses, a + b) == EntriesOf(responses, a) + EntriesOf(responses, b)
    ensures |b| == 1 ==> EntriesOf(responses, b) == if b[0] < |responses| then responses[b[0]] else []
  {
    if b == [] {
      assert a + b == a;
    } else {
      assert (a + b)[..|a + b| - 1] == a + b[..|b| - 1];
      EntriesInOrder(responses, a, b[..|b| - 1]);
    }
  }

  /** The entry is an address of a family that is asked for. */
  predicate Wanted(e: Entry, option: IpOption) {
    e.IpEntry? && if e.ip.V4? then option.v4 else option.v6
  }

  /** The addresses are those of the wanted entries, all of them and in their order; `at` says where they come from. */
  ghost predicate Selected(entries: seq<Entry>, option: IpOption, addresses: seq<Address>, at: seq<nat>) {
    && |at| == |addresses|
    && (forall k | 0 <= k < |at| :: at[k] < |entries| && Wanted(entries[at[k]], option) && addresses[k] == IpAddress(entries[at[k]].ip))
    && (forall j, k | 0 <= j < k < |at| :: at[j] < at[k])
    && (forall i: nat | i < |entries| && Wanted(entries[i], option) :: i in at)
  }

  lemma {:induction false} FilteredSelects(entries: seq<Entry>, option: IpOption) returns (at: seq<nat>)
    ensures Selected(entries, option, FilteredIps(entries, option), at)
  {
    if entries == [] {
      at := [];
    } else {
      var n := |entries| - 1;
      at := FilteredSelects(entries[..n], option);
      FilteredStep(entries, option);
      hide Selected, FilteredIps, Wanted;
      SelectedSnoc(entries[..n], entries[n], option, FilteredIps(entries[..n], option), at);
      assert entries[..n] + [entries[n]] == entries;
      if Wanted(entries[n], option) {
        at := at + [n];
      }
    }
  }

  lemma FilteredStep(entries: seq<Entry>, option: IpOption)
    requires entries != []
    ensures var init, last := entries[..|entries| - 1], entries[|entries| - 1];
            && (Wanted(last, option) ==> FilteredIps(entries, option) == FilteredIps(init, option) + [IpAddress(last.ip)])
            && (!Wanted(last, option) ==> FilteredIps(entries, option) == FilteredIps(init, option))
  {
  }

  lemma SelectedSnoc(entries: seq<Entry>, e: Entry, option: IpOption, addresses: seq<Address>, at: seq<nat>)
    requires Selected(entries, option, addresses, at)
    ensures Wanted(e, option) ==> Selected(entries + [e], option, addresses + [IpAddress(e.ip)], at + [|entries|])
    ensures !Wanted(e, option) ==> Selected(entries + [e], option, addresses, at)
  {
    hide Wanted;
    var all := entries + [e];
    assert all[|entries|] == e && forall i | 0 <= i < |entries| :: all[i] == entries[i];
  }

  /** Each name has the next one as its only entry. */
  ghost predicate Chain(t: Table, names: seq<string>) {
    names != [] && forall i | 0 <= i < |names| - 1 :: Entries(t, names[i]) == [DomainEntry(names[i + 1])]
  }

  lemma OnlyDomainRedirects(t: Table, name: string)
    ensures Target(t, name).Some? <==> exists next :: Entries(t, name) == [DomainEntry(next)]
    ensures Target(t, name).Some? ==> Entries(t, name) == [DomainEntry(Target(t, name).value)]
  {
    hide FilteredIps, Entries;
    var entries := Entries(t, name);
    if |entries| == 1 && entries[0].DomainEntry? {
      assert entries == [DomainEntry(entries[0].name)];
    }
  }

  lemma {:induction false} ChainIsFollowed(t: Table, names: seq<string>, k: nat)
    requires Chain(t, names) && k < |names|
    ensures Nth(t, names[0], k) == names[k] && AllRedirect(t, names[0], k)
  {
    hide Target, Entries;
    if k > 0 {
      ChainIsFollowed(t, names, k - 1);
      OnlyDomainRedirects(t, names[k - 1]);
    }
  }

  /** What the entries of the name at the end of a chain come to. */
  ghost predicate Decided(entries: seq<Entry>, name: string, redirected: bool, option: IpOption, r: Lookup) {
    && (entries == [] ==> r == if redirected then Found([DomainAddress(name)]) else Absent)
    && (forall k | 0 <= k < |entries| && entries[k].RCodeEntry? && (forall j | 0 <= j < k :: !entries[j].RCodeEntry?) ::
          r == Rejected(if entries[k].code == 0 then EmptyResponse else RCodeError(entries[k].code)))
    && (entries != [] && (forall k | 0 <= k < |entries| :: !entries[k].RCodeEntry?) ==>
          r.Found? && exists at :: Selected(entries, option, r.addresses, at))
  }

  lemma EndingDecided(t: Table, name: string, option: IpOption, redirected: bool)
    requires Target(t, name).None?
    ensures var r := if !redirected && Says(t, name, option).Unrecorded? then Absent else Ending(t, name, option);
            Decided(Entries(t, name), name, redirected, option, r)
  {
    TargetIs(t, name, option);
    var entries := Entries(t, name);
    var at := FilteredSelects(entries, option);
    hide Entries, FilteredIps, Selected;
    assert forall k | 0 <= k < |entries| && entries[k].RCodeEntry? && (forall j | 0 <= j < k :: !entries[j].RCodeEntry?) ::
             k == FirstCode(entries);
  }

  /**
   The lookup from the recorded entries: a chain of up to five redirects is answered by the entries of its last name,
   and one of six by that name. Response codes come before addresses, and addresses are those of the families asked for.
   */
  lemma ChainDecides(t: Table, names: seq<string>, option: IpOption, r: Lookup)
    requires Chain(t, names) && |names| <= 7 && Follows(t, names[0], option, MAX_DEPTH, r)
    ensures |names| == 7 ==> r == Found([DomainAddress(names[6])])
    ensures |names| <= 6 && !(exists next :: Entries(t, names[|names| - 1]) == [DomainEntry(next)]) ==>
              Decided(Entries(t, names[|names| - 1]), names[|names| - 1], |names| > 1, option, r)
  {
    var k := |names| - 1;
    ChainIsFollowed(t, names, k);
    OnlyDomainRedirects(t, names[k]);
    if Target(t, names[k]).None? {
      EndingDecided(t, names[k], option, k > 0);
    }
    hide Target, Says, Ending, Entries, Decided;
  }
}
