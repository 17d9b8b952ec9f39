/** The entry point of a lookup: normalise the name, clamp the families, consult hosts once, then the name servers. */
module DnsService {
  import opened Bytes
  import opened DnsTypes
  import opened DnsQuery
  import opened DnsRace
  import opened Hosts
  import opened SortClients

  datatype Strategy = UseIp | UseIp4 | UseIp6 | UseSys

  const HOSTS_TTL: nat := 10

  function Trimmed(domain: string): string {
    if domain != "" && domain[|domain| - 1] == '.' then domain[..|domain| - 1] else domain
  }

  /** The families left by the service-wide strategy; `routes` says which families have a route. */
  function Clamp(strategy: Strategy, routes: (bool, bool), option: IpOption): IpOption {
    match strategy
    case UseSys => option.(v4 := option.v4 && routes.0, v6 := option.v6 && routes.1)
    case UseIp => option
    case UseIp4 => option.(v6 := false)
    case UseIp6 => option.(v4 := false)
  }

  /** One dot at the end is taken off and nothing else. */
  lemma TrimmedIs(name: string)
    ensures Trimmed(name + ".") == name
    ensures name == "" || name[|name| - 1] != '.' ==> Trimmed(name) == name
  {
    assert (name + ".")[..|name|] == name;
  }

  /** A family is left if it was asked for, the strategy is not for the other one, and a system strategy has a route. */
  lemma ClampIs(strategy: Strategy, routes: (bool, bool), option: IpOption)
    ensures
      var left := Clamp(strategy, routes, option);
      && (left.v4 <==> option.v4 && strategy != UseIp6 && (strategy == UseSys ==> routes.0))
      && (left.v6 <==> option.v6 && strategy != UseIp4 && (strategy == UseSys ==> routes.1))
      && left.fake == option.fake
  {
  }

  method ToNetIp(addresses: seq<Address>) returns (r: Option<seq<Ip>>)
    ensures r.Some? <==> forall i | 0 <= i < |addresses| :: addresses[i].IpAddress?
    ensures r.Some? ==> |r.value| == |addresses| && forall i | 0 <= i < |addresses| :: addresses[i] == IpAddress(r.value[i])
  {
    var ips: seq<Ip> := [];
    for i := 0 to |addresses|
      invariant |ips| == i && forall j | 0 <= j < i :: addresses[j] == IpAddress(ips[j])
    {
      match addresses[i] {
        case IpAddress(ip) => ips := ips + [ip];
        case DomainAddress(_) => return None;
      }
    }
    r := Some(ips);
  }

  /** The answer hosts gives is one of addresses. */
  ghost predicate FromHosts(found: Lookup) {
    found.Found? && found.addresses != [] && !(|found.addresses| == 1 && found.addresses[0].DomainAddress?)
  }

  /** The name the name servers are asked for, if they are asked at all. */
  function Forwarded(found: Lookup, name: string): Option<string> {
    if found.Absent? then Some(name)
    else if found.Found? && |found.addresses| == 1 && found.addresses[0].DomainAddress? then Some(found.addresses[0].name)
    else None
  }

  /** What hosts has to say about a name; there is exactly one such answer. */
  ghost predicate Consulted(t: Table, name: string, option: IpOption, found: Lookup) {
    if t.hasMatcher then Follows(t, name, option, MAX_DEPTH, found) else found == Absent
  }

  lemma ConsultedOnce(t: Table, name: string, option: IpOption, a: Lookup, b: Lookup)
    requires Consulted(t, name, option, a) && Consulted(t, name, option, b)
    ensures a == b
  {
    hide Follows;
    if t.hasMatcher {
      FollowsUnique(t, name, option, MAX_DEPTH, a, b);
    }
  }

  // ---------- The name servers ----------

  /**
   The service and its surroundings: `rules` is what the domain matcher reports, `reply` what asking a client
   comes to, and `arrive` the order in which the answers to a query come in.
   */
  datatype Service = Service(
    table: Table, strategy: Strategy, routes: (bool, bool), clients: seq<Client>, infos: seq<nat>, policy: Policy,
    parallel: bool, rules: string -> seq<nat>, reply: (nat, string, IpOption) -> Reply, arrive: Query -> seq<nat>,
    show: DnsError -> string)

  /** Every query that is spawned finishes once. */
  ghost predicate Arrives(svc: Service) {
    forall q: Query | q.Valid() :: Schedule(q, svc.arrive(q))
  }

  /** The query for a name: the chosen clients in order, with what each will answer. */
  ghost function QueryFor(svc: Service, name: string, option: IpOption): (q: Query)
    ensures q.Valid() && (svc.clients != [] ==> q.clients != [])
  {
    var chosen := Chosen(svc.clients, svc.rules(name), svc.infos, svc.policy);
    ChosenShape(svc.clients, svc.rules(name), svc.infos, svc.policy);
    Query(seq(|chosen|, i requires 0 <= i < |chosen| => svc.clients[chosen[i]]),
          seq(|chosen|, i requires 0 <= i < |chosen| => svc.reply(chosen[i], name, option)), option.fake)
  }

  /** What the name servers come to. */
  ghost predicate Answered(svc: Service, name: string, option: IpOption, r: Result) {
    var q := QueryFor(svc, name, option);
    if q.clients == [] then r == Err(EmptyResponse)
    else if svc.parallel then ParallelResult(q, svc.arrive(q), name, svc.show, r)
    else SerialResult(q, name, svc.show, r)
  }

  method AskNameservers(svc: Service, name: string, option: IpOption) returns (r: Result)
    requires Arrives(svc)
    ensures Answered(svc, name, option, r)
  {
    ChosenShape(svc.clients, svc.rules(name), svc.infos, svc.policy);
    hide Chosen, Schedule, ParallelResult, SerialResult;
    var chosen := Order(svc.clients, svc.rules(name), svc.infos, svc.policy);
    var q := Query(seq(|chosen|, i requires 0 <= i < |chosen| => svc.clients[chosen[i]]),
                   seq(|chosen|, i requires 0 <= i < |chosen| => svc.reply(chosen[i], name, option)), option.fake);
    assert q == QueryFor(svc, name, option);
    if q.clients == [] {
      return Err(EmptyResponse);
    }
    if svc.parallel {
      r := ParallelQuery(q, svc.arrive(q), name, svc.show);
    } else {
      r := SerialQuery(q, name, svc.show);
    }
  }

  // ---------- The lookup ----------

  /** The result of a lookup, given what hosts says: a replacement name goes straight to the name servers. */
  ghost predicate Concludes(svc: Service, found: Lookup, name: string, option: IpOption, r: Result) {
    && (found.Rejected? ==> r == Err(found.error))
    && (Forwarded(found, name).Some? ==> Answered(svc, Forwarded(found, name).value, option, r))
    && (found == Found([]) ==> r == Err(EmptyResponse))
    && (FromHosts(found) ==> r.Ok? && r.ttl == HOSTS_TTL && Same(r.ips, found.addresses, option))
  }

  /** The families a query may use after clamping. */
  function Effective(svc: Service, option: IpOption): IpOption {
    Clamp(svc.strategy, svc.routes, option)
  }

  /**
   From the name to the answer. Hosts is consulted once, with the clamped families; an address answer only has
   enabled families; everything else is the query of the chosen name servers for the name or its replacement.
   */
  method LookupIp(svc: Service, domain: string, option: IpOption) returns (r: Result)
    requires Arrives(svc)
    ensures Trimmed(domain) == "" ==> r == Err(Features("empty domain name"))
    ensures Trimmed(domain) != "" && !Effective(svc, option).v4 && !Effective(svc, option).v6 ==> r == Err(EmptyResponse)
    ensures Trimmed(domain) != "" && (Effective(svc, option).v4 || Effective(svc, option).v6) ==>
              forall found | Consulted(svc.table, Trimmed(domain), Effective(svc, option), found) ::
                Concludes(svc, found, Trimmed(domain), Effective(svc, option), r)
  {
    hide Follows, Answered, Arrives;
    var name := domain;
    if domain != "" && domain[|domain| - 1] == '.' {
      name := domain[..|domain| - 1];
    }
    if name == "" {
      return Err(Features("empty domain name"));
    }
    var eff := Effective(svc, option);
    if !eff.v4 && !eff.v6 {
      return Err(EmptyResponse);
    }
    var hosts := LookupHosts(svc.table, name, eff);
    match hosts {
      case Absent => r := AskNameservers(svc, name, eff);
      case Rejected(e) => r := Err(e);
      case Found(addresses) =>
        if |addresses| == 1 && addresses[0].DomainAddress? {
          r := AskNameservers(svc, addresses[0].name, eff);
        } else if addresses == [] {
          r := Err(EmptyResponse);
        } else {
          FoundShape(svc.table, name, eff, MAX_DEPTH, hosts);
          var ips := ToNetIp(addresses);
          r := Ok(ips.value, HOSTS_TTL);
        }
    }
    assert Consulted(svc.table, name, eff, hosts) && Concludes(svc, hosts, name, eff, r);
    forall found | Consulted(svc.table, name, eff, found)
      ensures found == hosts
    {
      ConsultedOnce(svc.table, name, eff, found, hosts);
    }
  }

  // ---------- From the configuration to the answer ----------

  /** The client at this place of the chosen order is asked. */
  ghost predicate IsAsked(svc: Service, chosen: seq<nat>, option: IpOption, i: nat)
    requires InRange(chosen, |svc.clients|) && i < |chosen|
  {
    option.fake || !NamesFakeDns(svc.clients[chosen[i]].name)
  }

  /** It is asked and has addresses for the name. */
  ghost predicate HasAnswer(svc: Service, chosen: seq<nat>, name: string, option: IpOption, i: nat)
    requires InRange(chosen, |svc.clients|) && i < |chosen|
  {
    IsAsked(svc, chosen, option, i) && svc.reply(chosen[i], name, option).Answers? && svc.reply(chosen[i], name, option).ips != []
  }

  lemma AskedByQuery(svc: Service, name: string, option: IpOption, i: nat)
    requires i < |QueryFor(svc, name, option).clients|
    ensures
      var chosen, q := Chosen(svc.clients, svc.rules(name), svc.infos, svc.policy), QueryFor(svc, name, option);
      && InRange(chosen, |svc.clients|) && |chosen| == |q.clients|
      && q.replies[i] == svc.reply(chosen[i], name, option)
      && (Asked(q, i) <==> IsAsked(svc, chosen, option, i)) && (Good(q, i) <==> HasAnswer(svc, chosen, name, option, i))
  {
    ChosenShape(svc.clients, svc.rules(name), svc.infos, svc.policy);
    AskedExactly(QueryFor(svc, name, option), i);
    hide Chosen, Asked, NamesFakeDns;
  }

  /**
   End to end, in parallel: a name that hosts does not answer is answered if and only if one of the chosen servers has
   addresses for it or for its replacement, whatever the order of arrival; and the answer is that of such a server.
   */
  lemma AnsweredExactlyWhenGood(svc: Service, found: Lookup, name: string, option: IpOption, r: Result, asked: string)
    requires Arrives(svc) && svc.parallel && Concludes(svc, found, name, option, r) && Forwarded(found, name) == Some(asked)
    ensures
      var chosen := Chosen(svc.clients, svc.rules(asked), svc.infos, svc.policy);
      && InRange(chosen, |svc.clients|)
      && (r.Ok? <==> exists i: nat | i < |chosen| :: HasAnswer(svc, chosen, asked, option, i))
      && (r.Ok? ==> exists i: nat | i < |chosen| ::
            HasAnswer(svc, chosen, asked, option, i) && svc.reply(chosen[i], asked, option) == Answers(r.ips, r.ttl))
  {
    var q := QueryFor(svc, asked, option);
    var chosen := Chosen(svc.clients, svc.rules(asked), svc.infos, svc.policy);
    ChosenShape(svc.clients, svc.rules(asked), svc.infos, svc.policy);
    assert |q.clients| == |chosen|;
    hide QueryFor, ParallelResult, Schedule, Chosen, Good, HasAnswer;
    assert Schedule(q, svc.arrive(q));
    forall i: nat | i < |q.clients|
      ensures q.replies[i] == svc.reply(chosen[i], asked, option)
      ensures Good(q, i) <==> HasAnswer(svc, chosen, asked, option, i)
    {
      AskedByQuery(svc, asked, option, i);
    }
    if q.clients != [] {
      OkExactlyWhenGood(q, svc.arrive(q), asked, svc.show, r);
      if r.Ok? {
        var w := WinnerInLowestGroup(q, svc.arrive(q), asked, svc.show, r);
        assert HasAnswer(svc, chosen, asked, option, w);
      }
    }
  }

  /** Asked one after the other, the first server that does not fail gives the answer, even an empty one. */
  lemma AnsweredSerially(svc: Service, found: Lookup, name: string, option: IpOption, r: Result, asked: string)
    requires !svc.parallel && Concludes(svc, found, name, option, r) && Forwarded(found, name) == Some(asked)
    ensures
      var chosen := Chosen(svc.clients, svc.rules(asked), svc.infos, svc.policy);
      && InRange(chosen, |svc.clients|)
      && (r.Ok? ==> exists i: nat | i < |chosen| ::
            && IsAsked(svc, chosen, option, i) && svc.reply(chosen[i], asked, option) == Answers(r.ips, r.ttl)
            && forall j: nat | j < i && IsAsked(svc, chosen, option, j) :: svc.reply(chosen[j], asked, option).Fails?)
      && (r.Err? <==> forall i: nat | i < |chosen| && IsAsked(svc, chosen, option, i) :: svc.reply(chosen[i], asked, option).Fails?)
  {
    var q := QueryFor(svc, asked, option);
    var chosen := Chosen(svc.clients, svc.rules(asked), svc.infos, svc.policy);
    ChosenShape(svc.clients, svc.rules(asked), svc.infos, svc.policy);
    assert |q.clients| == |chosen|;
    hide QueryFor, Chosen, Asked, Good, IsAsked;
    forall i: nat | i < |q.clients|
      ensures q.replies[i] == svc.reply(chosen[i], asked, option)
      ensures Asked(q, i) <==> IsAsked(svc, chosen, option, i)
    {
      AskedByQuery(svc, asked, option, i);
    }
    if q.clients != [] {
      if r.Ok? || r.Panicked? {
        var f: nat :| Leads(q, f);
        assert IsAsked(svc, chosen, option, f);
      }
    }
  }

  function Addresses(ips: seq<Ip>): seq<Address> {
    seq(|ips|, i requires 0 <= i < |ips| => IpAddress(ips[i]))
  }

  /** The addresses of the wanted entries, in their order. */
  ghost predicate AddressesOf(entries: seq<Entry>, option: IpOption, ips: seq<Ip>) {
    exists at :: Selected(entries, option, Addresses(ips), at)
  }

  /** What a lookup returns when the redirects end in a name with these entries. */
  ghost predicate Returns(svc: Service, entries: seq<Entry>, name: string, option: IpOption, r: Result) {
    && (entries == [] ==> Answered(svc, name, option, r))
    && (forall k | 0 <= k < |entries| && entries[k].RCodeEntry? && (forall j | 0 <= j < k :: !entries[j].RCodeEntry?) ::
          r == Err(if entries[k].code == 0 then EmptyResponse else RCodeError(entries[k].code)))
    && (entries != [] && (forall k | 0 <= k < |entries| :: !entries[k].RCodeEntry?) ==>
          if exists i | 0 <= i < |entries| :: Wanted(entries[i], option) then
            r.Ok? && r.ttl == 10 && AddressesOf(entries, option, r.ips)
          else r == Err(EmptyResponse))
  }

  lemma FoundReturns(svc: Service, entries: seq<Entry>, name: string, option: IpOption, r: Result, found: Lookup, at: seq<nat>)
    requires entries != [] && (forall k | 0 <= k < |entries| :: !entries[k].RCodeEntry?)
    requires found.Found? && Selected(entries, option, found.addresses, at) && Concludes(svc, found, name, option, r)
    ensures forall last :: Returns(svc, entries, last, option, r)
  {
    hide Answered, Wanted;
    assert at != [] ==> at[0] < |entries| && Wanted(entries[at[0]], option);
    if i :| 0 <= i < |entries| && Wanted(entries[i], option) {
      assert i in at;
      assert found.addresses[0].IpAddress?;
      assert Addresses(r.ips) == found.addresses;
    }
  }

  /**
   End to end, from the recorded entries: the lookup of a name with up to five redirects returns what the last name
   says, by the name servers if nothing; six redirects send the last name to them unseen.
   */
  lemma LookupChain(svc: Service, names: seq<string>, option: IpOption, found: Lookup, r: Result)
    requires svc.table.hasMatcher && Chain(svc.table, names) && |names| <= 7
    requires Consulted(svc.table, names[0], option, found) && Concludes(svc, found, names[0], option, r)
    ensures |names| == 7 ==> Answered(svc, names[6], option, r)
    ensures var last := names[|names| - 1];
            |names| <= 6 && !(exists next :: Entries(svc.table, last) == [DomainEntry(next)]) ==>
              Returns(svc, Entries(svc.table, last), last, option, r)
  {
    ChainDecides(svc.table, names, option, found);
    var last := names[|names| - 1];
    var entries := Entries(svc.table, last);
    hide Answered, Follows, Chain, Entries;
    if |names| <= 6 && !(exists next :: entries == [DomainEntry(next)]) {
      hide Returns;
      DecidedReturns(svc, entries, names[0], last, |names| > 1, option, r, found);
    }
  }

  lemma DecidedReturns(svc: Service, entries: seq<Entry>, name: string, last: string, redirected: bool, option: IpOption, r: Result, found: Lookup)
    requires Decided(entries, last, redirected, option, found) && Concludes(svc, found, name, option, r) && (redirected || name == last)
    ensures Returns(svc, entries, last, option, r)
  {
    hide Answered, Selected, AddressesOf, Same, Wanted;
    if entries != [] && (forall k | 0 <= k < |entries| :: !entries[k].RCodeEntry?) {
      var at :| Selected(entries, option, found.addresses, at);
      FoundReturns(svc, entries, name, option, r, found, at);
    }
  }

  /** The addresses in order, all of enabled families. */
  ghost predicate Same(ips: seq<Ip>, addresses: seq<Address>, option: IpOption) {
    && |ips| == |addresses|
    && forall i | 0 <= i < |ips| :: addresses[i] == IpAddress(ips[i]) && Enabled(ips[i], option)
  }
}
