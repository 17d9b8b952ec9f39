/**
 Cached DNS records: remaining lifetime, merging the A and the AAAA half, and which cached answers a
 query may be served. Instants are integers in nanoseconds.
 */
module DnsRecords {
  import opened Bytes
  import opened DnsTypes
  import opened DnsMerge

  const SECOND: int := 1_000_000_000
  const I32_MAX: int := 0x7fff_ffff
  const DEFAULT_TTL: int := 600

  /** One address family's answer. */
  datatype IpRecord = IpRecord(ips: seq<Ip>, expire: int, rcode: nat)

  /** Both halves of a cached name. */
  datatype Record = Record(a: Option<IpRecord>, aaaa: Option<IpRecord>)

  // ---------- Remaining lifetime ----------

  function CeilSeconds(nanos: nat): nat {
    (nanos + SECOND - 1) / SECOND
  }

  function Saturated(n: nat): nat {
    if n <= I32_MAX then n else I32_MAX
  }

  /** Seconds left, rounded away from zero and saturating; negative once overdue. */
  function RawTtl(expire: int, now: int): int {
    if expire >= now then Saturated(CeilSeconds(expire - now)) else 0 - Saturated(CeilSeconds(now - expire))
  }

  lemma CeilExact(nanos: nat, s: nat)
    ensures CeilSeconds(nanos) <= s <==> nanos <= s * SECOND
  {
    var q, r := (nanos + SECOND - 1) / SECOND, (nanos + SECOND - 1) % SECOND;
    assert nanos + SECOND - 1 == SECOND * q + r;
    if q <= s {
      assert SECOND * q <= SECOND * s;
    } else {
      assert SECOND * q >= SECOND * (s + 1);
    }
  }

  /** The sign of the rounded lifetime is the sign of the exact one. */
  lemma TtlSign(expire: int, now: int)
    ensures RawTtl(expire, now) > 0 <==> expire > now
    ensures RawTtl(expire, now) < 0 <==> expire < now
  {
    hide CeilSeconds;
    if expire >= now {
      CeilExact(expire - now, 0);
    } else {
      CeilExact(now - expire, 0);
    }
  }

  /** Below the saturation bound, "ttl above -s" means overdue by at most s - 1 whole seconds. */
  lemma TtlAbove(expire: int, now: int, s: nat)
    requires s <= I32_MAX
    ensures RawTtl(expire, now) > 0 - s <==> expire > now || (s > 0 && now - expire <= (s - 1) * SECOND)
  {
    hide CeilSeconds;
    TtlSign(expire, now);
    if expire < now && s > 0 {
      CeilExact(now - expire, s - 1);
    }
  }

  /**
   Up to 2^31 - 1 seconds the remaining time is rounded up to whole seconds; more is reported as that many. A record
   overdue by some time has the negated lifetime of one with as much left.
   */
  lemma LifetimeSeconds(expire: int, now: int)
    ensures
      var ttl := RawTtl(expire, now);
      && ttl == -RawTtl(now, expire)
      && (now <= expire <= now + 0x7fff_ffff * SECOND ==> (ttl - 1) * SECOND < expire - now <= ttl * SECOND)
      && (expire > now + 0x7fff_ffff * SECOND ==> ttl == 0x7fff_ffff)
  {
    hide CeilSeconds;
    if now <= expire {
      var n := CeilSeconds(expire - now);
      CeilExact(expire - now, n);
      CeilExact(expire - now, 0x7fff_ffff);
      if n > 0 {
        CeilExact(expire - now, n - 1);
      }
      if expire == now {
        CeilExact(0, 0);
      }
    }
  }

  // ---------- Merging the two halves ----------

  datatype Merge = Merge(ips: seq<Ip>, ttl: int, error: Option<DnsError>)

  function RecordIps(half: Option<IpRecord>, now: int): Merge {
    match half
    case None => Merge([], 0, Some(RecordNotFound))
    case Some(r) =>
      var error :=
        if r.rcode != 0 then Some(FromRcode(r.rcode)) else if r.ips == [] then Some(EmptyResponse) else None;
      Merge(r.ips, RawTtl(r.expire, now), error)
  }

  predicate IsNotFound(m: Merge) {
    m.error == Some(RecordNotFound)
  }

  lemma NotFoundIsAbsent(half: Option<IpRecord>, now: int)
    ensures IsNotFound(RecordIps(half, now)) <==> half.None?
  {
    hide RawTtl;
  }

  function Min(a: int, b: int): int {
    if a < b then a else b
  }

  /** The error of two families that both failed. */
  function BothErrors(e4: DnsError, e6: DnsError, show: DnsError -> string): DnsError {
    if Kind(e4) == Kind(e6) then e4 else SystemResolve(Joined([e4, e6], show))
  }

  /** The error when neither family has addresses. */
  function MergedError(e4: Option<DnsError>, e6: Option<DnsError>, show: DnsError -> string): Option<DnsError> {
    if e4.Some? && e6.Some? then Some(BothErrors(e4.value, e6.value, show)) else if e4.Some? then e4 else e6
  }

  /** What a name with these halves answers. */
  function Merged(option: IpOption, rec: Record, now: int, show: DnsError -> string): Merge {
    if option.v4 && option.v6 then
      if rec.a.None? || rec.aaaa.None? then Merge([], 0, Some(RecordNotFound))
      else
        var m4, m6 := RecordIps(rec.a, now), RecordIps(rec.aaaa, now);
        var ttl := Min(DEFAULT_TTL, Min(m4.ttl, m6.ttl));
        Merge(m4.ips + m6.ips, ttl, if m4.ips + m6.ips != [] then None else MergedError(m4.error, m6.error, show))
    else if option.v4 then RecordIps(rec.a, now)
    else if option.v6 then RecordIps(rec.aaaa, now)
    else Merge([], DEFAULT_TTL, None)
  }

  /** One family's answer alone: its addresses and lifetime, and an error if it is negative or empty. */
  ghost predicate FromOne(r: IpRecord, now: int, m: Merge) {
    && m.ips == r.ips && m.ttl == RawTtl(r.expire, now)
    && m.error == if r.rcode != 0 then Some(RCodeError(r.rcode)) else if r.ips == [] then Some(EmptyResponse) else None
  }

  /** The error of two answers without addresses: the first one's, or the texts of both if one alone is negative. */
  ghost predicate FromNeither(rcode4: nat, rcode6: nat, show: DnsError -> string, e: DnsError) {
    && (rcode4 == 0 && rcode6 == 0 ==> e == EmptyResponse)
    && (rcode4 != 0 && rcode6 != 0 ==> e == RCodeError(rcode4))
    && (rcode4 != 0 && rcode6 == 0 ==> e == SystemResolve(show(RCodeError(rcode4)) + "; " + show(EmptyResponse)))
    && (rcode4 == 0 && rcode6 != 0 ==> e == SystemResolve(show(EmptyResponse) + "; " + show(RCodeError(rcode6))))
  }

  /** Both answers: all addresses, IPv4 first, for the shorter lifetime and 600 seconds at most; any address hides errors. */
  ghost predicate FromBoth(a: IpRecord, aaaa: IpRecord, now: int, show: DnsError -> string, m: Merge) {
    var left4, left6 := RawTtl(a.expire, now), RawTtl(aaaa.expire, now);
    && m.ips == a.ips + aaaa.ips
    && m.ttl <= 600 && m.ttl <= left4 && m.ttl <= left6 && (m.ttl == 600 || m.ttl == left4 || m.ttl == left6)
    && (m.error.None? <==> a.ips != [] || aaaa.ips != [])
    && (m.error.Some? ==> FromNeither(a.rcode, aaaa.rcode, show, m.error.value))
  }

  /** The merge in terms of the records it is made from. */
  lemma MergedIs(option: IpOption, rec: Record, now: int, show: DnsError -> string)
    ensures
      var m := Merged(option, rec, now, show);
      && (option.v4 && option.v6 && rec.a.Some? && rec.aaaa.Some? ==> FromBoth(rec.a.value, rec.aaaa.value, now, show, m))
      && (option.v4 && !option.v6 && rec.a.Some? ==> FromOne(rec.a.value, now, m))
      && (option.v6 && !option.v4 && rec.aaaa.Some? ==> FromOne(rec.aaaa.value, now, m))
      && ((option.v4 && rec.a.None?) || (option.v6 && rec.aaaa.None?) ==> m == Merge([], 0, Some(RecordNotFound)))
      && (!option.v4 && !option.v6 ==> m == Merge([], 600, None))
  {
    hide RawTtl, Joined;
    if option.v4 && option.v6 && rec.a.Some? && rec.aaaa.Some? {
      JoinedTwo(FromRcode(rec.a.value.rcode), FromRcode(rec.aaaa.value.rcode), show);
    }
  }

  method MergeRecords(option: IpOption, rec: Record, now: int, show: DnsError -> string) returns (m: Merge)
    ensures m == Merged(option, rec, now, show)
  {
    hide RawTtl, Joined, Kind;
    NotFoundIsAbsent(rec.a, now);
    NotFoundIsAbsent(rec.aaaa, now);
    var families := [(option.v4, rec.a), (option.v6, rec.aaaa)];
    var both := option.v4 && option.v6;
    var ips: seq<Ip> := [];
    var ttl := DEFAULT_TTL;
    var errors: seq<DnsError> := [];
    for i := 0 to 2
      invariant ips == (if i > 0 && both then RecordIps(rec.a, now).ips else []) + (if i > 1 && both then RecordIps(rec.aaaa, now).ips else [])
      invariant i > 0 && both ==> rec.a.Some?
      invariant i > 1 && both ==> rec.aaaa.Some?
      invariant ttl == if i == 0 || !both then DEFAULT_TTL
        else if i == 1 then Min(DEFAULT_TTL, RecordIps(rec.a, now).ttl)
        else Min(DEFAULT_TTL, Min(RecordIps(rec.a, now).ttl, RecordIps(rec.aaaa, now).ttl))
      invariant errors == Listed(both && i > 0, RecordIps(rec.a, now).error) + Listed(both && i > 1, RecordIps(rec.aaaa, now).error)
      invariant i > 0 ==> both || !option.v4
      invariant i > 1 ==> both || !option.v6
    {
      var (enabled, half) := families[i];
      if !enabled {
        continue;
      }
      var one := RecordIps(half, now);
      if !both || IsNotFound(one) {
        return one;
      }
      if one.ttl < ttl {
        ttl := one.ttl;
      }
      if one.error.Some? {
        errors := errors + [one.error.value];
      }
      if one.ips != [] {
        ips := ips + one.ips;
      }
    }
    if ips != [] {
      return Merge(ips, ttl, None);
    }
    if errors == [] {
      return Merge([], ttl, None);
    }
    if |errors| == 1 || Kind(errors[0]) == Kind(errors[1]) {
      return Merge([], ttl, Some(errors[0]));
    }
    assert errors == [RecordIps(rec.a, now).error.value, RecordIps(rec.aaaa, now).error.value];
    return Merge([], ttl, Some(SystemResolve(Joined(errors, show))));
  }

  function Listed(present: bool, e: Option<DnsError>): seq<DnsError> {
    if present && e.Some? then [e.value] else []
  }

  // ---------- Serving from the cache ----------

  /**
   The stale limit as the controller stores it: converted to a signed 32-bit number and negated, both with
   wrap-around.
   */
  function Stored(limit: nat): int
    requires limit < 0x1_0000_0000
  {
    if limit <= 0x8000_0000 then 0 - limit else 0x1_0000_0000 - limit
  }

  /** What cleanup compares expiry times with. */
  function EffectiveNow(stale: bool, stored: int, now: int): int {
    if stale && stored != 0 then now - (if stored < 0 then -stored else stored) * SECOND else now
  }

  predicate Expired(half: Option<IpRecord>, at: int) {
    half.Some? && half.value.expire < at
  }

  /** An answer with addresses. */
  predicate Positive(half: IpRecord) {
    half.rcode == 0 && half.ips != []
  }

  /** What one family adds to a stale answer; nothing may be missing or negative. */
  function StalePart(enabled: bool, half: Option<IpRecord>): Option<seq<Ip>> {
    if !enabled then Some([]) else if half.Some? && Positive(half.value) then Some(half.value.ips) else None
  }

  /** The addresses of a stale answer. */
  function StaleIps(option: IpOption, rec: Record): Option<seq<Ip>> {
    var a, aaaa := StalePart(option.v4, rec.a), StalePart(option.v6, rec.aaaa);
    if a.None? || aaaa.None? || a.value + aaaa.value == [] then None else Some(a.value + aaaa.value)
  }

  method StaleResult(option: IpOption, rec: Record) returns (r: Option<seq<Ip>>)
    ensures r == StaleIps(option, rec)
  {
    var families := [(option.v4, rec.a), (option.v6, rec.aaaa)];
    var all: seq<Ip> := [];
    for i := 0 to 2
      invariant i > 0 ==> StalePart(option.v4, rec.a).Some?
      invariant i > 1 ==> StalePart(option.v6, rec.aaaa).Some?
      invariant all == (if i > 0 then StalePart(option.v4, rec.a).value else [])
                     + (if i > 1 then StalePart(option.v6, rec.aaaa).value else [])
    {
      var (enabled, half) := families[i];
      if !enabled {
        continue;
      }
      if half.None? || half.value.rcode != 0 || half.value.ips == [] {
        return None;
      }
      all := all + half.value.ips;
    }
    r := if all == [] then None else Some(all);
  }

  /** What the query path makes of a cached record; `Ask` is a miss. */
  datatype Served = Fresh(ips: seq<Ip>, ttl: int) | Negative(error: DnsError) | Stale(ips: seq<Ip>) | Ask

  /** A lifetime that stale serving accepts. */
  predicate WithinLimit(stale: bool, stored: int, ttl: int) {
    stale && (stored == 0 || stored < ttl)
  }

  function ServedFrom(stale: bool, stored: int, option: IpOption, rec: Record, now: int, show: DnsError -> string): Served {
    var m := Merged(option, rec, now, show);
    if IsNotFound(m) then Ask
    else if m.ttl > 0 then if m.error.Some? then Negative(m.error.value) else Fresh(m.ips, m.ttl)
    else if WithinLimit(stale, stored, m.ttl) && StaleIps(option, rec).Some? then Stale(StaleIps(option, rec).value)
    else Ask
  }

  method ServeCached(stale: bool, stored: int, option: IpOption, rec: Record, now: int, show: DnsError -> string)
    returns (r: Served)
    ensures r == ServedFrom(stale, stored, option, rec, now, show)
  {
    hide Merged;
    var m := MergeRecords(option, rec, now, show);
    if !IsNotFound(m) {
      if m.ttl > 0 {
        return match m.error case None => Fresh(m.ips, m.ttl) case Some(e) => Negative(e);
      }
      if stale && (stored == 0 || stored < m.ttl) {
        var ips := StaleResult(option, rec);
        if ips.Some? {
          return Stale(ips.value);
        }
      }
    }
    return Ask;
  }

  /** A query for one family is served live, live with an error, stale, or not at all, by these tests on its record. */
  lemma ServedOne(stale: bool, stored: int, option: IpOption, rec: Record, now: int, show: DnsError -> string, r: IpRecord)
    requires (option.v4 && !option.v6 && rec.a == Some(r)) || (option.v6 && !option.v4 && rec.aaaa == Some(r))
    ensures
      var served := ServedFrom(stale, stored, option, rec, now, show);
      var left := RawTtl(r.expire, now);
      && (r.expire > now && r.rcode == 0 && r.ips != [] ==> served == Fresh(r.ips, left))
      && (r.expire > now && (r.rcode != 0 || r.ips == []) ==>
            served == Negative(if r.rcode != 0 then RCodeError(r.rcode) else EmptyResponse))
      && (r.expire <= now && r.rcode == 0 && r.ips != [] && stale && (stored == 0 || stored < left) ==> served == Stale(r.ips))
      && (r.expire <= now && !(r.rcode == 0 && r.ips != [] && stale && (stored == 0 || stored < left)) ==> served == Ask)
  {
    MergedIs(option, rec, now, show);
    TtlSign(r.expire, now);
    hide RawTtl, Merged;
    assert r.ips + [] == r.ips && [] + r.ips == r.ips;
  }

  /** The same for both families: live only while both are, and stale only if both have addresses. */
  lemma ServedBoth(stale: bool, stored: int, option: IpOption, rec: Record, now: int, show: DnsError -> string, a: IpRecord, aaaa: IpRecord)
    requires option.v4 && option.v6 && rec == Record(Some(a), Some(aaaa))
    ensures
      var served := ServedFrom(stale, stored, option, rec, now, show);
      var left4, left6 := RawTtl(a.expire, now), RawTtl(aaaa.expire, now);
      var live := a.expire > now && aaaa.expire > now;
      var reusable := a.rcode == 0 && aaaa.rcode == 0 && a.ips != [] && aaaa.ips != [];
      && (served.Fresh? <==> live && (a.ips != [] || aaaa.ips != []))
      && (served.Fresh? ==> served.ips == a.ips + aaaa.ips && served.ttl <= 600 && served.ttl <= left4 && served.ttl <= left6)
      && (served.Negative? <==> live && a.ips == [] && aaaa.ips == [])
      && (served.Stale? <==> !live && reusable && stale && (stored == 0 || (stored < left4 && stored < left6 && stored < 600)))
      && (served.Stale? ==> served.ips == a.ips + aaaa.ips)
  {
    MergedIs(option, rec, now, show);
    TtlSign(a.expire, now);
    TtlSign(aaaa.expire, now);
    hide RawTtl, Merged, FromNeither;
    var m := Merged(option, rec, now, show);
    assert FromBoth(a, aaaa, now, show, m);
    BothNotAbsent(a, aaaa, now, show, m);
  }

  lemma BothNotAbsent(a: IpRecord, aaaa: IpRecord, now: int, show: DnsError -> string, m: Merge)
    requires FromBoth(a, aaaa, now, show, m)
    ensures !IsNotFound(m)
  {
    hide RawTtl;
  }

  predicate Serves(stale: bool, stored: int, option: IpOption, rec: Record, now: int, show: DnsError -> string) {
    !ServedFrom(stale, stored, option, rec, now, show).Ask?
  }

  /** The same for a query that uses this half alone. */
  predicate ServesHalf(stale: bool, stored: int, half: IpRecord, now: int) {
    var ttl := RawTtl(half.expire, now);
    ttl > 0 || (WithinLimit(stale, stored, ttl) && Positive(half))
  }

  /** The half is one the query looks at. */
  predicate Uses(option: IpOption, rec: Record, half: Option<IpRecord>) {
    half.Some? && ((option.v4 && half == rec.a) || (option.v6 && half == rec.aaaa))
  }

  /** The merged lifetime is no longer than that of any half used. */
  lemma MergedTtl(option: IpOption, rec: Record, now: int, show: DnsError -> string, half: Option<IpRecord>)
    requires Uses(option, rec, half) && !IsNotFound(Merged(option, rec, now, show))
    ensures Merged(option, rec, now, show).ttl <= RawTtl(half.value.expire, now)
  {
    hide RawTtl, Joined, Kind;
  }

  /**
   Stale arithmetic: a merge that is not RecordNotFound with a lifetime above -limit used no half that
   cleanup at that instant counts as expired.
   */
  lemma StaleAgrees(limit: nat, option: IpOption, rec: Record, now: int, show: DnsError -> string, half: Option<IpRecord>)
    requires 0 < limit < 0x8000_0000
    requires Uses(option, rec, half) && !IsNotFound(Merged(option, rec, now, show))
    requires Merged(option, rec, now, show).ttl > 0 - limit
    ensures !Expired(half, EffectiveNow(true, Stored(limit), now))
  {
    MergedTtl(option, rec, now, show, half);
    hide Merged, RawTtl;
    TtlAbove(half.value.expire, now, limit);
  }

  /** Without stale serving the same holds for a positive lifetime. */
  lemma FreshAgrees(limit: nat, option: IpOption, rec: Record, now: int, show: DnsError -> string, half: Option<IpRecord>)
    requires limit < 0x1_0000_0000
    requires Uses(option, rec, half) && !IsNotFound(Merged(option, rec, now, show))
    requires Merged(option, rec, now, show).ttl > 0
    ensures !Expired(half, EffectiveNow(false, Stored(limit), now))
  {
    MergedTtl(option, rec, now, show, half);
    hide Merged, RawTtl;
    TtlSign(half.value.expire, now);
  }

  /**
   What cleanup calls expired, in seconds overdue: more than the stale limit, which above 2^31 wraps around to what is
   missing to 2^32, and any at all without stale serving.
   */
  lemma ExpiredExactly(stale: bool, limit: nat, half: IpRecord, now: int)
    requires limit < 0x1_0000_0000
    ensures
      var grace := if !stale then 0 else if limit <= 0x8000_0000 then limit else 0x1_0000_0000 - limit;
      Expired(Some(half), EffectiveNow(stale, Stored(limit), now)) <==> now - half.expire > grace * SECOND
  {
  }

  /**
   Where the two modules disagree: stale serving without a limit, or with the one limit (2^31 seconds) that the
   saturated lifetime cannot express.
   */
  predicate Beyond(stale: bool, limit: nat, expire: int, now: int) {
    stale && ((limit == 0 && expire < now) || (limit == 0x8000_0000 && now - expire > 0x8000_0000 * SECOND))
  }

  /**
   The query path's own test, for every limit: a half it may serve counts as expired exactly beyond these, and if
   it has addresses.
   */
  lemma ServedButExpired(stale: bool, limit: nat, half: IpRecord, now: int)
    requires limit < 0x1_0000_0000
    ensures ServesHalf(stale, Stored(limit), half, now) && Expired(Some(half), EffectiveNow(stale, Stored(limit), now))
       <==> Beyond(stale, limit, half.expire, now) && Positive(half)
  {
    TtlSign(half.expire, now);
    if 0 < limit < 0x8000_0000 {
      TtlAbove(half.expire, now, limit);
    }
    if limit == 0x8000_0000 {
      TtlSaturates(half.expire, now);
    }
    hide RawTtl;
  }

  lemma TtlSaturates(expire: int, now: int)
    ensures RawTtl(expire, now) > -0x8000_0000
  {
    hide CeilSeconds;
  }

  /** A half of a served answer is one that may be served. */
  lemma ServedHalf(stale: bool, stored: int, option: IpOption, rec: Record, now: int, show: DnsError -> string, half: Option<IpRecord>)
    requires Uses(option, rec, half) && Serves(stale, stored, option, rec, now, show)
    ensures ServesHalf(stale, stored, half.value, now)
    ensures Merged(option, rec, now, show).ttl <= 0 ==> Positive(half.value)
  {
    MergedTtl(option, rec, now, show, half);
    hide Merged, RawTtl;
  }

  /** Served by the query path: every half used is kept by cleanup, but for those beyond. */
  lemma ServedIsKept(stale: bool, limit: nat, option: IpOption, rec: Record, now: int, show: DnsError -> string, half: Option<IpRecord>)
    requires limit < 0x1_0000_0000
    requires Uses(option, rec, half) && Serves(stale, Stored(limit), option, rec, now, show)
    ensures Expired(half, EffectiveNow(stale, Stored(limit), now)) <==> Beyond(stale, limit, half.value.expire, now)
  {
    ServedHalf(stale, Stored(limit), option, rec, now, show, half);
    ServedButExpired(stale, limit, half.value, now);
    OverdueUse(option, rec, now, show, half);
    hide Merged, RawTtl, ServedFrom, ServesHalf;
  }

  /** An overdue half makes the whole answer overdue. */
  lemma OverdueUse(option: IpOption, rec: Record, now: int, show: DnsError -> string, half: Option<IpRecord>)
    requires Uses(option, rec, half)
    ensures !IsNotFound(Merged(option, rec, now, show)) && half.value.expire < now ==> Merged(option, rec, now, show).ttl <= 0
  {
    TtlSign(half.value.expire, now);
    if !IsNotFound(Merged(option, rec, now, show)) {
      MergedTtl(option, rec, now, show, half);
    }
    hide Merged, RawTtl;
  }
}
