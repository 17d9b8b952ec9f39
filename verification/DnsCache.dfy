/**
 The DNS cache: copy-on-write entries shared with readers, and a cleanup in two lock sections between
 which other writers may run.
 */
module DnsCache {
  import opened Bytes
  import opened DnsTypes
  import opened DnsRecords

  const MIN_SIZE_FOR_EMPTY_REBUILD: nat := 512
  const SHRINK_ABSOLUTE_THRESHOLD: nat := 10240

  // ---------- Contents ----------

  type Cache = map<string, Record>

  /** One write: a half stored under a name. */
  datatype Write = Write(name: string, v4: bool, half: IpRecord)

  function Blank(): Record {
    Record(None, None)
  }

  function WithHalf(rec: Record, v4: bool, half: IpRecord): Record {
    if v4 then rec.(a := Some(half)) else rec.(aaaa := Some(half))
  }

  function Entry(c: Cache, name: string): Record {
    if name in c then c[name] else Blank()
  }

  function Half(c: Cache, name: string, v4: bool): Option<IpRecord> {
    if v4 then Entry(c, name).a else Entry(c, name).aaaa
  }

  function Upserted(c: Cache, w: Write): Cache {
    c[w.name := WithHalf(Entry(c, w.name), w.v4, w.half)]
  }

  function AllUpserted(c: Cache, writes: seq<Write>): Cache {
    if writes == [] then c else Upserted(AllUpserted(c, writes[..|writes| - 1]), writes[|writes| - 1])
  }

  predicate SomeExpired(rec: Record, at: int) {
    Expired(rec.a, at) || Expired(rec.aaaa, at)
  }

  function Purged(rec: Record, at: int): Record {
    Record(if Expired(rec.a, at) then None else rec.a, if Expired(rec.aaaa, at) then None else rec.aaaa)
  }

  function PurgedAt(c: Cache, name: string, at: int): Cache {
    if name !in c || !SomeExpired(c[name], at) then c
    else if Purged(c[name], at) == Blank() then c - {name}
    else c[name := Purged(c[name], at)]
  }

  /** The write section of cleanup, key by key. */
  function Cleaned(c: Cache, keys: seq<string>, at: int): Cache {
    if keys == [] then c else PurgedAt(Cleaned(c, keys[..|keys| - 1], at), keys[|keys| - 1], at)
  }

  ghost predicate NoBlank(c: Cache) {
    forall name | name in c :: c[name] != Blank()
  }

  /** The keys are exactly the names with an expired half. */
  ghost predicate Collected(c: Cache, keys: seq<string>, at: int) {
    forall name :: name in keys <==> name in c && SomeExpired(c[name], at)
  }

  lemma PurgedHalf(c: Cache, name: string, at: int, n: string, v4: bool)
    ensures Half(PurgedAt(c, name, at), n, v4)
         == if n == name && Expired(Half(c, n, v4), at) then None else Half(c, n, v4)
  {
  }

  /** Cleanup drops a half exactly when its name was collected and it is expired now. */
  lemma {:induction false} CleanedHalf(c: Cache, keys: seq<string>, at: int, n: string, v4: bool)
    ensures Half(Cleaned(c, keys, at), n, v4)
         == if n in keys && Expired(Half(c, n, v4), at) then None else Half(c, n, v4)
  {
    hide Half, PurgedAt;
    if keys != [] {
      var init, last := keys[..|keys| - 1], keys[|keys| - 1];
      CleanedHalf(c, init, at, n, v4);
      PurgedHalf(Cleaned(c, init, at), last, at, n, v4);
      assert keys == init + [last];
    }
  }

  lemma {:induction false} CleanedNoBlank(c: Cache, keys: seq<string>, at: int)
    requires NoBlank(c)
    ensures NoBlank(Cleaned(c, keys, at)) && Cleaned(c, keys, at).Keys <= c.Keys
  {
    if keys != [] {
      CleanedNoBlank(c, keys[..|keys| - 1], at);
    }
  }

  lemma UpsertedHalf(c: Cache, w: Write, n: string, v4: bool)
    ensures Half(Upserted(c, w), n, v4) == if n == w.name && v4 == w.v4 then Some(w.half) else Half(c, n, v4)
  {
  }

  lemma {:induction false} UpsertedNoBlank(c: Cache, writes: seq<Write>)
    requires NoBlank(c)
    ensures NoBlank(AllUpserted(c, writes))
  {
    if writes != [] {
      UpsertedNoBlank(c, writes[..|writes| - 1]);
    }
  }

  /** Some write goes to this half. */
  ghost predicate Written(writes: seq<Write>, n: string, v4: bool) {
    exists i | 0 <= i < |writes| :: writes[i].name == n && writes[i].v4 == v4
  }

  lemma {:induction false} UnwrittenHalf(c: Cache, writes: seq<Write>, n: string, v4: bool)
    requires !Written(writes, n, v4)
    ensures Half(AllUpserted(c, writes), n, v4) == Half(c, n, v4)
  {
    if writes != [] {
      var init, last := writes[..|writes| - 1], writes[|writes| - 1];
      assert !Written(init, n, v4) && !(last.name == n && last.v4 == v4);
      UnwrittenHalf(c, init, n, v4);
      UpsertedHalf(AllUpserted(c, init), last, n, v4);
    }
  }

  /** What one name keeps in the write section. */
  lemma {:induction false} CleanedEntry(c: Cache, keys: seq<string>, at: int, n: string)
    ensures n in Cleaned(c, keys, at) <==> n in c && !(n in keys && SomeExpired(c[n], at) && Purged(c[n], at) == Blank())
    ensures n in Cleaned(c, keys, at) ==> Cleaned(c, keys, at)[n] == if n in keys then Purged(c[n], at) else c[n]
  {
    if keys != [] {
      var init, last := keys[..|keys| - 1], keys[|keys| - 1];
      CleanedEntry(c, init, at, n);
      assert keys == init + [last];
    }
  }

  /** The map `mid` after deleting what was expired in `c` and still is. */
  function Swept(c: Cache, mid: Cache, at: int): Cache {
    map n | n in mid && !(n in c && SomeExpired(c[n], at) && SomeExpired(mid[n], at) && Purged(mid[n], at) == Blank()) ::
      if n in c && SomeExpired(c[n], at) then Purged(mid[n], at) else mid[n]
  }

  /** The order in which the keys were collected does not matter. */
  lemma CleanedIsSwept(c: Cache, mid: Cache, keys: seq<string>, at: int)
    requires Collected(c, keys, at)
    ensures Cleaned(mid, keys, at) == Swept(c, mid, at)
  {
    forall n
      ensures n in Cleaned(mid, keys, at) <==> n in Swept(c, mid, at)
      ensures n in Cleaned(mid, keys, at) ==> Cleaned(mid, keys, at)[n] == Swept(c, mid, at)[n]
    {
      CleanedEntry(mid, keys, at, n);
      hide Cleaned, Purged;
    }
    hide Cleaned, Purged, SomeExpired;
    assert Cleaned(mid, keys, at) == Swept(c, mid, at);
  }

  // ---------- Two-phase cleanup ----------

  /**
   Whatever is written between collecting and deleting: a half live at the effective time stays as it is,
   a half still expired under a collected name goes, and nothing else changes.
   */
  lemma {:induction false} TwoPhaseSafe(c: Cache, keys: seq<string>, writes: seq<Write>, at: int, n: string, v4: bool)
    ensures var mid := AllUpserted(c, writes); var end := Cleaned(mid, keys, at);
            && (!Expired(Half(mid, n, v4), at) ==> Half(end, n, v4) == Half(mid, n, v4))
            && (n in keys && Expired(Half(mid, n, v4), at) ==> Half(end, n, v4).None?)
            && (Half(end, n, v4).Some? ==> Half(end, n, v4) == Half(mid, n, v4))
  {
    hide Half, Cleaned, Expired, AllUpserted;
    CleanedHalf(AllUpserted(c, writes), keys, at, n, v4);
  }

  /** A half that was expired when the keys were collected is gone unless it was written in between. */
  lemma ExpiredIsGone(c: Cache, keys: seq<string>, writes: seq<Write>, at: int, n: string, v4: bool)
    requires Collected(c, keys, at) && Expired(Half(c, n, v4), at) && !Written(writes, n, v4)
    ensures Half(Cleaned(AllUpserted(c, writes), keys, at), n, v4).None?
  {
    assert n in keys;
    UnwrittenHalf(c, writes, n, v4);
    hide Half, Collected, Cleaned, Expired, AllUpserted, Written;
    CleanedHalf(AllUpserted(c, writes), keys, at, n, v4);
  }

  /** No entry with two empty halves is kept. */
  lemma NoBlankKept(c: Cache, keys: seq<string>, writes: seq<Write>, at: int)
    requires NoBlank(c)
    ensures NoBlank(Cleaned(AllUpserted(c, writes), keys, at))
  {
    hide NoBlank;
    UpsertedNoBlank(c, writes);
    CleanedNoBlank(AllUpserted(c, writes), keys, at);
  }

  /** Without writers in between nothing expired is left, so a second cleanup at the same time has nothing to do. */
  lemma NothingExpiredLeft(c: Cache, keys: seq<string>, at: int, n: string, v4: bool)
    requires Collected(c, keys, at)
    ensures !Expired(Half(Cleaned(c, keys, at), n, v4), at)
  {
    CleanedHalf(c, keys, at, n, v4);
  }

  /**
   A cached answer the query path may serve survives a cleanup at the same instant, with whatever keys:
   the query gets the same answer after it, unless a half it uses is one the two modules disagree about.
   */
  lemma {:induction false} HitSurvives(c: Cache, keys: seq<string>, stale: bool, limit: nat, option: IpOption, now: int,
                    show: DnsError -> string, n: string)
    requires limit < 0x1_0000_0000 && (option.v4 || option.v6)
    requires n in c && Serves(stale, Stored(limit), option, c[n], now, show)
    requires forall half | Uses(option, c[n], half) :: !Beyond(stale, limit, half.value.expire, now)
    ensures var end := Cleaned(c, keys, EffectiveNow(stale, Stored(limit), now));
            n in end && ServedFrom(stale, Stored(limit), option, end[n], now, show)
                     == ServedFrom(stale, Stored(limit), option, c[n], now, show)
  {
    var at := EffectiveNow(stale, Stored(limit), now);
    var end := Cleaned(c, keys, at);
    if option.v4 {
      HitHalfKept(c, keys, stale, limit, option, now, show, n, true);
    }
    if option.v6 {
      HitHalfKept(c, keys, stale, limit, option, now, show, n, false);
    }
    hide Cleaned, RecordIps, MergedError;
    assert n in end;
    SameUse(stale, Stored(limit), option, c[n], end[n], now, show);
  }

  lemma SameUse(stale: bool, stored: int, option: IpOption, a: Record, b: Record, now: int, show: DnsError -> string)
    requires (option.v4 ==> a.a == b.a) && (option.v6 ==> a.aaaa == b.aaaa)
    ensures ServedFrom(stale, stored, option, a, now, show) == ServedFrom(stale, stored, option, b, now, show)
  {
    hide RecordIps, MergedError;
  }

  /** And in those cases it is gone, if the name was collected: the query asks the name server. */
  lemma {:induction false} HitLost(c: Cache, keys: seq<string>, stale: bool, limit: nat, option: IpOption, now: int,
                    show: DnsError -> string, n: string, v4: bool)
    requires limit < 0x1_0000_0000 && n in c && n in keys && (if v4 then option.v4 else option.v6)
    requires Half(c, n, v4).Some? && Beyond(stale, limit, Half(c, n, v4).value.expire, now)
    ensures var end := Cleaned(c, keys, EffectiveNow(stale, Stored(limit), now));
            n in end ==> ServedFrom(stale, Stored(limit), option, end[n], now, show) == Ask
  {
    CleanedHalf(c, keys, EffectiveNow(stale, Stored(limit), now), n, v4);
    hide Cleaned, MergedError, RawTtl;
  }

  lemma {:induction false} HitHalfKept(c: Cache, keys: seq<string>, stale: bool, limit: nat, option: IpOption, now: int,
                    show: DnsError -> string, n: string, v4: bool)
    requires limit < 0x1_0000_0000
    requires if v4 then option.v4 else option.v6
    requires n in c && Serves(stale, Stored(limit), option, c[n], now, show)
    requires forall half | Uses(option, c[n], half) :: !Beyond(stale, limit, half.value.expire, now)
    ensures Half(c, n, v4).Some?
    ensures Half(Cleaned(c, keys, EffectiveNow(stale, Stored(limit), now)), n, v4) == Half(c, n, v4)
  {
    var at := EffectiveNow(stale, Stored(limit), now);
    var half := Half(c, n, v4);
    assert half.Some? by {
      hide MergedError, RawTtl, StaleIps;
    }
    CleanedHalf(c, keys, at, n, v4);
    assert Uses(option, c[n], half);
    hide Cleaned, Merged, Serves, EffectiveNow, Stored, Expired, Beyond, Uses;
    ServedIsKept(stale, limit, option, c[n], now, show, half);
  }

  /** With unlimited stale serving, cleanup removes an answer the query path would still serve. */
  lemma {:induction false} UnlimitedStaleLost(now: int, ip: Ip, show: DnsError -> string)
    ensures var half := IpRecord([ip], now - SECOND, 0); var rec := Record(Some(half), None);
            var option := IpOption(true, false, false); var at := EffectiveNow(true, Stored(0), now);
            && ServedFrom(true, Stored(0), option, rec, now, show) == Stale([ip])
            && Collected(map["n" := rec], ["n"], at)
            && Cleaned(map["n" := rec], ["n"], at) == map[]
  {
    var half := IpRecord([ip], now - SECOND, 0);
    var c := map["n" := Record(Some(half), None)];
    assert Cleaned(c, [], now) == c;
    assert ["n"][..0] == [];
    assert PurgedAt(c, "n", now) == map[];
  }

  // ---------- The controller ----------

  /** A reference-counted record. */
  class ArcRecord {
    var rec: Record
    var strong: nat

    constructor (r: Record)
      ensures rec == r && strong == 1
    {
      rec, strong := r, 1;
    }
  }

  /**
   What the objects stand for: the name each stored record belongs to, how many handles readers hold of a
   record and what they saw when they took them, and the contents.
   */
  datatype Book = Book(owner: map<ArcRecord, string>, held: map<ArcRecord, nat>, seen: map<ArcRecord, Record>, contents: Cache)

  /** Each name has a record of its own. */
  ghost predicate Linked(ips: map<string, ArcRecord>, b: Book) {
    && ips.Keys == b.contents.Keys
    && (forall k | k in ips :: ips[k] in b.owner && b.owner[ips[k]] == k)
    && (forall arc | arc in b.owner :: arc in b.held && b.owner[arc] in ips && ips[b.owner[arc]] == arc)
  }

  /**
   A record counts one for the map and one per handle; a stored one holds the contents of its name, one
   with handles what its readers saw.
   */
  ghost predicate Fits(b: Book, arc: ArcRecord, rec: Record, strong: nat) {
    && arc in b.held && strong == b.held[arc] + (if arc in b.owner then 1 else 0)
    && (arc in b.owner ==> b.owner[arc] in b.contents && rec == b.contents[b.owner[arc]])
    && (b.held[arc] > 0 ==> arc in b.seen && rec == b.seen[arc])
  }

  lemma LinkedKeys(ips: map<string, ArcRecord>, b: Book)
    requires Linked(ips, b)
    ensures ips.Keys == b.contents.Keys
  {
  }

  lemma LinkedAt(ips: map<string, ArcRecord>, b: Book, k: string)
    requires Linked(ips, b) && k in ips
    ensures ips[k] in b.owner && b.owner[ips[k]] == k && ips[k] in b.held && k in b.contents
  {
  }

  /** Handles are as before: same counts, same snapshots. */
  ghost predicate Extends(b: Book, b': Book) {
    && b'.seen == b.seen && b.held.Keys <= b'.held.Keys
    && forall arc | arc in b.held :: b'.held[arc] == b.held[arc]
  }

  lemma ExtendsTwice(b: Book, b': Book, b'': Book)
    requires Extends(b, b') && Extends(b', b'')
    ensures Extends(b, b'')
  {
  }

  /** One handle more. */
  function Taken(b: Book, arc: ArcRecord, rec: Record): Book
    requires arc in b.held
  {
    b.(held := b.held[arc := b.held[arc] + 1], seen := b.seen[arc := rec])
  }

  lemma TakenBook(ips: map<string, ArcRecord>, b: Book, arc: ArcRecord, rec: Record, strong: nat)
    requires Linked(ips, b) && Fits(b, arc, rec, strong)
    ensures Linked(ips, Taken(b, arc, rec)) && Fits(Taken(b, arc, rec), arc, rec, strong + 1)
    ensures forall o, r, s | o != arc && Fits(b, o, r, s) :: Fits(Taken(b, arc, rec), o, r, s)
  {
  }

  /** One handle less. */
  function Dropped(b: Book, arc: ArcRecord): Book
    requires arc in b.held && b.held[arc] > 0
  {
    b.(held := b.held[arc := b.held[arc] - 1])
  }

  lemma DroppedBook(ips: map<string, ArcRecord>, b: Book, arc: ArcRecord, rec: Record, strong: nat)
    requires Linked(ips, b) && Fits(b, arc, rec, strong) && b.held[arc] > 0
    ensures Linked(ips, Dropped(b, arc)) && strong > 0 && Fits(Dropped(b, arc), arc, rec, strong - 1)
    ensures forall o, r, s | o != arc && Fits(b, o, r, s) :: Fits(Dropped(b, arc), o, r, s)
  {
  }

  /** The record stored under a name, with its count. */
  lemma FitsAt(ips: map<string, ArcRecord>, b: Book, name: string, rec: Record, strong: nat)
    requires Linked(ips, b) && name in ips && Fits(b, ips[name], rec, strong)
    ensures name in b.contents && rec == b.contents[name] && strong == b.held[ips[name]] + 1
  {
  }

  /** The name moves to a copy; the old record is left to its handles. */
  function Moved(b: Book, name: string, arc: ArcRecord, copy: ArcRecord): Book {
    Book((b.owner - {arc})[copy := name], b.held[copy := 0], b.seen, b.contents)
  }

  lemma MovedBook(ips: map<string, ArcRecord>, b: Book, name: string, copy: ArcRecord)
    requires Linked(ips, b) && name in ips && copy !in b.held
    ensures Linked(ips[name := copy], Moved(b, name, ips[name], copy))
    ensures forall o, r, s | o != ips[name] && Fits(b, o, r, s) :: Fits(Moved(b, name, ips[name], copy), o, r, s)
  {
  }

  lemma MovedSelf(ips: map<string, ArcRecord>, b: Book, name: string, copy: ArcRecord, rec: Record, strong: nat)
    requires Linked(ips, b) && name in ips && copy !in b.held && Fits(b, ips[name], rec, strong)
    ensures strong > 0 && Fits(Moved(b, name, ips[name], copy), ips[name], rec, strong - 1)
    ensures Fits(Moved(b, name, ips[name], copy), copy, rec, 1)
  {
  }

  function Added(b: Book, name: string, arc: ArcRecord): Book {
    Book(b.owner[arc := name], b.held[arc := 0], b.seen, b.contents[name := Blank()])
  }

  lemma AddedBook(ips: map<string, ArcRecord>, b: Book, name: string, arc: ArcRecord)
    requires Linked(ips, b) && name !in ips && arc !in b.held
    ensures Linked(ips[name := arc], Added(b, name, arc))
    ensures Fits(Added(b, name, arc), arc, Blank(), 1)
    ensures forall o, r, s | o in b.held && Fits(b, o, r, s) :: Fits(Added(b, name, arc), o, r, s)
  {
    forall o, r, s | o in b.held && Fits(b, o, r, s)
      ensures Fits(Added(b, name, arc), o, r, s)
    {
      assert o != arc;
      if o in b.owner {
        assert b.owner[o] in ips;
      }
    }
  }

  function Forgotten(b: Book, name: string, arc: ArcRecord): Book {
    Book(b.owner - {arc}, b.held, b.seen, b.contents - {name})
  }

  lemma ForgottenBook(ips: map<string, ArcRecord>, b: Book, name: string)
    requires Linked(ips, b) && name in ips
    ensures Linked(ips - {name}, Forgotten(b, name, ips[name]))
    ensures forall o, r, s | o != ips[name] && Fits(b, o, r, s) :: Fits(Forgotten(b, name, ips[name]), o, r, s)
  {
    forall o, r, s | o != ips[name] && Fits(b, o, r, s)
      ensures Fits(Forgotten(b, name, ips[name]), o, r, s)
    {
      if o in b.owner {
        assert ips[b.owner[o]] == o;
      }
    }
  }

  lemma ForgottenSelf(ips: map<string, ArcRecord>, b: Book, name: string, rec: Record, strong: nat)
    requires Linked(ips, b) && name in ips && Fits(b, ips[name], rec, strong)
    ensures strong > 0 && Fits(Forgotten(b, name, ips[name]), ips[name], rec, strong - 1)
  {
  }

  function Rewritten(b: Book, name: string, rec: Record): Book {
    b.(contents := b.contents[name := rec])
  }

  lemma RewrittenBook(ips: map<string, ArcRecord>, b: Book, name: string, rec: Record)
    requires Linked(ips, b) && name in ips
    ensures Linked(ips, Rewritten(b, name, rec))
    ensures forall o, r, s | o != ips[name] && Fits(b, o, r, s) :: Fits(Rewritten(b, name, rec), o, r, s)
  {
    forall o, r, s | o != ips[name] && Fits(b, o, r, s)
      ensures Fits(Rewritten(b, name, rec), o, r, s)
    {
      if o in b.owner {
        assert ips[b.owner[o]] == o;
      }
    }
  }

  lemma RewrittenSelf(ips: map<string, ArcRecord>, b: Book, name: string, rec: Record, strong: nat, rec': Record)
    requires Linked(ips, b) && name in ips && Fits(b, ips[name], rec, strong) && b.held[ips[name]] == 0
    ensures Fits(Rewritten(b, name, rec'), ips[name], rec', strong)
  {
  }

  /** What can happen to the cache while a reader holds a record; a cleanup is overtaken by `between`. */
  datatype Operation = Put(write: Write) | Clean(now: int, between: seq<Write>)

  datatype Settings = Settings(disabled: bool, stale: bool, stored: int)

  /** What an operation makes of the contents, as if the map were updated in place. */
  function Applied(c: Cache, op: Operation, s: Settings): Cache {
    match op
    case Put(w) => if s.disabled then c else Upserted(c, w)
    case Clean(now, between) =>
      Swept(c, if s.disabled then c else AllUpserted(c, between), EffectiveNow(s.stale, s.stored, now))
  }

  function AllApplied(c: Cache, ops: seq<Operation>, s: Settings): Cache {
    if ops == [] then c else Applied(AllApplied(c, ops[..|ops| - 1], s), ops[|ops| - 1], s)
  }

  class CacheController {
    const disabled: bool
    const stale: bool
    const stored: int
    var ips: map<string, ArcRecord>
    var high: nat
    ghost var book: Book

    ghost predicate Valid()
      reads this`ips, this`book, book.held.Keys
    {
      Linked(ips, book) && forall arc | arc in book.held :: Fits(book, arc, arc.rec, arc.strong)
    }

    constructor (disabled: bool, stale: bool, limit: nat)
      requires limit < 0x1_0000_0000
      ensures Valid() && high == 0 && book == Book(map[], map[], map[], map[])
      ensures this.disabled == disabled && this.stale == stale && stored == Stored(limit)
    {
      this.disabled, this.stale, stored := disabled, stale, Stored(limit);
      ips, high := map[], 0;
      book := Book(map[], map[], map[], map[]);
    }

    /** Hands out a share of the stored record. */
    method FindRecords(name: string) returns (found: Option<ArcRecord>)
      requires Valid()
      modifies this`book, book.held.Keys`strong
      ensures Valid() && (found.Some? <==> name in old(book.contents))
      ensures found.Some? ==> found.value in old(book.held) && book == Taken(old(book), found.value, book.contents[name])
      ensures found.None? ==> book == old(book)
    {
      LinkedKeys(ips, book);
      hide Linked, Fits;
      if name in ips {
        var arc := ips[name];
        LinkedAt(ips, book, name);
        FitsAt(ips, book, name, arc.rec, arc.strong);
        TakenBook(ips, book, arc, arc.rec, arc.strong);
        book := Taken(book, arc, arc.rec);
        arc.strong := arc.strong + 1;
        found := Some(arc);
      } else {
        found := None;
      }
    }

    /** A reader is done with its share. */
    method DropHandle(arc: ArcRecord)
      requires Valid() && arc in book.held && book.held[arc] > 0
      modifies this`book, arc`strong
      ensures Valid() && book == Dropped(old(book), arc)
    {
      hide Linked, Fits;
      DroppedBook(ips, book, arc, arc.rec, arc.strong);
      arc.strong := arc.strong - 1;
      book := Dropped(book, arc);
    }

    /** A reader finds in its handle what it saw when it took it. */
    method Read(arc: ArcRecord) returns (rec: Record)
      requires Valid() && arc in book.held && book.held[arc] > 0
      ensures arc in book.seen && rec == book.seen[arc]
    {
      assert Fits(book, arc, arc.rec, arc.strong);
      rec := arc.rec;
    }

    /** Makes the record of a name exclusive: in place when nobody else holds it, a copy otherwise. */
    method MakeMut(name: string) returns (arc: ArcRecord)
      requires Valid() && name in ips
      modifies this`ips, this`book, book.held.Keys`strong
      ensures Valid() && book.contents == old(book.contents) && Extends(old(book), book)
      ensures ips == old(ips)[name := arc] && arc in book.held && book.held[arc] == 0
      ensures name in book.contents && arc.rec == book.contents[name]
      ensures forall o | o in book.held && o !in old(book.held) :: fresh(o)
    {
      hide Linked, Fits;
      arc := ips[name];
      LinkedAt(ips, book, name);
      FitsAt(ips, book, name, arc.rec, arc.strong);
      if arc.strong != 1 {
        var copy := new ArcRecord(arc.rec);
        MovedBook(ips, book, name, copy);
        MovedSelf(ips, book, name, copy, arc.rec, arc.strong);
        arc.strong := arc.strong - 1;
        book := Moved(book, name, arc, copy);
        ips := ips[name := copy];
        arc := copy;
      }
    }

    /** Writes through an exclusive record. */
    method SetRecord(name: string, arc: ArcRecord, rec: Record)
      requires Valid() && name in ips && arc == ips[name] && arc in book.held && book.held[arc] == 0
      modifies this`book, arc`rec
      ensures Valid() && book == Rewritten(old(book), name, rec)
    {
      hide Linked, Fits;
      RewrittenBook(ips, book, name, rec);
      RewrittenSelf(ips, book, name, arc.rec, arc.strong, rec);
      arc.rec := rec;
      book := Rewritten(book, name, rec);
    }

    method InsertBlank(name: string)
      requires Valid() && name !in ips
      modifies this`ips, this`book
      ensures Valid() && book.contents == old(book.contents)[name := Blank()] && name in ips && Extends(old(book), book)
      ensures forall o | o in book.held && o !in old(book.held) :: fresh(o)
    {
      hide Linked, Fits;
      var arc := new ArcRecord(Blank());
      AddedBook(ips, book, name, arc);
      ips := ips[name := arc];
      book := Added(book, name, arc);
    }

    method Remove(name: string)
      requires Valid() && name in ips
      modifies this`ips, this`book, book.held.Keys`strong
      ensures Valid() && book == Forgotten(old(book), name, old(ips)[name])
    {
      hide Linked, Fits;
      var arc := ips[name];
      LinkedAt(ips, book, name);
      ForgottenBook(ips, book, name);
      ForgottenSelf(ips, book, name, arc.rec, arc.strong);
      arc.strong := arc.strong - 1;
      ips := ips - {name};
      book := Forgotten(book, name, arc);
    }

    /** The exclusive record of a name, created blank if there is none. */
    method Own(name: string) returns (arc: ArcRecord)
      requires Valid()
      modifies this`ips, this`book, book.held.Keys`strong
      ensures Valid() && book.contents == old(book.contents)[name := Entry(old(book.contents), name)]
      ensures name in ips && arc == ips[name] && arc in book.held && book.held[arc] == 0
      ensures arc.rec == Entry(old(book.contents), name)
      ensures Extends(old(book), book) && forall o | o in book.held && o !in old(book.held) :: fresh(o)
    {
      LinkedKeys(ips, book);
      hide Linked, Fits, Valid;
      if name !in ips {
        InsertBlank(name);
      }
      ghost var mid := book;
      arc := MakeMut(name);
      ExtendsTwice(old(book), mid, book);
      hide Extends;
    }

    method Upsert(w: Write)
      requires Valid()
      modifies this`ips, this`book, book.held.Keys
      ensures Valid() && book.contents == if disabled then old(book.contents) else Upserted(old(book.contents), w)
      ensures Extends(old(book), book) && forall o | o in book.held && o !in old(book.held) :: fresh(o)
    {
      hide Linked, Fits, Valid;
      if disabled {
        return;
      }
      var arc := Own(w.name);
      SetRecord(w.name, arc, WithHalf(arc.rec, w.v4, w.half));
    }

    /** Stores a new record under an existing name, through an exclusive copy. */
    method Overwrite(name: string, rec: Record)
      requires Valid() && name in ips
      modifies this`ips, this`book, book.held.Keys
      ensures Valid() && book.contents == old(book.contents)[name := rec] && name in ips
      ensures Extends(old(book), book) && forall o | o in book.held && o !in old(book.held) :: fresh(o)
    {
      hide Linked, Fits, Valid;
      var arc := MakeMut(name);
      SetRecord(name, arc, rec);
    }

    /** Cleanup of one collected name. */
    method PurgeName(name: string, at: int)
      requires Valid()
      modifies this`ips, this`book, book.held.Keys
      ensures Valid() && book.contents == PurgedAt(old(book.contents), name, at)
      ensures Extends(old(book), book) && forall o | o in book.held && o !in old(book.held) :: fresh(o)
    {
      LinkedKeys(ips, book);
      if name !in ips {
        return;
      }
      FitsAt(ips, book, name, ips[name].rec, ips[name].strong);
      hide Linked, Fits, Valid;
      var rec := ips[name].rec;
      if SomeExpired(rec, at) {
        Overwrite(name, Purged(rec, at));
        if Purged(rec, at) == Blank() {
          assert book.contents - {name} == old(book.contents) - {name};
          Remove(name);
        }
      }
    }

    /** The read section of cleanup. */
    method CollectExpiredKeys(now: int) returns (keys: seq<string>)
      requires Valid()
      ensures Collected(book.contents, keys, EffectiveNow(stale, stored, now))
    {
      LinkedKeys(ips, book);
      var at := EffectiveNow(stale, stored, now);
      keys := [];
      var left := ips.Keys;
      while left != {}
        invariant left <= ips.Keys
        invariant forall name :: name in keys <==> name in ips && name !in left && SomeExpired(book.contents[name], at)
        decreases |left|
      {
        var name :| name in left;
        FitsAt(ips, book, name, ips[name].rec, ips[name].strong);
        if SomeExpired(ips[name].rec, at) {
          keys := keys + [name];
        }
        left := left - {name};
      }
    }

    /** The write section of cleanup. */
    method CleanupAndMaybeShrink(keys: seq<string>, now: int) returns (shrunk: bool)
      requires Valid()
      modifies this, book.held.Keys
      ensures Valid() && book.contents == Cleaned(old(book.contents), keys, EffectiveNow(stale, stored, now))
      ensures Extends(old(book), book) && forall o | o in book.held && o !in old(book.held) :: fresh(o)
      ensures (high, shrunk) == Watermark(old(high), |old(book.contents)|, |book.contents|)
    {
      hide Linked, Fits, Valid, Cleaned, Watermark, Extends, EffectiveNow;
      var before := Size();
      high := if before > high then before else high;
      PurgeAll(keys, EffectiveNow(stale, stored, now));
      var after := Size();
      shrunk := Shrink(before, after);
      WatermarkTwice(old(high), before, after);
    }

    method Size() returns (n: nat)
      requires Valid()
      ensures n == |book.contents|
    {
      SameSize(ips, book);
      n := |ips|;
    }

    /** Rebuilding or shrinking the table changes no contents. */
    method Shrink(ghost before: nat, after: nat) returns (shrunk: bool)
      requires before <= high
      modifies this`high
      ensures (high, shrunk) == Watermark(old(high), before, after)
    {
      if after == 0 {
        if high >= MIN_SIZE_FOR_EMPTY_REBUILD {
          high := 0;
          return true;
        }
        return false;
      }
      var reduction := if high > after then high - after else 0;
      shrunk := reduction > SHRINK_ABSOLUTE_THRESHOLD && reduction * 100 > high * 65;
    }

    /** What other threads write between the two sections of a cleanup. */
    method UpsertAll(writes: seq<Write>)
      requires Valid()
      modifies this`ips, this`book, book.held.Keys
      ensures Valid() && book.contents == if disabled then old(book.contents) else AllUpserted(old(book.contents), writes)
      ensures Extends(old(book), book) && forall o | o in book.held && o !in old(book.held) :: fresh(o)
    {
      hide Linked, Fits, Valid, Upserted;
      for i := 0 to |writes|
        invariant Valid() && book.contents == if disabled then old(book.contents) else AllUpserted(old(book.contents), writes[..i])
        invariant Extends(old(book), book) && forall o | o in book.held && o !in old(book.held) :: fresh(o)
      {
        ghost var mid := book;
        Upsert(writes[i]);
        ExtendsTwice(old(book), mid, book);
        assert writes[..i + 1][..i] == writes[..i];
      }
      assert writes[..|writes|] == writes;
    }

    /** One cleanup, with the writes that other threads get in between its two lock sections. */
    method RunCleanup(now: int, between: seq<Write>) returns (hasExpired: bool, shrunk: bool, ghost keys: seq<string>)
      requires Valid()
      modifies this, book.held.Keys
      ensures Valid() && Extends(old(book), book) && forall o | o in book.held && o !in old(book.held) :: fresh(o)
      ensures Collected(old(book.contents), keys, EffectiveNow(stale, stored, now)) && hasExpired == (keys != [])
      ensures var mid := if disabled then old(book.contents) else AllUpserted(old(book.contents), between);
              book.contents == Cleaned(mid, keys, EffectiveNow(stale, stored, now))
      ensures high >= |book.contents|
    {
      hide Linked, Fits, Valid, Cleaned, AllUpserted, Collected, Watermark;
      var expired := CollectExpiredKeys(now);
      keys := expired;
      hasExpired := expired != [];
      UpsertAll(between);
      ghost var mid := book;
      shrunk := CleanupAndMaybeShrink(expired, now);
      ExtendsTwice(old(book), mid, book);
      WatermarkCovers(old(high), mid.contents, keys, EffectiveNow(stale, stored, now));
    }

    /** One operation. */
    method PerformOne(op: Operation)
      requires Valid()
      modifies this, book.held.Keys
      ensures Valid() && book.contents == Applied(old(book.contents), op, Settings(disabled, stale, stored))
      ensures Extends(old(book), book) && forall o | o in book.held && o !in old(book.held) :: fresh(o)
    {
      hide Linked, Fits, Valid, Cleaned, AllUpserted, Collected, Extends, Swept, Upserted;
      match op {
        case Put(w) => Upsert(w);
        case Clean(now, between) =>
          var hasExpired, shrunk, keys := RunCleanup(now, between);
          CleanedIsSwept(old(book.contents), if disabled then old(book.contents) else AllUpserted(old(book.contents), between),
            keys, EffectiveNow(stale, stored, now));
      }
    }

    /** Any sequence of writes and cleanups updates the map and leaves the handles alone. */
    method Perform(ops: seq<Operation>)
      requires Valid()
      modifies this, book.held.Keys
      ensures Valid() && book.contents == AllApplied(old(book.contents), ops, Settings(disabled, stale, stored))
      ensures Extends(old(book), book) && forall o | o in book.held && o !in old(book.held) :: fresh(o)
    {
      hide Linked, Fits, Valid, Applied;
      for i := 0 to |ops|
        invariant Valid() && book.contents == AllApplied(old(book.contents), ops[..i], Settings(disabled, stale, stored))
        invariant Extends(old(book), book) && forall o | o in book.held && o !in old(book.held) :: fresh(o)
      {
        ghost var mid := book;
        PerformOne(ops[i]);
        ExtendsTwice(old(book), mid, book);
        assert ops[..i + 1][..i] == ops[..i];
      }
      assert ops[..|ops|] == ops;
    }

    /**
     A handle taken before any sequence of writes and cleanups still shows what the map held then, while the
     map itself has gone through all of them. The handle is given back at the end.
     */
    method ReadAfter(name: string, ops: seq<Operation>) returns (rec: Option<Record>)
      requires Valid()
      modifies this, book.held.Keys
      ensures Valid() && book.contents == AllApplied(old(book.contents), ops, Settings(disabled, stale, stored))
      ensures rec == if name in old(book.contents) then Some(old(book.contents)[name]) else None
    {
      hide Linked, Fits, Valid, AllApplied;
      var found := FindRecords(name);
      ghost var taken := book;
      Perform(ops);
      if found.Some? {
        assert book.held[found.value] == taken.held[found.value];
        var r := Read(found.value);
        rec := Some(r);
        DropHandle(found.value);
      } else {
        rec := None;
      }
    }

    method PurgeAll(keys: seq<string>, at: int)
      requires Valid()
      modifies this`ips, this`book, book.held.Keys
      ensures Valid() && book.contents == Cleaned(old(book.contents), keys, at)
      ensures Extends(old(book), book) && forall o | o in book.held && o !in old(book.held) :: fresh(o)
    {
      hide Linked, Fits, Valid, PurgedAt;
      for i := 0 to |keys|
        invariant Valid() && book.contents == Cleaned(old(book.contents), keys[..i], at)
        invariant Extends(old(book), book) && forall o | o in book.held && o !in old(book.held) :: fresh(o)
      {
        ghost var mid := book;
        PurgeName(keys[i], at);
        ExtendsTwice(old(book), mid, book);
        assert keys[..i + 1][..i] == keys[..i];
      }
      assert keys[..|keys|] == keys;
    }
  }

  lemma SameSize(ips: map<string, ArcRecord>, b: Book)
    requires Linked(ips, b)
    ensures |ips| == |b.contents|
  {
    assert |ips| == |ips.Keys| == |b.contents.Keys| == |b.contents|;
  }

  /** The new high mark and whether the table is rebuilt or shrunk, from the sizes before and after a cleanup. */
  function Watermark(high: nat, before: nat, after: nat): (nat, bool) {
    var peak := if before > high then before else high;
    if after == 0 then (if peak >= MIN_SIZE_FOR_EMPTY_REBUILD then (0, true) else (peak, false))
    else
      var reduction := if peak > after then peak - after else 0;
      (peak, reduction > SHRINK_ABSOLUTE_THRESHOLD && reduction * 100 > peak * 65)
  }

  /**
   When the table gives memory back: an empty one once it has held 512 names, any other once more than 10240 names and
   65 hundredths of the most it held are gone. Emptying it is the only thing that lowers the mark.
   */
  lemma WatermarkIs(high: nat, before: nat, after: nat)
    requires after <= before
    ensures
      var (mark, shrunk) := Watermark(high, before, after);
      && (after == 0 ==> (shrunk <==> high >= 512 || before >= 512))
      && (after > 0 && high >= before ==> (shrunk <==> high > after + 10240 && 100 * after < 35 * high))
      && (after > 0 && before >= high ==> (shrunk <==> before > after + 10240 && 100 * after < 35 * before))
      && (after == 0 && shrunk ==> mark == 0)
      && (after > 0 || !shrunk ==> mark >= high && mark >= before && (mark == high || mark == before))
  {
  }

  lemma WatermarkTwice(high: nat, before: nat, after: nat)
    ensures Watermark(if before > high then before else high, before, after) == Watermark(high, before, after)
  {
  }

  lemma {:induction false} CleanedKeys(c: Cache, keys: seq<string>, at: int)
    ensures Cleaned(c, keys, at).Keys <= c.Keys
  {
    if keys != [] {
      CleanedKeys(c, keys[..|keys| - 1], at);
    }
  }

  lemma {:induction false} SubsetSize<T>(a: set<T>, b: set<T>)
    requires a <= b
    ensures |a| <= |b|
  {
    if x :| x in a {
      SubsetSize(a - {x}, b - {x});
    }
  }

  /** After every cleanup the mark is at or above the number of entries, whatever it was before. */
  lemma {:induction false} WatermarkCovers(high: nat, c: Cache, keys: seq<string>, at: int)
    ensures Watermark(high, |c|, |Cleaned(c, keys, at)|).0 >= |Cleaned(c, keys, at)|
  {
    var end := Cleaned(c, keys, at);
    CleanedKeys(c, keys, at);
    SubsetSize(end.Keys, c.Keys);
    assert |end| == |end.Keys| && |c| == |c.Keys|;
  }
}
