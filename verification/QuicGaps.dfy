/**
 Looking for a server name in a reassembly buffer that still has gaps. The gaps read as zeros, so a
 missing length byte can send the parser astray.
 */
module QuicGaps {
  import opened Bytes
  import opened ClientHello
  import opened QuicCrypto

  // ---- a buffer that shows part of a message ----

  /** `b` is the message with some bytes replaced by zero. */
  ghost predicate Masked(d: seq<byte>, b: seq<byte>) {
    |d| == |b| && forall i | 0 <= i < |b| :: b[i] == d[i] || b[i] == 0
  }

  lemma MaskedSlice(d: seq<byte>, b: seq<byte>, lo: nat, hi: nat)
    requires Masked(d, b) && lo <= hi <= |d|
    ensures Masked(d[lo..hi], b[lo..hi])
  {
  }

  lemma MaskedTail(d: seq<byte>, b: seq<byte>, lo: nat)
    requires Masked(d, b) && lo <= |d|
    ensures Masked(d[lo..], b[lo..])
  {
  }

  /** The entry headers the search of `d` reads are the same in `b`. */
  ghost predicate SameNames(d: seq<byte>, b: seq<byte>)
    requires |d| == |b|
  {
    |d| >= 3 ==>
      && b[0] == d[0] && b[1] == d[1] && b[2] == d[2]
      && var end := 3 + U16(d[1], d[2]);
         d[0] != 0 && end <= |d| ==> SameNames(d[end..], b[end..])
  }

  /** The extension headers, and the entry headers of the server name extension. */
  ghost predicate SameExtensions(d: seq<byte>, b: seq<byte>)
    requires |d| == |b|
  {
    |d| >= 4 ==>
      && b[0] == d[0] && b[1] == d[1] && b[2] == d[2] && b[3] == d[3]
      && var len := U16(d[2], d[3]);
         4 + len <= |d| ==>
           if U16(d[0], d[1]) != 0 then SameExtensions(d[4 + len..], b[4 + len..])
           else len >= 2 ==> SameNames(d[6..4 + len], b[6..4 + len])
  }

  ghost predicate SameFromExtensions(d: seq<byte>, b: seq<byte>)
    requires |d| == |b| >= 2
  {
    && b[0] == d[0] && b[1] == d[1]
    && var end := 2 + U16(d[0], d[1]);
       end <= |d| ==> SameExtensions(d[2..end], b[2..end])
  }

  ghost predicate SameFromCompression(d: seq<byte>, b: seq<byte>)
    requires |d| == |b| >= 1
  {
    && b[0] == d[0]
    && var end: nat := d[0] as int + 1;
       end + 2 <= |d| ==> SameFromExtensions(d[end..], b[end..])
  }

  ghost predicate SameFromCipherSuites(d: seq<byte>, b: seq<byte>)
    requires |d| == |b| >= 2
  {
    && b[0] == d[0] && b[1] == d[1]
    && var end := 2 + U16(d[0], d[1]);
       end < |d| ==> SameFromCompression(d[end..], b[end..])
  }

  ghost predicate SameFromSessionId(d: seq<byte>, b: seq<byte>)
    requires |d| == |b| >= 1
  {
    && b[0] == d[0]
    && var end: nat := d[0] as int + 1;
       end + 1 < |d| ==> SameFromCipherSuites(d[end..], b[end..])
  }

  /** Every type and length byte that the walk through the body `d` reads is the same in `b`. */
  ghost predicate SameWalk(d: seq<byte>, b: seq<byte>)
    requires |d| == |b|
  {
    34 < |d| ==> SameFromSessionId(d[34..], b[34..])
  }

  // ---- the same walk finds the same name or asks for more ----

  /** Where the message gives a name, the buffer gives the same one or asks for more bytes. */
  ghost predicate Follows(v: Verdict, w: Verdict) {
    v.Found? ==> w == v || w == NeedMore
  }

  lemma JudgeMasked(d: seq<byte>, b: seq<byte>)
    requires Masked(d, b)
    ensures Follows(Judge(d), Judge(b))
  {
    if Judge(d).Found? && b != d {
      var i :| 0 <= i < |b| && b[i] != d[i];
      assert b[i] in b && b[i] <= 0x20;
    }
  }

  lemma {:induction false} NamesMasked(d: seq<byte>, b: seq<byte>)
    requires Masked(d, b) && SameNames(d, b)
    ensures Follows(InNames(d), InNames(b))
    decreases |d|
  {
    hide Judge, Masked;
    MaskedLength(d, b);
    if |d| >= 3 && 3 + U16(d[1], d[2]) <= |d| {
      var end := 3 + U16(d[1], d[2]);
      MaskedSlice(d, b, 3, end);
      JudgeMasked(d[3..end], b[3..end]);
      if d[0] != 0 {
        MaskedTail(d, b, end);
        NamesMasked(d[end..], b[end..]);
      }
    }
  }

  lemma MaskedLength(d: seq<byte>, b: seq<byte>)
    requires Masked(d, b)
    ensures |d| == |b|
  {
  }

  lemma {:induction false} ExtensionsMasked(d: seq<byte>, b: seq<byte>)
    requires Masked(d, b) && SameExtensions(d, b)
    ensures Follows(InExtensions(d), InExtensions(b))
    decreases |d|
  {
    hide InNames, SameNames, Masked;
    MaskedLength(d, b);
    if |d| >= 4 && 4 + U16(d[2], d[3]) <= |d| {
      var end := 4 + U16(d[2], d[3]);
      if U16(d[0], d[1]) != 0 {
        MaskedTail(d, b, end);
        ExtensionsMasked(d[end..], b[end..]);
      } else if end >= 6 {
        MaskedSlice(d, b, 6, end);
        NamesMasked(d[6..end], b[6..end]);
      }
    }
  }

  lemma FromExtensionsMasked(d: seq<byte>, b: seq<byte>)
    requires Masked(d, b) && |d| >= 2 && SameFromExtensions(d, b)
    ensures Follows(AtExtensions(d), AtExtensions(b))
  {
    hide InExtensions, SameExtensions;
    var end := 2 + U16(d[0], d[1]);
    if end <= |d| {
      MaskedSlice(d, b, 2, end);
      ExtensionsMasked(d[2..end], b[2..end]);
    }
  }

  lemma FromCompressionMasked(d: seq<byte>, b: seq<byte>)
    requires Masked(d, b) && |d| >= 1 && SameFromCompression(d, b)
    ensures Follows(AtCompression(d), AtCompression(b))
  {
    hide AtExtensions, SameFromExtensions;
    var end: nat := d[0] as int + 1;
    if end + 2 <= |d| {
      MaskedTail(d, b, end);
      FromExtensionsMasked(d[end..], b[end..]);
    }
  }

  lemma FromCipherSuitesMasked(d: seq<byte>, b: seq<byte>)
    requires Masked(d, b) && |d| >= 2 && SameFromCipherSuites(d, b)
    ensures Follows(AtCipherSuites(d), AtCipherSuites(b))
  {
    hide AtCompression, SameFromCompression;
    var end := 2 + U16(d[0], d[1]);
    if end < |d| {
      MaskedTail(d, b, end);
      FromCompressionMasked(d[end..], b[end..]);
    }
  }

  lemma FromSessionIdMasked(d: seq<byte>, b: seq<byte>)
    requires Masked(d, b) && |d| >= 1 && SameFromSessionId(d, b)
    ensures Follows(AtSessionId(d), AtSessionId(b))
  {
    hide AtCipherSuites, SameFromCipherSuites;
    var end: nat := d[0] as int + 1;
    if end + 1 < |d| {
      MaskedTail(d, b, end);
      FromCipherSuitesMasked(d[end..], b[end..]);
    }
  }

  lemma BodyMasked(d: seq<byte>, b: seq<byte>)
    requires Masked(d, b) && SameWalk(d, b)
    ensures Follows(InBody(d), InBody(b))
  {
    hide AtSessionId, SameFromSessionId;
    if 34 < |d| {
      MaskedTail(d, b, 34);
      FromSessionIdMasked(d[34..], b[34..]);
    }
  }

  /**
   The buffer cannot mislead the parser about the message: it does not look like a ClientHello yet, or is
   shorter than the hello, or holds every type and length byte the walk through the hello reads.
   */
  ghost predicate Safe(m: seq<byte>, b: seq<byte>) {
    |b| >= 4 && b[0] == 1 ==>
      && |m| >= 4 && b[1] == m[1] && b[2] == m[2] && b[3] == m[3]
      && var end := 4 + U24(m[1], m[2], m[3]);
         end <= |b| && end <= |m| ==> SameWalk(m[4..end], b[4..end])
  }

  /** In a safe buffer the only name that can be found is the message's. */
  lemma SafeBuffer(m: seq<byte>, b: seq<byte>, name: seq<byte>)
    requires |b| <= |m| && Masked(m[..|b|], b) && Safe(m, b) && InHandshake(m) == Found(name)
    ensures InHandshake(b).Found? ==> InHandshake(b) == Found(name)
  {
    hide InBody, SameWalk, Masked, U24;
    if |b| >= 4 && b[0] == 1 {
      var end := 4 + U24(m[1], m[2], m[3]);
      if end <= |b| {
        MaskedSlice(m[..|b|], b, 4, end);
        assert m[..|b|][4..end] == m[4..end];
        BodyMasked(m[4..end], b[4..end]);
      }
    }
  }

  // ---- an unbroken part of a message is safe ----

  lemma {:induction false} NamesRefl(d: seq<byte>)
    ensures SameNames(d, d)
    decreases |d|
  {
    if |d| >= 3 && d[0] != 0 && 3 + U16(d[1], d[2]) <= |d| {
      NamesRefl(d[3 + U16(d[1], d[2])..]);
    }
  }

  lemma {:induction false} ExtensionsRefl(d: seq<byte>)
    ensures SameExtensions(d, d)
    decreases |d|
  {
    hide SameNames;
    if |d| >= 4 && 4 + U16(d[2], d[3]) <= |d| {
      var end := 4 + U16(d[2], d[3]);
      if U16(d[0], d[1]) != 0 {
        ExtensionsRefl(d[end..]);
      } else if end >= 6 {
        NamesRefl(d[6..end]);
      }
    }
  }

  lemma FromExtensionsRefl(d: seq<byte>)
    requires |d| >= 2
    ensures SameFromExtensions(d, d)
  {
    hide SameExtensions;
    var end := 2 + U16(d[0], d[1]);
    if end <= |d| {
      ExtensionsRefl(d[2..end]);
    }
  }

  lemma FromCompressionRefl(d: seq<byte>)
    requires |d| >= 1
    ensures SameFromCompression(d, d)
  {
    hide SameFromExtensions;
    var end: nat := d[0] as int + 1;
    if end + 2 <= |d| {
      FromExtensionsRefl(d[end..]);
    }
  }

  lemma FromCipherSuitesRefl(d: seq<byte>)
    requires |d| >= 2
    ensures SameFromCipherSuites(d, d)
  {
    hide SameFromCompression;
    var end := 2 + U16(d[0], d[1]);
    if end < |d| {
      FromCompressionRefl(d[end..]);
    }
  }

  lemma WalkRefl(d: seq<byte>)
    ensures SameWalk(d, d)
  {
    hide SameFromCipherSuites;
    if 34 < |d| {
      var e := d[34..];
      var end: nat := e[0] as int + 1;
      if end + 1 < |e| {
        FromCipherSuitesRefl(e[end..]);
      }
    }
  }

  lemma PrefixSafe(m: seq<byte>, p: nat)
    requires p <= |m|
    ensures Safe(m, m[..p])
  {
    hide SameWalk;
    if p >= 4 {
      var end := 4 + U24(m[1], m[2], m[3]);
      if end <= p {
        assert m[..p][4..end] == m[4..end];
        WalkRefl(m[4..end]);
      }
    }
  }

  // ---- whole arrivals ----

  /** What the parser sees after these frames. */
  function Buffer(fs: seq<Frame>, m: seq<byte>): seq<byte>
    requires OfMessage(fs, m)
  {
    var t := ApplyAll(Fresh(), fs);
    t.buf[..t.len]
  }

  lemma BufferMasked(fs: seq<Frame>, m: seq<byte>)
    requires OfMessage(fs, m)
    ensures |Buffer(fs, m)| <= |m| && Masked(m[..|Buffer(fs, m)|], Buffer(fs, m))
    ensures forall i: nat | i < |Buffer(fs, m)| :: Buffer(fs, m)[i] == if Covered(fs, i) then m[i] else 0
  {
    hide ValidFrame;
    BufferReassembled(fs, m, Fresh());
    LengthReassembled(fs, Fresh());
    hide ApplyAll, Covered;
  }

  /** After every packet the buffer is safe. */
  ghost predicate SafeOrder(seen: seq<Frame>, ps: seq<seq<Frame>>, m: seq<byte>)
    requires OfMessage(seen, m) && forall p | p in ps :: OfMessage(p, m)
    decreases |ps|
  {
    ps != [] ==>
      assert ps[0] in ps && OfMessage(ps[0], m);
      Safe(m, Buffer(seen + ps[0], m)) && SafeOrder(seen + ps[0], ps[1..], m)
  }

  /**
   However a message that holds a name is cut into frames and packets, in whatever order they arrive: if no
   packet leaves an unsafe buffer, the result is the message's name.
   */
  lemma {:induction false} NameRecovered(seen: seq<Frame>, ps: seq<seq<Frame>>, m: seq<byte>, name: seq<byte>)
    requires InHandshake(m) == Found(name)
    requires OfMessage(seen, m) && forall p | p in ps :: OfMessage(p, m)
    requires !Complete(seen, m) && Complete(seen + Concat(ps), m) && SafeOrder(seen, ps, m)
    ensures SniffPackets(Encoded(ps, m), ApplyAll(Fresh(), seen)) == QuicName(name)
    decreases |ps|
  {
    hide InHandshake, ApplyAll, PacketBytes, ValidFrame, Agrees, SniffPackets, Fits, Complete, Safe, Masked;
    assert seen + [] == seen;
    assert ps != [];
    var fs := seen + ps[0];
    assert ps[0] in ps && seen + Concat(ps) == fs + Concat(ps[1..]);
    assert OfMessage(fs, m);
    SniffStep(seen, ps[0], Encoded(ps[1..], m), m);
    BufferMasked(fs, m);
    SafeBuffer(m, Buffer(fs, m), name);
    NoNameInNothing();
    if Complete(fs, m) {
      CompleteIsMessage(fs, m);
    } else if !InHandshake(Buffer(fs, m)).Found? {
      NameRecovered(fs, ps[1..], m, name);
    }
  }

  lemma NoNameInNothing()
    ensures !InHandshake([]).Found?
  {
  }

  /** The frames cover the first p bytes and reach no further. */
  ghost predicate Unbroken(fs: seq<Frame>, p: nat) {
    (forall i: nat :: Covered(fs, i) <==> i < p) && forall f | f in fs :: End(f) <= p
  }

  lemma UnbrokenReach(fs: seq<Frame>, m: seq<byte>, p: nat)
    requires OfMessage(fs, m) && Unbroken(fs, p)
    ensures |Buffer(fs, m)| == p
  {
    hide ValidFrame, Agrees;
    LengthReassembled(fs, Fresh());
    if p > 0 {
      assert Covered(fs, p - 1);
      var f :| f in fs && Covers(f, p - 1);
      assert End(f) >= p;
    }
    hide ApplyAll, Covered, Covers, End;
  }

  lemma UnbrokenBuffer(fs: seq<Frame>, m: seq<byte>, p: nat)
    requires OfMessage(fs, m) && Unbroken(fs, p)
    ensures p <= |m| && Buffer(fs, m) == m[..p]
  {
    UnbrokenReach(fs, m, p);
    BufferMasked(fs, m);
    hide Buffer, Covered, Masked, OfMessage, End;
    assert Buffer(fs, m) == m[..p];
  }

  /** After every packet the covered positions are an unbroken part of the message from its start. */
  ghost predicate InOrder(seen: seq<Frame>, ps: seq<seq<Frame>>)
    decreases |ps|
  {
    ps != [] ==> (exists p: nat :: Unbroken(seen + ps[0], p)) && InOrder(seen + ps[0], ps[1..])
  }

  lemma {:induction false} InOrderIsSafe(seen: seq<Frame>, ps: seq<seq<Frame>>, m: seq<byte>)
    requires OfMessage(seen, m) && (forall p | p in ps :: OfMessage(p, m)) && InOrder(seen, ps)
    ensures SafeOrder(seen, ps, m)
    decreases |ps|
  {
    hide Unbroken, Safe, ValidFrame, Agrees, Fits;
    if ps != [] {
      assert ps[0] in ps && OfMessage(ps[0], m);
      var fs := seen + ps[0];
      assert OfMessage(fs, m);
      var p: nat :| Unbroken(fs, p);
      UnbrokenBuffer(fs, m, p);
      PrefixSafe(m, p);
      InOrderIsSafe(fs, ps[1..], m);
    }
  }

  /** In order, with any overlaps and repeats: the message's name is found, with nothing else to check. */
  lemma NameRecoveredInOrder(ps: seq<seq<Frame>>, m: seq<byte>, name: seq<byte>)
    requires InHandshake(m) == Found(name) && |m| <= CRYPTO_MAX
    requires (forall p | p in ps :: OfMessage(p, m)) && Complete(Concat(ps), m) && InOrder([], ps)
    ensures SniffPackets(Encoded(ps, m), Fresh()) == QuicName(name)
  {
    hide InHandshake, SniffPackets, SafeOrder, InOrder, Encoded, ValidFrame, Agrees, Fits;
    NoNameInNothing();
    NothingSeen(m);
    assert [] + Concat(ps) == Concat(ps);
    hide Complete, ApplyAll, Fresh;
    InOrderIsSafe([], ps, m);
    NameRecovered([], ps, m, name);
  }

  /** A handshake message with this name and nothing behind it. */
  predicate IsHello(m: seq<byte>, name: seq<byte>) {
    InHandshake(m) == Found(name) && |m| == 4 + U24(m[1], m[2], m[3])
  }

  lemma ShortHello(m: seq<byte>, name: seq<byte>, p: nat)
    requires IsHello(m, name) && p < |m|
    ensures !InHandshake(m[..p]).Found?
  {
    hide InBody, U24;
  }

  /** In order, but without the end of the hello, there is nothing to report yet. */
  lemma {:induction false} InOrderWaits(seen: seq<Frame>, ps: seq<seq<Frame>>, m: seq<byte>, name: seq<byte>)
    requires IsHello(m, name) && OfMessage(seen, m) && forall p | p in ps :: OfMessage(p, m)
    requires !Complete(seen + Concat(ps), m) && InOrder(seen, ps)
    ensures SniffPackets(Encoded(ps, m), ApplyAll(Fresh(), seen)) == MoreData
    decreases |ps|
  {
    hide IsHello, InHandshake, ApplyAll, PacketBytes, ValidFrame, Agrees, Fits, Unbroken, Complete;
    if ps != [] {
      var fs := seen + ps[0];
      assert ps[0] in ps && seen + Concat(ps) == fs + Concat(ps[1..]);
      assert OfMessage(fs, m);
      SniffStep(seen, ps[0], Encoded(ps[1..], m), m);
      var p: nat :| Unbroken(fs, p);
      UnbrokenBuffer(fs, m, p);
      IncompleteIsShort(fs, Concat(ps[1..]), m, p);
      ShortHello(m, name, p);
      InOrderWaits(fs, ps[1..], m, name);
    }
  }

  lemma IncompleteIsShort(fs: seq<Frame>, gs: seq<Frame>, m: seq<byte>, p: nat)
    requires Unbroken(fs, p) && p <= |m| && !Complete(fs + gs, m)
    ensures p < |m|
  {
    hide Covers;
    var i :| 0 <= i < |m| && !Covered(fs + gs, i);
    assert forall f | f in fs :: f in fs + gs;
    assert !Covered(fs, i);
  }

  /** Packets that carry a hello in order: its name once the last byte has arrived, and the request for more until then. */
  lemma InOrderExactly(ps: seq<seq<Frame>>, m: seq<byte>, name: seq<byte>)
    requires IsHello(m, name) && |m| <= CRYPTO_MAX
    requires (forall p | p in ps :: OfMessage(p, m)) && InOrder([], ps)
    ensures SniffPackets(Encoded(ps, m), Fresh()) == if Complete(Concat(ps), m) then QuicName(name) else MoreData
  {
    assert [] + Concat(ps) == Concat(ps);
    NothingSeen(m);
    hide InHandshake, SniffPackets, InOrder, Encoded, Complete, ApplyAll, Fresh, U24;
    if Complete(Concat(ps), m) {
      NameRecoveredInOrder(ps, m, name);
    } else {
      InOrderWaits([], ps, m, name);
    }
  }

  lemma NothingSeen(m: seq<byte>)
    ensures |m| > 0 ==> !Complete([], m)
    ensures ApplyAll(Fresh(), []) == Fresh()
  {
    assert !Covered([], 0);
  }

  // ---- what an unsafe buffer can do ----

  /** Cipher suites, compression and one extension, with a one-letter server name. */
  function Ending(letter: byte): seq<byte> {
    [0, 0, 0, 0, 10, 0, 0, 0, 6, 0, 4, 0, 0, 1, letter]
  }

  lemma EndingNames(letter: byte, rest: seq<byte>)
    requires letter > 0x2E
    ensures AtCipherSuites(Ending(letter) + rest) == Found([letter])
  {
    var d := Ending(letter) + rest;
    var e := d[2..];
    assert e[0] == 0 && e == d[2..];
    var x := e[1..];
    assert x[0] == 0 && x[1] == 10;
    var block := x[2..12];
    assert block == d[5..15] == Ending(letter)[5..15];
    assert block == [0, 0, 0, 6, 0, 4, 0, 0, 1, letter];
    var names := block[6..10];
    assert names == [0, 0, 1, letter];
    assert names[3..4] == [letter];
    assert Judge([letter]) == Found([letter]);
    assert InNames(names) == Found([letter]);
    hide InNames, Judge;
    assert InExtensions(block) == Found([letter]);
    hide InExtensions;
    assert AtExtensions(x) == Found([letter]);
    hide AtExtensions;
    assert AtCompression(e) == Found([letter]);
    hide AtCompression;
  }

  /** A hello with the given session id length byte, whose session id looks like the rest of a hello. */
  function Decoy(idLength: byte): (m: seq<byte>)
    ensures |m| == 69
  {
    [1, 0, 0, 65] + seq(34, i => 0) + [idLength] + Ending(0x62) + Ending(0x61)
  }

  /** Version and random are passed over, whatever stands behind them. */
  lemma BehindRandom(m: seq<byte>)
    requires |m| == 69 && m[0] == 1 && m[1] == 0 && m[2] == 0 && m[3] == 65
    ensures InHandshake(m) == AtSessionId(m[38..])
  {
    hide AtSessionId;
    assert m[4..69][34..] == m[38..];
  }

  lemma DecoyHead(idLength: byte)
    ensures var m := Decoy(idLength);
            m[0] == 1 && m[1] == 0 && m[2] == 0 && m[3] == 65 && m[38] == idLength
            && m[39..] == Ending(0x62) + Ending(0x61) && m[54..] == Ending(0x61)
  {
    var m := Decoy(idLength);
    assert m[39..] == Ending(0x62) + Ending(0x61);
    assert m[54..] == Ending(0x61);
  }

  /** With its length byte 15 the name is "a". */
  lemma DecoyName()
    ensures InHandshake(Decoy(15)) == Found([0x61])
  {
    DecoyHead(15);
    var m := Decoy(15);
    hide Decoy, InHandshake, AtCipherSuites, Ending;
    BehindRandom(m);
    assert m[38..][16..] == m[54..] == Ending(0x61) + [];
    EndingNames(0x61, []);
  }

  /** With that byte still missing the parser reads "b". */
  lemma DecoyMisread()
    ensures InHandshake(Decoy(0)) == Found([0x62])
  {
    DecoyHead(0);
    var m := Decoy(0);
    hide Decoy, InHandshake, AtCipherSuites, Ending;
    BehindRandom(m);
    assert m[38..][1..] == m[39..];
    EndingNames(0x62, Ending(0x61));
  }

  /** Everything but the session id length byte, then that byte. */
  function DecoyPackets(): seq<seq<Frame>> {
    var m := Decoy(15);
    [[Crypto(Wide(0, 1), Wide(38, 1), m[0..38]), Crypto(Wide(39, 1), Wide(30, 1), m[39..69])],
     [Crypto(Wide(38, 1), Wide(1, 1), m[38..39])]]
  }

  lemma DecoyArrives()
    ensures forall p | p in DecoyPackets() :: OfMessage(p, Decoy(15))
    ensures Complete(Concat(DecoyPackets()), Decoy(15))
  {
    var m, ps := Decoy(15), DecoyPackets();
    hide Decoy;
    assert OfMessage(ps[0], m) && OfMessage(ps[1], m);
    var fs := ps[0] + ps[1];
    assert ps[1..] == [ps[1]] && Concat([ps[1]]) == ps[1] + [] == ps[1];
    assert Concat(ps) == fs;
    forall i | 0 <= i < 69
      ensures Covered(fs, i)
    {
      var f := if i < 38 then fs[0] else if i < 39 then fs[2] else fs[1];
      assert f in fs && Covers(f, i);
    }
  }

  lemma DecoyBuffer()
    ensures OfMessage(DecoyPackets()[0], Decoy(15)) && Buffer(DecoyPackets()[0], Decoy(15)) == Decoy(0)
  {
    DecoyArrives();
    var m, fs := Decoy(15), DecoyPackets()[0];
    assert fs in DecoyPackets();
    BufferMasked(fs, m);
    LengthReassembled(fs, Fresh());
    var b := Buffer(fs, m);
    assert |b| == 69 by {
      assert fs[1] in fs && End(fs[1]) == 69;
    }
    forall i: nat | i < 69
      ensures b[i] == Decoy(0)[i]
    {
      if i < 38 {
        assert fs[0] in fs && Covers(fs[0], i);
      } else if i > 38 {
        assert fs[1] in fs && Covers(fs[1], i);
      }
    }
  }

  /** Two packets that together carry a hello for "a" exactly, and a sniffer that answers "b". */
  lemma GapMisleads()
    ensures InHandshake(Decoy(15)) == Found([0x61])
    ensures (forall p | p in DecoyPackets() :: OfMessage(p, Decoy(15))) && Complete(Concat(DecoyPackets()), Decoy(15))
    ensures SniffPackets(Encoded(DecoyPackets(), Decoy(15)), Fresh()) == QuicName([0x62])
  {
    DecoyName();
    DecoyMisread();
    DecoyArrives();
    DecoyBuffer();
    var m, ps := Decoy(15), DecoyPackets();
    NothingSeen(m);
    assert [] + ps[0] == ps[0];
    assert ps[0] in ps;
    hide InHandshake, SniffPackets, ApplyAll, Decoy, DecoyPackets, ValidFrame, Agrees, Fits;
    SniffStep([], ps[0], Encoded(ps[1..], m), m);
  }

  lemma NoBodyInNothing()
    ensures InBody([]) == NoClue
  {
  }

  lemma HelloHasLength(m: seq<byte>)
    requires InHandshake(m).Found?
    ensures |m| >= 4 && U24(m[1], m[2], m[3]) > 0
  {
    NoBodyInNothing();
    hide InBody;
    assert m[4..4] == [];
  }

  lemma NoLengthNoName(b: seq<byte>)
    requires |b| >= 4 && U24(b[1], b[2], b[3]) == 0
    ensures !InHandshake(b).Found?
  {
    NoBodyInNothing();
    hide InBody;
    assert b[4..4] == [];
  }

  lemma UnsafeLength(m: seq<byte>, b: seq<byte>)
    requires |m| >= 4 && |b| >= 4 && b[0] == 1 && U24(b[1], b[2], b[3]) != U24(m[1], m[2], m[3])
    ensures !Safe(m, b)
  {
    hide SameWalk, U24;
  }

  /** Not every unsafe buffer misleads: with the hello's length still missing no name is found at all. */
  lemma MissingLengthIsHarmless(m: seq<byte>, b: seq<byte>, name: seq<byte>)
    requires InHandshake(m) == Found(name)
    requires |b| >= 4 && b[0] == 1 && U24(b[1], b[2], b[3]) == 0
    ensures !Safe(m, b) && !InHandshake(b).Found?
  {
    hide InHandshake, Safe, U24;
    HelloHasLength(m);
    NoLengthNoName(b);
    UnsafeLength(m, b);
  }
}
