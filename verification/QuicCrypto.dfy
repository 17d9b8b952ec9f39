/**
 Reassembling the TLS handshake bytes that decrypted QUIC Initial packets carry in CRYPTO frames
 (section 19.6 of RFC 9000) into one fixed buffer, and looking for the server name in it.
 */
module QuicCrypto {
  import opened Bytes
  import opened ClientHello

  /** Capacity of the reassembly buffer. */
  const CRYPTO_MAX := 32767

  datatype Varint = Varint(value: nat, size: nat) | NoVarint

  /** Variable-length integers of up to four bytes and at most 65535 (section 16 of RFC 9000, shortened). */
  function ReadVarint(d: seq<byte>): (v: Varint)
    ensures v.Varint? ==> 0 < v.size <= |d| && v.value <= 65535
  {
    if d == [] then NoVarint
    else if d[0] < 0x40 then Varint(d[0], 1)
    else if d[0] < 0x80 then
      if |d| < 2 then NoVarint else Varint(U16(d[0] - 0x40, d[1]), 2)
    else if d[0] < 0xC0 then
      if |d| < 4 || d[0] != 0x80 || d[1] != 0 then NoVarint else Varint(U16(d[2], d[3]), 4)
    else NoVarint
  }

  /** The bytes behind an integer; an unreadable one is not skipped. */
  function SkipVarint(d: seq<byte>): (r: seq<byte>)
    ensures |r| <= |d|
  {
    if ReadVarint(d).Varint? then d[ReadVarint(d).size..] else d
  }

  function SkipVarints(d: seq<byte>, n: nat): (r: seq<byte>)
    ensures |r| <= |d|
    decreases n
  {
    if n == 0 then d else SkipVarints(SkipVarint(d), n - 1)
  }

  function AfterAck(d: seq<byte>, ecn: bool): (r: seq<byte>)
    ensures |r| <= |d|
  {
    var atCount := SkipVarints(d, 2);
    var count := ReadVarint(atCount);
    var atRanges := SkipVarints(atCount, 2);
    var atEnd := SkipVarints(atRanges, if count.Varint? then 2 * count.value else 0);
    SkipVarints(atEnd, if ecn then 3 else 0)
  }

  function Write(buf: seq<byte>, at: nat, data: seq<byte>): (b: seq<byte>)
    requires at + |data| <= |buf|
    ensures |b| == |buf|
    ensures forall i | 0 <= i < |buf| :: b[i] == if at <= i < at + |data| then data[i - at] else buf[i]
  {
    buf[..at] + data + buf[at + |data|..]
  }

  function Max(a: nat, b: nat): nat {
    if a < b then b else a
  }

  /** How a packet's frame walk ends: with the buffer so far, too far outside it, or on bad integers. */
  datatype Scan = Scanned(buf: seq<byte>, len: nat) | Overflow | Malformed

  /** What one CRYPTO frame body does: `Stop` ends the walk quietly, `More` leaves the rest of the packet. */
  datatype CryptoStep = More(at: nat, data: seq<byte>, rest: seq<byte>) | Stop | TooFar | Unreadable

  function ReadCrypto(d: seq<byte>): (s: CryptoStep)
    ensures s.More? ==> s.at + |s.data| <= CRYPTO_MAX && |s.rest| <= |d|
  {
    var offset := ReadVarint(d);
    if offset.NoVarint? then Unreadable
    else
      var length := ReadVarint(d[offset.size..]);
      if length.NoVarint? then Unreadable
      else
        var body := d[offset.size..][length.size..];
        if |body| < length.value then Stop
        else if offset.value + length.value > CRYPTO_MAX then TooFar
        else More(offset.value, body[..length.value], body[length.value..])
  }

  /** The bytes behind a CONNECTION_CLOSE body, if its reason length is readable. */
  function AfterClose(d: seq<byte>): (r: Option<seq<byte>>)
    ensures r.Some? ==> |r.value| <= |d|
  {
    var atReason := SkipVarints(d, 2);
    var len := ReadVarint(atReason);
    if len.NoVarint? then None
    else if |atReason| < len.size + len.value then Some([])
    else Some(atReason[len.size + len.value..])
  }

  /** The frame walk over one decrypted packet. */
  function ScanFrames(d: seq<byte>, buf: seq<byte>, len: nat): (s: Scan)
    requires |buf| == CRYPTO_MAX && len <= CRYPTO_MAX
    ensures s.Scanned? ==> |s.buf| == CRYPTO_MAX && s.len <= CRYPTO_MAX
    decreases |d|
  {
    if d == [] then Scanned(buf, len)
    else if d[0] == 0 || d[0] == 1 then ScanFrames(d[1..], buf, len)
    else if d[0] == 2 || d[0] == 3 then ScanFrames(AfterAck(d[1..], d[0] == 3), buf, len)
    else if d[0] == 6 then
      match ReadCrypto(d[1..])
      case More(at, data, rest) => ScanFrames(rest, Write(buf, at, data), Max(len, at + |data|))
      case Stop => Scanned(buf, len)
      case TooFar => Overflow
      case Unreadable => Malformed
    else if d[0] == 0x1c then
      var rest := AfterClose(d[1..]);
      if rest.None? then Malformed else ScanFrames(rest.value, buf, len)
    else Scanned(buf, len)
  }

  // ---- the walk as the sniffer runs it, on its array ----

  method CopyInto(crypto: array<byte>, at: nat, data: seq<byte>)
    requires at + |data| <= crypto.Length
    modifies crypto
    ensures crypto[..] == Write(old(crypto[..]), at, data)
  {
    for i := 0 to |data|
      invariant forall j | 0 <= j < crypto.Length :: crypto[j] == if at <= j < at + i then data[j - at] else old(crypto[j])
    {
      crypto[at + i] := data[i];
    }
  }

  datatype WalkEnd = Done | OutOfBuffer | BadInteger

  method WalkFrames(packet: seq<byte>, crypto: array<byte>, start: nat) returns (end: WalkEnd, len: nat)
    requires crypto.Length == CRYPTO_MAX && start <= CRYPTO_MAX
    modifies crypto
    ensures
      match ScanFrames(packet, old(crypto[..]), start)
      case Scanned(b, l) => end == Done && crypto[..] == b && len == l
      case Overflow => end == OutOfBuffer
      case Malformed => end == BadInteger
  {
    hide ReadCrypto, AfterAck, AfterClose, Write;
    var d := packet;
    len := start;
    while d != []
      invariant len <= CRYPTO_MAX
      invariant ScanFrames(packet, old(crypto[..]), start) == ScanFrames(d, crypto[..], len)
      decreases |d|
    {
      var kind, rest := d[0], d[1..];
      if kind == 0 || kind == 1 {
        d := rest;
      } else if kind == 2 || kind == 3 {
        d := AfterAck(rest, kind == 3);
      } else if kind == 6 {
        var step := ReadCrypto(rest);
        match step {
          case Unreadable => return BadInteger, len;
          case Stop => return Done, len;
          case TooFar => return OutOfBuffer, len;
          case More(at, data, tail) =>
            len := Max(len, at + |data|);
            CopyInto(crypto, at, data);
            d := tail;
        }
      } else if kind == 0x1c {
        var tail := AfterClose(rest);
        if tail.None? {
          return BadInteger, len;
        }
        d := tail.value;
      } else {
        return Done, len;
      }
    }
    end := Done;
  }

  // ---- frames as they are sent ----

  /** An integer and the number of bytes its sender chose for it. */
  datatype Wide = Wide(value: nat, size: nat)

  predicate ValidWide(w: Wide) {
    (w.size == 1 && w.value < 64) || (w.size == 2 && w.value < 16384) || (w.size == 4 && w.value < 65536)
  }

  function WideBytes(w: Wide): (s: seq<byte>)
    requires ValidWide(w)
    ensures |s| == w.size
  {
    var b := Be16(w.value);
    if w.size == 1 then [w.value] else if w.size == 2 then [0x40 + b[0], b[1]] else [0x80, 0] + b
  }

  datatype Frame =
    | Padding
    | Ping
    | Ack(ecn: bool, largest: Wide, delay: Wide, count: Wide, first: Wide, ranges: seq<Wide>, counts: seq<Wide>)
    | Crypto(offset: Wide, length: Wide, data: seq<byte>)
    | Close(code: Wide, cause: Wide, length: Wide, reason: seq<byte>)

  predicate ValidFrame(f: Frame) {
    match f
    case Padding => true
    case Ping => true
    case Ack(ecn, largest, delay, count, first, ranges, counts) =>
      && ValidWide(largest) && ValidWide(delay) && ValidWide(count) && ValidWide(first)
      && |ranges| == 2 * count.value && (forall w | w in ranges :: ValidWide(w))
      && |counts| == (if ecn then 3 else 0) && (forall w | w in counts :: ValidWide(w))
    case Crypto(offset, length, data) => ValidWide(offset) && ValidWide(length) && length.value == |data|
    case Close(code, cause, length, reason) =>
      ValidWide(code) && ValidWide(cause) && ValidWide(length) && length.value == |reason|
  }

  function WidesBytes(ws: seq<Wide>): seq<byte>
    requires forall w | w in ws :: ValidWide(w)
  {
    if ws == [] then [] else WideBytes(ws[0]) + WidesBytes(ws[1..])
  }

  function FrameBytes(f: Frame): seq<byte>
    requires ValidFrame(f)
  {
    match f
    case Padding => [0]
    case Ping => [1]
    case Ack(ecn, largest, delay, count, first, ranges, counts) =>
      [if ecn then 3 else 2] + (WidesBytes([largest, delay]) + (WidesBytes([count, first]) + (WidesBytes(ranges) + WidesBytes(counts))))
    case Crypto(offset, length, data) => [6] + (WideBytes(offset) + (WideBytes(length) + data))
    case Close(code, cause, length, reason) => [0x1c] + (WidesBytes([code, cause]) + (WideBytes(length) + reason))
  }

  function PacketBytes(fs: seq<Frame>): seq<byte>
    requires forall f | f in fs :: ValidFrame(f)
  {
    if fs == [] then [] else FrameBytes(fs[0]) + PacketBytes(fs[1..])
  }

  predicate Fits(f: Frame) {
    f.Crypto? ==> f.offset.value + |f.data| <= CRYPTO_MAX
  }

  datatype State = State(buf: seq<byte>, len: nat)

  predicate ValidState(s: State) {
    |s.buf| == CRYPTO_MAX && s.len <= CRYPTO_MAX
  }

  function Apply(s: State, f: Frame): (t: State)
    requires ValidState(s) && Fits(f)
    ensures ValidState(t)
  {
    if f.Crypto? then State(Write(s.buf, f.offset.value, f.data), Max(s.len, f.offset.value + |f.data|)) else s
  }

  function ApplyAll(s: State, fs: seq<Frame>): (t: State)
    requires ValidState(s) && forall f | f in fs :: Fits(f)
    ensures ValidState(t)
    decreases |fs|
  {
    if fs == [] then s else ApplyAll(Apply(s, fs[0]), fs[1..])
  }

  // ---- the walk reads back what was sent ----

  lemma WideRoundTrip(w: Wide, rest: seq<byte>)
    requires ValidWide(w)
    ensures ReadVarint(WideBytes(w) + rest) == Varint(w.value, w.size)
    ensures SkipVarint(WideBytes(w) + rest) == rest
  {
    hide Be16;
    var d := WideBytes(w) + rest;
    assert d[w.size..] == rest;
  }

  lemma {:induction false} WidesSkipped(ws: seq<Wide>, rest: seq<byte>)
    requires forall w | w in ws :: ValidWide(w)
    ensures SkipVarints(WidesBytes(ws) + rest, |ws|) == rest
  {
    hide WideBytes, SkipVarint, ValidWide;
    if ws != [] {
      assert ws[0] in ws;
      WideRoundTrip(ws[0], WidesBytes(ws[1..]) + rest);
      assert WidesBytes(ws) + rest == WideBytes(ws[0]) + (WidesBytes(ws[1..]) + rest);
      WidesSkipped(ws[1..], rest);
    } else {
      assert WidesBytes(ws) + rest == rest;
    }
  }

  lemma PairSkipped(a: Wide, b: Wide, rest: seq<byte>)
    requires ValidWide(a) && ValidWide(b)
    ensures SkipVarints(WidesBytes([a, b]) + rest, 2) == rest
    ensures ReadVarint(WidesBytes([a, b]) + rest) == Varint(a.value, a.size)
  {
    hide WideBytes, ReadVarint, SkipVarint, SkipVarints, ValidWide;
    WidesSkipped([a, b], rest);
    assert WidesBytes([a, b]) + rest == WideBytes(a) + (WidesBytes([b]) + rest) by {
      assert [a, b][1..] == [b];
    }
    WideRoundTrip(a, WidesBytes([b]) + rest);
  }

  lemma AckSkipped(f: Frame, rest: seq<byte>)
    requires f.Ack? && ValidFrame(f)
    ensures AfterAck((FrameBytes(f) + rest)[1..], f.ecn) == rest
  {
    hide WidesBytes, ReadVarint, SkipVarint, SkipVarints, ValidWide;
    var c := WidesBytes(f.counts) + rest;
    var r := WidesBytes(f.ranges) + c;
    var b := WidesBytes([f.count, f.first]) + r;
    assert (FrameBytes(f) + rest)[1..] == WidesBytes([f.largest, f.delay]) + b;
    PairSkipped(f.largest, f.delay, b);
    PairSkipped(f.count, f.first, r);
    WidesSkipped(f.ranges, c);
    WidesSkipped(f.counts, rest);
  }

  lemma CryptoRead(f: Frame, rest: seq<byte>)
    requires f.Crypto? && ValidFrame(f) && Fits(f)
    ensures ReadCrypto((FrameBytes(f) + rest)[1..]) == More(f.offset.value, f.data, rest)
  {
    hide WideBytes, ReadVarint, ValidWide;
    var d := (FrameBytes(f) + rest)[1..];
    var tail := WideBytes(f.length) + (f.data + rest);
    assert d == WideBytes(f.offset) + tail;
    WideRoundTrip(f.offset, tail);
    assert d[f.offset.size..] == tail;
    WideRoundTrip(f.length, f.data + rest);
    assert tail[f.length.size..] == f.data + rest;
    assert (f.data + rest)[..|f.data|] == f.data;
    assert (f.data + rest)[|f.data|..] == rest;
  }

  lemma CloseSkipped(f: Frame, rest: seq<byte>)
    requires f.Close? && ValidFrame(f)
    ensures AfterClose((FrameBytes(f) + rest)[1..]) == Some(rest)
  {
    hide WideBytes, WidesBytes, ReadVarint, SkipVarints, ValidWide;
    var tail := WideBytes(f.length) + (f.reason + rest);
    assert (FrameBytes(f) + rest)[1..] == WidesBytes([f.code, f.cause]) + tail;
    PairSkipped(f.code, f.cause, tail);
    WideRoundTrip(f.length, f.reason + rest);
    assert tail[f.length.size + |f.reason|..] == rest;
  }

  /** One step of the walk. */
  lemma ScanStep(d: seq<byte>, s: State)
    requires d != [] && ValidState(s)
    ensures d[0] == 0 || d[0] == 1 ==> ScanFrames(d, s.buf, s.len) == ScanFrames(d[1..], s.buf, s.len)
    ensures d[0] == 2 || d[0] == 3 ==>
              ScanFrames(d, s.buf, s.len) == ScanFrames(AfterAck(d[1..], d[0] == 3), s.buf, s.len)
    ensures
      var c := ReadCrypto(d[1..]);
      d[0] == 6 && c.More? ==>
        ScanFrames(d, s.buf, s.len) == ScanFrames(c.rest, Write(s.buf, c.at, c.data), Max(s.len, c.at + |c.data|))
    ensures d[0] == 0x1c && AfterClose(d[1..]).Some? ==>
              ScanFrames(d, s.buf, s.len) == ScanFrames(AfterClose(d[1..]).value, s.buf, s.len)
  {
    hide AfterAck, ReadCrypto, AfterClose, Write;
  }

  lemma FrameScanned(f: Frame, rest: seq<byte>, s: State)
    requires ValidFrame(f) && Fits(f) && ValidState(s)
    ensures
      var t := Apply(s, f);
      ScanFrames(FrameBytes(f) + rest, s.buf, s.len) == ScanFrames(rest, t.buf, t.len)
  {
    hide ScanFrames, AfterAck, ReadCrypto, AfterClose, Write, WideBytes, WidesBytes, ValidWide;
    var d := FrameBytes(f) + rest;
    ScanStep(d, s);
    if f.Ack? {
      AckSkipped(f, rest);
    } else if f.Crypto? {
      CryptoRead(f, rest);
    } else if f.Close? {
      CloseSkipped(f, rest);
    } else {
      assert d[1..] == rest;
    }
  }

  /** Walking an encoded packet applies its frames to the buffer one after the other. */
  lemma {:induction false} PacketScanned(fs: seq<Frame>, s: State)
    requires ValidState(s) && forall f | f in fs :: ValidFrame(f) && Fits(f)
    ensures
      var t := ApplyAll(s, fs);
      ScanFrames(PacketBytes(fs), s.buf, s.len) == Scanned(t.buf, t.len)
  {
    hide FrameBytes, Apply, ValidFrame;
    if fs != [] {
      hide ScanFrames;
      assert fs[0] in fs;
      FrameScanned(fs[0], PacketBytes(fs[1..]), s);
      PacketScanned(fs[1..], Apply(s, fs[0]));
    }
  }

  /** The same with bytes behind the frames. */
  lemma {:induction false} FramesScanned(fs: seq<Frame>, tail: seq<byte>, s: State)
    requires ValidState(s) && forall f | f in fs :: ValidFrame(f) && Fits(f)
    ensures
      var t := ApplyAll(s, fs);
      ScanFrames(PacketBytes(fs) + tail, s.buf, s.len) == ScanFrames(tail, t.buf, t.len)
  {
    hide FrameBytes, Apply, ValidFrame, ScanFrames;
    if fs == [] {
      assert PacketBytes(fs) + tail == tail;
    } else {
      assert fs[0] in fs;
      assert PacketBytes(fs) + tail == FrameBytes(fs[0]) + (PacketBytes(fs[1..]) + tail);
      FrameScanned(fs[0], PacketBytes(fs[1..]) + tail, s);
      FramesScanned(fs[1..], tail, Apply(s, fs[0]));
    }
  }

  /** A CRYPTO frame that reaches outside the buffer, or whose data is cut off. */
  lemma CryptoRefused(f: Frame, rest: seq<byte>, k: nat)
    requires f.Crypto? && ValidFrame(f) && k < |f.data|
    ensures !Fits(f) ==> ReadCrypto((FrameBytes(f) + rest)[1..]) == TooFar
    ensures ReadCrypto(WideBytes(f.offset) + (WideBytes(f.length) + f.data[..k])) == Stop
  {
    hide WideBytes, ReadVarint, ValidWide;
    var tail := WideBytes(f.length) + (f.data + rest);
    assert (FrameBytes(f) + rest)[1..] == WideBytes(f.offset) + tail;
    WideRoundTrip(f.offset, tail);
    WideRoundTrip(f.length, f.data + rest);
    assert (WideBytes(f.offset) + tail)[f.offset.size..] == tail;
    assert tail[f.length.size..] == f.data + rest;
    var cut := WideBytes(f.length) + f.data[..k];
    WideRoundTrip(f.offset, cut);
    WideRoundTrip(f.length, f.data[..k]);
    assert (WideBytes(f.offset) + cut)[f.offset.size..] == cut;
    assert cut[f.length.size..] == f.data[..k];
  }

  /**
   How a walk ends behind well-formed frames. An unknown frame type and a cut-off CRYPTO frame end it quietly, with
   what has been read; data outside the buffer and an unreadable integer are errors.
   */
  lemma WalkEnds(fs: seq<Frame>, tail: seq<byte>, s: State)
    requires ValidState(s) && (forall f | f in fs :: ValidFrame(f) && Fits(f)) && tail != []
    ensures
      var r, t := ScanFrames(PacketBytes(fs) + tail, s.buf, s.len), ApplyAll(s, fs);
      && (tail[0] !in {0, 1, 2, 3, 6, 0x1c} ==> r == Scanned(t.buf, t.len))
      && (tail[0] == 6 && ReadCrypto(tail[1..]).Stop? ==> r == Scanned(t.buf, t.len))
      && (tail[0] == 6 && ReadCrypto(tail[1..]).TooFar? ==> r == Overflow)
      && (tail[0] == 6 && (|tail| == 1 || tail[1] >= 0xC0) ==> r == Malformed)
  {
    FramesScanned(fs, tail, s);
    hide PacketBytes, ApplyAll, AfterAck, AfterClose, Write;
  }

  /** The sample integers of section A.1 of RFC 9000, of which the decoder takes those up to 65535. */
  lemma SampleIntegers()
    ensures ReadVarint([0x25]) == Varint(37, 1) && ReadVarint([0x40, 0x25]) == Varint(37, 2)
    ensures ReadVarint([0x7b, 0xbd]) == Varint(15293, 2) && ReadVarint([0x80, 0, 0x3b, 0xbd]) == Varint(15293, 4)
    ensures ReadVarint([0x9d, 0x7f, 0x3e, 0x7d]).NoVarint? && ReadVarint([0xc2, 0x19, 0x7c, 0x5e, 0xff, 0x14, 0xe8, 0x8c]).NoVarint?
  {
  }

  /** Sample frames byte by byte: padding, a ping, an acknowledgement, and two bytes of handshake at offset 3. */
  lemma SampleFrames(d: seq<byte>, a: byte, b: byte, s: State)
    requires ValidState(s)
    ensures ScanFrames([0] + d, s.buf, s.len) == ScanFrames(d, s.buf, s.len) == ScanFrames([1] + d, s.buf, s.len)
    ensures ScanFrames([2] + ([9, 0, 0, 0] + d), s.buf, s.len) == ScanFrames(d, s.buf, s.len)
    ensures ScanFrames([6, 3, 2, a, b], s.buf, s.len) == Scanned(Write(s.buf, 3, [a, b]), Max(s.len, 5))
  {
    hide ScanFrames, AfterAck, ReadCrypto, AfterClose, Write;
    ScanStep([0] + d, s);
    ScanStep([1] + d, s);
    assert ([0] + d)[1..] == d == ([1] + d)[1..];
    var ack := [9, 0, 0, 0] + d;
    ScanStep([2] + ack, s);
    assert ([2] + ack)[1..] == ack;
    SampleAck(d);
    ScanStep([6, 3, 2, a, b], s);
    assert [6, 3, 2, a, b][1..] == [3, 2, a, b];
    SampleCrypto(a, b);
    ScanNone(State(Write(s.buf, 3, [a, b]), Max(s.len, 5)));
  }

  lemma ScanNone(s: State)
    requires ValidState(s)
    ensures ScanFrames([], s.buf, s.len) == Scanned(s.buf, s.len)
  {
  }

  lemma SampleAck(rest: seq<byte>)
    ensures AfterAck([9, 0, 0, 0] + rest, false) == rest
  {
    hide SkipVarints, ReadVarint, WideBytes, WidesBytes;
    var w, z := Wide(9, 1), Wide(0, 1);
    SmallPair(w, z);
    SmallPair(z, z);
    assert [9, 0, 0, 0] + rest == [9, 0] + ([0, 0] + rest);
    PairSkipped(w, z, [0, 0] + rest);
    PairSkipped(z, z, rest);
    WidesSkipped([], rest);
    assert WidesBytes([]) + rest == rest by {
      SmallNone();
    }
  }

  lemma SmallPair(a: Wide, b: Wide)
    requires a.size == 1 && a.value < 64 && b.size == 1 && b.value < 64
    ensures WidesBytes([a, b]) == [a.value, b.value]
  {
    assert [a, b][1..] == [b] && [b][1..] == [];
    assert WidesBytes([b]) == [b.value];
  }

  lemma SmallNone()
    ensures WidesBytes([]) == []
  {
  }

  lemma SampleCrypto(a: byte, b: byte)
    ensures ReadCrypto([3, 2, a, b]) == More(3, [a, b], [])
  {
    assert [3, 2, a, b][1..] == [2, a, b] && [2, a, b][1..] == [a, b];
  }

  // ---- order does not matter ----

  /** The frame's data are the bytes the message has at that place. */
  predicate Agrees(f: Frame, m: seq<byte>) {
    f.Crypto? ==> f.offset.value + |f.data| <= |m| && f.data == m[f.offset.value..f.offset.value + |f.data|]
  }

  predicate Covers(f: Frame, i: nat) {
    f.Crypto? && f.offset.value <= i < f.offset.value + |f.data|
  }

  predicate Covered(fs: seq<Frame>, i: nat) {
    exists f | f in fs :: Covers(f, i)
  }

  function End(f: Frame): nat {
    if f.Crypto? then f.offset.value + |f.data| else 0
  }

  lemma {:induction false} BufferReassembled(fs: seq<Frame>, m: seq<byte>, s: State)
    requires ValidState(s) && |m| <= CRYPTO_MAX && forall f | f in fs :: Agrees(f, m)
    ensures forall f | f in fs :: Fits(f)
    ensures forall i: nat | Covered(fs, i) :: i < |m|
    ensures forall i | 0 <= i < CRYPTO_MAX ::
              ApplyAll(s, fs).buf[i] == if i < |m| && Covered(fs, i) then m[i] else s.buf[i]
  {
    if fs != [] {
      assert fs[0] in fs && fs == [fs[0]] + fs[1..];
      var t := Apply(s, fs[0]);
      BufferReassembled(fs[1..], m, t);
      forall i | 0 <= i < CRYPTO_MAX
        ensures ApplyAll(s, fs).buf[i] == if i < |m| && Covered(fs, i) then m[i] else s.buf[i]
      {
        assert Covered(fs, i) <==> Covers(fs[0], i) || Covered(fs[1..], i) by {
          hide Covers;
        }
        hide Covered, ApplyAll;
      }
    }
  }

  lemma {:induction false} LengthReassembled(fs: seq<Frame>, s: State)
    requires ValidState(s) && forall f | f in fs :: Fits(f)
    ensures
      var len := ApplyAll(s, fs).len;
      && s.len <= len && (forall f | f in fs :: End(f) <= len)
      && (len == s.len || exists f | f in fs :: End(f) == len)
  {
    if fs != [] {
      LengthReassembled(fs[1..], Apply(s, fs[0]));
      assert fs[0] in fs && fs == [fs[0]] + fs[1..];
    }
  }

  /**
   Frames that agree with one message leave the message on covered positions and the old contents
   elsewhere, and the length is the largest end: any order, with any overlaps and repeats.
   */
  lemma Reassembled(fs: seq<Frame>, m: seq<byte>, s: State)
    requires ValidState(s) && |m| <= CRYPTO_MAX && forall f | f in fs :: ValidFrame(f) && Agrees(f, m)
    ensures
      var r := ScanFrames(PacketBytes(fs), s.buf, s.len);
      && r.Scanned? && (forall i: nat | Covered(fs, i) :: i < |m|)
      && (forall i | 0 <= i < CRYPTO_MAX :: r.buf[i] == if i < |m| && Covered(fs, i) then m[i] else s.buf[i])
      && s.len <= r.len && (forall f | f in fs :: End(f) <= r.len)
      && (r.len == s.len || exists f | f in fs :: End(f) == r.len)
  {
    BufferReassembled(fs, m, s);
    LengthReassembled(fs, s);
    PacketScanned(fs, s);
  }

  /**
   Two sequences of frames that cover the same positions and reach equally far leave the same buffer and
   length: order, cuts, overlaps and repeats do not matter.
   */
  lemma OrderIrrelevant(fs: seq<Frame>, gs: seq<Frame>, m: seq<byte>, s: State)
    requires ValidState(s) && |m| <= CRYPTO_MAX
    requires (forall f | f in fs :: ValidFrame(f) && Agrees(f, m)) && (forall g | g in gs :: ValidFrame(g) && Agrees(g, m))
    requires forall i: nat :: Covered(fs, i) <==> Covered(gs, i)
    requires NoFurther(fs, gs) && NoFurther(gs, fs)
    ensures ScanFrames(PacketBytes(fs), s.buf, s.len) == ScanFrames(PacketBytes(gs), s.buf, s.len)
  {
    hide ScanFrames, PacketBytes, ValidFrame, Agrees, Covers, Covered, End, NoFurther;
    Reassembled(fs, m, s);
    Reassembled(gs, m, s);
    var r, r' := ScanFrames(PacketBytes(fs), s.buf, s.len), ScanFrames(PacketBytes(gs), s.buf, s.len);
    SameReach(fs, gs, s.len, r.len, r'.len);
    SameReach(gs, fs, s.len, r'.len, r.len);
    assert r.buf == r'.buf;
  }

  lemma SameReach(fs: seq<Frame>, gs: seq<Frame>, start: nat, len: nat, len': nat)
    requires start <= len' && (forall g | g in gs :: End(g) <= len')
    requires (len == start || exists f | f in fs :: End(f) == len) && NoFurther(fs, gs)
    ensures len <= len'
  {
    hide End;
  }

  /** No frame of `fs` ends behind all frames of `gs`. */
  ghost predicate NoFurther(fs: seq<Frame>, gs: seq<Frame>) {
    forall f | f in fs :: End(f) == 0 || exists g | g in gs :: End(f) <= End(g)
  }

  // ---- from packets to the server name ----

  datatype QuicVerdict = QuicName(name: seq<byte>) | NotQuic | UnknownContent | MoreData

  function Fresh(): (s: State)
    ensures ValidState(s)
  {
    State(seq(CRYPTO_MAX, i => 0), 0)
  }

  /** A name is looked for after every packet; without one the next packet adds to the same buffer. */
  function SniffPackets(packets: seq<seq<byte>>, s: State): QuicVerdict
    requires ValidState(s)
    decreases |packets|
  {
    if packets == [] then MoreData
    else match ScanFrames(packets[0], s.buf, s.len)
      case Overflow => NotQuic
      case Malformed => UnknownContent
      case Scanned(buf, len) =>
        var v := InHandshake(buf[..len]);
        if len > 0 && v.Found? then QuicName(v.name) else SniffPackets(packets[1..], State(buf, len))
  }

  method SniffDecrypted(packets: seq<seq<byte>>) returns (v: QuicVerdict)
    ensures v == SniffPackets(packets, Fresh())
  {
    hide ScanFrames, InHandshake;
    var crypto := new byte[CRYPTO_MAX](i => 0);
    var len: nat := 0;
    assert crypto[..] == Fresh().buf;
    for i := 0 to |packets|
      invariant len <= CRYPTO_MAX && fresh(crypto)
      invariant SniffPackets(packets, Fresh()) == SniffPackets(packets[i..], State(crypto[..], len))
    {
      assert packets[i..][1..] == packets[i + 1..];
      var end, newLen := WalkFrames(packets[i], crypto, len);
      if end == OutOfBuffer {
        return NotQuic;
      }
      if end == BadInteger {
        return UnknownContent;
      }
      len := newLen;
      if len > 0 {
        assert crypto[..len] == crypto[..][..len];
        var hello := ParseHandshake(crypto[..len]);
        if hello.Found? {
          return QuicName(hello.name);
        }
      }
    }
    return MoreData;
  }

  lemma {:induction false} ApplyAppend(s: State, a: seq<Frame>, b: seq<Frame>)
    requires ValidState(s) && forall f | f in a + b :: Fits(f)
    ensures (forall f | f in a :: Fits(f)) && (forall f | f in b :: Fits(f))
    ensures ApplyAll(s, a + b) == ApplyAll(ApplyAll(s, a), b)
    decreases |a|
  {
    hide Apply, Fits;
    assert forall f | f in a :: f in a + b;
    assert forall f | f in b :: f in a + b;
    if a == [] {
      assert a + b == b;
    } else {
      assert (a + b)[1..] == a[1..] + b;
      ApplyAppend(Apply(s, a[0]), a[1..], b);
    }
  }

  predicate Complete(fs: seq<Frame>, m: seq<byte>) {
    forall i | 0 <= i < |m| :: Covered(fs, i)
  }

  /** Once every byte of the message has arrived, the bytes parsed are the message. */
  lemma CompleteIsMessage(fs: seq<Frame>, m: seq<byte>)
    requires 0 < |m| <= CRYPTO_MAX && Complete(fs, m)
    requires forall f | f in fs :: Agrees(f, m)
    ensures forall f | f in fs :: Fits(f)
    ensures var t := ApplyAll(Fresh(), fs); t.len == |m| && t.buf[..t.len] == m
  {
    BufferReassembled(fs, m, Fresh());
    LengthReassembled(fs, Fresh());
    hide ApplyAll;
    assert Covered(fs, |m| - 1);
  }

  function Concat(ps: seq<seq<Frame>>): seq<Frame> {
    if ps == [] then [] else ps[0] + Concat(ps[1..])
  }

  /** Well-formed frames of one message that fits the buffer. */
  predicate OfMessage(fs: seq<Frame>, m: seq<byte>) {
    |m| <= CRYPTO_MAX && forall f | f in fs :: ValidFrame(f) && Agrees(f, m) && Fits(f)
  }

  function Encoded(ps: seq<seq<Frame>>, m: seq<byte>): seq<seq<byte>>
    requires forall p | p in ps :: OfMessage(p, m)
  {
    if ps == [] then [] else assert ps[0] in ps && OfMessage(ps[0], m); [PacketBytes(ps[0])] + Encoded(ps[1..], m)
  }

  lemma SniffStep(seen: seq<Frame>, p: seq<Frame>, rest: seq<seq<byte>>, m: seq<byte>)
    requires OfMessage(seen, m) && OfMessage(p, m)
    ensures
      var t := ApplyAll(Fresh(), seen + p);
      var v := InHandshake(t.buf[..t.len]);
      SniffPackets([PacketBytes(p)] + rest, ApplyAll(Fresh(), seen))
      == if t.len > 0 && v.Found? then QuicName(v.name) else SniffPackets(rest, t)
  {
    hide ScanFrames, ApplyAll, ValidFrame, Agrees, InHandshake, PacketBytes;
    ApplyAppend(Fresh(), seen, p);
    var s := ApplyAll(Fresh(), seen);
    PacketScanned(p, s);
    var packets := [PacketBytes(p)] + rest;
    assert packets[0] == PacketBytes(p) && packets[1..] == rest;
  }
}
