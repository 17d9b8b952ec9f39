/**
 The XUDP frame codec: a metadata header (status, option bits, UDP target, global id) behind a
 two-byte length, optionally followed by a length-prefixed payload.
 */
module Xudp {
  import opened Bytes

  const NETWORK_UDP: byte := 2
  const GLOBAL_ID_LEN := 8
  const MIN_META_LEN := 4
  /** Capacity of the scratch buffer an address is serialised into. */
  const ADDRESS_BUFFER := 32
  /** Longest domain that fits the scratch buffer after port, type and length bytes. */
  const MAX_DOMAIN := ADDRESS_BUFFER - 4

  datatype Address = IPv4(octets: seq<byte>) | IPv6(octets: seq<byte>) | Domain(name: seq<byte>)
  datatype Target = Target(address: Address, port: nat)
  datatype Status = New | Keep | KeepAlive
  datatype Meta = Meta(status: Status, hasData: bool, target: Option<Target>, globalId: Option<seq<byte>>)

  /** Well-formed UTF-8, which is what a domain held in a string always is. */
  predicate Utf8(s: seq<byte>) {
    if s == [] then true
    else if s[0] < 0x80 then Utf8(s[1..])
    else if 0xC2 <= s[0] <= 0xDF then
      |s| >= 2 && Continuation(s[1]) && Utf8(s[2..])
    else if 0xE0 <= s[0] <= 0xEF then
      && |s| >= 3 && Continuation(s[1]) && Continuation(s[2])
      && (s[0] == 0xE0 ==> s[1] >= 0xA0) && (s[0] == 0xED ==> s[1] <= 0x9F)
      && Utf8(s[3..])
    else if 0xF0 <= s[0] <= 0xF4 then
      && |s| >= 4 && Continuation(s[1]) && Continuation(s[2]) && Continuation(s[3])
      && (s[0] == 0xF0 ==> s[1] >= 0x90) && (s[0] == 0xF4 ==> s[1] <= 0x8F)
      && Utf8(s[4..])
    else false
  }

  predicate Continuation(b: byte) {
    0x80 <= b <= 0xBF
  }

  predicate ValidAddress(a: Address) {
    match a
    case IPv4(o) => |o| == 4
    case IPv6(o) => |o| == 16
    case Domain(n) => Utf8(n)
  }

  predicate ValidTarget(t: Target) {
    ValidAddress(t.address) && t.port < 65536
  }

  /** What parsing can produce: only New and Keep frames carry targets, only targeted New frames an id. */
  predicate WellFormed(m: Meta) {
    && (m.target.Some? ==> m.status != KeepAlive && ValidTarget(m.target.value))
    && (m.globalId.Some? ==> m.status == New && m.target.Some? && |m.globalId.value| == GLOBAL_ID_LEN)
  }

  predicate AddressFits(a: Address) {
    a.Domain? ==> |a.name| <= MAX_DOMAIN
  }

  predicate Encodable(m: Meta) {
    m.target.Some? ==> AddressFits(m.target.value.address)
  }

  // ---- serialising ----

  /** Appends as much of `src` as the fixed-capacity scratch buffer still takes. */
  function Put(buf: seq<byte>, src: seq<byte>): seq<byte>
    requires |buf| <= ADDRESS_BUFFER
    ensures |Put(buf, src)| <= ADDRESS_BUFFER
    ensures |buf| + |src| <= ADDRESS_BUFFER ==> Put(buf, src) == buf + src
  {
    buf + src[..if |src| <= ADDRESS_BUFFER - |buf| then |src| else ADDRESS_BUFFER - |buf|]
  }

  function PortAddressBytes(t: Target): (s: seq<byte>)
    ensures |s| <= ADDRESS_BUFFER
  {
    var port := Put([], Be16(t.port));
    match t.address
    case IPv4(o) => Put(Put(port, [1]), o)
    case Domain(n) => Put(Put(Put(port, [2]), [Be16(|n|)[1]]), n)
    case IPv6(o) => Put(Put(port, [3]), o)
  }

  function StatusByte(s: Status): byte {
    match s case New => 1 case Keep => 2 case KeepAlive => 4
  }

  /** The header body, everything after the two length bytes. */
  function BodyBytes(m: Meta): seq<byte> {
    [0, 0, StatusByte(m.status), if m.hasData then 1 else 0]
    + (if m.target.Some? then [NETWORK_UDP] + PortAddressBytes(m.target.value) else [])
    + (if m.status == New && m.globalId.Some? then m.globalId.value else [])
  }

  function MetaBytes(m: Meta): seq<byte> {
    Be16(|BodyBytes(m)|) + BodyBytes(m)
  }

  // ---- parsing ----

  function ParseStatus(b: byte): Option<Status> {
    if b == 1 then Some(New) else if b == 2 then Some(Keep) else if b == 4 then Some(KeepAlive) else None
  }

  function ParseAddress(d: seq<byte>): Option<(Address, nat)> {
    if d == [] then None
    else if d[0] == 1 then
      if |d| < 5 then None else Some((IPv4(d[1..5]), 5))
    else if d[0] == 2 then
      if |d| < 2 then None
      else
        var end: nat := d[1] as int + 2;
        if |d| < end || !Utf8(d[2..end]) then None else Some((Domain(d[2..end]), end))
    else if d[0] == 3 then
      if |d| < 17 then None else Some((IPv6(d[1..17]), 17))
    else None
  }

  function ParsePortAddress(d: seq<byte>): Option<(Target, nat)> {
    if |d| < 2 then None
    else match ParseAddress(d[2..])
      case None => None
      case Some((a, n)) => Some((Target(a, U16(d[0], d[1])), 2 + n))
  }

  /** `None` is the source's address error; an untargeted body parses to two absent fields. */
  function ParseTarget(body: seq<byte>, status: Status): Option<(Option<Target>, Option<seq<byte>>)>
    requires |body| >= MIN_META_LEN
  {
    if status == KeepAlive || |body| == 4 || body[4] != NETWORK_UDP then Some((None, None))
    else match ParsePortAddress(body[5..])
      case None => None
      case Some((t, n)) =>
        var off := 5 + n;
        if status == New && off + GLOBAL_ID_LEN <= |body|
        then Some((Some(t), Some(body[off..off + GLOBAL_ID_LEN])))
        else Some((Some(t), None))
  }

  datatype Header = Header(meta: Meta, consumed: nat) | TooShort | BadStatus | BadAddress

  function ParseHeader(d: seq<byte>): (h: Header)
    ensures h.Header? ==> 2 + MIN_META_LEN <= h.consumed <= |d| && h.consumed == 2 + U16(d[0], d[1])
  {
    if |d| < 2 || U16(d[0], d[1]) < MIN_META_LEN || |d| < 2 + U16(d[0], d[1]) then TooShort
    else
      var body := d[2..2 + U16(d[0], d[1])];
      match ParseStatus(body[2])
      case None => BadStatus
      case Some(status) =>
        match ParseTarget(body, status)
        case None => BadAddress
        case Some((target, id)) =>
          Header(Meta(status, body[3] % 2 == 1, target, id), 2 + |body|)
  }

  // ---- codec laws ----

  /** A parsed header does not change when more bytes arrive behind it. */
  lemma HeaderStable(a: seq<byte>, b: seq<byte>)
    requires |a| >= 2 && |a| >= 2 + U16(a[0], a[1])
    ensures ParseHeader(a + b) == ParseHeader(a)
  {
    assert (a + b)[2..2 + U16(a[0], a[1])] == a[2..2 + U16(a[0], a[1])];
  }

  lemma AddressParsedValid(d: seq<byte>)
    ensures ParseAddress(d).Some? ==> ValidAddress(ParseAddress(d).value.0)
  {
  }

  lemma ParsedWellFormed(d: seq<byte>)
    requires ParseHeader(d).Header?
    ensures WellFormed(ParseHeader(d).meta)
  {
    hide Utf8, ParseAddress;
    var body := d[2..2 + U16(d[0], d[1])];
    if |body| > 4 && |body[5..]| >= 2 {
      AddressParsedValid(body[5..][2..]);
    }
  }

  /** The address bytes with nothing cut off. */
  function PlainAddress(a: Address): seq<byte>
    requires AddressFits(a)
  {
    match a
    case IPv4(o) => [1] + o
    case Domain(n) => [2, |n|] + n
    case IPv6(o) => [3] + o
  }

  lemma PlainPortAddress(t: Target)
    requires ValidTarget(t) && AddressFits(t.address)
    ensures PortAddressBytes(t) == Be16(t.port) + PlainAddress(t.address)
  {
    hide Be16, Utf8;
    var port := Put([], Be16(t.port));
    assert port == Be16(t.port);
  }

  lemma AddressRoundTrip(a: Address, rest: seq<byte>)
    requires ValidAddress(a) && AddressFits(a)
    ensures ParseAddress(PlainAddress(a) + rest) == Some((a, |PlainAddress(a)|))
  {
    hide Utf8;
    var d := PlainAddress(a) + rest;
    match a {
      case IPv4(o) => assert d[1..5] == o;
      case IPv6(o) => assert d[1..17] == o;
      case Domain(n) => assert d[2..2 + |n|] == n;
    }
  }

  /** What reading back the serialised target gives, whatever follows it. */
  lemma TargetRoundTrip(t: Target, rest: seq<byte>)
    requires ValidTarget(t) && AddressFits(t.address)
    ensures ParsePortAddress(PortAddressBytes(t) + rest) == Some((t, |PortAddressBytes(t)|))
  {
    hide Be16, PortAddressBytes, PlainAddress, ParseAddress, ValidAddress;
    PlainPortAddress(t);
    AddressRoundTrip(t.address, rest);
    var d := PortAddressBytes(t) + rest;
    assert d[2..] == PlainAddress(t.address) + rest;
    assert d[0] == Be16(t.port)[0] && d[1] == Be16(t.port)[1];
  }

  /** A domain longer than the scratch buffer is cut while its length byte is not. */
  lemma TargetCut(t: Target, rest: seq<byte>)
    requires !AddressFits(t.address)
    ensures |PortAddressBytes(t)| == ADDRESS_BUFFER
    ensures
      var p := ParsePortAddress(PortAddressBytes(t) + rest);
      p.Some? && p.value.0 == t ==> p.value.1 > ADDRESS_BUFFER
  {
    hide Be16, Utf8;
    var d := PortAddressBytes(t) + rest;
    assert d[2..][0] == 2 && d[2..][1] == Be16(|t.address.name|)[1];
  }

  /** The body of a targeted header reads back its target and id exactly when the target fits. */
  lemma BodyRoundTrip(m: Meta)
    requires WellFormed(m) && m.target.Some?
    ensures ParseTarget(BodyBytes(m), m.status) == Some((m.target, m.globalId)) <==> Encodable(m)
  {
    hide Be16, PortAddressBytes, Utf8;
    var body := BodyBytes(m);
    var t := m.target.value;
    var tail := if m.status == New && m.globalId.Some? then m.globalId.value else [];
    assert body[5..] == PortAddressBytes(t) + tail;
    if Encodable(m) {
      TargetRoundTrip(t, tail);
      var off := 5 + |PortAddressBytes(t)|;
      assert body[off..] == tail;
      if tail != [] {
        assert body[off..off + GLOBAL_ID_LEN] == tail;
      }
    } else {
      TargetCut(t, tail);
    }
  }

  /** Reading back a serialised header gives that header exactly when its target fits the buffer. */
  lemma MetaRoundTrip(m: Meta, rest: seq<byte>)
    requires WellFormed(m)
    ensures ParseHeader(MetaBytes(m) + rest) == Header(m, |MetaBytes(m)|) <==> Encodable(m)
  {
    hide Be16, PortAddressBytes, Utf8;
    var body := BodyBytes(m);
    var d := MetaBytes(m) + rest;
    assert |body| <= 4 + 1 + ADDRESS_BUFFER + GLOBAL_ID_LEN;
    assert U16(d[0], d[1]) == |body|;
    assert d[2..2 + |body|] == body;
    assert ParseStatus(body[2]) == Some(m.status);
    if m.target.Some? {
      BodyRoundTrip(m);
    }
  }

  /** A header for a domain of 29 letters, one more than fits. */
  function LongDomain(): Meta {
    Meta(Keep, true, Some(Target(Domain(seq(29, _ => 0x61)), 53)), None)
  }

  lemma {:induction false} AsciiIsUtf8(s: seq<byte>)
    requires forall i | 0 <= i < |s| :: s[i] < 0x80
    ensures Utf8(s)
  {
    if s != [] {
      AsciiIsUtf8(s[1..]);
    }
  }

  /** It does not read back, whatever follows. */
  lemma LongDomainLost(rest: seq<byte>)
    ensures ParseHeader(MetaBytes(LongDomain()) + rest) != Header(LongDomain(), |MetaBytes(LongDomain())|)
  {
    AsciiIsUtf8(seq(29, _ => 0x61));
    hide ParseHeader, MetaBytes, Utf8;
    MetaRoundTrip(LongDomain(), rest);
  }

  lemma HeaderBytes(m: Meta, body: seq<byte>, size: byte)
    requires BodyBytes(m) == body && |body| == size as int
    ensures MetaBytes(m) == [0, size] + body
  {
    hide Be16, BodyBytes;
    Be16Inverse(0, size);
  }

  lemma PortThenAddress(t: Target, hi: byte, lo: byte)
    requires ValidTarget(t) && AddressFits(t.address) && t.port == U16(hi, lo)
    ensures PortAddressBytes(t) == [hi, lo] + PlainAddress(t.address)
  {
    hide Be16, PortAddressBytes, PlainAddress, Utf8;
    Be16Inverse(hi, lo);
    PlainPortAddress(t);
  }

  lemma SampleV4()
    ensures PortAddressBytes(Target(IPv4([1, 2, 3, 4]), 53)) == [0, 53, 1, 1, 2, 3, 4]
  {
    hide PortAddressBytes;
    PortThenAddress(Target(IPv4([1, 2, 3, 4]), 53), 0, 53);
  }

  lemma SampleDomain()
    ensures PortAddressBytes(Target(Domain([0x61, 0x62]), 443)) == [1, 187, 2, 2, 0x61, 0x62]
  {
    AsciiIsUtf8([0x61, 0x62]);
    hide PortAddressBytes, Utf8;
    PortThenAddress(Target(Domain([0x61, 0x62]), 443), 1, 187);
  }

  lemma SampleV6(octets: seq<byte>)
    requires |octets| == 16
    ensures PortAddressBytes(Target(IPv6(octets), 53)) == [0, 53, 3] + octets
  {
    hide PortAddressBytes;
    PortThenAddress(Target(IPv6(octets), 53), 0, 53);
  }

  /** Headers byte by byte: one of each status, address type and option. */
  lemma SampleHeaders(id: seq<byte>, octets: seq<byte>)
    requires |id| == 8 && |octets| == 16
    ensures MetaBytes(Meta(New, true, Some(Target(IPv4([1, 2, 3, 4]), 53)), Some(id)))
         == [0, 20] + ([0, 0, 1, 1, 2, 0, 53, 1, 1, 2, 3, 4] + id)
    ensures MetaBytes(Meta(Keep, false, Some(Target(Domain([0x61, 0x62]), 443)), None))
         == [0, 11] + [0, 0, 2, 0, 2, 1, 187, 2, 2, 0x61, 0x62]
    ensures MetaBytes(Meta(Keep, true, Some(Target(IPv6(octets), 53)), None)) == [0, 24] + ([0, 0, 2, 1, 2, 0, 53, 3] + octets)
    ensures MetaBytes(Meta(KeepAlive, false, None, None)) == [0, 4] + [0, 0, 4, 0]
  {
    hide MetaBytes, PortAddressBytes;
    SampleV4();
    SampleDomain();
    SampleV6(octets);
    HeaderBytes(Meta(New, true, Some(Target(IPv4([1, 2, 3, 4]), 53)), Some(id)), [0, 0, 1, 1, 2, 0, 53, 1, 1, 2, 3, 4] + id, 20);
    HeaderBytes(Meta(Keep, false, Some(Target(Domain([0x61, 0x62]), 443)), None), [0, 0, 2, 0, 2, 1, 187, 2, 2, 0x61, 0x62], 11);
    HeaderBytes(Meta(Keep, true, Some(Target(IPv6(octets), 53)), None), [0, 0, 2, 1, 2, 0, 53, 3] + octets, 24);
    HeaderBytes(Meta(KeepAlive, false, None, None), [0, 0, 4, 0], 4);
  }

  // ---- frames in a stream ----

  /** The complete frame at the head of a buffer: header up to `header`, payload up to `end`. */
  datatype Next = Next(meta: Meta, header: nat, end: nat) | Incomplete

  function NextFrame(d: seq<byte>): (n: Next)
    ensures n.Next? ==> 0 < n.header <= n.end <= |d|
    ensures n.Next? && n.meta.hasData ==> n.header + 2 <= n.end
  {
    match ParseHeader(d)
    case Header(m, c) =>
      if !m.hasData then Next(m, c, c)
      else if |d| < c + 2 then Incomplete
      else
        var end := c + 2 + U16(d[c], d[c + 1]);
        if |d| < end then Incomplete else Next(m, c, end)
    case _ => Incomplete
  }

  lemma NextStable(a: seq<byte>, b: seq<byte>)
    requires NextFrame(a).Next?
    ensures NextFrame(a + b) == NextFrame(a)
  {
    HeaderStable(a, b);
  }

  /** A copied frame reads back as itself in front of anything. */
  lemma CopiedFrame(d: seq<byte>, rest: seq<byte>)
    requires NextFrame(d).Next?
    ensures NextFrame(d[..NextFrame(d).end] + rest) == NextFrame(d)
  {
    var n := NextFrame(d);
    var cut := d[..n.end];
    assert cut + d[n.end..] == d;
    HeaderStable(cut, d[n.end..]);
    NextStable(cut, rest);
  }

  /** The payload part of a frame: a length and that many bytes, or nothing. */
  predicate PayloadPart(m: Meta, part: seq<byte>) {
    if m.hasData then |part| >= 2 && |part| == 2 + U16(part[0], part[1]) else part == []
  }

  /** A serialised frame reads back as itself, in front of anything, exactly when its target fits. */
  lemma EncodedFrame(m: Meta, part: seq<byte>, rest: seq<byte>)
    requires WellFormed(m) && PayloadPart(m, part)
    ensures
      var out := MetaBytes(m) + part + rest;
      var size := |MetaBytes(m)|;
      && (Encodable(m) ==> NextFrame(out) == Next(m, size, size + |part|))
      && (!Encodable(m) ==> NextFrame(out).Incomplete? || NextFrame(out).meta != m)
  {
    hide Be16, ParseHeader, PortAddressBytes, Encodable;
    var out := MetaBytes(m) + part + rest;
    assert out == MetaBytes(m) + (part + rest);
    MetaRoundTrip(m, part + rest);
    assert |BodyBytes(m)| < 65536;
    assert U16(out[0], out[1]) == |BodyBytes(m)|;
    if m.hasData {
      assert out[|MetaBytes(m)|] == part[0] && out[|MetaBytes(m)| + 1] == part[1];
    }
  }

  datatype Frame = Frame(meta: Meta, payload: Option<seq<byte>>)

  /** The frames a reader of the stream sees. */
  function Decode(d: seq<byte>): seq<Frame> {
    match NextFrame(d)
    case Incomplete => []
    case Next(m, header, end) => [FrameAt(d, m, header, end)] + Decode(d[end..])
  }

  function FrameAt(d: seq<byte>, m: Meta, header: nat, end: nat): Frame
    requires header <= end <= |d|
  {
    Frame(m, if m.hasData && header + 2 <= end then Some(d[header + 2..end]) else None)
  }
}
