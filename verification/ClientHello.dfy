/**
 Extracting the server name from a TLS ClientHello. The parser walks record layer, handshake
 header, ClientHello fields, extensions and the server name list; the encoder builds the byte
 strings it is meant to recognise.
 */
module ClientHello {
  import opened Bytes

  /** A host name, a definite "not this protocol", or a request to retry with more bytes. */
  datatype Verdict = Found(name: seq<byte>) | NotIt | NoClue | NeedMore

  // ---- what the bytes say, field by field ----

  /** Control characters and spaces mean the name is still incomplete; a trailing dot is not allowed. */
  function Judge(name: seq<byte>): Verdict {
    if exists b | b in name :: b <= 0x20 then NeedMore
    else if name != [] && name[|name| - 1] == 0x2E then NotIt
    else Found(name)
  }

  /** The first host_name entry of a server name list. */
  function InNames(d: seq<byte>): Verdict {
    if |d| < 3 || |d| < 3 + U16(d[1], d[2]) then NotIt
    else
      var end := 3 + U16(d[1], d[2]);
      if d[0] == 0 then Judge(d[3..end]) else InNames(d[end..])
  }

  /** The first server_name extension of an extension block. */
  function InExtensions(d: seq<byte>): Verdict {
    if |d| < 4 then NotIt
    else
      var len := U16(d[2], d[3]);
      if U16(d[0], d[1]) == 0 then
        if len < 2 || |d| < 4 + len then NotIt else InNames(d[6..4 + len])
      else if |d| < 4 + len then NotIt
      else InExtensions(d[4 + len..])
  }

  function AtExtensions(d: seq<byte>): Verdict
    requires |d| >= 2
  {
    var end := 2 + U16(d[0], d[1]);
    if |d| < end then NeedMore else InExtensions(d[2..end])
  }

  function AtCompression(d: seq<byte>): Verdict
    requires |d| >= 1
  {
    var end: nat := d[0] as int + 1;
    if |d| < end + 2 then NoClue else AtExtensions(d[end..])
  }

  function AtCipherSuites(d: seq<byte>): Verdict
    requires |d| >= 2
  {
    var end := 2 + U16(d[0], d[1]);
    if |d| <= end then NoClue else AtCompression(d[end..])
  }

  function AtSessionId(d: seq<byte>): Verdict
    requires |d| >= 1
  {
    var end: nat := d[0] as int + 1;
    if |d| <= end + 1 then NoClue else AtCipherSuites(d[end..])
  }

  function InBody(d: seq<byte>): Verdict {
    if |d| <= 34 then NoClue else AtSessionId(d[34..])
  }

  function InHandshake(d: seq<byte>): Verdict {
    if |d| < 4 then NoClue
    else if d[0] != 1 then NotIt
    else
      var end := 4 + U24(d[1], d[2], d[3]);
      if |d| < end then NeedMore else InBody(d[4..end])
  }

  function InRecord(d: seq<byte>): Verdict {
    if |d| < 5 then NoClue
    else if d[0] != 0x16 || d[1] != 3 then NotIt
    else
      var end := 5 + U16(d[3], d[4]);
      if |d| < end then NeedMore else InHandshake(d[5..end])
  }

  // ---- the parser's loops ----

  /** Whether any byte is a control character or a space. */
  method HasBlank(name: seq<byte>) returns (blank: bool)
    ensures blank <==> exists b | b in name :: b <= 0x20
  {
    for i := 0 to |name|
      invariant forall j | 0 <= j < i :: name[j] > 0x20
    {
      if name[i] <= 0x20 {
        assert name[i] in name;
        return true;
      }
    }
    return false;
  }

  method ScanNames(list: seq<byte>) returns (v: Verdict)
    ensures v == InNames(list)
  {
    var d := list;
    while d != []
      invariant InNames(list) == InNames(d)
      decreases |d|
    {
      if |d| < 3 {
        return NotIt;
      }
      var kind, len := d[0], U16(d[1], d[2]);
      var rest := d[3..];
      if |rest| < len {
        return NotIt;
      }
      if kind == 0 {
        var name := rest[..len];
        assert name == d[3..3 + len];
        var blank := HasBlank(name);
        if blank {
          return NeedMore;
        }
        if name != [] && name[|name| - 1] == 0x2E {
          return NotIt;
        }
        return Found(name);
      }
      assert rest[len..] == d[3 + len..];
      d := rest[len..];
    }
    return NotIt;
  }

  /** The extension walk over `body[start..end]`, by absolute offset. */
  method ScanExtensions(body: seq<byte>, start: nat, end: nat) returns (v: Verdict)
    requires start <= end <= |body|
    ensures v == InExtensions(body[start..end])
  {
    hide InNames, InExtensions;
    var off := start;
    while off + 4 <= end
      invariant start <= off
      invariant InExtensions(body[start..end]) == if off <= end then InExtensions(body[off..end]) else NotIt
      decreases end + 4 - off
    {
      var d := body[off..end];
      ExtensionStep(d);
      var kind, len := U16(body[off], body[off + 1]), U16(body[off + 2], body[off + 3]);
      off := off + 4;
      if kind == 0 {
        if len < 2 || off + len > end {
          return NotIt;
        }
        assert body[off + 2..off + len] == d[6..4 + len];
        v := ScanNames(body[off + 2..off + len]);
        return;
      }
      if off + len <= end {
        assert body[off + len..end] == d[4 + len..];
      }
      off := off + len;
    }
    if off <= end {
      ExtensionStep(body[off..end]);
    }
    return NotIt;
  }

  lemma ExtensionStep(d: seq<byte>)
    ensures InExtensions(d) ==
            if |d| < 4 || |d| < 4 + U16(d[2], d[3]) then NotIt
            else if U16(d[0], d[1]) != 0 then InExtensions(d[4 + U16(d[2], d[3])..])
            else if U16(d[2], d[3]) < 2 then NotIt
            else InNames(d[6..4 + U16(d[2], d[3])])
  {
    hide InNames;
  }

  lemma SessionIdAt(body: seq<byte>, off: nat)
    requires off < |body|
    ensures var next: nat := off + 1 + body[off] as int;
            AtSessionId(body[off..]) == if |body| <= next + 1 then NoClue else AtCipherSuites(body[next..])
  {
    hide AtCipherSuites;
    var next: nat := off + 1 + body[off] as int;
    assert next < |body| ==> body[off..][next - off..] == body[next..];
  }

  lemma CipherSuitesAt(body: seq<byte>, off: nat)
    requires off + 2 <= |body|
    ensures var next := off + 2 + U16(body[off], body[off + 1]);
            AtCipherSuites(body[off..]) == if |body| <= next then NoClue else AtCompression(body[next..])
  {
    hide AtCompression;
    var next := off + 2 + U16(body[off], body[off + 1]);
    assert next < |body| ==> body[off..][next - off..] == body[next..];
  }

  lemma CompressionAt(body: seq<byte>, off: nat)
    requires off < |body|
    ensures var next: nat := off + 1 + body[off] as int;
            AtCompression(body[off..]) == if |body| < next + 2 then NoClue else AtExtensions(body[next..])
  {
    hide AtExtensions;
    var next: nat := off + 1 + body[off] as int;
    assert next < |body| ==> body[off..][next - off..] == body[next..];
  }

  lemma ExtensionsAt(body: seq<byte>, off: nat)
    requires off + 2 <= |body|
    ensures var next := off + 2 + U16(body[off], body[off + 1]);
            AtExtensions(body[off..]) == if |body| < next then NeedMore else InExtensions(body[off + 2..next])
  {
    hide InExtensions;
    var next := off + 2 + U16(body[off], body[off + 1]);
    assert next <= |body| ==> body[off..][2..next - off] == body[off + 2..next];
  }

  /** The ClientHello walk, by absolute offset into the handshake body. */
  method ScanBody(body: seq<byte>) returns (v: Verdict)
    ensures v == InBody(body)
  {
    hide InExtensions, AtSessionId, AtCipherSuites, AtCompression, AtExtensions, U16;
    var off: nat := 34;
    if |body| <= off {
      return NoClue;
    }
    SessionIdAt(body, off);
    off := off + 1 + body[off] as int;
    if |body| <= off + 1 {
      return NoClue;
    }
    CipherSuitesAt(body, off);
    off := off + 2 + U16(body[off], body[off + 1]);
    if |body| <= off {
      return NoClue;
    }
    CompressionAt(body, off);
    off := off + 1 + body[off] as int;
    if |body| < off + 2 {
      return NoClue;
    }
    ExtensionsAt(body, off);
    var extensionsLen := U16(body[off], body[off + 1]);
    off := off + 2;
    if |body| < off + extensionsLen {
      return NeedMore;
    }
    v := ScanExtensions(body, off, off + extensionsLen);
  }

  method ParseHandshake(d: seq<byte>) returns (v: Verdict)
    ensures v == InHandshake(d)
    ensures |d| >= 4 && d[0] != 1 ==> v == NotIt
  {
    hide InBody;
    if |d| < 4 {
      return NoClue;
    }
    if d[0] != 1 {
      return NotIt;
    }
    var len := U24(d[1], d[2], d[3]);
    if |d| < 4 + len {
      return NeedMore;
    }
    v := ScanBody(d[4..4 + len]);
  }

  method ParseRecord(payload: seq<byte>) returns (v: Verdict)
    ensures v == InRecord(payload)
    ensures |payload| >= 5 && (payload[0] != 0x16 || payload[1] != 3) ==> v == NotIt
  {
    hide InHandshake;
    if |payload| < 5 {
      return NoClue;
    }
    if payload[0] != 0x16 || payload[1] != 3 {
      return NotIt;
    }
    var len := U16(payload[3], payload[4]);
    if |payload| < 5 + len {
      return NeedMore;
    }
    v := ParseHandshake(payload[5..5 + len]);
  }

  // ---- the messages ----

  datatype Extension = Extension(kind: nat, data: seq<byte>)
  datatype NameEntry = NameEntry(kind: byte, name: seq<byte>)

  /**
   A ClientHello whose first server_name extension lists `name` as its first host_name. Everything
   the parser does not look at is free: the list length field, the rest of the list, the extension
   bytes behind, and bytes behind the extension block.
   */
  datatype Hello = Hello(
    versionAndRandom: seq<byte>, sessionId: seq<byte>, cipherSuites: seq<byte>, compression: seq<byte>,
    before: seq<Extension>, listLen: seq<byte>, others: seq<NameEntry>, name: seq<byte>, restOfList: seq<byte>,
    after: seq<byte>, restOfBody: seq<byte>)

  function NameBytes(e: NameEntry): seq<byte> {
    [e.kind] + Be16(|e.name|) + e.name
  }

  function NamesSize(es: seq<NameEntry>): nat {
    if es == [] then 0 else 3 + |es[0].name| + NamesSize(es[1..])
  }

  function NamesBytes(es: seq<NameEntry>, tail: seq<byte>): (s: seq<byte>)
    ensures |s| == NamesSize(es) + |tail|
  {
    if es == [] then tail else NameBytes(es[0]) + NamesBytes(es[1..], tail)
  }

  function ExtensionBytes(e: Extension): seq<byte> {
    Be16(e.kind) + Be16(|e.data|) + e.data
  }

  function ExtensionsSize(es: seq<Extension>): nat {
    if es == [] then 0 else 4 + |es[0].data| + ExtensionsSize(es[1..])
  }

  function ExtensionsBytes(es: seq<Extension>, tail: seq<byte>): (s: seq<byte>)
    ensures |s| == ExtensionsSize(es) + |tail|
  {
    if es == [] then tail else ExtensionBytes(es[0]) + ExtensionsBytes(es[1..], tail)
  }

  /** The size of the server name list with its length field. */
  function ListSize(h: Hello): nat {
    |h.listLen| + NamesSize(h.others) + 3 + |h.name| + |h.restOfList|
  }

  function BlockSize(h: Hello): nat {
    ExtensionsSize(h.before) + 4 + ListSize(h) + |h.after|
  }

  function BodySize(h: Hello): nat {
    |h.versionAndRandom| + 1 + |h.sessionId| + 2 + |h.cipherSuites| + 1 + |h.compression| + 2 + BlockSize(h) + |h.restOfBody|
  }

  function ServerNames(h: Hello): (s: seq<byte>)
    ensures |h.listLen| + |s| == ListSize(h)
  {
    NamesBytes(h.others, NameBytes(NameEntry(0, h.name)) + h.restOfList)
  }

  function ExtensionBlock(h: Hello): (s: seq<byte>)
    ensures |s| == BlockSize(h)
  {
    ExtensionsBytes(h.before, ExtensionBytes(Extension(0, h.listLen + ServerNames(h))) + h.after)
  }

  function BodyFromExtensions(h: Hello): (s: seq<byte>)
    ensures |s| == 2 + BlockSize(h) + |h.restOfBody|
  {
    hide Be16, ExtensionBlock;
    Be16(|ExtensionBlock(h)|) + ExtensionBlock(h) + h.restOfBody
  }

  /** A field behind its one-byte length. */
  function Prefixed(field: seq<byte>): seq<byte>
    requires |field| < 256
  {
    [|field|] + field
  }

  function BodyFromCompression(h: Hello): (s: seq<byte>)
    requires |h.compression| < 256
    ensures |s| == 1 + |h.compression| + 2 + BlockSize(h) + |h.restOfBody|
  {
    hide BodyFromExtensions;
    Prefixed(h.compression) + BodyFromExtensions(h)
  }

  function BodyFromSuites(h: Hello): (s: seq<byte>)
    requires |h.compression| < 256
    ensures |s| == 2 + |h.cipherSuites| + 1 + |h.compression| + 2 + BlockSize(h) + |h.restOfBody|
  {
    hide Be16, BodyFromCompression;
    Be16(|h.cipherSuites|) + h.cipherSuites + BodyFromCompression(h)
  }

  function BodyBytes(h: Hello): (s: seq<byte>)
    requires |h.compression| < 256 && |h.sessionId| < 256
    ensures |s| == BodySize(h)
  {
    hide BodyFromSuites;
    h.versionAndRandom + (Prefixed(h.sessionId) + BodyFromSuites(h))
  }

  predicate ValidHello(h: Hello) {
    && |h.versionAndRandom| == 34 && |h.sessionId| < 256 && |h.cipherSuites| < 65536 && |h.compression| < 256
    && (forall e | e in h.before :: 0 < e.kind < 65536 && |e.data| < 65536)
    && |h.listLen| == 2 && |h.name| < 65536
    && (forall e | e in h.others :: e.kind != 0 && |e.name| < 65536)
    && ListSize(h) < 65536 && BlockSize(h) < 65536 && BodySize(h) < 0x1000000
  }

  function HandshakeBytes(h: Hello): (s: seq<byte>)
    requires ValidHello(h)
    ensures |s| == 4 + BodySize(h)
  {
    hide Be24, BodyBytes;
    [1] + Be24(|BodyBytes(h)|) + BodyBytes(h)
  }

  /** One TLS record: any legacy minor version, any bytes behind the hello inside the record. */
  datatype Record = Record(minor: byte, hello: Hello, rest: seq<byte>)

  predicate ValidRecord(r: Record) {
    ValidHello(r.hello) && 4 + BodySize(r.hello) + |r.rest| < 65536
  }

  function RecordBytes(r: Record): seq<byte>
    requires ValidRecord(r)
  {
    hide Be16, HandshakeBytes;
    [0x16, 3, r.minor] + Be16(|HandshakeBytes(r.hello) + r.rest|) + (HandshakeBytes(r.hello) + r.rest)
  }

  // ---- round trip ----

  lemma {:induction false} NamesRoundTrip(es: seq<NameEntry>, name: seq<byte>, tail: seq<byte>)
    requires |name| < 65536 && forall e | e in es :: e.kind != 0 && |e.name| < 65536
    ensures InNames(NamesBytes(es, NameBytes(NameEntry(0, name)) + tail)) == Judge(name)
  {
    hide Be16, Judge;
    if es == [] {
      var d := NameBytes(NameEntry(0, name)) + tail;
      assert d[3..3 + |name|] == name;
    } else {
      NamesRoundTrip(es[1..], name, tail);
      var e := es[0];
      assert e in es;
      var rest := NamesBytes(es[1..], NameBytes(NameEntry(0, name)) + tail);
      var d := NameBytes(e) + rest;
      assert d[3 + |e.name|..] == rest;
    }
  }

  lemma {:induction false} ExtensionsRoundTrip(es: seq<Extension>, sni: seq<byte>, tail: seq<byte>)
    requires 2 <= |sni| < 65536 && forall e | e in es :: 0 < e.kind < 65536 && |e.data| < 65536
    ensures InExtensions(ExtensionsBytes(es, ExtensionBytes(Extension(0, sni)) + tail)) == InNames(sni[2..])
  {
    hide Be16, InNames, InExtensions, ExtensionsSize;
    if es == [] {
      var d := ExtensionBytes(Extension(0, sni)) + tail;
      ExtensionStep(d);
      assert d[6..4 + |sni|] == sni[2..];
    } else {
      ExtensionsRoundTrip(es[1..], sni, tail);
      var e := es[0];
      assert e in es;
      var rest := ExtensionsBytes(es[1..], ExtensionBytes(Extension(0, sni)) + tail);
      var d := ExtensionBytes(e) + rest;
      ExtensionStep(d);
      assert d[4 + |e.data|..] == rest;
    }
  }

  lemma BlockRoundTrip(h: Hello)
    requires ValidHello(h)
    ensures InExtensions(ExtensionBlock(h)) == Judge(h.name)
  {
    hide Be16, Judge, InNames, InExtensions, NamesBytes, ExtensionsBytes, BodyBytes;
    var sni := h.listLen + ServerNames(h);
    ExtensionsRoundTrip(h.before, sni, h.after);
    assert sni[2..] == ServerNames(h);
    NamesRoundTrip(h.others, h.name, h.restOfList);
  }

  lemma SessionIdField(f: seq<byte>, rest: seq<byte>)
    requires |f| < 256 && |rest| >= 2
    ensures AtSessionId([|f|] + f + rest) == AtCipherSuites(rest)
  {
    hide AtCipherSuites;
    assert ([|f|] + f + rest)[1 + |f|..] == rest;
  }

  lemma CipherSuitesField(f: seq<byte>, rest: seq<byte>)
    requires |f| < 65536 && |rest| >= 1
    ensures AtCipherSuites(Be16(|f|) + f + rest) == AtCompression(rest)
  {
    hide Be16, AtCompression;
    assert (Be16(|f|) + f + rest)[2 + |f|..] == rest;
  }

  lemma CompressionField(f: seq<byte>, rest: seq<byte>)
    requires |f| < 256 && |rest| >= 2
    ensures AtCompression([|f|] + f + rest) == AtExtensions(rest)
  {
    hide AtExtensions;
    assert ([|f|] + f + rest)[1 + |f|..] == rest;
  }

  lemma ExtensionsField(f: seq<byte>, rest: seq<byte>)
    requires |f| < 65536
    ensures AtExtensions(Be16(|f|) + f + rest) == InExtensions(f)
  {
    hide Be16, InExtensions;
    assert (Be16(|f|) + f + rest)[2..2 + |f|] == f;
  }

  lemma BodyRoundTrip(h: Hello)
    requires ValidHello(h)
    ensures InBody(BodyBytes(h)) == Judge(h.name)
  {
    hide Be16, Judge, InExtensions, ServerNames, ExtensionBlock;
    hide AtSessionId, AtCipherSuites, AtCompression, AtExtensions;
    BlockRoundTrip(h);
    ExtensionsField(ExtensionBlock(h), h.restOfBody);
    CompressionField(h.compression, BodyFromExtensions(h));
    CipherSuitesField(h.cipherSuites, BodyFromCompression(h));
    SessionIdField(h.sessionId, BodyFromSuites(h));
    assert BodyBytes(h)[34..] == [|h.sessionId|] + h.sessionId + BodyFromSuites(h);
  }

  lemma HandshakeJudged(h: Hello, rest: seq<byte>)
    requires ValidHello(h)
    ensures InHandshake(HandshakeBytes(h) + rest) == Judge(h.name)
  {
    hide Be16, Be24, Judge, InBody, BodyBytes, ServerNames, ExtensionBlock;
    BodyRoundTrip(h);
    var d := HandshakeBytes(h) + rest;
    assert d[4..4 + |BodyBytes(h)|] == BodyBytes(h);
  }

  lemma RecordAt(d: seq<byte>, body: seq<byte>)
    requires |d| >= 5 + |body| && d[0] == 0x16 && d[1] == 3 && U16(d[3], d[4]) == |body| && d[5..5 + |body|] == body
    ensures InRecord(d) == InHandshake(body)
  {
    hide InHandshake;
  }

  lemma RecordOf(minor: byte, body: seq<byte>, trailing: seq<byte>)
    requires |body| < 65536
    ensures InRecord([0x16, 3, minor] + Be16(|body|) + body + trailing) == InHandshake(body)
  {
    hide Be16, InHandshake, InRecord;
    var head := [0x16, 3, minor] + Be16(|body|);
    var d := head + body + trailing;
    assert d[..5] == head;
    assert d[5..5 + |body|] == body;
    RecordAt(d, body);
  }

  lemma RecordJudged(r: Record, trailing: seq<byte>)
    requires ValidRecord(r)
    ensures InRecord(RecordBytes(r) + trailing) == Judge(r.hello.name)
  {
    hide Be16, InHandshake, InRecord, HandshakeBytes, Judge, ValidHello;
    HandshakeJudged(r.hello, r.rest);
    RecordOf(r.minor, HandshakeBytes(r.hello) + r.rest, trailing);
  }

  // ---- which names are accepted ----

  ghost predicate Blank(name: seq<byte>) {
    exists i | 0 <= i < |name| :: name[i] <= 0x20
  }

  predicate Dotted(name: seq<byte>) {
    name != [] && name[|name| - 1] == 0x2E
  }

  /** A name is taken, refused for its trailing dot, or held to be incomplete for a blank in it. */
  ghost predicate NameDecides(v: Verdict, name: seq<byte>) {
    && (v == Found(name) <==> !Blank(name) && !Dotted(name))
    && (v == NeedMore <==> Blank(name))
    && (v == NotIt <==> !Blank(name) && Dotted(name))
  }

  lemma JudgeIs(name: seq<byte>)
    ensures NameDecides(Judge(name), name)
  {
    assert Blank(name) <==> exists b | b in name :: b <= 0x20 by {
      if i :| 0 <= i < |name| && name[i] <= 0x20 {
        assert name[i] in name;
      }
    }
  }

  /** The first host name of an encoded handshake message decides, whatever follows the message. */
  lemma HandshakeRoundTrip(h: Hello, rest: seq<byte>)
    requires ValidHello(h)
    ensures NameDecides(InHandshake(HandshakeBytes(h) + rest), h.name)
  {
    hide InHandshake, HandshakeBytes, Judge, ValidHello, NameDecides;
    HandshakeJudged(h, rest);
    JudgeIs(h.name);
  }

  /** So it does for an encoded record, whatever bytes follow it. */
  lemma RecordRoundTrip(r: Record, trailing: seq<byte>)
    requires ValidRecord(r)
    ensures NameDecides(InRecord(RecordBytes(r) + trailing), r.hello.name)
  {
    hide InRecord, RecordBytes, Judge, ValidRecord, NameDecides;
    RecordJudged(r, trailing);
    JudgeIs(r.hello.name);
  }

  // ---- messages without a name, and messages cut short ----

  lemma {:induction false} NoHostName(es: seq<NameEntry>, tail: seq<byte>)
    requires |tail| < 3 && forall e | e in es :: e.kind != 0 && |e.name| < 65536
    ensures InNames(NamesBytes(es, tail)) == NotIt
  {
    hide Be16, Judge;
    if es != [] {
      NoHostName(es[1..], tail);
      var e := es[0];
      assert e in es;
      var rest := NamesBytes(es[1..], tail);
      assert (NameBytes(e) + rest)[3 + |e.name|..] == rest;
    }
  }

  lemma {:induction false} NoServerName(es: seq<Extension>, tail: seq<byte>)
    requires |tail| < 4 && forall e | e in es :: 0 < e.kind < 65536 && |e.data| < 65536
    ensures InExtensions(ExtensionsBytes(es, tail)) == NotIt
  {
    hide Be16, InNames, InExtensions, ExtensionsSize;
    if es == [] {
      ExtensionStep(tail);
    } else {
      NoServerName(es[1..], tail);
      var e := es[0];
      assert e in es;
      var rest := ExtensionsBytes(es[1..], tail);
      var d := ExtensionBytes(e) + rest;
      ExtensionStep(d);
      assert d[4 + |e.data|..] == rest;
    }
  }

  lemma SessionIdCut(f: seq<byte>, rest: seq<byte>, k: nat)
    requires |f| < 256 && |rest| >= 2 && 1 <= k <= 1 + |f| + |rest|
    ensures AtSessionId((Prefixed(f) + rest)[..k])
         == if k < |f| + 3 then NoClue else AtCipherSuites(rest[..k - 1 - |f|])
  {
    hide AtCipherSuites;
    var d := (Prefixed(f) + rest)[..k];
    assert k >= |f| + 3 ==> d[1 + |f|..] == rest[..k - 1 - |f|];
  }

  lemma CipherSuitesCut(f: seq<byte>, rest: seq<byte>, k: nat)
    requires |f| < 65536 && |rest| >= 1 && 2 <= k <= 2 + |f| + |rest|
    ensures AtCipherSuites((Be16(|f|) + f + rest)[..k])
         == if k < |f| + 3 then NoClue else AtCompression(rest[..k - 2 - |f|])
  {
    hide Be16, AtCompression;
    var d := (Be16(|f|) + f + rest)[..k];
    assert d[0] == Be16(|f|)[0] && d[1] == Be16(|f|)[1];
    assert k >= |f| + 3 ==> d[2 + |f|..] == rest[..k - 2 - |f|];
  }

  lemma CompressionCut(f: seq<byte>, rest: seq<byte>, k: nat)
    requires |f| < 256 && |rest| >= 2 && 1 <= k <= 1 + |f| + |rest|
    ensures AtCompression((Prefixed(f) + rest)[..k])
         == if k < |f| + 3 then NoClue else AtExtensions(rest[..k - 1 - |f|])
  {
    hide AtExtensions;
    var d := (Prefixed(f) + rest)[..k];
    assert k >= |f| + 3 ==> d[1 + |f|..] == rest[..k - 1 - |f|];
  }

  lemma ExtensionsCut(f: seq<byte>, rest: seq<byte>, k: nat)
    requires |f| < 65536 && 2 <= k <= 2 + |f| + |rest|
    ensures AtExtensions((Be16(|f|) + f + rest)[..k]) == if k < 2 + |f| then NeedMore else InExtensions(f)
  {
    hide Be16, InExtensions;
    var d := (Be16(|f|) + f + rest)[..k];
    assert k >= 2 + |f| ==> d[2..2 + |f|] == f;
  }

  /**
   A complete handshake message whose body ends early: before the length of the extension block it says nothing,
   inside the block it asks for more, and from the end of the block on the name decides.
   */
  lemma BodyCut(h: Hello, k: nat)
    requires ValidHello(h) && k <= BodySize(h)
    ensures
      var v := InBody(BodyBytes(h)[..k]);
      var block := 34 + 1 + |h.sessionId| + 2 + |h.cipherSuites| + 1 + |h.compression| + 2;
      if k < block then v == NoClue else if k < block + BlockSize(h) then v == NeedMore else NameDecides(v, h.name)
  {
    hide Be16, Judge, Blank, Dotted, InExtensions, ServerNames, ExtensionBlock, NameDecides;
    hide AtSessionId, AtCipherSuites, AtCompression, AtExtensions, Prefixed;
    JudgeIs(h.name);
    BlockRoundTrip(h);
    if k > 34 {
      assert BodyBytes(h)[..k][34..] == (Prefixed(h.sessionId) + BodyFromSuites(h))[..k - 34];
      var k1 := k - 34;
      SessionIdCut(h.sessionId, BodyFromSuites(h), k1);
      if k1 >= |h.sessionId| + 3 {
        var k2 := k1 - 1 - |h.sessionId|;
        CipherSuitesCut(h.cipherSuites, BodyFromCompression(h), k2);
        if k2 >= |h.cipherSuites| + 3 {
          var k3 := k2 - 2 - |h.cipherSuites|;
          CompressionCut(h.compression, BodyFromExtensions(h), k3);
          if k3 >= |h.compression| + 3 {
            ExtensionsCut(ExtensionBlock(h), h.restOfBody, k3 - 1 - |h.compression|);
          }
        }
      }
    }
  }

  /** Until the record is complete the parser only ever asks to be tried again. */
  lemma RecordPrefix(r: Record, k: nat)
    requires ValidRecord(r) && k < |RecordBytes(r)|
    ensures InRecord(RecordBytes(r)[..k]) == if k < 5 then NoClue else NeedMore
  {
    hide Be16, InHandshake, HandshakeBytes, ValidHello;
  }

  lemma HandshakePrefix(h: Hello, k: nat)
    requires ValidHello(h) && k < |HandshakeBytes(h)|
    ensures InHandshake(HandshakeBytes(h)[..k]) == if k < 4 then NoClue else NeedMore
  {
    hide Be24, InBody, BodyBytes, ValidHello;
  }

  // ---- nothing else is found ----

  lemma {:induction false} NamesSplit(d: seq<byte>)
    returns (es: seq<NameEntry>, name: seq<byte>, tail: seq<byte>)
    requires InNames(d).Found?
    ensures |name| < 65536 && forall e | e in es :: e.kind != 0 && |e.name| < 65536
    ensures d == NamesBytes(es, NameBytes(NameEntry(0, name)) + tail)
    ensures InNames(d) == Judge(name)
    decreases |d|
  {
    hide Be16, Judge;
    Be16Inverse(d[1], d[2]);
    var end := 3 + U16(d[1], d[2]);
    var e := NameEntry(d[0], d[3..end]);
    assert d == NameBytes(e) + d[end..];
    if d[0] == 0 {
      es, name, tail := [], e.name, d[end..];
    } else {
      es, name, tail := NamesSplit(d[end..]);
      ghost var es' := [e] + es;
      assert es'[1..] == es;
      es := es';
    }
  }

  lemma {:induction false} ExtensionsSplit(d: seq<byte>)
    returns (es: seq<Extension>, sni: seq<byte>, tail: seq<byte>)
    requires InExtensions(d).Found?
    ensures 2 <= |sni| < 65536 && forall e | e in es :: 0 < e.kind < 65536 && |e.data| < 65536
    ensures d == ExtensionsBytes(es, ExtensionBytes(Extension(0, sni)) + tail)
    ensures InExtensions(d) == InNames(sni[2..])
    decreases |d|
  {
    hide Be16, InNames;
    Be16Inverse(d[0], d[1]);
    Be16Inverse(d[2], d[3]);
    var end := 4 + U16(d[2], d[3]);
    var e := Extension(U16(d[0], d[1]), d[4..end]);
    assert d == ExtensionBytes(e) + d[end..];
    if e.kind == 0 {
      es, sni, tail := [], e.data, d[end..];
      assert d[6..end] == sni[2..];
    } else {
      es, sni, tail := ExtensionsSplit(d[end..]);
      ghost var es' := [e] + es;
      assert es'[1..] == es;
      es := es';
    }
  }

  lemma SessionIdSplit(d: seq<byte>) returns (f: seq<byte>, rest: seq<byte>)
    requires |d| > 0 && AtSessionId(d).Found?
    ensures |f| < 256 && |rest| >= 2 && d == [|f|] + f + rest && AtSessionId(d) == AtCipherSuites(rest)
  {
    hide AtCipherSuites;
    var end := 1 + d[0] as int;
    f, rest := d[1..end], d[end..];
  }

  lemma CipherSuitesSplit(d: seq<byte>) returns (f: seq<byte>, rest: seq<byte>)
    requires |d| > 1 && AtCipherSuites(d).Found?
    ensures |f| < 65536 && |rest| >= 1 && d == Be16(|f|) + f + rest && AtCipherSuites(d) == AtCompression(rest)
  {
    hide Be16, AtCompression;
    Be16Inverse(d[0], d[1]);
    var end := 2 + U16(d[0], d[1]);
    f, rest := d[2..end], d[end..];
  }

  lemma CompressionSplit(d: seq<byte>) returns (f: seq<byte>, rest: seq<byte>)
    requires |d| > 0 && AtCompression(d).Found?
    ensures |f| < 256 && |rest| >= 2 && d == [|f|] + f + rest && AtCompression(d) == AtExtensions(rest)
  {
    hide AtExtensions;
    var end := 1 + d[0] as int;
    f, rest := d[1..end], d[end..];
  }

  lemma ExtensionsFieldSplit(d: seq<byte>) returns (f: seq<byte>, rest: seq<byte>)
    requires |d| > 1 && AtExtensions(d).Found?
    ensures |f| < 65536 && d == Be16(|f|) + f + rest && AtExtensions(d) == InExtensions(f)
  {
    hide Be16, InExtensions;
    Be16Inverse(d[0], d[1]);
    var end := 2 + U16(d[0], d[1]);
    f, rest := d[2..end], d[end..];
  }

  lemma BlockSplit(block: seq<byte>) returns (h: Hello)
    requires InExtensions(block).Found? && |block| < 65536
    ensures ExtensionBlock(h) == block && InExtensions(block) == Judge(h.name)
    ensures |h.listLen| == 2 && |h.name| < 65536 && ListSize(h) < 65536
    ensures forall e | e in h.before :: 0 < e.kind < 65536 && |e.data| < 65536
    ensures forall e | e in h.others :: e.kind != 0 && |e.name| < 65536
  {
    hide Be16, InExtensions, InNames, Judge, NamesBytes, ExtensionsBytes;
    var before, sni, after := ExtensionsSplit(block);
    var others, name, restOfList := NamesSplit(sni[2..]);
    h := Hello([], [], [], [], before, sni[..2], others, name, restOfList, after, []);
    assert sni == sni[..2] + sni[2..];
  }

  lemma BodySplit(body: seq<byte>) returns (h: Hello)
    requires InBody(body).Found? && |body| < 0x1000000
    ensures ValidHello(h) && BodyBytes(h) == body && InBody(body) == Judge(h.name)
  {
    hide Be16, Judge, InExtensions, ServerNames, ExtensionBlock;
    hide AtSessionId, AtCipherSuites, AtCompression, AtExtensions;
    var sessionId, d1 := SessionIdSplit(body[34..]);
    var cipherSuites, d2 := CipherSuitesSplit(d1);
    var compression, d3 := CompressionSplit(d2);
    var block, restOfBody := ExtensionsFieldSplit(d3);
    var b := BlockSplit(block);
    h := Hello(body[..34], sessionId, cipherSuites, compression,
      b.before, b.listLen, b.others, b.name, b.restOfList, b.after, restOfBody);
    BlockFields(h, b);
    assert BodyFromExtensions(h) == d3;
    assert body == body[..34] + body[34..];
  }

  /** The extension block depends on the extension fields only. */
  lemma BlockFields(h: Hello, b: Hello)
    requires h.before == b.before && h.listLen == b.listLen && h.others == b.others && h.name == b.name
    requires h.restOfList == b.restOfList && h.after == b.after
    ensures ServerNames(h) == ServerNames(b) && ExtensionBlock(h) == ExtensionBlock(b)
  {
    hide Be16, NameBytes, NamesBytes, ExtensionBytes, ExtensionsBytes;
  }

  /** A name is found in a handshake message exactly when the bytes are an encoded hello listing it. */
  lemma FoundInHandshake(d: seq<byte>, name: seq<byte>)
    ensures InHandshake(d) == Found(name) <==>
            !Blank(name) && !Dotted(name)
            && exists h, rest :: ValidHello(h) && h.name == name && d == HandshakeBytes(h) + rest
  {
    JudgeIs(name);
    JudgeName();
    hide Be24, InBody, Judge, Blank, ValidHello, BodyBytes;
    if InHandshake(d) == Found(name) {
      Be24Inverse(d[1], d[2], d[3]);
      var end := 4 + U24(d[1], d[2], d[3]);
      var h := BodySplit(d[4..end]);
      assert d == HandshakeBytes(h) + d[end..];
    }
    if h, rest :| ValidHello(h) && h.name == name && d == HandshakeBytes(h) + rest {
      HandshakeJudged(h, rest);
    }
  }

  lemma JudgeName()
    ensures forall n :: Judge(n).Found? ==> Judge(n).name == n
  {
  }

  /** The same for whole records: never a wrong name, and no name missed. */
  lemma FoundInRecord(d: seq<byte>, name: seq<byte>)
    ensures InRecord(d) == Found(name) <==>
            !Blank(name) && !Dotted(name)
            && exists r, trailing :: ValidRecord(r) && r.hello.name == name && d == RecordBytes(r) + trailing
  {
    JudgeIs(name);
    hide Be16, InHandshake, Judge, Blank, Dotted, ValidHello, HandshakeBytes;
    if InRecord(d) == Found(name) {
      Be16Inverse(d[3], d[4]);
      var end := 5 + U16(d[3], d[4]);
      FoundInHandshake(d[5..end], name);
      var h, rest :| ValidHello(h) && h.name == name && d[5..end] == HandshakeBytes(h) + rest;
      var r := Record(d[2], h, rest);
      assert d == RecordBytes(r) + d[end..];
    }
    if r, trailing :| ValidRecord(r) && r.hello.name == name && d == RecordBytes(r) + trailing {
      RecordJudged(r, trailing);
    }
  }
}
