/**
 Recognising uTP connection requests (BEP 29): a 20-byte ST_SYN header with zero timestamp
 difference, then a chain of extensions that ends exactly with the datagram.
 */
module Utp {
  import opened Bytes

  const HEADER := 20

  datatype Verdict = BitTorrent | NotIt | NoClue

  /** The chain walk: `kind` announces the extension at the head of `d`, whose first byte announces the next. */
  predicate Chain(kind: byte, d: seq<byte>)
    decreases |d|
  {
    if kind == 0 then d == []
    else
      && |d| >= 2
      && (if kind == 1 then d[1] >= 4 && d[1] % 4 == 0 else kind == 2 && d[1] == 8)
      && |d| >= 2 + d[1] as int
      && Chain(d[0], d[2 + d[1] as int..])
  }

  predicate Accepts(d: seq<byte>) {
    |d| >= HEADER && d[0] == 0x41 && d[8..12] == [0, 0, 0, 0] && Chain(d[1], d[HEADER..])
  }

  method Sniff(payload: seq<byte>) returns (v: Verdict)
    ensures v == NoClue <==> |payload| < HEADER
    ensures v == BitTorrent <==> Accepts(payload)
  {
    if |payload| < HEADER {
      return NoClue;
    }
    if payload[0] != 0x41 {
      return NotIt;
    }
    if payload[8] != 0 || payload[9] != 0 || payload[10] != 0 || payload[11] != 0 {
      return NotIt;
    }
    assert payload[8..12] == [0, 0, 0, 0];
    var extension, offset := payload[1], HEADER;
    while extension != 0
      invariant HEADER <= offset <= |payload|
      invariant Chain(payload[1], payload[HEADER..]) == Chain(extension, payload[offset..])
      decreases |payload| - offset
    {
      if |payload| < offset + 2 {
        return NotIt;
      }
      var length := payload[offset + 1];
      if extension == 1 {
        if length < 4 || length % 4 != 0 {
          return NotIt;
        }
      } else if extension == 2 {
        if length != 8 {
          return NotIt;
        }
      } else {
        return NotIt;
      }
      if |payload| < offset + 2 + length as int {
        return NotIt;
      }
      assert payload[offset..][2 + length as int..] == payload[offset + 2 + length as int..];
      extension := payload[offset];
      offset := offset + 2 + length as int;
    }
    return if |payload| == offset then BitTorrent else NotIt;
  }

  // ---- the language ----

  /** Selective acks (a positive number of four-byte words) and extension bits (eight bytes). */
  datatype Extension = SelectiveAck(mask: seq<byte>) | ExtensionBits(bits: seq<byte>)

  predicate ValidExtension(e: Extension) {
    match e
    case SelectiveAck(mask) => 4 <= |mask| < 256 && |mask| % 4 == 0
    case ExtensionBits(bits) => |bits| == 8
  }

  function Kind(e: Extension): byte {
    match e case SelectiveAck(_) => 1 case ExtensionBits(_) => 2
  }

  function Data(e: Extension): seq<byte> {
    match e case SelectiveAck(mask) => mask case ExtensionBits(bits) => bits
  }

  function FirstKind(es: seq<Extension>): byte {
    if es == [] then 0 else Kind(es[0])
  }

  function ChainBytes(es: seq<Extension>): seq<byte>
    requires forall e | e in es :: ValidExtension(e)
  {
    if es == [] then []
    else
      assert ValidExtension(es[0]);
      [FirstKind(es[1..]), |Data(es[0])|] + Data(es[0]) + ChainBytes(es[1..])
  }

  /** Connection id, timestamp, window, sequence and ack numbers are not looked at. */
  datatype Syn = Syn(idAndTime: seq<byte>, windowAndNumbers: seq<byte>, extensions: seq<Extension>)

  predicate ValidSyn(s: Syn) {
    |s.idAndTime| == 6 && |s.windowAndNumbers| == 8 && forall e | e in s.extensions :: ValidExtension(e)
  }

  function SynBytes(s: Syn): seq<byte>
    requires ValidSyn(s)
  {
    [0x41, FirstKind(s.extensions)] + s.idAndTime + [0, 0, 0, 0] + s.windowAndNumbers + ChainBytes(s.extensions)
  }

  lemma {:induction false} ChainRoundTrip(es: seq<Extension>)
    requires forall e | e in es :: ValidExtension(e)
    ensures Chain(FirstKind(es), ChainBytes(es))
  {
    if es != [] {
      assert es[0] in es && ValidExtension(es[0]);
      var d := ChainBytes(es);
      assert d[2 + |Data(es[0])|..] == ChainBytes(es[1..]);
      ChainRoundTrip(es[1..]);
    }
  }

  lemma {:induction false} ChainSplit(kind: byte, d: seq<byte>) returns (es: seq<Extension>)
    requires Chain(kind, d)
    ensures forall e | e in es :: ValidExtension(e)
    ensures kind == FirstKind(es) && d == ChainBytes(es)
    decreases |d|
  {
    if kind == 0 {
      es := [];
    } else {
      var end := 2 + d[1] as int;
      var e := if kind == 1 then SelectiveAck(d[2..end]) else ExtensionBits(d[2..end]);
      var rest := ChainSplit(d[0], d[end..]);
      es := [e] + rest;
      assert es[1..] == rest;
    }
  }

  lemma SynAccepted(s: Syn)
    requires ValidSyn(s)
    ensures Accepts(SynBytes(s))
  {
    ChainRoundTrip(s.extensions);
    hide Chain, ChainBytes, FirstKind;
    var d := SynBytes(s);
    assert d[8..12] == [0, 0, 0, 0];
    assert d[HEADER..] == ChainBytes(s.extensions);
  }

  lemma AcceptedIsSyn(d: seq<byte>) returns (s: Syn)
    requires Accepts(d)
    ensures ValidSyn(s) && d == SynBytes(s)
  {
    hide Chain, ChainBytes, FirstKind, ValidExtension;
    var es := ChainSplit(d[1], d[HEADER..]);
    s := Syn(d[2..8], d[12..HEADER], es);
    assert d == [0x41, d[1]] + d[2..8] + d[8..12] + d[12..HEADER] + d[HEADER..];
  }

  /** Exactly the encodings of ST_SYN packets with an admissible extension list are accepted. */
  lemma ExactLanguage(d: seq<byte>)
    ensures Accepts(d) <==> exists s :: ValidSyn(s) && d == SynBytes(s)
  {
    hide Accepts, ValidSyn, SynBytes;
    if Accepts(d) {
      var s := AcceptedIsSyn(d);
    }
    if s :| ValidSyn(s) && d == SynBytes(s) {
      SynAccepted(s);
    }
  }
}
