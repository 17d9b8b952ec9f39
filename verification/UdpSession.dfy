/**
 A UDP session over one dispatch link: datagrams leave as XUDP frames on the request stream and
 come back as frames on a response stream that is read in arbitrary chunks.
 */
module UdpSession {
  import opened Bytes
  import opened Xudp

  const MAX_DATAGRAM := 65535

  // ---- the request stream ----

  datatype Datagram = Datagram(dest: Target, payload: seq<byte>)

  /** A datagram the session forwards; empty and oversized ones are skipped silently. */
  predicate Sendable(payload: seq<byte>) {
    0 < |payload| <= MAX_DATAGRAM
  }

  predicate ValidDatagram(d: Datagram) {
    ValidTarget(d.dest) && Sendable(d.payload)
  }

  /** The header of the frame carrying a datagram: New with the id for the first, Keep afterwards. */
  function RequestMeta(dest: Target, first: bool, id: seq<byte>): Meta {
    if first then Meta(New, true, Some(dest), Some(id)) else Meta(Keep, true, Some(dest), None)
  }

  function RequestFrame(d: Datagram, first: bool, id: seq<byte>): seq<byte> {
    MetaBytes(RequestMeta(d.dest, first, id)) + (Be16(|d.payload|) + d.payload)
  }

  /** The frames the receiving end is meant to read for a run of sends. */
  function RequestFrames(sent: seq<Datagram>, first: bool, id: seq<byte>): seq<Frame> {
    if sent == [] then []
    else [Frame(RequestMeta(sent[0].dest, first, id), Some(sent[0].payload))] + RequestFrames(sent[1..], false, id)
  }

  function RequestStream(sent: seq<Datagram>, first: bool, id: seq<byte>): seq<byte> {
    if sent == [] then [] else RequestFrame(sent[0], first, id) + RequestStream(sent[1..], false, id)
  }

  lemma {:induction false} RequestAppend(sent: seq<Datagram>, d: Datagram, first: bool, id: seq<byte>)
    ensures RequestStream(sent + [d], first, id)
            == RequestStream(sent, first, id) + RequestFrame(d, first && sent == [], id)
  {
    hide RequestFrame;
    if sent == [] {
      assert sent + [d] == [d];
      assert RequestStream([], false, id) == [];
      assert RequestStream([d][1..], false, id) == [];
    } else {
      assert (sent + [d])[1..] == sent[1..] + [d];
      RequestAppend(sent[1..], d, false, id);
    }
  }

  /** The frames written decode to themselves if and only if every target fits the codec's address buffer. */
  lemma {:induction false} RequestFramesDecode(sent: seq<Datagram>, first: bool, id: seq<byte>)
    requires |id| == GLOBAL_ID_LEN
    requires forall d | d in sent :: ValidDatagram(d)
    ensures Decode(RequestStream(sent, first, id)) == RequestFrames(sent, first, id)
            <==> forall d | d in sent :: AddressFits(d.dest.address)
  {
    hide MetaBytes, NextFrame, Be16, AddressFits, ValidTarget, Utf8;
    if sent == [] {
      NothingDecodes();
    } else {
      assert sent[0] in sent && ValidDatagram(sent[0]);
      assert forall d | d in sent[1..] :: d in sent;
      var m := RequestMeta(sent[0].dest, first, id);
      var part := Be16(|sent[0].payload|) + sent[0].payload;
      var rest := RequestStream(sent[1..], false, id);
      var out := RequestStream(sent, first, id);
      EncodedFrame(m, part, rest);
      RequestFramesDecode(sent[1..], false, id);
      var f := Frame(m, Some(sent[0].payload));
      ConsEqual(f, Decode(rest), RequestFrames(sent[1..], false, id));
      assert out == MetaBytes(m) + part + rest;
      if AddressFits(sent[0].dest.address) {
        var n := NextFrame(out);
        assert out[n.end..] == rest;
        assert out[n.header + 2..n.end] == sent[0].payload;
        assert Decode(out) == [f] + Decode(rest);
        assert sent == [sent[0]] + sent[1..];
      } else {
        assert RequestFrames(sent, first, id)[0] == f;
      }
    }
  }

  lemma {:induction false} RequestFrameAt(sent: seq<Datagram>, first: bool, id: seq<byte>, k: nat)
    requires k < |sent|
    ensures |RequestFrames(sent, first, id)| == |sent|
    ensures RequestFrames(sent, first, id)[k] == Frame(RequestMeta(sent[k].dest, first && k == 0, id), Some(sent[k].payload))
  {
    if k > 0 {
      RequestFrameAt(sent[1..], false, id, k - 1);
    } else if |sent| > 1 {
      RequestFrameAt(sent[1..], false, id, 0);
    }
  }

  lemma RequestFramesLength(sent: seq<Datagram>, first: bool, id: seq<byte>)
    ensures |RequestFrames(sent, first, id)| == |sent|
  {
    if sent != [] {
      RequestFrameAt(sent, first, id, 0);
    }
  }

  /** What the receiving end should read as the k-th of the sent datagrams. */
  ghost predicate CarriesDatagram(f: Frame, d: Datagram, k: nat, id: seq<byte>) {
    && f.meta.status == (if k == 0 then New else Keep)
    && f.meta.globalId == (if k == 0 then Some(id) else None)
    && f.meta.hasData && f.meta.target == Some(d.dest) && f.payload == Some(d.payload)
  }

  ghost predicate CarriesAll(fs: seq<Frame>, sent: seq<Datagram>, id: seq<byte>) {
    |fs| == |sent| && forall k: nat | k < |fs| :: CarriesDatagram(fs[k], sent[k], k, id)
  }

  lemma CarriesExactly(fs: seq<Frame>, sent: seq<Datagram>, id: seq<byte>)
    ensures CarriesAll(fs, sent, id) <==> fs == RequestFrames(sent, true, id)
  {
    RequestFramesLength(sent, true, id);
    hide RequestFrames;
    forall k: nat | k < |sent| && k < |fs|
      ensures CarriesDatagram(fs[k], sent[k], k, id) <==> fs[k] == RequestFrames(sent, true, id)[k]
    {
      RequestFrameAt(sent, true, id, k);
    }
  }

  /**
   The receiving end reads exactly the sent datagrams, each with its own target and payload, the first New with
   the session's id and all later ones Keep without one, if and only if every target fits the codec.
   */
  lemma RequestsDecode(sent: seq<Datagram>, id: seq<byte>)
    requires |id| == GLOBAL_ID_LEN
    requires forall d | d in sent :: ValidDatagram(d)
    ensures CarriesAll(Decode(RequestStream(sent, true, id)), sent, id)
            <==> forall d | d in sent :: AddressFits(d.dest.address)
  {
    hide RequestStream, Decode, CarriesAll, ValidDatagram, AddressFits, RequestFrames;
    RequestFramesDecode(sent, true, id);
    CarriesExactly(Decode(RequestStream(sent, true, id)), sent, id);
  }

  lemma NothingDecodes()
    ensures Decode([]) == []
  {
  }

  // ---- the response stream ----

  /** One read attempt on the buffered bytes. `Stall` is a complete frame that yields no datagram. */
  datatype Attempt =
    | Packet(data: seq<byte>, target: Option<Target>, consumed: nat)
    | Bad(consumed: nat)
    | NeedMore
    | Stall

  function Shift(a: Attempt, n: nat): Attempt {
    match a
    case Packet(data, target, c) => Packet(data, target, n + c)
    case Bad(c) => Bad(n + c)
    case _ => a
  }

  /** What the first frame of the buffer decides; a keep-alive frame is only passed over. */
  datatype Step = Decide(attempt: Attempt) | PassOver(size: nat)

  function ReadFrame(d: seq<byte>): (s: Step)
    ensures s.PassOver? ==> 2 <= s.size <= |d|
    ensures s.Decide? && (s.attempt.Packet? || s.attempt.Bad?) ==> 2 <= s.attempt.consumed <= |d|
    ensures s.Decide? && s.attempt.Packet? ==> s.attempt.data != []
  {
    if |d| < 2 then Decide(NeedMore)
    else if U16(d[0], d[1]) < MIN_META_LEN then Decide(Bad(2))
    else if |d| < 2 + U16(d[0], d[1]) then Decide(NeedMore)
    else
      var h := ParseHeader(d);
      if !h.Header? then Decide(Bad(2 + U16(d[0], d[1])))
      else if h.meta.hasData && |d| < h.consumed + 2 then Decide(NeedMore)
      else
        var len := if h.meta.hasData then U16(d[h.consumed], d[h.consumed + 1]) else 0;
        var off := h.consumed + if h.meta.hasData then 2 else 0;
        if |d| < off + len then Decide(NeedMore)
        else if len > 0 then Decide(Packet(d[off..off + len], h.meta.target, off + len))
        else if h.meta.status == KeepAlive then PassOver(off)
        else Decide(Stall)
  }

  function ReadPacket(d: seq<byte>): (a: Attempt)
    ensures a.Packet? || a.Bad? ==> 2 <= a.consumed <= |d|
    ensures a.Packet? ==> a.data != []
  {
    match ReadFrame(d)
    case Decide(a) => a
    case PassOver(size) => Shift(ReadPacket(d[size..]), size)
  }

  /** The packet reader's loop: keep-alive frames are passed over until something decides. */
  method TryReadPacket(d: seq<byte>) returns (a: Attempt)
    ensures a == ReadPacket(d)
  {
    hide ReadFrame;
    var pos := 0;
    assert d[0..] == d;
    while true
      invariant pos <= |d|
      invariant ReadPacket(d) == Shift(ReadPacket(d[pos..]), pos)
      decreases |d| - pos
    {
      var step := TryReadFrame(d[pos..]);
      if step.Decide? {
        return Shift(step.attempt, pos);
      }
      assert d[pos..][step.size..] == d[pos + step.size..];
      pos := pos + step.size;
    }
  }

  /** One round of that loop, reading the frame field by field. */
  method TryReadFrame(d: seq<byte>) returns (s: Step)
    ensures s == ReadFrame(d)
  {
    hide ParseHeader;
    if |d| < 2 {
      return Decide(NeedMore);
    }
    var bodyLen := U16(d[0], d[1]);
    if bodyLen < MIN_META_LEN {
      return Decide(Bad(2));
    }
    if |d| < 2 + bodyLen {
      return Decide(NeedMore);
    }
    var h := ParseHeader(d);
    if !h.Header? {
      return Decide(Bad(2 + bodyLen));
    }
    var off := h.consumed;
    if h.meta.hasData {
      if |d| < off + 2 {
        return Decide(NeedMore);
      }
      var len := U16(d[off], d[off + 1]);
      off := off + 2;
      if len > 0 {
        if |d| < off + len {
          return Decide(NeedMore);
        }
        return Decide(Packet(d[off..off + len], h.meta.target, off + len));
      }
    }
    if h.meta.status == KeepAlive {
      return PassOver(off);
    }
    return Decide(Stall);
  }

  lemma FrameStable(a: seq<byte>, b: seq<byte>)
    requires ReadFrame(a) != Decide(NeedMore)
    ensures ReadFrame(a + b) == ReadFrame(a)
  {
    hide ParseHeader;
    if U16(a[0], a[1]) >= MIN_META_LEN {
      HeaderStable(a, b);
      var s := ReadFrame(a);
      if s.Decide? && s.attempt.Packet? {
        var off := ParseHeader(a).consumed + 2;
        assert (a + b)[off..off + |s.attempt.data|] == a[off..off + |s.attempt.data|];
      }
    }
  }

  lemma {:induction false} ReadStable(a: seq<byte>, b: seq<byte>)
    requires !ReadPacket(a).NeedMore?
    ensures ReadPacket(a + b) == ReadPacket(a)
    decreases |a|
  {
    hide ReadFrame;
    FrameStable(a, b);
    var s := ReadFrame(a);
    if s.PassOver? {
      assert (a + b)[s.size..] == a[s.size..] + b;
      ReadStable(a[s.size..], b);
    }
  }

  datatype Event = Delivered(target: Option<Target>, data: seq<byte>) | BadFrame
  datatype Drained = Drained(events: seq<Event>, rest: seq<byte>)

  /** Everything that repeated reads of a buffer report, and what stays in it. */
  function Drain(d: seq<byte>): Drained
    decreases |d|
  {
    match ReadPacket(d)
    case Packet(data, target, c) =>
      var tail := Drain(d[c..]);
      Drained([Delivered(target, data)] + tail.events, tail.rest)
    case Bad(c) =>
      var tail := Drain(d[c..]);
      Drained([BadFrame] + tail.events, tail.rest)
    case _ => Drained([], d)
  }

  lemma DrainStep(d: seq<byte>)
    ensures
      var r := ReadPacket(d);
      if r.Packet? || r.Bad? then
        var e := if r.Bad? then BadFrame else Delivered(r.target, r.data);
        var tail := Drain(d[r.consumed..]);
        Drain(d) == Drained([e] + tail.events, tail.rest)
      else Drain(d) == Drained([], d)
    ensures ReadPacket([]) == NeedMore
  {
    assert ReadFrame([]) == Decide(NeedMore);
    hide ReadPacket;
  }

  /** Reading the response in chunks reports what reading it in one piece would. */
  lemma {:induction false} DrainSplit(a: seq<byte>, b: seq<byte>)
    ensures
      var first := Drain(a);
      var second := Drain(first.rest + b);
      Drain(a + b) == Drained(first.events + second.events, second.rest)
    decreases |a|
  {
    hide ReadPacket, Drain;
    DrainStep(a);
    DrainStep(a + b);
    var r := ReadPacket(a);
    if r.Packet? || r.Bad? {
      ReadStable(a, b);
      assert (a + b)[r.consumed..] == a[r.consumed..] + b;
      DrainSplit(a[r.consumed..], b);
    }
  }

  // ---- which response frames get through ----

  datatype Response = Response(meta: Meta, payload: seq<byte>)

  predicate ValidResponse(f: Response) {
    && WellFormed(f.meta) && Encodable(f.meta)
    && |f.payload| < 65536 && (f.payload != [] ==> f.meta.hasData)
  }

  function ResponsePart(f: Response): seq<byte> {
    if f.meta.hasData then Be16(|f.payload|) + f.payload else []
  }

  function ResponseStream(fs: seq<Response>): seq<byte> {
    if fs == [] then [] else MetaBytes(fs[0].meta) + ResponsePart(fs[0]) + ResponseStream(fs[1..])
  }

  /** A New or Keep frame without payload: the session can neither deliver it nor get past it. */
  predicate Stalls(f: Response) {
    f.payload == [] && f.meta.status != KeepAlive
  }

  /** The datagrams the frames carry. */
  function Carried(fs: seq<Response>): seq<Event> {
    if fs == [] then []
    else (if fs[0].payload != [] then [Delivered(fs[0].meta.target, fs[0].payload)] else []) + Carried(fs[1..])
  }

  function CarriedUntilStall(fs: seq<Response>): seq<Event> {
    if fs == [] || Stalls(fs[0]) then []
    else
      (if fs[0].payload != [] then [Delivered(fs[0].meta.target, fs[0].payload)] else [])
      + CarriedUntilStall(fs[1..])
  }

  /** A complete response frame at the head of the buffer decides the read attempt. */
  lemma ReadResponse(f: Response, rest: seq<byte>)
    requires ValidResponse(f)
    ensures
      var head := MetaBytes(f.meta) + ResponsePart(f);
      ReadPacket(head + rest) ==
      if f.payload != [] then Packet(f.payload, f.meta.target, |head|)
      else if f.meta.status == KeepAlive then Shift(ReadPacket(rest), |head|)
      else Stall
  {
    hide Be16, ParseHeader, MetaBytes, WellFormed, Encodable;
    var part := ResponsePart(f);
    var head := MetaBytes(f.meta) + part;
    var out := head + rest;
    assert out == MetaBytes(f.meta) + (part + rest);
    MetaRoundTrip(f.meta, part + rest);
    var size := |MetaBytes(f.meta)|;
    assert ParseHeader(out) == Header(f.meta, size);
    if f.meta.hasData {
      assert out[size] == part[0] && out[size + 1] == part[1];
      assert out[size + 2..size + 2 + |f.payload|] == f.payload;
    }
    assert out[|head|..] == rest;
  }

  lemma {:induction false} ResponsesDrain(fs: seq<Response>)
    requires forall f | f in fs :: ValidResponse(f)
    ensures Drain(ResponseStream(fs)).events == CarriedUntilStall(fs)
  {
    if fs != [] {
      hide ReadPacket, MetaBytes, ResponsePart, ValidResponse;
      var rest := ResponseStream(fs[1..]);
      ReadResponse(fs[0], rest);
      ResponsesDrain(fs[1..]);
      var head := MetaBytes(fs[0].meta) + ResponsePart(fs[0]);
      assert (head + rest)[|head|..] == rest;
      var r := ReadPacket(rest);
      if r.Packet? || r.Bad? {
        assert (head + rest)[|head| + r.consumed..] == rest[r.consumed..];
      }
    }
  }

  /**
   A frame that cannot be read is reported once and skipped: all of it, or only the length if that is too small for
   any header.
   */
  lemma BadFrameSkipped(bad: seq<byte>, rest: seq<byte>)
    requires |bad| >= 2 && U16(bad[0], bad[1]) >= 4 ==> |bad| == 2 + U16(bad[0], bad[1]) && !ParseHeader(bad).Header?
    requires |bad| >= 2 && (U16(bad[0], bad[1]) < 4 ==> |bad| == 2)
    ensures Drain(bad + rest) == Drained([BadFrame] + Drain(rest).events, Drain(rest).rest)
  {
    hide Drain, ParseHeader;
    var d := bad + rest;
    if |bad| > 2 {
      HeaderStable(bad, rest);
    }
    assert ReadFrame(d) == Decide(Bad(|bad|));
    assert d[|bad|..] == rest;
    DrainStep(d);
  }

  /** A frame that has not arrived in full reports nothing and stays where it is. */
  lemma PartialFrameWaits(f: Response, k: nat)
    requires ValidResponse(f) && k < |MetaBytes(f.meta) + ResponsePart(f)|
    ensures var part := (MetaBytes(f.meta) + ResponsePart(f))[..k]; Drain(part) == Drained([], part)
  {
    hide MetaBytes, ResponsePart, ValidResponse, ReadFrame, Drain;
    var part := (MetaBytes(f.meta) + ResponsePart(f))[..k];
    PartialFrame(f, k);
    assert ReadPacket(part) == NeedMore;
    DrainStep(part);
  }

  lemma PartialFrame(f: Response, k: nat)
    requires ValidResponse(f) && k < |MetaBytes(f.meta) + ResponsePart(f)|
    ensures ReadFrame((MetaBytes(f.meta) + ResponsePart(f))[..k]) == Decide(NeedMore)
  {
    hide Be16, MetaBytes, WellFormed, Encodable, ParseHeader;
    var whole := MetaBytes(f.meta) + ResponsePart(f);
    var part, size := whole[..k], |MetaBytes(f.meta)|;
    MetaRoundTrip(f.meta, ResponsePart(f));
    assert ParseHeader(whole) == Header(f.meta, size);
    if k >= size {
      assert part + whole[k..] == whole;
      HeaderStable(part, whole[k..]);
    }
    if k >= size + 2 {
      assert part[size] == ResponsePart(f)[0] && part[size + 1] == ResponsePart(f)[1];
    }
  }

  /** A payload behind a stalling frame. */
  predicate PayloadBehindStall(fs: seq<Response>) {
    exists i, j | 0 <= i < j < |fs| :: Stalls(fs[i]) && fs[j].payload != []
  }

  lemma {:induction false} CarriedNothing(fs: seq<Response>)
    ensures Carried(fs) == [] <==> forall f | f in fs :: f.payload == []
  {
    if fs != [] {
      CarriedNothing(fs[1..]);
      assert fs == [fs[0]] + fs[1..];
    }
  }

  /** Every carried datagram is delivered, in order, exactly when none sits behind a stalling frame. */
  lemma {:induction false} AllDelivered(fs: seq<Response>)
    requires forall f | f in fs :: ValidResponse(f)
    ensures Drain(ResponseStream(fs)).events == Carried(fs) <==> !PayloadBehindStall(fs)
  {
    ResponsesDrain(fs);
    DeliveredIff(fs);
  }

  /** Two Keep frames from one address, the first without payload. */
  function StalledResponses(payload: byte): seq<Response> {
    var meta := Meta(Keep, true, Some(Target(IPv4([1, 2, 3, 4]), 53)), None);
    [Response(meta, []), Response(meta, [payload])]
  }

  /** The second one's payload is never delivered. */
  lemma StallLosesPayload(payload: byte)
    ensures |Carried(StalledResponses(payload))| == 1 && DeliveredOf(StalledResponses(payload)) == []
  {
    var fs := StalledResponses(payload);
    assert fs[1..] == [fs[1]] && fs[1..][1..] == [];
    assert Carried(fs[1..]) == [Delivered(fs[1].meta.target, fs[1].payload)];
    assert forall f | f in fs :: ValidResponse(f);
    hide ResponseStream, Drain;
    ResponsesDrain(fs);
  }

  /** What a session reports of a response stream. */
  function DeliveredOf(fs: seq<Response>): seq<Event> {
    Drain(ResponseStream(fs)).events
  }

  lemma BehindCons(f: Response, fs: seq<Response>)
    ensures PayloadBehindStall([f] + fs)
            <==> (Stalls(f) && exists g | g in fs :: g.payload != []) || PayloadBehindStall(fs)
  {
    hide Stalls;
    var all := [f] + fs;
    if Stalls(f) && exists g | g in fs :: g.payload != [] {
      var j :| 0 <= j < |fs| && fs[j].payload != [];
      assert Stalls(all[0]) && all[j + 1].payload != [];
    }
    if PayloadBehindStall(fs) {
      var i, j :| 0 <= i < j < |fs| && Stalls(fs[i]) && fs[j].payload != [];
      assert Stalls(all[i + 1]) && all[j + 1].payload != [];
    }
    if PayloadBehindStall(all) {
      var i, j :| 0 <= i < j < |all| && Stalls(all[i]) && all[j].payload != [];
      if i == 0 {
        assert fs[j - 1].payload != [];
      } else {
        assert Stalls(fs[i - 1]) && fs[j - 1].payload != [];
      }
    }
  }

  lemma {:induction false} DeliveredIff(fs: seq<Response>)
    ensures CarriedUntilStall(fs) == Carried(fs) <==> !PayloadBehindStall(fs)
  {
    if fs != [] {
      hide PayloadBehindStall;
      assert fs == [fs[0]] + fs[1..];
      BehindCons(fs[0], fs[1..]);
      CarriedNothing(fs[1..]);
      DeliveredIff(fs[1..]);
      if fs[0].payload != [] {
        ConsEqual(Delivered(fs[0].meta.target, fs[0].payload), CarriedUntilStall(fs[1..]), Carried(fs[1..]));
      } else if Stalls(fs[0]) {
        BehindNothing(fs[1..]);
      } else {
        assert Carried(fs) == Carried(fs[1..]);
        assert CarriedUntilStall(fs) == CarriedUntilStall(fs[1..]);
      }
    }
  }

  lemma BehindNothing(fs: seq<Response>)
    ensures (forall f | f in fs :: f.payload == []) ==> !PayloadBehindStall(fs)
  {
  }

  // ---- the session object ----

  datatype Received = Reply(source: Target, data: seq<byte>) | Closed | ProtocolError | IoError | Waiting

  /** Where a reply comes from: its frame's target, or the destination the session started with. */
  function Source(target: Option<Target>, dest: Target): Target {
    if target.Some? then target.value else dest
  }

  /** The established link: first destination, written request bytes, unparsed response bytes. */
  datatype Inner = Inner(dest: Target, request: seq<byte>, accum: seq<byte>, globalId: seq<byte>, newSent: bool)

  /** The request side: what has been written is the stream of what has been sent. */
  ghost predicate RequestSide(inner: Inner, sent: seq<Datagram>) {
    && inner.newSent == (sent != [])
    && |inner.globalId| == GLOBAL_ID_LEN
    && (sent != [] ==> inner.dest == sent[0].dest)
    && (forall d | d in sent :: ValidDatagram(d))
    && inner.request == RequestStream(sent, true, inner.globalId)
  }

  lemma RequestSideStart(dest: Target, id: seq<byte>)
    requires |id| == GLOBAL_ID_LEN
    ensures RequestSide(Inner(dest, [], [], id, false), [])
  {
  }

  lemma RequestSideSend(inner: Inner, sent: seq<Datagram>, d: Datagram)
    requires RequestSide(inner, sent) && ValidDatagram(d) && (sent == [] ==> d.dest == inner.dest)
    ensures RequestSide(inner.(request := inner.request + RequestFrame(d, !inner.newSent, inner.globalId),
                               newSent := true),
                        sent + [d])
  {
    hide RequestFrame, ValidDatagram;
    RequestAppend(sent, d, true, inner.globalId);
  }

  /** The response side: events reported, then those still buffered, are the events of all bytes received. */
  ghost predicate ResponseSide(received: seq<byte>, events: seq<Event>, accum: seq<byte>) {
    Drain(received) == Drained(events + Drain(accum).events, Drain(accum).rest)
  }

  lemma ResponseSideRead(received: seq<byte>, events: seq<Event>, accum: seq<byte>)
    requires ResponseSide(received, events, accum)
    ensures
      var r := ReadPacket(accum);
      if r.Packet? || r.Bad? then
        ResponseSide(received, events + [if r.Bad? then BadFrame else Delivered(r.target, r.data)], accum[r.consumed..])
      else Drain(received) == Drained(events, accum)
  {
    hide ReadPacket, Drain;
    DrainStep(accum);
  }

  lemma ResponseSideArrive(received: seq<byte>, events: seq<Event>, accum: seq<byte>, part: seq<byte>)
    requires ResponseSide(received, events, accum)
    ensures ResponseSide(received + part, events, accum + part)
  {
    hide Drain;
    DrainSplit(received, part);
    DrainSplit(accum, part);
  }

  lemma RequestSideKept(inner: Inner, sent: seq<Datagram>, accum: seq<byte>)
    requires RequestSide(inner, sent)
    ensures RequestSide(inner.(accum := accum), sent)
  {
  }

  /** Before the k-th answer no buffer held a packet or a bad frame. */
  ghost predicate Undecided(start: seq<byte>, source: seq<Read>, k: nat)
    requires k <= |source|
  {
    forall j: nat | j < k :: Undecisive(ReadPacket(start + Arrived(source[..j])))
  }

  predicate Undecisive(a: Attempt) {
    !a.Packet? && !a.Bad?
  }

  /**
   The receive loop: try the buffered bytes, then read on. It takes `k` answers and stops at the
   first buffer that decides, or when the stream ends, fails or has nothing to say.
   */
  method Pump(start: seq<byte>, source: seq<Read>) returns (a: Attempt, stop: Received, accum: seq<byte>, k: nat)
    ensures k <= |source| && accum == start + Arrived(source[..k]) && a == ReadPacket(accum)
    ensures !a.Packet? && !a.Bad? ==>
              if stop.Waiting? then k == |source|
              else k > 0 && if stop.Closed? then EndOfStream(source[k - 1]) else stop.IoError? && source[k - 1].Failed?
    ensures Flowing(source, if k > 0 then k - 1 else 0) && Undecided(start, source, k)
    ensures a.Packet? || a.Bad? || stop.Waiting? ==> Flowing(source, k)
  {
    hide ReadPacket, Arrived, Flatten;
    ArrivedNone();
    accum, k, stop := start, 0, Waiting;
    assert source[..0] == [];
    while true
      invariant k <= |source| && accum == start + Arrived(source[..k])
      invariant Flowing(source, k) && Undecided(start, source, k)
      decreases |source| - k
    {
      a := TryReadPacket(accum);
      if a.Packet? || a.Bad? || k == |source| {
        return;
      }
      ArrivedStep(source, k);
      var answer := source[k];
      k := k + 1;
      if answer.Failed? {
        return a, IoError, accum, k;
      }
      if Flatten(answer.parts) == [] {
        return a, Closed, accum, k;
      }
      accum := accum + Flatten(answer.parts);
    }
  }

  class Session {
    /** Absent until the first datagram is forwarded. */
    var inner: Option<Inner>
    /** Answers of the response stream still to come. */
    var source: seq<Read>

    ghost var sent: seq<Datagram>
    ghost var received: seq<byte>
    ghost var events: seq<Event>

    ghost predicate Valid()
      reads this
    {
      if inner.None? then sent == [] && received == [] && events == []
      else sent != [] && RequestSide(inner.value, sent) && ResponseSide(received, events, inner.value.accum)
    }

    constructor (source: seq<Read>)
      ensures Valid() && inner.None? && sent == [] && this.source == source
    {
      inner, sent, received, events := None, [], [], [];
      this.source := source;
    }

    /** `freshId` is the random id drawn when this call establishes the link. */
    method SendPacket(dest: Target, payload: seq<byte>, freshId: seq<byte>)
      requires Valid() && ValidTarget(dest) && |freshId| == GLOBAL_ID_LEN
      modifies this`inner, this`sent
      ensures Valid()
      ensures sent == old(sent) + if 1 <= |payload| <= 65535 then [Datagram(dest, payload)] else []
      ensures old(inner).Some? ==>
                inner.Some? && inner.value.globalId == old(inner).value.globalId && inner.value.accum == old(inner).value.accum
    {
      hide RequestSide, ResponseSide, RequestFrame, ValidTarget;
      if payload == [] || |payload| > MAX_DATAGRAM {
        return;
      }
      NothingReceived();
      RequestSideStart(dest, freshId);
      var link := if inner.None? then Inner(dest, [], [], freshId, false) else inner.value;
      var d := Datagram(dest, payload);
      RequestSideSend(link, sent, d);
      var frame := RequestFrame(d, !link.newSent, link.globalId);
      inner := Some(link.(request := link.request + frame, newSent := true));
      sent := sent + [d];
    }

    /**
     Takes `k` answers of the response stream until a frame decides. When it returns with nothing
     (closed, failed or waiting) every event of the bytes received so far has been reported.
     */
    method RecvPacket() returns (r: Received, ghost k: nat)
      requires Valid()
      modifies this`source, this`inner, this`received, this`events
      ensures Valid() && inner.Some? == old(inner).Some?
      ensures inner.Some? ==> inner.value == old(inner).value.(accum := inner.value.accum)
      ensures k <= |old(source)| && source == old(source)[k..]
      ensures received == old(received) + Arrived(old(source)[..k])
      ensures r.Reply? ==>
                && sent != [] && |events| == |old(events)| + 1 && events[..|old(events)|] == old(events)
                && events[|old(events)|].Delivered? && events[|old(events)|].data == r.data
                && (events[|old(events)|].target.Some? ==> r.source == events[|old(events)|].target.value)
                && (events[|old(events)|].target.None? ==> r.source == sent[0].dest)
      ensures r.ProtocolError? ==>
                && events == old(events) + [BadFrame] && inner.Some?
                && |inner.value.accum| < |old(inner).value.accum + Arrived(old(source)[..k])|
      ensures !r.Reply? && !r.ProtocolError? ==> events == old(events) && Drain(received).events == events
      ensures r.Closed? ==> k > 0 && EndOfStream(old(source)[k - 1])
      ensures r.IoError? <==> k > 0 && old(source)[k - 1].Failed?
      ensures k > 0 && EndOfStream(old(source)[k - 1]) ==> r.Closed?
      ensures r.Waiting? ==> inner.None? || source == []
      ensures Flowing(old(source), if k > 0 then k - 1 else 0)
      ensures if inner.None? then k == 0 else Undecided(old(inner).value.accum, old(source), k)
    {
      hide RequestSide, ResponseSide, ReadPacket, Drain, Arrived, Flatten;
      NothingReceived();
      if inner.None? {
        ArrivedNone();
        assert old(source)[..0] == [];
        return Waiting, 0;
      }
      var link := inner.value;
      var a, stop, accum, taken := Pump(link.accum, source);
      k := taken;
      ResponseSideArrive(received, events, link.accum, Arrived(source[..k]));
      received, source := received + Arrived(source[..k]), source[taken..];
      ResponseSideRead(received, events, accum);
      if a.Packet? {
        accum, events := accum[a.consumed..], events + [Delivered(a.target, a.data)];
        r := Reply(Source(a.target, link.dest), a.data);
      } else if a.Bad? {
        accum, events := accum[a.consumed..], events + [BadFrame];
        r := ProtocolError;
      } else {
        r := stop;
      }
      RequestSideKept(link, sent, accum);
      inner := Some(link.(accum := accum));
    }
  }

  lemma NothingReceived()
    ensures Drain([]) == Drained([], []) && ResponseSide([], [], [])
  {
    hide ReadPacket;
    DrainStep([]);
  }
}
