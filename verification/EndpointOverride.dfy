/**
 Rewriting the target address of XUDP frames inside a byte stream that arrives in arbitrary
 chunks. Half frames wait in `pending`; complete frames whose target equals `from` leave with `to`. A header
 that cannot be parsed waits as well, and everything behind it: see `StuckHeader`.
 */
module EndpointOverride {
  import opened Bytes
  import opened Xudp

  predicate Hits(m: Meta, from: Address) {
    m.target.Some? && m.target.value.address == from
  }

  function Override(m: Meta, from: Address, to: Address): Meta {
    if Hits(m, from) then m.(target := Some(Target(to, m.target.value.port))) else m
  }

  datatype Rewritten = Rewritten(out: seq<byte>, consumed: nat)

  /** The bytes that leave for the complete frames at the head of `d`, and how much of `d` those are. */
  function Rewrite(d: seq<byte>, from: Address, to: Address): (r: Rewritten)
    ensures r.consumed <= |d|
  {
    match NextFrame(d)
    case Incomplete => Rewritten([], 0)
    case Next(m, header, end) =>
      var tail := Rewrite(d[end..], from, to);
      Rewritten(HeadOut(d, m, header, from, to) + d[header..end] + tail.out, end + tail.consumed)
  }

  /** The header bytes that leave: re-encoded on a hit, copied otherwise. */
  function HeadOut(d: seq<byte>, m: Meta, header: nat, from: Address, to: Address): seq<byte>
    requires header <= |d|
  {
    if Hits(m, from) then MetaBytes(Override(m, from, to)) else d[..header]
  }

  lemma RewriteUnfold(d: seq<byte>, from: Address, to: Address)
    ensures NextFrame(d).Incomplete? ==> Rewrite(d, from, to) == Rewritten([], 0)
    ensures
      var n := NextFrame(d);
      n.Next? ==>
        var tail := Rewrite(d[n.end..], from, to);
        Rewrite(d, from, to)
        == Rewritten(HeadOut(d, n.meta, n.header, from, to) + d[n.header..n.end] + tail.out, n.end + tail.consumed)
  {
    hide NextFrame, HeadOut;
  }

  lemma Reassociate(a: seq<byte>, b: seq<byte>, c: seq<byte>, d: seq<byte>)
    ensures a + (b + c + d) == a + b + c + d
  {
  }

  method RewriteCompleteFrames(buf: seq<byte>, from: Address, to: Address) returns (out: seq<byte>, pos: nat)
    ensures pos <= |buf|
    ensures Rewritten(out, pos) == Rewrite(buf, from, to)
  {
    hide ParseHeader, HeadOut, Rewrite;
    RewriteUnfold([], from, to);
    out, pos := [], 0;
    assert buf[0..] == buf;
    while pos < |buf|
      invariant pos <= |buf|
      invariant Rewrite(buf, from, to).out == out + Rewrite(buf[pos..], from, to).out
      invariant Rewrite(buf, from, to).consumed == pos + Rewrite(buf[pos..], from, to).consumed
    {
      var rest := buf[pos..];
      RewriteUnfold(rest, from, to);
      var header := ParseHeader(rest);
      if !header.Header? {
        break;
      }
      var meta, consumed := header.meta, header.consumed;
      var dataLen := 0;
      if meta.hasData {
        if |rest| < consumed + 2 {
          break;
        }
        dataLen := U16(rest[consumed], rest[consumed + 1]);
        if |rest| < consumed + 2 + dataLen {
          break;
        }
      }
      var frameEnd := consumed + if meta.hasData then 2 + dataLen else 0;
      assert NextFrame(rest) == Next(meta, consumed, frameEnd);
      var head := HeadOut(rest, meta, consumed, from, to);
      assert rest[frameEnd..] == buf[pos + frameEnd..];
      Reassociate(out, head, rest[consumed..frameEnd], Rewrite(rest[frameEnd..], from, to).out);
      out := out + head + rest[consumed..frameEnd];
      pos := pos + frameEnd;
    }
  }

  // ---- chunking ----

  /** One pass over everything equals a pass over a first chunk and a pass over its leftover plus the rest. */
  lemma {:induction false} RewriteSplit(a: seq<byte>, b: seq<byte>, from: Address, to: Address)
    ensures
      var first := Rewrite(a, from, to);
      var second := Rewrite(a[first.consumed..] + b, from, to);
      Rewrite(a + b, from, to) == Rewritten(first.out + second.out, first.consumed + second.consumed)
    decreases |a|
  {
    hide NextFrame, MetaBytes, Hits, Override, Rewrite;
    RewriteUnfold(a, from, to);
    RewriteUnfold(a + b, from, to);
    match NextFrame(a) {
      case Incomplete =>
        assert a[0..] == a;
      case Next(m, header, end) =>
        NextStable(a, b);
        assert (a + b)[end..] == a[end..] + b;
        assert HeadOut(a + b, m, header, from, to) == HeadOut(a, m, header, from, to);
        assert (a + b)[header..end] == a[header..end];
        RewriteSplit(a[end..], b, from, to);
        var rest := Rewrite(a[end..], from, to);
        assert a[end..][rest.consumed..] == a[end + rest.consumed..];
    }
  }

  // ---- meaning ----

  function OverrideAll(fs: seq<Frame>, from: Address, to: Address): seq<Frame> {
    if fs == [] then []
    else [Frame(Override(fs[0].meta, from, to), fs[0].payload)] + OverrideAll(fs[1..], from, to)
  }

  predicate Touches(fs: seq<Frame>, from: Address) {
    exists i | 0 <= i < |fs| :: Hits(fs[i].meta, from)
  }

  lemma TouchesCons(f: Frame, fs: seq<Frame>, from: Address)
    ensures Touches([f] + fs, from) <==> Hits(f.meta, from) || Touches(fs, from)
  {
    if Hits(f.meta, from) {
      assert Hits(([f] + fs)[0].meta, from);
    } else if Touches(fs, from) {
      var i :| 0 <= i < |fs| && Hits(fs[i].meta, from);
      assert Hits(([f] + fs)[i + 1].meta, from);
    }
    if Touches([f] + fs, from) {
      var i :| 0 <= i < |[f] + fs| && Hits(([f] + fs)[i].meta, from);
      if i > 0 {
        assert Hits(fs[i - 1].meta, from);
      }
    }
  }

  lemma TouchesNone(from: Address)
    ensures !Touches([], from) && NextFrame([]).Incomplete?
  {
  }

  /** A rewritten frame reads back as the overridden one exactly when the new address fits the codec. */
  lemma RewrittenFrame(d: seq<byte>, from: Address, to: Address, rest: seq<byte>)
    requires NextFrame(d).Next? && Hits(NextFrame(d).meta, from) && ValidAddress(to)
    ensures
      var n := NextFrame(d);
      var m := Override(n.meta, from, to);
      var out := MetaBytes(m) + d[n.header..n.end] + rest;
      var size := |MetaBytes(m)|;
      && (AddressFits(to) ==> NextFrame(out) == Next(m, size, size + n.end - n.header))
      && (!AddressFits(to) ==> NextFrame(out).Incomplete? || NextFrame(out).meta != m)
  {
    var n := NextFrame(d);
    ParsedWellFormed(d);
    EncodedFrame(Override(n.meta, from, to), d[n.header..n.end], rest);
  }

  /** Decoding the output gives the overridden frames exactly when the address fits or none is overridden. */
  lemma {:induction false} OverrideDecoded(d: seq<byte>, from: Address, to: Address)
    requires ValidAddress(to)
    ensures Decode(Rewrite(d, from, to).out) == OverrideAll(Decode(d), from, to)
            <==> AddressFits(to) || !Touches(Decode(d), from)
    decreases |d|
  {
    hide NextFrame, MetaBytes, AddressFits, Touches;
    match NextFrame(d) {
      case Incomplete =>
        TouchesNone(from);
      case Next(m, header, end) =>
        var tail := Rewrite(d[end..], from, to).out;
        var f := FrameAt(d, m, header, end);
        OverrideDecoded(d[end..], from, to);
        TouchesCons(f, Decode(d[end..]), from);
        assert Decode(d)[1..] == Decode(d[end..]);
        var out := Rewrite(d, from, to).out;
        var f' := Frame(Override(m, from, to), f.payload);
        ConsEqual(f', Decode(tail), OverrideAll(Decode(d[end..]), from, to));
        if !Hits(m, from) {
          assert d[..header] + d[header..end] == d[..end];
          CopiedFrame(d, tail);
          assert out[end..] == tail;
          assert f' == f && FrameAt(out, m, header, end) == f;
        } else {
          RewrittenFrame(d, from, to, tail);
          assert OverrideAll(Decode(d), from, to)[0] == f';
          if AddressFits(to) {
            var n := NextFrame(out);
            assert out[n.end..] == tail;
            assert out[n.header..n.end] == d[header..end];
            if m.hasData {
              assert out[n.header + 2..n.end] == out[n.header..n.end][2..];
              assert d[header + 2..end] == d[header..end][2..];
            }
            assert FrameAt(out, n.meta, n.header, n.end) == f';
          }
        }
    }
  }

  /** The frame is for this address. */
  predicate IsFor(f: Frame, address: Address) {
    f.meta.target.Some? && f.meta.target.value.address == address
  }

  /** One frame of the rewritten stream against the old one. */
  ghost predicate Readdressed(f: Frame, g: Frame, from: Address, to: Address) {
    && g.meta.status == f.meta.status && g.meta.hasData == f.meta.hasData
    && g.meta.globalId == f.meta.globalId && g.payload == f.payload
    && if IsFor(f, from) then g.meta.target == Some(Target(to, f.meta.target.value.port)) else g.meta.target == f.meta.target
  }

  ghost predicate AllReaddressed(fs: seq<Frame>, gs: seq<Frame>, from: Address, to: Address) {
    |gs| == |fs| && forall i | 0 <= i < |fs| :: Readdressed(fs[i], gs[i], from, to)
  }

  lemma {:induction false} OverrideIsReaddressed(fs: seq<Frame>, gs: seq<Frame>, from: Address, to: Address)
    ensures gs == OverrideAll(fs, from, to) <==> AllReaddressed(fs, gs, from, to)
  {
    var all := OverrideAll(fs, from, to);
    if fs != [] && gs != [] {
      OverrideIsReaddressed(fs[1..], gs[1..], from, to);
      assert all[1..] == OverrideAll(fs[1..], from, to);
      assert gs == [gs[0]] + gs[1..];
      if gs == all {
        assert gs[1..] == all[1..];
      }
      assert all[0] == gs[0] <==> Readdressed(fs[0], gs[0], from, to);
      if AllReaddressed(fs[1..], gs[1..], from, to) && Readdressed(fs[0], gs[0], from, to) {
        forall i | 0 <= i < |fs|
          ensures Readdressed(fs[i], gs[i], from, to)
        {
          assert i > 0 ==> fs[i] == fs[1..][i - 1] && gs[i] == gs[1..][i - 1];
        }
      }
      if AllReaddressed(fs, gs, from, to) {
        forall i | 0 <= i < |fs[1..]|
          ensures Readdressed(fs[1..][i], gs[1..][i], from, to)
        {
          assert fs[1..][i] == fs[i + 1] && gs[1..][i] == gs[i + 1];
        }
      }
    }
  }

  /**
   The rewritten stream has the old frames in order, each with its status, flag, id and payload; targets with the
   old address have the new one and the same port, all others are unchanged. This holds exactly when the new
   address fits the codec or no complete frame is for the old one.
   */
  lemma MeaningPreserved(d: seq<byte>, from: Address, to: Address)
    requires ValidAddress(to)
    ensures AllReaddressed(Decode(d), Decode(Rewrite(d, from, to).out), from, to)
            <==> AddressFits(to) || forall i | 0 <= i < |Decode(d)| :: !IsFor(Decode(d)[i], from)
  {
    hide Rewrite, Decode, AddressFits, OverrideAll;
    OverrideDecoded(d, from, to);
    OverrideIsReaddressed(Decode(d), Decode(Rewrite(d, from, to).out), from, to);
    hide AllReaddressed;
    var fs := Decode(d);
    assert Touches(fs, from) <==> exists i | 0 <= i < |fs| :: IsFor(fs[i], from) by {
      assert forall i | 0 <= i < |fs| :: Hits(fs[i].meta, from) <==> IsFor(fs[i], from);
    }
  }

  lemma DecodeHead(d: seq<byte>)
    ensures
      var n := NextFrame(d);
      n.Next? ==> Decode(d) == [FrameAt(d, n.meta, n.header, n.end)] + Decode(d[n.end..])
  {
    hide NextFrame, FrameAt;
  }

  /** A stream without frames for the old address leaves as it came. */
  lemma {:induction false} UntouchedIsCopied(d: seq<byte>, from: Address, to: Address)
    requires forall i | 0 <= i < |Decode(d)| :: !IsFor(Decode(d)[i], from)
    ensures Rewrite(d, from, to).out == d[..Rewrite(d, from, to).consumed]
    decreases |d|
  {
    hide NextFrame, Rewrite, MetaBytes;
    RewriteUnfold(d, from, to);
    match NextFrame(d) {
      case Incomplete =>
      case Next(m, header, end) =>
        DecodeHead(d);
        var fs, tail := Decode(d), Decode(d[end..]);
        hide Decode;
        assert !IsFor(fs[0], from);
        assert forall i | 0 <= i < |tail| :: tail[i] == fs[i + 1];
        UntouchedIsCopied(d[end..], from, to);
        var rest := Rewrite(d[end..], from, to).consumed;
        assert d[..header] + d[header..end] + d[end..][..rest] == d[..end + rest];
    }
  }

  // ---- the two stream ends ----

  class OverrideWriter {
    const from: Address
    const to: Address
    var pending: seq<byte>
    /** Everything handed to the inner writer. */
    var forwarded: seq<byte>
    /** Everything written by callers. */
    ghost var input: seq<byte>

    /** However the input was split: forwarded is one rewrite of it all, pending its unparsed tail. */
    ghost predicate Valid()
      reads this
    {
      var all := Rewrite(input, from, to);
      forwarded == all.out && pending == input[all.consumed..]
    }

    constructor (from: Address, to: Address)
      ensures Valid() && input == [] && this.from == from && this.to == to
    {
      this.from, this.to := from, to;
      pending, forwarded, input := [], [], [];
    }

    method WriteMultiBuffer(mb: seq<seq<byte>>)
      requires Valid()
      modifies this
      ensures Valid() && input == old(input) + Flatten(mb)
      ensures old(forwarded) <= forwarded
    {
      hide Rewrite, Flatten;
      FlattenNone();
      for i := 0 to |mb|
        invariant pending == old(pending) + Flatten(mb[..i])
        invariant input == old(input) && forwarded == old(forwarded)
      {
        assert mb[..i + 1] == mb[..i] + [mb[i]];
        FlattenAppend(mb[..i], mb[i]);
        pending := pending + mb[i];
      }
      assert mb[..|mb|] == mb;
      RewriteSplit(input, Flatten(mb), from, to);
      var out, consumed := RewriteCompleteFrames(pending, from, to);
      input := input + Flatten(mb);
      assert pending[consumed..] == input[Rewrite(input, from, to).consumed..];
      pending := pending[consumed..];
      if out != [] {
        forwarded := forwarded + out;
      }
    }
  }

  /** Result of a read call; `Waiting` is a call whose inner reader has nothing to say yet. */
  datatype ReadResult = Bytes(data: seq<byte>) | ReadError | Waiting

  class OverrideReader {
    const from: Address
    const to: Address
    var pending: seq<byte>
    /** Answers the inner reader has yet to give. */
    var source: seq<Read>
    /** Everything returned to callers so far. */
    ghost var emitted: seq<byte>
    /** Bytes read since the last end of stream, and what had been emitted before them. */
    ghost var input: seq<byte>
    ghost var before: seq<byte>

    ghost predicate Valid()
      reads this
    {
      var all := Rewrite(input, from, to);
      emitted == before + all.out && pending == input[all.consumed..]
    }

    constructor (from: Address, to: Address, source: seq<Read>)
      ensures Valid() && input == [] && before == [] && this.source == source
      ensures this.from == from && this.to == to
    {
      this.from, this.to, this.source := from, to, source;
      pending, emitted, input, before := [], [], [], [];
    }

    /** Appends a part to the buffered bytes and rewrites the frames it completes. */
    method Absorb(part: seq<byte>) returns (out: seq<byte>, consumed: nat)
      requires Valid()
      modifies this`pending, this`input
      ensures input == old(input) + part
      ensures
        var all := Rewrite(input, from, to);
        emitted + out == before + all.out && pending == input[all.consumed..]
      ensures out == [] <==> consumed == 0
    {
      hide Rewrite;
      RewriteSplit(input, part, from, to);
      pending, input := pending + part, input + part;
      out, consumed := RewriteCompleteFrames(pending, from, to);
      RewriteProgress(pending, from, to);
      pending := pending[consumed..];
    }

    /**
     Reads until a frame completes or the stream ends, taking `k` answers. At end of stream exactly
     one rewrite of all the input and then its unparsed tail have been emitted; before that a read
     never returns nothing, which a caller would take for the end.
     */
    method ReadMultiBuffer() returns (r: ReadResult, ghost k: nat)
      requires Valid()
      modifies this
      ensures Valid()
      ensures k <= |old(source)| && source == old(source)[k..]
      ensures emitted == old(emitted) + (if r.Bytes? then r.data else [])
      ensures
        var ended := r.Bytes? && k > 0 && EndOfStream(old(source)[k - 1]);
        var all := old(input) + Arrived(old(source)[..k]);
        if ended then
          var w := Rewrite(all, from, to);
          emitted == old(before) + w.out + all[w.consumed..] && input == [] && before == emitted
        else
          input == all && before == old(before) && (r.Bytes? ==> r.data != [])
      ensures r.Waiting? ==> source == []
      ensures r.ReadError? <==> k > 0 && old(source)[k - 1].Failed?
      ensures Flowing(old(source), if k > 0 then k - 1 else 0)
      ensures k > 0 && EndOfStream(old(source)[k - 1]) ==> r.Bytes?
    {
      hide Rewrite, Flatten, Arrived;
      RewriteUnfold([], from, to);
      TouchesNone(from);
      ArrivedNone();
      k := 0;
      while source != []
        invariant 0 <= k <= |old(source)| && source == old(source)[k..]
        invariant Valid() && emitted == old(emitted) && before == old(before)
        invariant input == old(input) + Arrived(old(source)[..k])
        invariant Flowing(old(source), k)
        decreases |source|
      {
        var answer := source[0];
        ArrivedStep(old(source), k);
        source, k := source[1..], k + 1;
        if answer.Failed? {
          return ReadError, k;
        }
        var part := Flatten(answer.parts);
        var out, consumed := Absorb(part);
        assert input == old(input) + Arrived(old(source)[..k]);
        if part == [] {
          r := Bytes(out + pending);
          assert emitted + (out + pending) == before + Rewrite(input, from, to).out + pending;
          emitted := emitted + (out + pending);
          pending, input, before := [], [], emitted;
          return;
        }
        if consumed > 0 {
          emitted := emitted + out;
          return Bytes(out), k;
        }
      }
      return Waiting, k;
    }
  }

  lemma RewriteProgress(d: seq<byte>, from: Address, to: Address)
    ensures var r := Rewrite(d, from, to); r.out == [] <==> r.consumed == 0
  {
  }
}
