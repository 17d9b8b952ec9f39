/**
 Which bytes stop the frame rewriter for good. It waits for more whenever the head of its buffer is not a
 complete frame, also when no more bytes can ever make it one.
 */
module StuckHeader {
  import opened Bytes
  import opened Xudp
  import opened EndpointOverride

  // ---- names that can still become well-formed ----

  /** The length of the character a first byte announces. */
  function CharacterSize(first: byte): nat {
    if first < 0x80 then 1 else if first <= 0xDF then 2 else if first <= 0xEF then 3 else 4
  }

  /** The first character is right as far as it is there. */
  predicate Plausible(s: seq<byte>)
    requires s != []
  {
    var k := CharacterSize(s[0]);
    && (s[0] < 0x80 || 0xC2 <= s[0] <= 0xF4)
    && (k >= 2 && |s| >= 2 ==>
          && Continuation(s[1])
          && (s[0] == 0xE0 ==> s[1] >= 0xA0) && (s[0] == 0xED ==> s[1] <= 0x9F)
          && (s[0] == 0xF0 ==> s[1] >= 0x90) && (s[0] == 0xF4 ==> s[1] <= 0x8F))
    && (k >= 3 && |s| >= 3 ==> Continuation(s[2]))
    && (k == 4 && |s| >= 4 ==> Continuation(s[3]))
  }

  /** Well-formed UTF-8 so far, and able to end within `room` more bytes. */
  predicate Utf8Open(s: seq<byte>, room: nat) {
    if s == [] then true
    else
      var k := CharacterSize(s[0]);
      Plausible(s) && if |s| >= k then Utf8Open(s[k..], room) else room >= k - |s|
  }

  lemma Utf8Unfold(s: seq<byte>)
    requires s != []
    ensures Utf8(s) <==> Plausible(s) && |s| >= CharacterSize(s[0]) && Utf8(s[CharacterSize(s[0])..])
  {
  }

  lemma Utf8None()
    ensures Utf8([])
  {
  }

  function Letters(n: nat): (s: seq<byte>)
    ensures |s| == n
  {
    seq(n, _ => 0x61)
  }

  lemma LettersAreUtf8(n: nat)
    ensures Utf8(Letters(n))
  {
    AsciiIsUtf8(Letters(n));
  }

  /** A continuation byte that fits behind these. */
  function Filler(s: seq<byte>): byte
    requires s != []
  {
    if |s| > 1 then 0x80 else if s[0] == 0xE0 then 0xA0 else if s[0] == 0xF0 then 0x90 else 0x80
  }

  /** One more byte keeps an unfinished character plausible. */
  lemma FillOne(s: seq<byte>, room: nat)
    requires s != [] && Plausible(s) && |s| < CharacterSize(s[0]) && room >= CharacterSize(s[0]) - |s|
    ensures Utf8Open(s + [Filler(s)], room - 1)
  {
    var t := s + [Filler(s)];
    assert Plausible(t);
    if |t| == CharacterSize(s[0]) {
      assert t[|t|..] == [];
      assert Utf8Open([], room - 1);
    }
  }

  /** The bytes that end an open name. */
  lemma {:induction false} EndName(s: seq<byte>, room: nat) returns (c: seq<byte>)
    requires Utf8Open(s, room)
    ensures |c| == room && Utf8(s + c)
    decreases room, |s|
  {
    hide Utf8, Plausible;
    if s == [] {
      c := Letters(room);
      LettersAreUtf8(room);
      assert s + c == c;
    } else {
      var k := CharacterSize(s[0]);
      if |s| >= k {
        c := EndName(s[k..], room);
        assert (s + c)[k..] == s[k..] + c;
        StaysPlausible(s, c);
        Utf8Unfold(s + c);
      } else {
        FillOne(s, room);
        var rest := EndName(s + [Filler(s)], room - 1);
        c := [Filler(s)] + rest;
        assert s + c == s + [Filler(s)] + rest;
      }
    }
  }

  lemma StaysPlausible(s: seq<byte>, c: seq<byte>)
    requires s != []
    ensures Plausible(s + c) ==> Plausible(s)
    ensures |s| >= CharacterSize(s[0]) && Plausible(s) ==> Plausible(s + c)
  {
  }

  lemma {:induction false} EndedWasOpen(s: seq<byte>, c: seq<byte>)
    requires Utf8(s + c)
    ensures Utf8Open(s, |c|)
    decreases |s|
  {
    hide Utf8, Plausible;
    if s != [] {
      var k := CharacterSize(s[0]);
      Utf8Unfold(s + c);
      StaysPlausible(s, c);
      if |s| >= k {
        assert (s + c)[k..] == s[k..] + c;
        EndedWasOpen(s[k..], c);
      }
    }
  }

  // ---- addresses ----

  /** The bytes `a` can be the beginning of `n` bytes that start with a port and an address. */
  predicate CanAddress(a: seq<byte>, n: nat)
    requires |a| <= n
  {
    if |a| <= 2 then n >= 4
    else if a[2] == 1 then n >= 7
    else if a[2] == 3 then n >= 19
    else if a[2] == 2 then
      if |a| == 3 then n >= 4
      else
        var end: nat := a[3] as int + 4;
        n >= end && if |a| >= end then Utf8(a[4..end]) else Utf8Open(a[4..], end - |a|)
    else false
  }

  lemma NamedAddress(d: seq<byte>, end: nat)
    requires 4 <= end <= |d| && d[2] == 2 && d[3] as int + 4 == end && Utf8(d[4..end])
    ensures ParsePortAddress(d).Some?
  {
    hide Utf8;
    var x := d[2..];
    assert x[2..end - 2] == d[4..end];
  }

  lemma EndAddress(a: seq<byte>, n: nat) returns (c: seq<byte>)
    requires |a| <= n && CanAddress(a, n)
    ensures |a + c| == n && ParsePortAddress(a + c).Some?
  {
    if |a| > 2 && a[2] != 2 {
      hide Utf8, Utf8Open;
      c := Letters(n - |a|);
      assert (a + c)[2..][0] == a[2];
    } else {
      c := EndNamedAddress(a, n);
    }
  }

  lemma EndNamedAddress(a: seq<byte>, n: nat) returns (c: seq<byte>)
    requires |a| <= n && CanAddress(a, n) && (|a| > 2 ==> a[2] == 2)
    ensures |a + c| == n && ParsePortAddress(a + c).Some?
  {
    hide Utf8, Utf8Open, ParsePortAddress;
    Utf8None();
    if |a| <= 3 {
      var head := if |a| <= 2 then Letters(2 - |a|) + [2, 0] else [0];
      c := head + Letters(n - 4);
      var d := a + c;
      assert d[4..4] == [];
      NamedAddress(d, 4);
    } else {
      var end: nat := a[3] as int + 4;
      if |a| >= end {
        c := Letters(n - |a|);
        assert (a + c)[4..end] == a[4..end];
      } else {
        var name := EndName(a[4..], end - |a|);
        c := name + Letters(n - end);
        assert a + c == a[..4] + (a[4..] + name) + Letters(n - end);
        assert (a + c)[4..end] == a[4..] + name;
      }
      NamedAddress(a + c, end);
    }
  }

  lemma EndedAddress(a: seq<byte>, c: seq<byte>)
    requires ParsePortAddress(a + c).Some?
    ensures CanAddress(a, |a + c|)
  {
    hide Utf8, Utf8Open;
    var d := a + c;
    assert d[2..] != [];
    if |a| > 2 {
      assert d[2..][0] == a[2];
    }
    if |a| > 3 && a[2] == 2 {
      var end: nat := a[3] as int + 4;
      assert d[2..][1] == a[3] && d[2..][2..end - 2] == d[4..end];
      if |a| >= end {
        assert d[4..end] == a[4..end];
      } else {
        assert d[4..end] == a[4..] + c[..end - |a|];
        EndedWasOpen(a[4..], c[..end - |a|]);
      }
    }
  }

  // ---- headers ----

  /** The bytes `p` can be the beginning of a header body of `n` bytes. */
  predicate CanBody(p: seq<byte>, n: nat)
    requires |p| <= n && n >= MIN_META_LEN
  {
    |p| <= 2 || (
      && ParseStatus(p[2]).Some?
      && (p[2] == 4 || |p| <= 4 || p[4] != NETWORK_UDP || CanAddress(p[5..], n - 5)))
  }

  predicate ParsesBody(body: seq<byte>)
    requires |body| >= MIN_META_LEN
  {
    ParseStatus(body[2]).Some? && ParseTarget(body, ParseStatus(body[2]).value).Some?
  }

  lemma EndBody(p: seq<byte>, n: nat) returns (c: seq<byte>)
    requires |p| <= n && n >= MIN_META_LEN && CanBody(p, n)
    ensures |p + c| == n && ParsesBody(p + c)
  {
    hide CanAddress, ParsePortAddress;
    if |p| <= 2 {
      c := Letters(2 - |p|) + [4] + Letters(n - 3);
      assert (p + c)[2] == 4;
    } else if |p| > 4 && p[4] == NETWORK_UDP && p[2] != 4 {
      c := EndAddress(p[5..], n - 5);
      assert (p + c)[5..] == p[5..] + c;
    } else {
      c := Letters(n - |p|);
      assert |p| <= 4 && n > 4 ==> (p + c)[4] == 0x61;
    }
  }

  lemma EndedBody(p: seq<byte>, c: seq<byte>)
    requires |p + c| >= MIN_META_LEN && ParsesBody(p + c)
    ensures CanBody(p, |p + c|)
  {
    hide CanAddress, ParsePortAddress;
    if |p| > 4 && p[4] == NETWORK_UDP && p[2] != 4 {
      assert (p + c)[5..] == p[5..] + c;
      EndedAddress(p[5..], c);
    }
  }

  /** The head of `d` can still become a header: its length, status, address and name are right so far. */
  predicate CanParse(d: seq<byte>) {
    |d| < 2 || (
      var n := U16(d[0], d[1]);
      n >= MIN_META_LEN && CanBody(d[2..if |d| < 2 + n then |d| else 2 + n], n))
  }

  lemma HeaderByBody(d: seq<byte>)
    ensures ParseHeader(d).Header? <==>
            |d| >= 2 && var n := U16(d[0], d[1]); n >= MIN_META_LEN && |d| >= 2 + n && ParsesBody(d[2..2 + n])
  {
    hide ParseTarget;
  }

  lemma EndLongHeader(d: seq<byte>) returns (c: seq<byte>)
    requires |d| >= 2 && CanParse(d)
    ensures ParseHeader(d + c).Header?
  {
    hide CanBody, ParsesBody, ParseHeader;
    var n := U16(d[0], d[1]);
    var k := if |d| < 2 + n then |d| else 2 + n;
    var body := EndBody(d[2..k], n);
    c := if |d| < 2 + n then body else [];
    var all := d + c;
    assert all[0] == d[0] && all[1] == d[1];
    assert all[2..2 + n] == d[2..k] + body;
    HeaderByBody(all);
  }

  lemma EndHeader(d: seq<byte>) returns (c: seq<byte>)
    requires CanParse(d)
    ensures ParseHeader(d + c).Header?
  {
    hide ParseHeader;
    if |d| < 2 {
      var start: seq<byte> := if d == [] then [0, 4] else [4];
      var e := d + start;
      assert e[2..] == [] && e[2..2] == [];
      var rest := EndLongHeader(e);
      c := start + rest;
      assert d + c == e + rest;
    } else {
      c := EndLongHeader(d);
    }
  }

  lemma EndedHeader(d: seq<byte>, c: seq<byte>)
    requires ParseHeader(d + c).Header?
    ensures CanParse(d)
  {
    hide CanBody, ParsesBody, ParseHeader;
    var all := d + c;
    HeaderByBody(all);
    if |d| >= 2 {
      var n := U16(d[0], d[1]);
      assert all[0] == d[0] && all[1] == d[1];
      if |d| < 2 + n {
        assert all[2..2 + n] == d[2..] + c[..2 + n - |d|];
        EndedBody(d[2..], c[..2 + n - |d|]);
        assert d[2..|d|] == d[2..];
      } else {
        assert all[2..2 + n] == d[2..2 + n] + [];
        EndedBody(d[2..2 + n], []);
      }
    }
  }

  /** A header is completed to a frame by the bytes its payload still lacks. */
  lemma EndFrame(d: seq<byte>) returns (c: seq<byte>)
    requires ParseHeader(d).Header?
    ensures NextFrame(d + c).Next?
  {
    var h := ParseHeader(d);
    HeaderStable(d, [0, 0]);
    var e := d + [0, 0];
    var len := U16(e[h.consumed], e[h.consumed + 1]);
    c := [0, 0] + Letters(len);
    HeaderStable(d, c);
    hide ParseHeader;
    assert (d + c)[h.consumed] == e[h.consumed] && (d + c)[h.consumed + 1] == e[h.consumed + 1];
  }

  /** Some more bytes let the rewriter move on from this buffer. */
  ghost predicate CanMoveOn(d: seq<byte>, from: Address, to: Address) {
    exists b :: Moves(d, b, from, to)
  }

  predicate Moves(d: seq<byte>, b: seq<byte>, from: Address, to: Address) {
    Rewrite(d + b, from, to).consumed > 0
  }

  lemma MovesExactly(d: seq<byte>, b: seq<byte>, from: Address, to: Address)
    ensures Moves(d, b, from, to) <==> NextFrame(d + b).Next?
  {
    hide NextFrame, Rewrite;
    RewriteUnfold(d + b, from, to);
  }

  /**
   The rewriter can still move on if and only if what it holds can become a header. A length below four, an
   unknown status, or an address that is unknown, too long for the header or not UTF-8 stops it for good.
   */
  lemma StuckExactly(d: seq<byte>, from: Address, to: Address)
    ensures CanMoveOn(d, from, to) <==> CanParse(d)
  {
    hide CanParse, Moves, ParseHeader;
    if CanMoveOn(d, from, to) {
      var b :| Moves(d, b, from, to);
      MovesExactly(d, b, from, to);
      EndedHeader(d, b);
    }
    if CanParse(d) {
      var b := EndHeader(d);
      var c := EndFrame(d + b);
      assert d + b + c == d + (b + c);
      MovesExactly(d, b + c, from, to);
    }
  }

  /** Nothing behind such a header is ever rewritten or forwarded. */
  lemma StuckForGood(d: seq<byte>, b: seq<byte>, from: Address, to: Address)
    requires !CanParse(d)
    ensures Rewrite(d + b, from, to) == Rewritten([], 0)
  {
    StuckExactly(d, from, to);
    hide NextFrame, CanParse, Rewrite;
    assert !Moves(d, b, from, to);
    RewriteUnfold(d + b, from, to);
  }

  /** A frame with an unknown status in front of a good one: both stay. */
  lemma BadStatusSticks(good: seq<byte>, from: Address, to: Address)
    ensures Rewrite([0, 4, 0, 0, 9, 0] + good, from, to) == Rewritten([], 0)
  {
    var d := [0, 4, 0, 0, 9, 0];
    assert d[2..6] == [0, 0, 9, 0];
    StuckForGood(d, good, from, to);
  }
}
