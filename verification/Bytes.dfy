/**
 Bytes and the big-endian 16-bit numbers that every wire format here is built from.
 */
module Bytes {

  type byte = x: int | 0 <= x < 256

  datatype Option<+T> = None | Some(value: T)

  /** The 16-bit number written most significant byte first. */
  function U16(hi: byte, lo: byte): nat {
    hi * 256 + lo
  }

  // Numbers are written by counting up, with carry: proofs about nested length fields then need no division.

  /** The next two-byte number; the last one is followed by the first. */
  function Next16(s: seq<byte>): (t: seq<byte>)
    requires |s| == 2
    ensures |t| == 2
  {
    if s[1] < 255 then [s[0], s[1] + 1] else if s[0] < 255 then [s[0] + 1, 0] else [0, 0]
  }

  /** The two big-endian bytes of `n`, cut to 16 bits like the source's `as u16`. */
  function Be16(n: nat): (s: seq<byte>)
    ensures |s| == 2
    ensures n < 65536 ==> U16(s[0], s[1]) == n
  {
    if n == 0 then [0, 0] else Next16(Be16(n - 1))
  }

  lemma Be16Inverse(hi: byte, lo: byte)
    ensures U16(hi, lo) < 65536 && Be16(U16(hi, lo)) == [hi, lo]
  {
    hide Be16;
    var s := Be16(U16(hi, lo));
    assert s[0] == hi;
    assert s == [hi, lo];
  }

  /** The 24-bit number written most significant byte first. */
  function U24(a: byte, b: byte, c: byte): nat {
    a * 65536 + b * 256 + c
  }

  /** The next three-byte number. */
  function Next24(s: seq<byte>): (t: seq<byte>)
    requires |s| == 3
    ensures |t| == 3
  {
    var low := Next16(s[1..]);
    [if low != [0, 0] then s[0] else if s[0] < 255 then s[0] + 1 else 0] + low
  }

  function Be24(n: nat): (s: seq<byte>)
    requires n < 0x1000000
    ensures |s| == 3
    ensures U24(s[0], s[1], s[2]) == n
  {
    if n == 0 then [0, 0, 0] else Next24(Be24(n - 1))
  }

  lemma Be24Inverse(a: byte, b: byte, c: byte)
    ensures U24(a, b, c) < 0x1000000 && Be24(U24(a, b, c)) == [a, b, c]
  {
    hide Be24;
    var s := Be24(U24(a, b, c));
    assert s[0] == a && s[1] == b;
    assert s == [a, b, c];
  }

  /** All parts of a multi-part buffer, one after the other. */
  function Flatten(parts: seq<seq<byte>>): seq<byte> {
    if parts == [] then [] else parts[0] + Flatten(parts[1..])
  }

  lemma FlattenNone()
    ensures Flatten([]) == []
  {
  }

  lemma {:induction false} FlattenAppend(parts: seq<seq<byte>>, part: seq<byte>)
    ensures Flatten(parts + [part]) == Flatten(parts) + part
  {
    if parts == [] {
      assert parts + [part] == [part];
      assert [part][1..] == [];
    } else {
      assert (parts + [part])[1..] == parts[1..] + [part];
      FlattenAppend(parts[1..], part);
    }
  }

  lemma {:induction false} FlattenConcat(a: seq<seq<byte>>, b: seq<seq<byte>>)
    ensures Flatten(a + b) == Flatten(a) + Flatten(b)
  {
    if a == [] {
      assert a + b == b;
    } else {
      assert (a + b)[1..] == a[1..] + b;
      FlattenConcat(a[1..], b);
    }
  }

  /** What an inner reader answers: some parts (no bytes at all at end of stream) or an error. */
  datatype Read = Buffers(parts: seq<seq<byte>>) | Failed

  predicate EndOfStream(answer: Read) {
    answer.Buffers? && Flatten(answer.parts) == []
  }

  /** The first n answers bring bytes: none is a failure or the end. */
  ghost predicate Flowing(answers: seq<Read>, n: nat)
    requires n <= |answers|
  {
    forall j | 0 <= j < n :: answers[j].Buffers? && !EndOfStream(answers[j])
  }

  function BytesOf(answer: Read): seq<byte> {
    if answer.Buffers? then Flatten(answer.parts) else []
  }

  /** The bytes of a run of reader answers. */
  function Arrived(answers: seq<Read>): seq<byte> {
    if answers == [] then []
    else Arrived(answers[..|answers| - 1]) + BytesOf(answers[|answers| - 1])
  }

  lemma ArrivedNone()
    ensures Arrived([]) == []
  {
  }

  lemma ArrivedStep(answers: seq<Read>, k: nat)
    requires k < |answers|
    ensures Arrived(answers[..k + 1]) == Arrived(answers[..k]) + BytesOf(answers[k])
  {
    assert answers[..k + 1][..k] == answers[..k];
  }

  lemma Regroup(a: seq<byte>, b: seq<byte>, c: seq<byte>)
    ensures a + (b + c) == (a + b) + c
  {
  }

  /** No two members are equal. */
  ghost predicate NoRepeats(s: seq<nat>) {
    forall i, j | 0 <= i < j < |s| :: s[i] != s[j]
  }

  lemma ConsEqual<T>(x: T, s: seq<T>, t: seq<T>)
    ensures [x] + s == [x] + t <==> s == t
  {
    assert ([x] + s)[1..] == s && ([x] + t)[1..] == t;
  }
}
