/**
 * Byte buffers and the little-endian field reads the XTR tools perform on them.
 * Every read is guarded: a read that would fall outside the buffer is a
 * precondition here and an explicit failure in the modules that call it.
 */
module Bytes {

  newtype byte = x: int | 0 <= x < 256

  datatype Option<+T> = None | Some(value: T)

  datatype Result<+T, +E> = Ok(value: T) | Err(error: E)

  const TwoTo32: nat := 0x1_0000_0000

  /** The unsigned 32-bit value stored little-endian at `s[at..at + 4]`. */
  function U32(s: seq<byte>, at: nat): (v: nat)
    requires at + 4 <= |s|
    ensures v < TwoTo32
    ensures v == 0 <==> s[at] == 0 && s[at + 1] == 0 && s[at + 2] == 0 && s[at + 3] == 0
  {
    s[at] as nat + 0x100 * (s[at + 1] as nat + 0x100 * (s[at + 2] as nat + 0x100 * s[at + 3] as nat))
  }

  /** The unsigned 16-bit value stored little-endian at `s[at..at + 2]`. */
  function U16(s: seq<byte>, at: nat): (v: nat)
    requires at + 2 <= |s|
    ensures v < 0x1_0000
    ensures v == 0 <==> s[at] == 0 && s[at + 1] == 0
  {
    s[at] as nat + 0x100 * s[at + 1] as nat
  }

  /** The four little-endian bytes of a 32-bit value: the inverse of `U32`. */
  function U32Bytes(v: nat): (s: seq<byte>)
    requires v < TwoTo32
    ensures |s| == 4
  {
    var q1 := v / 0x100;
    var q2 := q1 / 0x100;
    [(v % 0x100) as byte, (q1 % 0x100) as byte, (q2 % 0x100) as byte, (q2 / 0x100) as byte]
  }

  lemma U32RoundTrip(v: nat)
    requires v < TwoTo32
    ensures U32(U32Bytes(v), 0) == v
  {
    var q1 := v / 0x100;
    var q2 := q1 / 0x100;
    assert v == v % 0x100 + 0x100 * q1;
    assert q1 == q1 % 0x100 + 0x100 * q2;
    assert q2 == q2 % 0x100 + 0x100 * (q2 / 0x100);
  }

  /** Reading back an encoded value from any position of a larger buffer. */
  lemma U32ReadBack(s: seq<byte>, at: nat, v: nat)
    requires v < TwoTo32
    requires at + 4 <= |s| && s[at..at + 4] == U32Bytes(v)
    ensures U32(s, at) == v
  {
    var w := U32Bytes(v);
    assert s[at] == w[0] && s[at + 1] == w[1] && s[at + 2] == w[2] && s[at + 3] == w[3];
    U32RoundTrip(v);
  }

  lemma SliceSplit(s: seq<byte>, a: nat, b: nat)
    requires a <= b <= |s|
    ensures s[a..b] + s[b..] == s[a..]
  {
  }

  /** True iff the eight bytes at `at` are all zero (the `memcmp` against eight NULs). */
  predicate ZeroPrefix8(s: seq<byte>, at: nat)
    requires at + 8 <= |s|
  {
    forall k :: at <= k < at + 8 ==> s[k] == 0
  }

  /**
   * The C string starting at `at`: the bytes before the first NUL. `None` when
   * no NUL occurs before the end of the buffer, where `strlen` would read past it.
   */
  function CString(s: seq<byte>, at: nat): (r: Option<seq<byte>>)
    decreases |s| - at
    ensures r.Some? ==> at + |r.value| < |s| && r.value == s[at..at + |r.value|] && s[at + |r.value|] == 0
    ensures r.Some? ==> forall k :: 0 <= k < |r.value| ==> r.value[k] != 0
    ensures r.None? ==> forall k :: at <= k < |s| ==> s[k] != 0
  {
    if at >= |s| then None
    else if s[at] == 0 then Some([])
    else match CString(s, at + 1)
      case None => None
      case Some(rest) => Some([s[at]] + rest)
  }

  /** A NUL-free string followed by a NUL reads back as itself, whatever surrounds it. */
  lemma {:induction false} CStringOf(s: seq<byte>, at: nat, name: seq<byte>)
    requires at + |name| < |s| && s[at..at + |name|] == name && s[at + |name|] == 0
    requires forall k :: 0 <= k < |name| ==> name[k] != 0
    ensures CString(s, at) == Some(name)
    decreases |name|
  {
    if name != [] {
      assert s[at] == name[0];
      assert s[at + 1..at + 1 + |name[1..]|] == name[1..];
      CStringOf(s, at + 1, name[1..]);
    }
  }
}
