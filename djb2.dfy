/**
 * The `djb2Hash` extension of menudump.swift: a 5381-seeded left fold of
 * `h * 33 + byte` over the UTF-8 bytes of a string, in Swift's 64-bit `Int`
 * with wrap-around (`<<` discards the bits shifted out, `&+` wraps).
 */
module Djb2 {

  // ---------------------------------------------------------------------------
  // UTF-8
  // ---------------------------------------------------------------------------

  /** A byte value. */
  predicate IsByte(b: int) {
    0 <= b < 0x100
  }

  /** A UTF-8 continuation byte, 10xxxxxx. */
  predicate IsContinuation(b: int) {
    0x80 <= b < 0xC0
  }

  /** The UTF-8 encoding of one Unicode scalar value (one to four bytes). */
  function EncodeScalar(c: char): (bs: seq<int>)
    ensures 1 <= |bs| <= 4
    ensures forall i :: 0 <= i < |bs| ==> IsByte(bs[i])
    ensures !IsContinuation(bs[0])
    ensures forall i :: 1 <= i < |bs| ==> IsContinuation(bs[i])
    ensures |bs| == LeadLength(bs[0])
  {
    var n := c as int;
    if n < 0x80 then [n]
    else if n < 0x800 then [0xC0 + n / 0x40, 0x80 + n % 0x40]
    else if n < 0x1_0000 then [0xE0 + n / 0x1000, 0x80 + (n / 0x40) % 0x40, 0x80 + n % 0x40]
    else [0xF0 + n / 0x4_0000, 0x80 + (n / 0x1000) % 0x40, 0x80 + (n / 0x40) % 0x40, 0x80 + n % 0x40]
  }

  /** How many bytes a sequence starting with lead byte `b` occupies. */
  function LeadLength(b: int): nat
  {
    if b < 0x80 then 1 else if b < 0xE0 then 2 else if b < 0xF0 then 3 else 4
  }

  /** The scalar value of one encoded sequence, read back from its bytes. */
  function DecodeScalar(bs: seq<int>): int
    requires 1 <= |bs| && |bs| == LeadLength(bs[0])
  {
    if |bs| == 1 then bs[0]
    else if |bs| == 2 then (bs[0] - 0xC0) * 0x40 + (bs[1] - 0x80)
    else if |bs| == 3 then (bs[0] - 0xE0) * 0x1000 + (bs[1] - 0x80) * 0x40 + (bs[2] - 0x80)
    else (bs[0] - 0xF0) * 0x4_0000 + (bs[1] - 0x80) * 0x1000 + (bs[2] - 0x80) * 0x40 + (bs[3] - 0x80)
  }

  /** Decoding an encoded scalar gives the scalar back. */
  lemma DecodeEncodeScalar(c: char)
    ensures DecodeScalar(EncodeScalar(c)) == c as int
  {
    var n := c as int;
    var lo := n % 0x40;
    var mid := (n / 0x40) % 0x40;
    var hi := (n / 0x1000) % 0x40;
    assert n == (n / 0x40) * 0x40 + lo;
    assert n / 0x40 == (n / 0x1000) * 0x40 + mid;
    assert n / 0x1000 == (n / 0x4_0000) * 0x40 + hi;
  }

  /** `s.utf8`: the UTF-8 bytes of a string. */
  function Utf8(s: string): (bs: seq<int>)
    ensures |s| <= |bs| <= 4 * |s|
    ensures forall i :: 0 <= i < |bs| ==> IsByte(bs[i])
  {
    if s == [] then [] else EncodeScalar(s[0]) + Utf8(s[1..])
  }

  /** The scalar values of a byte sequence, read one lead byte at a time. */
  function Utf8Decode(bs: seq<int>): seq<int>
    decreases |bs|
  {
    if bs == [] then []
    else
      var n := LeadLength(bs[0]);
      if n <= |bs| then [DecodeScalar(bs[..n])] + Utf8Decode(bs[n..])
      else [bs[0]] + Utf8Decode(bs[1..])
  }

  /** The scalar values of a string. */
  function Scalars(s: string): (r: seq<int>)
    ensures |r| == |s|
    ensures forall i :: 0 <= i < |s| ==> r[i] == s[i] as int
  {
    if s == [] then [] else [s[0] as int] + Scalars(s[1..])
  }

  /** An ASCII string is its own UTF-8 encoding, one byte per character. */
  lemma {:induction false} Utf8Ascii(s: string)
    requires forall i :: 0 <= i < |s| ==> s[i] < 0x80 as char
    ensures |Utf8(s)| == |s|
    ensures forall i :: 0 <= i < |s| ==> Utf8(s)[i] == s[i] as int
  {
    if s != [] {
      Utf8Ascii(s[1..]);
    }
  }

  /**
   * UTF-8 loses nothing: decoding the bytes of a string gives its scalars, so
   * two different strings never feed the hash the same bytes.
   */
  lemma {:induction false} Utf8RoundTrip(s: string)
    ensures Utf8Decode(Utf8(s)) == Scalars(s)
  {
    if s != [] {
      var e := EncodeScalar(s[0]);
      var bs := Utf8(s);
      assert bs == e + Utf8(s[1..]);
      assert bs[..|e|] == e;
      assert bs[|e|..] == Utf8(s[1..]);
      DecodeEncodeScalar(s[0]);
      Utf8RoundTrip(s[1..]);
    }
  }

  /** Equal bytes mean equal strings. */
  lemma Utf8Injective(s: string, t: string)
    requires Utf8(s) == Utf8(t)
    ensures s == t
  {
    Utf8RoundTrip(s);
    Utf8RoundTrip(t);
    assert forall i :: 0 <= i < |s| ==> s[i] as int == t[i] as int;
  }

  // ---------------------------------------------------------------------------
  // 64-bit wrap-around
  // ---------------------------------------------------------------------------

  const TwoTo63: int := 0x8000_0000_0000_0000
  const TwoTo64: int := 0x1_0000_0000_0000_0000
  /** `Int.min` on a 64-bit platform. */
  const Int64Min: int := -TwoTo63

  predicate IsInt64(x: int) {
    -TwoTo63 <= x < TwoTo63
  }

  /** The Swift `Int` with the same low 64 bits as `x`. */
  function Wrap(x: int): (r: int)
    ensures IsInt64(r)
  {
    (x + TwoTo63) % TwoTo64 - TwoTo63
  }

  /** An `Int` wraps to itself. */
  lemma WrapInt64(x: int)
    requires IsInt64(x)
    ensures Wrap(x) == x
  {
  }

  /** Wrapping only depends on `x` modulo 2^64. */
  lemma WrapShift(x: int, k: int)
    ensures Wrap(x + k * TwoTo64) == Wrap(x)
  {
    var a := x + TwoTo63;
    assert (a + k * TwoTo64) % TwoTo64 == a % TwoTo64 by {
      var q := a / TwoTo64;
      var r := a % TwoTo64;
      assert a + k * TwoTo64 == (q + k) * TwoTo64 + r;
    }
  }

  /** `x` and its wrap differ by a multiple of 2^64. */
  lemma WrapOffset(x: int) returns (k: int)
    ensures Wrap(x) == x + k * TwoTo64
  {
    k := -((x + TwoTo63) / TwoTo64);
  }

  /** Wrapping an intermediate result changes nothing once the sum is wrapped again. */
  lemma WrapAdd(x: int, y: int)
    ensures Wrap(Wrap(x) + y) == Wrap(x + y)
  {
    var k := WrapOffset(x);
    WrapShift(x + y, k);
    assert Wrap(x) + y == x + y + k * TwoTo64;
  }

  /** The same for a product. */
  lemma WrapMul(x: int, m: int)
    ensures Wrap(Wrap(x) * m) == Wrap(x * m)
  {
    var k := WrapOffset(x);
    WrapShift(x * m, k * m);
    assert Wrap(x) * m == x * m + (k * m) * TwoTo64;
  }

  // ---------------------------------------------------------------------------
  // The hash
  // ---------------------------------------------------------------------------

  const Seed: int := 5381

  /** One step of the fold: `(h << 5) &+ h &+ b`. */
  function Step(h: int, b: int): int
  {
    Wrap(Wrap(Wrap(h * 32) + h) + b)
  }

  /** `reduce(h) { step }` over a byte sequence. */
  function Fold(h: int, bytes: seq<int>): int
    decreases |bytes|
  {
    if bytes == [] then h else Fold(Step(h, bytes[0]), bytes[1..])
  }

  /** `djb2Hash` over a byte sequence: the fold of `Step` from the seed. */
  function Hash(bytes: seq<int>): (h: int)
  {
    Fold(Seed, bytes)
  }

  /** The same fold without any wrap-around: `p * 33 + b` for each byte in turn. */
  function Polynomial(p: int, bytes: seq<int>): int
    decreases |bytes|
  {
    if bytes == [] then p else Polynomial(p * 33 + bytes[0], bytes[1..])
  }

  /** A step whose result fits in an `Int` does not wrap. */
  lemma StepNoWrap(h: int, b: int)
    requires 0 <= h && IsByte(b) && h * 33 + b < TwoTo63
    ensures Step(h, b) == h * 33 + b
  {
    WrapInt64(h * 32);
    WrapInt64(h * 32 + h);
    WrapInt64(h * 33 + b);
  }

  /** The fold takes the first byte first. */
  lemma FoldCons(h: int, b: int, rest: seq<int>)
    ensures Fold(h, [b] + rest) == Fold(Step(h, b), rest)
  {
    assert ([b] + rest)[1..] == rest;
  }

  /** One step on a wrapped value is the wrapped step on the unwrapped one. */
  lemma StepWrapped(p: int, b: int)
    ensures Step(Wrap(p), b) == Wrap(p * 33 + b)
  {
    var h := Wrap(p);
    calc {
      Step(h, b);
      Wrap(Wrap(Wrap(h * 32) + h) + b);
      { WrapAdd(Wrap(h * 32) + h, b); }
      Wrap(Wrap(h * 32) + h + b);
      { WrapAdd(h * 32, h + b); }
      Wrap(h * 32 + h + b);
      Wrap(Wrap(p) * 33 + b);
      { WrapAdd(Wrap(p) * 33, b); }
      Wrap(Wrap(Wrap(p) * 33) + b);
      { WrapMul(p, 33); }
      Wrap(Wrap(p * 33) + b);
      { WrapAdd(p * 33, b); }
      Wrap(p * 33 + b);
    }
  }

  /** Wrapping at every step is wrapping once at the end. */
  lemma {:induction false} FoldIsWrappedPolynomial(p: int, bytes: seq<int>)
    ensures Fold(Wrap(p), bytes) == Wrap(Polynomial(p, bytes))
    decreases |bytes|
  {
    if bytes != [] {
      StepWrapped(p, bytes[0]);
      FoldIsWrappedPolynomial(p * 33 + bytes[0], bytes[1..]);
    }
  }

  /**
   * The hash is a Swift `Int` holding the low 64 bits of the unwrapped
   * polynomial 5381 * 33^n + b_0 * 33^(n-1) + ... + b_(n-1).
   */
  lemma HashIsWrappedPolynomial(bytes: seq<int>)
    ensures IsInt64(Hash(bytes))
    ensures Hash(bytes) == Wrap(Polynomial(Seed, bytes))
  {
    WrapInt64(Seed);
    FoldIsWrappedPolynomial(Seed, bytes);
  }

  /** `s.djb2Hash`. */
  function StringHash(s: string): (h: int)
    ensures IsInt64(h)
  {
    HashIsWrappedPolynomial(Utf8(s));
    Hash(Utf8(s))
  }
}
