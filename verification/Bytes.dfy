/**
 Bytes, big-endian words and four-byte rounding (osctap/osc/OscUtilities.h).

 A C++ `char` is modelled by its raw eight bits, a pointer into a buffer by an offset.
 Machine words are integers with their range written out, and every truncating cast of
 the C++ code appears as an explicit `%`.
 */
module Bytes {
  type byte = x: int | 0 <= x < 256
  type u32 = x: int | 0 <= x < 0x1_0000_0000
  type u64 = x: int | 0 <= x < 0x1_0000_0000_0000_0000
  type i32 = x: int | -0x8000_0000 <= x < 0x8000_0000
  type i64 = x: int | -0x8000_0000_0000_0000 <= x < 0x8000_0000_0000_0000

  /** The largest size of a packet, element or blob the library accepts. */
  const MAX_ELEMENT_SIZE: int := 0x7FFF_FFFC

  datatype Option<+T> = None | Some(value: T)

  datatype Result<+T, +E> = Ok(value: T) | Err(error: E)

  /** The next multiple of four, over unbounded naturals. */
  function Up4(x: nat): (r: nat)
    ensures x <= r < x + 4
  {
    (x + 3) / 4 * 4
  }

  predicate Aligned(n: int) {
    n % 4 == 0
  }

  lemma Up4Aligned(x: nat)
    ensures Aligned(Up4(x))
    ensures Aligned(x) ==> Up4(x) == x
    ensures Up4(x + 4) == Up4(x) + 4
  {
  }

  lemma AlignedSum(x: int, y: int)
    requires Aligned(x)
    ensures Aligned(x + y) <==> Aligned(y)
  {
    var q, r := x / 4, y / 4;
    assert x == 4 * q && y == 4 * r + y % 4;
    assert x + y == 4 * (q + r) + y % 4;
  }

  lemma AlignedDifference(x: int, y: int)
    requires Aligned(x) && Aligned(y)
    ensures Aligned(x - y)
  {
    var q, r := x / 4, y / 4;
    assert x == 4 * q && y == 4 * r;
    assert x - y == 4 * (q - r);
  }

  lemma AlignedRoom(n: int)
    requires Aligned(n) && n > 0
    ensures n >= 4 && Aligned(n - 4)
  {
  }

  /** `RoundUp4`: the 32-bit operation of the library, which wraps at the top of its range. */
  function RoundUp4(x: u32): (r: u32)
    ensures x <= 0xFFFF_FFFC ==> r == Up4(x)
    ensures x > 0xFFFF_FFFC ==> r == 0
  {
    (x + 3) % 0x1_0000_0000 / 4 * 4
  }

  function Zeros(n: nat): (s: seq<byte>)
    ensures |s| == n && forall i :: 0 <= i < n ==> s[i] == 0
  {
    seq(n, _ => 0)
  }

  // ----- big-endian words

  /** The four bytes that `StoreBigEndian32` writes for the low 32 bits of `x`. */
  function Bytes32(x: nat): (s: seq<byte>)
    ensures |s| == 4
  {
    [x / 0x100_0000 % 256, x / 0x1_0000 % 256, x / 0x100 % 256, x % 256]
  }

  /** `LoadBigEndian32` at offset `p`. */
  function Load32(s: seq<byte>, p: nat): (x: u32)
    requires p + 4 <= |s|
  {
    var (a: int, b: int, c: int, d: int) := (s[p], s[p + 1], s[p + 2], s[p + 3]);
    a * 0x100_0000 + b * 0x1_0000 + c * 0x100 + d
  }

  function Bytes64(x: nat): (s: seq<byte>)
    ensures |s| == 8
  {
    Bytes32(x / 0x1_0000_0000) + Bytes32(x)
  }

  function Load64(s: seq<byte>, p: nat): (x: u64)
    requires p + 8 <= |s|
  {
    var (high: int, low: int) := (Load32(s, p), Load32(s, p + 4));
    high * 0x1_0000_0000 + low
  }

  /** Dividing by a power of 256 is dividing by 256 that many times. */
  lemma Shifts(x: nat)
    ensures x / 0x1_0000 == x / 256 / 256
    ensures x / 0x100_0000 == x / 256 / 256 / 256
    ensures x / 0x1_0000_0000 == x / 256 / 256 / 256 / 256
  {
  }

  /** The four low base-256 digits of `x` add up to its low 32 bits. */
  lemma Recompose(x: nat)
    ensures var t := Bytes32(x);
            (t[0] as int) * 0x100_0000 + (t[1] as int) * 0x1_0000 + (t[2] as int) * 0x100 + t[3] == x % 0x1_0000_0000
  {
    Shifts(x);
    var q1 := x / 256;
    var q2 := q1 / 256;
    var q3 := q2 / 256;
    var q4 := q3 / 256;
    assert x == q1 * 256 + x % 256;
    assert q1 == q2 * 256 + q1 % 256;
    assert q2 == q3 * 256 + q2 % 256;
    assert q3 == q4 * 256 + q3 % 256;
    assert x == q4 * 0x1_0000_0000 + (q3 % 256 * 0x100_0000 + q2 % 256 * 0x1_0000 + q1 % 256 * 0x100 + x % 256);
  }

  /** Reading a stored word gives its low 32 bits, wherever in a buffer it stands. */
  lemma LoadStored32(s: seq<byte>, p: nat, x: nat)
    requires p + 4 <= |s| && s[p..p + 4] == Bytes32(x)
    ensures Load32(s, p) == x % 0x1_0000_0000
  {
    Recompose(x);
    assert s[p..p + 4] == [s[p], s[p + 1], s[p + 2], s[p + 3]];
  }

  lemma LoadStored64(s: seq<byte>, p: nat, x: u64)
    requires p + 8 <= |s| && s[p..p + 8] == Bytes64(x)
    ensures Load64(s, p) == x
  {
    hide Bytes32, Load32;
    assert s[p..p + 4] == s[p..p + 8][..4] == Bytes32(x / 0x1_0000_0000);
    assert s[p + 4..p + 8] == s[p..p + 8][4..] == Bytes32(x);
    LoadStored32(s, p, x / 0x1_0000_0000);
    LoadStored32(s, p + 4, x);
  }

  /** A loaded word depends only on its own four bytes. */
  lemma LoadSlice32(s: seq<byte>, p: nat, t: seq<byte>, q: nat)
    requires p + 4 <= |s| && q + 4 <= |t| && s[p..p + 4] == t[q..q + 4]
    ensures Load32(s, p) == Load32(t, q)
  {
    var a, b := s[p..p + 4], t[q..q + 4];
    assert s[p] == a[0] && s[p + 1] == a[1] && s[p + 2] == a[2] && s[p + 3] == a[3];
    assert t[q] == b[0] && t[q + 1] == b[1] && t[q + 2] == b[2] && t[q + 3] == b[3];
  }

  lemma Digits(a: byte, b: byte, c: byte, d: byte)
    ensures var x := (a as int) * 0x100_0000 + (b as int) * 0x1_0000 + (c as int) * 0x100 + d;
            x / 0x100_0000 % 256 == a && x / 0x1_0000 % 256 == b && x / 0x100 % 256 == c && x % 256 == d
  {
    var x := (a as int) * 0x100_0000 + (b as int) * 0x1_0000 + (c as int) * 0x100 + d;
    assert x % 256 == d;
    assert x / 0x100 == (a as int) * 0x1_0000 + (b as int) * 0x100 + c;
    assert x / 0x1_0000 == (a as int) * 0x100 + b;
    assert x / 0x100_0000 == a;
  }

  /** Storing a loaded word writes the same four bytes back. */
  lemma StoreLoaded32(s: seq<byte>, p: nat)
    requires p + 4 <= |s|
    ensures Bytes32(Load32(s, p)) == s[p..p + 4]
  {
    Digits(s[p], s[p + 1], s[p + 2], s[p + 3]);
    assert s[p..p + 4] == [s[p], s[p + 1], s[p + 2], s[p + 3]];
  }

  // ----- two's complement (the library's BitCast between signed and unsigned words)

  function Word32(x: i32): (w: u32)
    ensures w == x % 0x1_0000_0000
  {
    if x < 0 then x + 0x1_0000_0000 else x
  }

  function Signed32(w: u32): (x: i32)
    ensures Word32(x) == w
  {
    if w >= 0x8000_0000 then w - 0x1_0000_0000 else w
  }

  function Word64(x: i64): (w: u64)
    ensures w == x % 0x1_0000_0000_0000_0000
  {
    if x < 0 then x + 0x1_0000_0000_0000_0000 else x
  }

  function Signed64(w: u64): (x: i64)
    ensures Word64(x) == w
  {
    if w >= 0x8000_0000_0000_0000 then w - 0x1_0000_0000_0000_0000 else w
  }

  // ----- storing into a buffer

  /** `StoreBigEndian32`. */
  method Store32(a: array<byte>, p: nat, x: u32)
    requires p + 4 <= a.Length
    modifies a
    ensures a[..p + 4] == old(a[..p]) + Bytes32(x) && a[p + 4..] == old(a[p + 4..])
  {
    a[p] := x / 0x100_0000;
    a[p + 1] := x / 0x1_0000 % 256;
    a[p + 2] := x / 0x100 % 256;
    a[p + 3] := x % 256;
  }

  /** The eight bytes of a 64-bit word are those of its two halves. */
  lemma Digits64(x: u64)
    ensures Bytes64(x) == [
              x / 0x100_0000_0000_0000, x / 0x1_0000_0000_0000 % 256,
              x / 0x100_0000_0000 % 256, x / 0x1_0000_0000 % 256,
              x / 0x100_0000 % 256, x / 0x1_0000 % 256, x / 0x100 % 256, x % 256]
  {
    var high := x / 0x1_0000_0000;
    assert high / 0x100_0000 == x / 0x100_0000_0000_0000 < 256;
    assert high / 0x1_0000 == x / 0x1_0000_0000_0000;
    assert high / 0x100 == x / 0x100_0000_0000;
  }

  /** `StoreBigEndian64`, byte by byte. */
  method Store64(a: array<byte>, p: nat, x: u64)
    requires p + 8 <= a.Length
    modifies a
    ensures a[..p + 8] == old(a[..p]) + Bytes64(x) && a[p + 8..] == old(a[p + 8..])
  {
    Digits64(x);
    hide Bytes64;
    ghost var digits := Bytes64(x);
    a[p] := x / 0x100_0000_0000_0000;
    a[p + 1] := x / 0x1_0000_0000_0000 % 256;
    a[p + 2] := x / 0x100_0000_0000 % 256;
    a[p + 3] := x / 0x1_0000_0000 % 256;
    a[p + 4] := x / 0x100_0000 % 256;
    a[p + 5] := x / 0x1_0000 % 256;
    a[p + 6] := x / 0x100 % 256;
    a[p + 7] := x % 256;
  }
}
