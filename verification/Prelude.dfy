/** Values shared by every component: options, results, bytes and fixed-width integers on the wire. */
module Prelude {

  datatype Option<+T> = None | Some(value: T)

  datatype Result<+T, +E> = Ok(value: T) | Err(error: E)

  type byte = x: int | 0 <= x < 256

  /** A byte buffer; also a Rust `String` or `&str`, seen as its UTF-8 bytes. */
  type Bytes = seq<byte>

  type u16 = x: int | 0 <= x < 0x1_0000

  const I64_MIN: int := -0x8000_0000_0000_0000
  const I64_MAX: int := 0x7FFF_FFFF_FFFF_FFFF

  type i64 = x: int | I64_MIN <= x <= I64_MAX

  function Max(a: int, b: int): int {
    if a < b then b else a
  }

  function Min(a: int, b: int): int {
    if a < b then a else b
  }

  function Abs(a: int): int {
    if a < 0 then -a else a
  }

  /** The concatenation of a sequence of buffers. */
  function Flatten<T>(parts: seq<seq<T>>): seq<T> {
    if parts == [] then [] else parts[0] + Flatten(parts[1..])
  }

  lemma {:induction false} FlattenAppend<T>(a: seq<seq<T>>, b: seq<seq<T>>)
    ensures Flatten(a + b) == Flatten(a) + Flatten(b)
  {
    if a == [] {
      assert a + b == b;
    } else {
      assert (a + b)[1..] == a[1..] + b;
      FlattenAppend(a[1..], b);
    }
  }

  lemma FlattenSnoc<T>(a: seq<seq<T>>, x: seq<T>)
    ensures Flatten(a + [x]) == Flatten(a) + x
  {
    FlattenAppend(a, [x]);
    assert Flatten([x]) == x + Flatten<T>([]);
  }

  /** The same byte, `n` times. */
  function Filler(c: byte, n: nat): (r: Bytes)
    ensures |r| == n && forall i :: 0 <= i < n ==> r[i] == c
  {
    seq(n, i => c)
  }

  lemma SliceExtends<T>(b: seq<T>, ext: seq<T>, i: nat, j: nat)
    requires i <= j <= |b|
    ensures (b + ext)[i..j] == b[i..j]
  {
  }

  lemma SlicePrefix<T>(b: seq<T>, k: nat, i: nat, j: nat)
    requires i <= j <= k <= |b|
    ensures b[..k][i..j] == b[i..j]
  {
  }

  lemma Associate<T>(a: seq<T>, b: seq<T>, c: seq<T>)
    ensures a + b + c == a + (b + c)
  {
  }

  // ---- `slice::chunks` ----

  /** Consecutive pieces of at most `size` elements, as many as are needed. */
  function Split<T>(s: seq<T>, size: nat): seq<seq<T>>
    requires size > 0
  {
    if s == [] then []
    else var n := Min(size, |s|); [s[..n]] + Split(s[n..], size)
  }

  lemma {:induction false} SplitWhole<T>(s: seq<T>, size: nat)
    requires size > 0
    ensures Flatten(Split(s, size)) == s
    ensures forall p :: p in Split(s, size) ==> 0 < |p| <= size
  {
    if s == [] {
    } else {
      var n := Min(size, |s|);
      SplitWhole(s[n..], size);
      assert s == s[..n] + s[n..];
    }
  }

  /** The piece taken at an offset, and what is left to split. */
  lemma SplitStep<T>(s: seq<T>, offset: nat, end: nat, size: nat)
    requires size > 0 && offset < |s| && end == Min(offset + size, |s|)
    ensures Split(s[offset..], size) == [s[offset..end]] + Split(s[end..], size)
  {
    var rest := s[offset..];
    var n := end - offset;
    assert rest[..n] == s[offset..end];
    assert rest[n..] == s[end..];
  }

  lemma MoveOver<T>(done: seq<T>, x: T, rest: seq<T>)
    ensures done + ([x] + rest) == (done + [x]) + rest
  {
  }

  // ---- `u16::to_be_bytes`, `u16::to_le_bytes`, `i64::to_be_bytes` and their inverses ----

  function BigEndian16(n: u16): Bytes {
    [n / 256, n % 256]
  }

  function FromBigEndian16(hi: byte, lo: byte): u16 {
    256 * hi + lo
  }

  function LittleEndian16(n: u16): Bytes {
    [n % 256, n / 256]
  }

  /** The two's-complement bit pattern of `n`, as an unsigned number. */
  function Unsigned64(n: i64): nat {
    if n < 0 then n + 0x1_0000_0000_0000_0000 else n
  }

  function Signed64(u: nat): (n: i64)
    requires u < 0x1_0000_0000_0000_0000
  {
    if u <= I64_MAX then u else u - 0x1_0000_0000_0000_0000
  }

  /** The low `width` bytes of `n`, most significant first. */
  function BigEndian(n: nat, width: nat): (b: Bytes)
    ensures |b| == width
    decreases width
  {
    if width == 0 then [] else BigEndian(n / 256, width - 1) + [n % 256]
  }

  function FromBigEndian(b: Bytes): nat {
    if b == [] then 0 else 256 * FromBigEndian(b[..|b| - 1]) + b[|b| - 1]
  }

  function Pow256(width: nat): nat {
    if width == 0 then 1 else 256 * Pow256(width - 1)
  }

  lemma {:induction false} BigEndianInverse(n: nat, width: nat)
    requires n < Pow256(width)
    ensures FromBigEndian(BigEndian(n, width)) == n
    decreases width
  {
    if width == 0 {
    } else {
      BigEndianInverse(n / 256, width - 1);
      var b := BigEndian(n, width);
      assert b[..|b| - 1] == BigEndian(n / 256, width - 1);
    }
  }

  lemma {:induction false} FromBigEndianBound(b: Bytes)
    ensures FromBigEndian(b) < Pow256(|b|)
  {
    if b == [] {
    } else {
      FromBigEndianBound(b[..|b| - 1]);
    }
  }

  lemma Pow256Of8()
    ensures Pow256(8) == 0x1_0000_0000_0000_0000
  {
    assert Pow256(4) == 0x1_0000_0000;
    assert Pow256(6) == 0x1_0000_0000_0000;
  }

  function BigEndian64(n: i64): (b: Bytes)
    ensures |b| == 8
  {
    BigEndian(Unsigned64(n), 8)
  }

  function FromBigEndian64(b: Bytes): (n: i64)
    requires |b| == 8
  {
    FromBigEndianBound(b);
    Pow256Of8();
    Signed64(FromBigEndian(b))
  }

  lemma BigEndian64Inverse(n: i64)
    ensures FromBigEndian64(BigEndian64(n)) == n
  {
    Pow256Of8();
    BigEndianInverse(Unsigned64(n), 8);
  }
}
