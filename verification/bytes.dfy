/** Bytes and the fixed-width big-endian integers of `DataOutput.writeInt` /
    `writeLong` and `DataInput.readInt` / `readLong` (two's complement). */
module Bytes {
  import opened Wrappers

  type byte = x: int | 0 <= x < 256

  /** Java `int` and `long`. */
  type int32 = x: int | -0x8000_0000 <= x < 0x8000_0000
  type int64 = x: int | -0x8000_0000_0000_0000 <= x < 0x8000_0000_0000_0000

  /** Widths of a Java `int` and `long` in bytes. */
  const IntWidth: nat := 4
  const LongWidth: nat := 8

  function Pow256(n: nat): (r: nat)
    ensures r > 0
  {
    if n == 0 then 1 else 256 * Pow256(n - 1)
  }

  /** The low `n` bytes of `x`, most significant first. */
  function Unsigned(x: nat, n: nat): (r: seq<byte>)
    ensures |r| == n
  {
    if n == 0 then [] else Unsigned(x / 256, n - 1) + [x % 256]
  }

  /** The number a big-endian byte string denotes. */
  function ValueOf(bs: seq<byte>): (r: nat)
    ensures r < Pow256(|bs|)
  {
    if |bs| == 0 then 0 else ValueOf(bs[..|bs| - 1]) * 256 + bs[|bs| - 1]
  }

  lemma ModOfSplit(x: nat, p: nat)
    requires p > 0
    ensures x % (256 * p) == (x / 256 % p) * 256 + x % 256
  {
    var q, r := x / 256, x % 256;
    var a, b := q / p, q % p;
    assert x == 256 * q + r;
    assert q == p * a + b;
    assert x == (256 * p) * a + (256 * b + r);
    assert 0 <= 256 * b + r < 256 * p;
    DivModUnique(x, 256 * p, a, 256 * b + r);
  }

  lemma DivModUnique(x: int, m: int, a: int, b: int)
    requires m > 0 && 0 <= b < m && x == m * a + b
    ensures x % m == b
  {
    var a', b' := x / m, x % m;
    var d := a - a';
    assert m * d == b' - b by {
      assert m * a + b == m * a' + b';
    }
    if d > 0 {
      MulAtLeast(m, d);
    } else if d < 0 {
      MulAtLeast(m, -d);
    }
  }

  lemma MulAtLeast(m: int, d: int)
    requires m > 0 && d > 0
    ensures m * d >= m
  {
    assert m * d == m * (d - 1) + m;
  }

  /** Reading back `n` written bytes recovers `x` modulo 256^n. */
  lemma {:induction false} ValueOfUnsigned(x: nat, n: nat)
    ensures ValueOf(Unsigned(x, n)) == x % Pow256(n)
  {
    if n > 0 {
      var bs := Unsigned(x, n);
      assert bs[..n - 1] == Unsigned(x / 256, n - 1);
      ValueOfUnsigned(x / 256, n - 1);
      ModOfSplit(x, Pow256(n - 1));
    }
  }

  /** `writeInt(v)`. */
  function Int32Bytes(v: int32): (r: seq<byte>)
    ensures |r| == 4
  {
    Unsigned(v % 0x1_0000_0000, IntWidth)
  }

  /** `readInt()` of four bytes. */
  function ReadInt32(bs: seq<byte>): int32
    requires |bs| == 4
  {
    assert Pow256(4) == 0x1_0000_0000;
    var u := ValueOf(bs);
    if u >= 0x8000_0000 then u - 0x1_0000_0000 else u
  }

  /** `writeLong(v)`. */
  function Int64Bytes(v: int64): (r: seq<byte>)
    ensures |r| == 8
  {
    Unsigned(v % 0x1_0000_0000_0000_0000, LongWidth)
  }

  /** `readLong()` of eight bytes. */
  function ReadInt64(bs: seq<byte>): int64
    requires |bs| == 8
  {
    assert Pow256(8) == 0x1_0000_0000_0000_0000;
    var u := ValueOf(bs);
    if u >= 0x8000_0000_0000_0000 then u - 0x1_0000_0000_0000_0000 else u
  }

  lemma Int32RoundTrip(v: int32)
    ensures ReadInt32(Int32Bytes(v)) == v
  {
    var m := 0x1_0000_0000;
    assert Pow256(IntWidth) == m;
    ValueOfUnsigned(v % m, IntWidth);
    if v < 0 {
      DivModUnique(v, m, -1, v + m);
    } else {
      DivModUnique(v, m, 0, v);
    }
  }

  lemma Int64RoundTrip(v: int64)
    ensures ReadInt64(Int64Bytes(v)) == v
  {
    var m := 0x1_0000_0000_0000_0000;
    assert Pow256(LongWidth) == m;
    ValueOfUnsigned(v % m, LongWidth);
    if v < 0 {
      DivModUnique(v, m, -1, v + m);
    } else {
      DivModUnique(v, m, 0, v);
    }
  }

  /** The most elements a Java array can hold, `Integer.MAX_VALUE`. */
  const MaxArrayLength: int := 0x7FFF_FFFF

  /** The largest `long`, which bounds every file offset. */
  const MaxLong: int := 0x7FFF_FFFF_FFFF_FFFF

  /** The `(int)` cast of a `long`: its low 32 bits, two's complement. */
  function NarrowToInt(x: int64): (r: int32)
    ensures -0x8000_0000 <= x < 0x8000_0000 ==> r == x
    ensures (x - r) % 0x1_0000_0000 == 0
  {
    var u := x % 0x1_0000_0000;
    if u >= 0x8000_0000 then u - 0x1_0000_0000 else u
  }

  /** `AtomicLong.getAndIncrement`'s new value: `n + 1`, wrapping past the
      largest `long` to the smallest. */
  function NextLong(n: int64): (r: int64)
    ensures n < MaxLong ==> r == n + 1
    ensures n == MaxLong ==> r == -0x8000_0000_0000_0000
    ensures (r as int - n as int - 1) % 0x1_0000_0000_0000_0000 == 0
  {
    if n == MaxLong then -0x8000_0000_0000_0000 else n + 1
  }

  function Zeros(n: nat): (r: seq<byte>)
    ensures |r| == n
  {
    if n == 0 then [] else [0] + Zeros(n - 1)
  }

  /** `seek(p); read(new byte[n])`: `read` fills the array with what the
      file still holds from `p` on and leaves the rest zero. */
  function ReadPadded(f: seq<byte>, p: nat, n: nat): (r: seq<byte>)
    ensures |r| == n
    ensures p + n <= |f| ==> r == f[p..p + n]
  {
    var held := if p >= |f| then [] else if p + n <= |f| then f[p..p + n] else f[p..];
    assert p + n <= |f| ==> held + Zeros(n - |held|) == held;
    held + Zeros(n - |held|)
  }

  /** `seek(p); readLong()`: a negative offset fails, and so does one with
      fewer than eight bytes left (`EOFException`). */
  function ReadLongAt(f: seq<byte>, p: int): (r: Result<int64>)
    ensures r.Success? <==> 0 <= p && p + 8 <= |f|
  {
    if p < 0 || p + 8 > |f| then Failure(IoError) else Success(ReadInt64(f[p..p + 8]))
  }

  /** `seek(p); readInt()`, failing as `ReadLongAt` does. */
  function ReadIntAt(f: seq<byte>, p: int): (r: Result<int32>)
    ensures r.Success? <==> 0 <= p && p + 4 <= |f|
  {
    if p < 0 || p + 4 > |f| then Failure(IoError) else Success(ReadInt32(f[p..p + 4]))
  }
}
