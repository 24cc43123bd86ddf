/** Bytes, their sums, and the two widths the checksums are taken at. */
module Bytes {

  type Byte = b: int | 0 <= b < 256

  const LF: Byte := 10
  const CR: Byte := 13

  datatype Option<+T> = None | Some(value: T)

  function Max(a: int, b: int): int {
    if a > b then a else b
  }

  function Min(a: int, b: int): int {
    if a < b then a else b
  }

  function Fill(v: Byte, n: nat): (s: seq<Byte>)
    ensures |s| == n
  {
    seq(n, _ => v)
  }

  /** The sum of the first `n` bytes, without any wrap-around. */
  function SumTo(s: seq<Byte>, n: nat): nat
    requires n <= |s|
  {
    if n == 0 then 0 else SumTo(s, n - 1) + s[n - 1]
  }

  function Sum(s: seq<Byte>): nat {
    SumTo(s, |s|)
  }

  /** Equal `uint8` sums. */
  predicate Same8(a: seq<Byte>, b: seq<Byte>) {
    Sum(a) % 256 == Sum(b) % 256
  }

  /** Equal `uint16` sums. */
  predicate Same16(a: seq<Byte>, b: seq<Byte>) {
    Sum(a) % 0x1_0000 == Sum(b) % 0x1_0000
  }

  /** The two's complement of the low byte of a sum. */
  function Complement(sum: nat): Byte {
    if sum % 256 == 0 then 0 else 255 - sum % 256 + 1
  }

  lemma {:induction false} SumToSame(a: seq<Byte>, b: seq<Byte>, n: nat)
    requires n <= |a| && n <= |b| && a[..n] == b[..n]
    ensures SumTo(a, n) == SumTo(b, n)
  {
    if n > 0 {
      assert a[n - 1] == a[..n][n - 1] == b[..n][n - 1] == b[n - 1];
      assert a[..n - 1] == a[..n][..n - 1] == b[..n - 1];
      SumToSame(a, b, n - 1);
    }
  }

  lemma {:induction false} SumToConcat(a: seq<Byte>, b: seq<Byte>, n: nat)
    requires n <= |b|
    ensures SumTo(a + b, |a| + n) == Sum(a) + SumTo(b, n)
  {
    if n == 0 {
      SumToSame(a, a + b, |a|);
    } else {
      SumToConcat(a, b, n - 1);
    }
  }

  lemma SumConcat(a: seq<Byte>, b: seq<Byte>)
    ensures Sum(a + b) == Sum(a) + Sum(b)
  {
    SumToConcat(a, b, |b|);
  }

  lemma SumOne(b: Byte)
    ensures Sum([b]) == b
  {
    assert SumTo([b], 0) == 0;
  }

  lemma SumSplit(s: seq<Byte>, mid: nat)
    requires mid <= |s|
    ensures Sum(s) == Sum(s[..mid]) + Sum(s[mid..])
  {
    SumConcat(s[..mid], s[mid..]);
    assert s == s[..mid] + s[mid..];
  }

  /** What one step of an accumulating loop over `s[lo..]` adds. */
  lemma SumStep(s: seq<Byte>, lo: nat, i: nat)
    requires lo <= i < |s|
    ensures Sum(s[lo..i + 1]) == Sum(s[lo..i]) + s[i]
  {
    SumToSame(s[lo..i + 1], s[lo..i], i - lo);
  }

  /** The same step for an accumulator that wraps. */
  lemma Step8(s: seq<Byte>, lo: nat, i: nat)
    requires lo <= i < |s|
    ensures Sum(s[lo..i + 1]) % 256 == (Sum(s[lo..i]) % 256 + s[i]) % 256
  {
    SumStep(s, lo, i);
    Wrap8(Sum(s[lo..i]), s[i]);
  }

  lemma Step16(s: seq<Byte>, lo: nat, i: nat)
    requires lo <= i < |s|
    ensures Sum(s[lo..i + 1]) % 0x1_0000 == (Sum(s[lo..i]) % 0x1_0000 + s[i]) % 0x1_0000
  {
    SumStep(s, lo, i);
    Wrap16(Sum(s[lo..i]), s[i]);
  }

  // ---------- Arithmetic of the two widths ----------

  lemma Shift8(n: int, k: int)
    ensures (n + 256 * k) % 256 == n % 256
  {}

  lemma Shift16(n: int, k: int)
    ensures (n + 0x1_0000 * k) % 0x1_0000 == n % 0x1_0000
  {}

  lemma Wrap8(x: int, y: int)
    ensures (x % 256 + y) % 256 == (x + y) % 256
  {
    assert x + y == x % 256 + y + 256 * (x / 256);
    Shift8(x % 256 + y, x / 256);
  }

  lemma Wrap16(x: int, y: int)
    ensures (x % 0x1_0000 + y) % 0x1_0000 == (x + y) % 0x1_0000
  {
    assert x + y == x % 0x1_0000 + y + 0x1_0000 * (x / 0x1_0000);
    Shift16(x % 0x1_0000 + y, x / 0x1_0000);
  }

  lemma Add8(x: int, y: int, u: int, v: int)
    requires x % 256 == u % 256 && y % 256 == v % 256
    ensures (x + y) % 256 == (u + v) % 256
  {
    var k := x / 256 - u / 256 + (y / 256 - v / 256);
    assert x + y == u + v + 256 * k;
    Shift8(u + v, k);
  }

  lemma Cancel8(x: int, y: int, t: int)
    requires (x + t) % 256 == (y + t) % 256
    ensures x % 256 == y % 256
  {
    Add8(x + t, 0 - t, y + t, 0 - t);
  }

  lemma Add16(x: int, y: int, u: int, v: int)
    requires x % 0x1_0000 == u % 0x1_0000 && y % 0x1_0000 == v % 0x1_0000
    ensures (x + y) % 0x1_0000 == (u + v) % 0x1_0000
  {
    var k := x / 0x1_0000 - u / 0x1_0000 + (y / 0x1_0000 - v / 0x1_0000);
    assert x + y == u + v + 0x1_0000 * k;
    Shift16(u + v, k);
  }

  /** Sums that agree in their low 16 bits agree in their low 8 bits. */
  lemma Narrow(x: int, y: int)
    requires x % 0x1_0000 == y % 0x1_0000
    ensures x % 256 == y % 256
  {
    var k := x / 0x1_0000 - y / 0x1_0000;
    assert x == y + 256 * (256 * k);
    Shift8(y, 256 * k);
  }
}
