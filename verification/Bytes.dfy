/** Byte buffers and the few facts about powers of two and products that the storage modules share. */
module Bytes {

  type Byte = x: int | 0 <= x < 256

  /** `buf` copied over `s` at position `at`: what `memcpy` or a device write does to a buffer. */
  function Splice(s: seq<Byte>, at: nat, buf: seq<Byte>): (r: seq<Byte>)
    requires at + |buf| <= |s|
    ensures |r| == |s|
  {
    seq(|s|, p requires 0 <= p < |s| => if at <= p < at + |buf| then buf[p - at] else s[p])
  }

  lemma SpliceNothing(s: seq<Byte>, at: nat, buf: seq<Byte>)
    requires at <= |s| && buf == []
    ensures Splice(s, at, buf) == s
  {
  }

  /** A buffer copied piece by piece: one more piece. */
  lemma SpliceNext(s: seq<Byte>, mid: seq<Byte>, end: seq<Byte>, at: nat, buf: seq<Byte>, i: nat, j: nat, next: nat)
    requires at + |buf| <= |s| && i <= j <= |buf| && next == at + i
    requires mid == Splice(s, at, buf[..i])
    requires end == Splice(mid, next, buf[i..j])
    ensures end == Splice(s, at, buf[..j])
  {
  }

  lemma SliceJoin(s: seq<Byte>, l: seq<Byte>, r: seq<Byte>, a: nat, b: nat, c: nat)
    requires a <= b <= c <= |s| && l == s[a..b] && r == s[b..c]
    ensures l + r == s[a..c]
  {
  }

  lemma MulMono(a: nat, b: nat, c: nat)
    requires a <= b
    ensures a * c <= b * c
  {
  }

  lemma MulDistrib(a: int, b: int, c: int)
    ensures (a + b) * c == a * c + b * c
    ensures (a - b) * c == a * c - b * c
  {
  }

  /** `n * unit`, as repeated addition, which keeps proofs about positions linear. */
  function Scale(n: nat, unit: nat): nat {
    if n == 0 then 0 else Scale(n - 1, unit) + unit
  }

  lemma {:induction false} ScaleAdd(a: nat, b: nat, unit: nat)
    ensures Scale(a + b, unit) == Scale(a, unit) + Scale(b, unit)
  {
    if b != 0 {
      ScaleAdd(a, b - 1, unit);
    }
  }

  lemma NoScale(size: nat)
    ensures Scale(0, size) == 0
  {
  }

  lemma NextScale(k: nat, size: nat)
    ensures Scale(k + 1, size) == Scale(k, size) + size
  {
  }

  lemma ScaleMono(a: nat, b: nat, unit: nat)
    requires a <= b
    ensures Scale(a, unit) <= Scale(b, unit)
    ensures a < b ==> Scale(a, unit) + unit <= Scale(b, unit)
  {
  }

  lemma {:induction false} ScaleScale(a: nat, b: nat, unit: nat)
    ensures Scale(Scale(a, b), unit) == Scale(a, Scale(b, unit))
  {
    if a != 0 {
      ScaleScale(a - 1, b, unit);
      ScaleAdd(Scale(a - 1, b), b, unit);
    }
  }

  lemma {:induction false} ScaleIsProduct(n: nat, unit: nat)
    ensures Scale(n, unit) == n * unit
  {
    if n != 0 {
      ScaleIsProduct(n - 1, unit);
      MulDistrib(n, 1, unit);
    }
  }

  /** Distinct multiples of `m` are at least `m` apart. */
  lemma AlignedApart(a: nat, b: nat, m: nat)
    requires m > 0 && Rem(a, m) == 0 && Rem(b, m) == 0 && a < b
    ensures a + m <= b
  {
    var qa, qb := Quot(a, m), Quot(b, m);
    MulLess(qa, qb, m);
    MulMono(qa + 1, qb, m);
    MulDistrib(qa, 1, m);
  }

  lemma MulLess(a: int, b: int, m: nat)
    requires a * m < b * m
    ensures a < b
  {
  }

  /** Quotient and remainder are determined by the equation they solve. */
  lemma QuotRemUnique(x: nat, m: nat, q: nat, r: nat)
    requires m > 0 && x == q * m + r && r < m
    ensures Quot(x, m) == q && Rem(x, m) == r
  {
    var q' := Quot(x, m);
    MulDistrib(q', 1, m);
    MulDistrib(q, 1, m);
    MulLess(q, q' + 1, m);
    MulLess(q', q + 1, m);
  }

  /** `x >> k` and `x & (m - 1)` for `m == 1 << k`. */
  function Quot(x: nat, m: nat): (q: nat)
    requires m > 0
    ensures q * m <= x < q * m + m
  {
    assert x == (x / m) * m + x % m;
    QuotNonneg(x, m);
    x / m
  }

  function Rem(x: nat, m: nat): (r: nat)
    requires m > 0
    ensures r < m && x == Quot(x, m) * m + r
  {
    x - Quot(x, m) * m
  }

  lemma RemOfZero(m: nat)
    requires m > 0
    ensures Rem(0, m) == 0
  {
  }

  lemma QuotSmall(x: nat, m: nat)
    requires m > 0
    ensures Quot(x, m) <= x
  {
    MulMono(1, m, Quot(x, m));
  }

  lemma QuotNonneg(x: nat, m: nat)
    requires m > 0
    ensures x / m >= 0
  {
  }

  /** A value kept in 32 bits: `size_t` and `uintptr_t` on this machine. */
  function Trunc32(x: int): (r: nat)
    ensures r < 0x1_0000_0000
    ensures 0 <= x < 0x1_0000_0000 ==> r == x
    ensures 0x1_0000_0000 <= x < 0x2_0000_0000 ==> r == x - 0x1_0000_0000
    ensures -0x1_0000_0000 <= x < 0 ==> r == x + 0x1_0000_0000
  {
    x % 0x1_0000_0000
  }

  // ---- little-endian words ----

  function Word16(disk: seq<Byte>, at: nat): nat
    requires at + 2 <= |disk|
  {
    disk[at] as int + 256 * (disk[at + 1] as int)
  }

  function Word32(disk: seq<Byte>, at: nat): nat
    requires at + 4 <= |disk|
  {
    disk[at] as int + 256 * (disk[at + 1] as int) + 0x1_0000 * (disk[at + 2] as int) + 0x100_0000 * (disk[at + 3] as int)
  }

  function Bytes16(v: nat): (r: seq<Byte>)
    ensures |r| == 2
  {
    [v % 256, v / 256 % 256]
  }

  function Bytes32(v: nat): (r: seq<Byte>)
    ensures |r| == 4
  {
    [v % 256, v / 256 % 256, v / 0x1_0000 % 256, v / 0x100_0000 % 256]
  }

  /** The bytes of a word are its digits, the lowest first. */
  lemma Word16Digits(disk: seq<Byte>, at: nat)
    requires at + 2 <= |disk|
    ensures var w := Word16(disk, at); w % 256 == disk[at] && w / 256 == disk[at + 1]
  {
  }

  lemma Word32Digits(disk: seq<Byte>, at: nat)
    requires at + 4 <= |disk|
    ensures var w := Word32(disk, at);
      w % 256 == disk[at] && w / 256 % 256 == disk[at + 1] && w / 0x1_0000 % 256 == disk[at + 2] && w / 0x100_0000 == disk[at + 3]
  {
    var w: int, b: int, c: int, d: int := Word32(disk, at), disk[at + 1], disk[at + 2], disk[at + 3];
    assert w / 256 == b + 256 * c + 0x1_0000 * d && w / 0x1_0000 == c + 256 * d;
  }

  lemma Word16Of(disk: seq<Byte>, at: nat, v: nat)
    requires at + 2 <= |disk| && v < 0x1_0000
    ensures Word16(Splice(disk, at, Bytes16(v)), at) == v
  {
  }

  lemma Word32Of(disk: seq<Byte>, at: nat, v: nat)
    requires at + 4 <= |disk| && v < 0x1_0000_0000
    ensures Word32(Splice(disk, at, Bytes32(v)), at) == v
  {
    var s := Splice(disk, at, Bytes32(v));
    assert s[at] == v % 256 && s[at + 1] == v / 256 % 256 && s[at + 2] == v / 0x1_0000 % 256 && s[at + 3] == v / 0x100_0000 % 256;
    assert v / 0x1_0000 == v / 256 / 256 && v / 0x100_0000 == v / 256 / 256 / 256;
  }
}
