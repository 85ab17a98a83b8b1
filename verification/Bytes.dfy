// Bytes, machine words and their little- and big-endian layouts.

module Bytes {

  type byte = n: int | 0 <= n < 0x100
  type u16 = n: int | 0 <= n < 0x1_0000
  type u32 = n: int | 0 <= n < 0x1_0000_0000
  type u48 = n: int | 0 <= n < 0x1_0000_0000_0000
  type u64 = n: int | 0 <= n < 0x1_0000_0000_0000_0000
  type u128 = n: int | 0 <= n < 0x1_0000_0000_0000_0000_0000_0000_0000_0000

  function Min(a: int, b: int): int {
    if a < b then a else b
  }

  function Max(a: int, b: int): int {
    if a < b then b else a
  }

  // ---------- fixed-width integers ----------

  function Pow256(n: nat): (p: nat)
    ensures p > 0
  {
    if n == 0 then 1 else 256 * Pow256(n - 1)
  }

  lemma Widths()
    ensures Pow256(1) == 0x100
    ensures Pow256(2) == 0x1_0000
    ensures Pow256(4) == 0x1_0000_0000
    ensures Pow256(6) == 0x1_0000_0000_0000
    ensures Pow256(16) == 0x1_0000_0000_0000_0000_0000_0000_0000_0000
  {
    assert Pow256(8) == 0x1_0000_0000_0000_0000;
    assert Pow256(12) == 0x1_0000_0000_0000_0000_0000_0000;
  }

  /** The low `n` bytes of `v`, least significant first. */
  function LeBytes(v: nat, n: nat): (bs: seq<byte>)
    ensures |bs| == n
  {
    if n == 0 then [] else [v % 256] + LeBytes(v / 256, n - 1)
  }

  function LeValue(bs: seq<byte>): (v: nat)
    ensures v < Pow256(|bs|)
  {
    if bs == [] then 0 else bs[0] + 256 * LeValue(bs[1..])
  }

  /** The low `n` bytes of `v`, most significant first. */
  function BeBytes(v: nat, n: nat): (bs: seq<byte>)
    ensures |bs| == n
  {
    if n == 0 then [] else BeBytes(v / 256, n - 1) + [v % 256]
  }

  function BeValue(bs: seq<byte>): (v: nat)
    ensures v < Pow256(|bs|)
  {
    if bs == [] then 0 else 256 * BeValue(bs[..|bs| - 1]) + bs[|bs| - 1]
  }

  /** Cutting a number to its low `n + 1` bytes, one byte at a time. */
  lemma ModStep(v: nat, p: nat)
    requires p > 0
    ensures v % (256 * p) == v % 256 + 256 * (v / 256 % p)
  {
    var q, r := v / 256, v % 256;
    var k, s := q / p, q % p;
    assert q == p * k + s;
    assert v == 256 * (p * k + s) + r == (256 * p) * k + (256 * s + r);
    UniqueQuotient(v, 256 * p, k, 256 * s + r);
  }

  lemma UniqueQuotient(v: nat, m: nat, k: nat, r: nat)
    requires v == m * k + r && r < m
    ensures v / m == k && v % m == r
  {
    var d := v / m - k;
    assert v == m * (v / m) + v % m;
    assert m * d == r - v % m;
    assert m * -d == v % m - r;
    AtLeastOnce(m, d);
    AtLeastOnce(m, -d);
  }

  lemma AtLeastOnce(m: nat, d: int)
    ensures d >= 1 ==> m * d >= m
  {
  }

  lemma {:induction false} LeValueOfBytes(v: nat, n: nat)
    ensures LeValue(LeBytes(v, n)) == v % Pow256(n)
  {
    if n > 0 {
      LeValueOfBytes(v / 256, n - 1);
      ModStep(v, Pow256(n - 1));
    }
  }

  lemma Digits(high: nat, low: byte)
    ensures (256 * high + low) / 256 == high
    ensures (256 * high + low) % 256 == low
  {
  }

  lemma {:induction false} LeBytesOfValue(bs: seq<byte>)
    ensures LeBytes(LeValue(bs), |bs|) == bs
  {
    if bs != [] {
      Digits(LeValue(bs[1..]), bs[0]);
      LeBytesOfValue(bs[1..]);
      assert [bs[0]] + bs[1..] == bs;
    }
  }

  /** A truncated word is the prefix of the wider one: `to_le_bytes()[..m]`. */
  lemma {:induction false} LePrefix(v: nat, m: nat, n: nat)
    requires m <= n
    ensures LeBytes(v, n)[..m] == LeBytes(v, m)
  {
    if m > 0 {
      LePrefix(v / 256, m - 1, n - 1);
    }
  }

  /** ... and what follows that prefix are the bytes of the number shifted down. */
  lemma {:induction false} LeDrop(v: nat, m: nat, n: nat)
    requires m <= n
    ensures LeBytes(v, n)[m..] == LeBytes(v / Pow256(m), n - m)
  {
    if m > 0 {
      LeDrop(v / 256, m - 1, n - 1);
      DivideTwice(v, Pow256(m - 1));
    }
  }

  lemma DivideTwice(v: nat, p: nat)
    requires p > 0
    ensures v / (256 * p) == v / 256 / p
  {
    var q, r := v / 256 / p, v / 256 % p;
    assert v / 256 == p * q + r;
    assert v == (256 * p) * q + (256 * r + v % 256);
    UniqueQuotient(v, 256 * p, q, 256 * r + v % 256);
  }

  /** Two numbers share their low `n` bytes exactly when they agree modulo 256^n. */
  lemma LeInjective(v: nat, w: nat, n: nat)
    ensures LeBytes(v, n) == LeBytes(w, n) <==> v % Pow256(n) == w % Pow256(n)
  {
    LeValueOfBytes(v, n);
    LeValueOfBytes(w, n);
    LeBytesOfValue(LeBytes(v, n));
    LeBytesOfValue(LeBytes(w, n));
  }

  lemma {:induction false} BeValueOfBytes(v: nat, n: nat)
    ensures BeValue(BeBytes(v, n)) == v % Pow256(n)
  {
    if n > 0 {
      BeValueOfBytes(v / 256, n - 1);
      ModStep(v, Pow256(n - 1));
    }
  }

  lemma {:induction false} BeBytesOfValue(bs: seq<byte>)
    ensures BeBytes(BeValue(bs), |bs|) == bs
  {
    if bs != [] {
      Digits(BeValue(bs[..|bs| - 1]), bs[|bs| - 1]);
      BeBytesOfValue(bs[..|bs| - 1]);
      assert bs[..|bs| - 1] + [bs[|bs| - 1]] == bs;
    }
  }

  function LeU16(bs: seq<byte>): (v: u16)
    requires |bs| == 2
    ensures v as int == bs[0] as int + 256 * bs[1] as int
  {
    assert LeValue(bs[1..]) == bs[1] + 256 * LeValue([]) by {
      assert bs[1..][1..] == [];
    }
    LeValue(bs)
  }

  function LeU32(bs: seq<byte>): u32
    requires |bs| == 4
  {
    Widths();
    LeValue(bs)
  }

  lemma LeU32Value(bs: seq<byte>)
    requires |bs| == 4
    ensures LeU32(bs) as int ==
            bs[0] as int + 0x100 * bs[1] as int + 0x1_0000 * bs[2] as int + 0x100_0000 * bs[3] as int
  {
    var b1, b2, b3 := bs[1..], bs[2..], bs[3..];
    assert bs[1..] == b1 && b1[1..] == b2 && b2[1..] == b3 && b3[1..] == [];
    assert LeValue(b3) == bs[3] as int + 256 * LeValue([]);
    assert LeValue(b2) == bs[2] as int + 256 * LeValue(b3);
    assert LeValue(b1) == bs[1] as int + 256 * LeValue(b2);
    assert LeValue(bs) == bs[0] as int + 256 * LeValue(b1);
  }

  function LeU48(bs: seq<byte>): u48
    requires |bs| == 6
  {
    Widths();
    LeValue(bs)
  }

  /** A value that fits is carried unchanged by its little-endian field. */
  lemma LeFits(v: nat, n: nat)
    requires v < Pow256(n)
    ensures LeValue(LeBytes(v, n)) == v
  {
    LeValueOfBytes(v, n);
  }

  lemma BeFits(v: nat, n: nat)
    requires v < Pow256(n)
    ensures BeValue(BeBytes(v, n)) == v
  {
    BeValueOfBytes(v, n);
  }

  // ---------- bits ----------

  /** Bitflags `contains`, where `flag` is a single bit given as its mask. */
  predicate Contains(bits: nat, flag: nat)
    requires flag > 0
  {
    bits / flag % 2 == 1
  }

  /** The number with the given bits, least significant first. */
  function FromBits(bits: seq<bool>): (n: nat)
    ensures n < Pow2(|bits|)
  {
    if bits == [] then 0 else (if bits[0] then 1 else 0) + 2 * FromBits(bits[1..])
  }

  lemma {:induction false} BitAt(bits: seq<bool>, i: nat)
    requires i < |bits|
    ensures Contains(FromBits(bits), Pow2(i)) == bits[i]
  {
    var n := FromBits(bits);
    var m := FromBits(bits[1..]);
    if i > 0 {
      BitAt(bits[1..], i - 1);
      HalfThenShift(n, Pow2(i - 1));
      assert n / 2 == m;
    }
  }

  lemma HalfThenShift(n: nat, p: nat)
    requires p > 0
    ensures n / (2 * p) == n / 2 / p
  {
    var q, r := n / 2 / p, n / 2 % p;
    assert n / 2 == p * q + r;
    assert n == (2 * p) * q + (2 * r + n % 2);
    UniqueQuotient(n, 2 * p, q, 2 * r + n % 2);
  }

  function BitOr(a: nat, b: nat): nat {
    if a == 0 && b == 0 then 0
    else (if a % 2 == 1 || b % 2 == 1 then 1 else 0) + 2 * BitOr(a / 2, b / 2)
  }

  function Pow2(k: nat): (p: nat)
    ensures p > 0
  {
    if k == 0 then 1 else 2 * Pow2(k - 1)
  }

  /** `a | (b << k)` is a sum when `a` has no bit at or above `k`. */
  lemma {:induction false} OrOfDisjoint(a: nat, b: nat, k: nat)
    requires a < Pow2(k)
    ensures BitOr(a, b * Pow2(k)) == a + b * Pow2(k)
  {
    if k == 0 {
      OrWithZero(b);
    } else {
      var h := b * Pow2(k - 1);
      assert b * Pow2(k) == 2 * h;
      OrOfDisjoint(a / 2, b, k - 1);
    }
  }

  lemma {:induction false} OrCommutes(a: nat, b: nat)
    ensures BitOr(a, b) == BitOr(b, a)
  {
    if a != 0 || b != 0 {
      OrCommutes(a / 2, b / 2);
    }
  }

  lemma {:induction false} OrWithZero(b: nat)
    ensures BitOr(0, b) == b
  {
    if b > 0 {
      OrWithZero(b / 2);
    }
  }
}
