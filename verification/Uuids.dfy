// Object types: 128-bit UUIDs and their short forms (core/src/types.rs, `uuid_from_raw`).

module Uuids {
  import opened Wrappers
  import opened Bytes
  import opened Errors

  /** A UUID as the number whose sixteen big-endian bytes are its text order. */
  type Uuid = u128

  const UUID_BASE: u128 := 0x00000000_0000_1000_8000_00805f9b34fb

  /** `UUID_BASE | (short << 96)`. */
  function ShortUuid(short: u32): (u: Uuid)
    ensures u == UUID_BASE + short * 0x1_0000_0000_0000_0000_0000_0000
  {
    assert Pow2(96) == 0x1_0000_0000_0000_0000_0000_0000 by { Pow2Table(); }
    OrOfDisjoint(UUID_BASE, short, 96);
    BitOr(UUID_BASE, short * Pow2(96))
  }

  lemma Pow2Table()
    ensures Pow2(96) == 0x1_0000_0000_0000_0000_0000_0000
  {
    var k := 12;
    assert Pow2(k) == 0x1000;
    Pow2Sum(k, k);
    Pow2Sum(2 * k, 2 * k);
    Pow2Sum(4 * k, 4 * k);
  }

  lemma {:induction false} Pow2Sum(a: nat, b: nat)
    ensures Pow2(a + b) == Pow2(a) * Pow2(b)
  {
    if a > 0 {
      Pow2Sum(a - 1, b);
      assert Pow2(a + b) == 2 * Pow2(a - 1 + b);
    }
  }

  function UuidBytes(u: Uuid): (bs: seq<byte>)
    ensures |bs| == 16
  {
    BeBytes(u, 16)
  }

  function UuidOfBytes(bs: seq<byte>): Uuid
    requires |bs| == 16
  {
    Widths();
    BeValue(bs)
  }

  lemma UuidBytesInverse(u: Uuid)
    ensures UuidOfBytes(UuidBytes(u)) == u
  {
    Widths();
    BeFits(u, 16);
  }

  lemma UuidOfBytesInverse(bs: seq<byte>)
    requires |bs| == 16
    ensures UuidBytes(UuidOfBytes(bs)) == bs
  {
    BeBytesOfValue(bs);
  }

  function UuidFromRaw(raw: seq<byte>): (r: CoreResult<Uuid>)
    ensures r.Ok? <==> |raw| in {2, 4, 16}
    ensures r.Err? ==> r.error == BadUuidSize(|raw|)
  {
    if |raw| == 2 then Ok(ShortUuid(LeU16(raw)))
    else if |raw| == 4 then Ok(ShortUuid(LeU32(raw)))
    else if |raw| == 16 then Ok(UuidOfBytes(raw))
    else Err(BadUuidSize(|raw|))
  }

  /** Every answer of `uuid_from_raw`, told from the bytes. */
  lemma UuidExactly(raw: seq<byte>)
    ensures UuidFromRaw(raw) ==
            if |raw| == 2 then Ok(ShortUuid(raw[0] as int + 0x100 * raw[1] as int))
            else if |raw| == 4 then
              Ok(ShortUuid(raw[0] as int + 0x100 * raw[1] as int
                           + 0x1_0000 * raw[2] as int + 0x100_0000 * raw[3] as int))
            else if |raw| == 16 then Ok(BeWord(raw))
            else Err(BadUuidSize(|raw|))
  {
    hide ShortUuid, LeU32, LeU16;
    if |raw| == 4 {
      LeU32Value(raw);
    } else if |raw| == 16 {
      BeWordIsValue(raw);
    }
  }

  /** Sixteen bytes as one number, the first the most significant. */
  function BeWord(raw: seq<byte>): Uuid
    requires |raw| == 16
  {
    BeQuad(raw, 0) * 0x1_0000_0000_0000_0000_0000_0000 + BeQuad(raw, 4) * 0x1_0000_0000_0000_0000
    + BeQuad(raw, 8) * 0x1_0000_0000 + BeQuad(raw, 12)
  }

  function BeQuad(raw: seq<byte>, p: nat): (q: u32)
    requires p + 4 <= |raw|
  {
    raw[p] as int * 0x100_0000 + raw[p + 1] as int * 0x1_0000 + raw[p + 2] as int * 0x100 + raw[p + 3] as int
  }

  lemma BeWordIsValue(raw: seq<byte>)
    requires |raw| == 16
    ensures UuidOfBytes(raw) == BeWord(raw)
  {
    hide BeQuad;
    BeAppendQuad(raw, 0);
    BeAppendQuad(raw, 4);
    BeAppendQuad(raw, 8);
    BeAppendQuad(raw, 12);
    assert raw[..0] == [] && raw[..16] == raw;
  }

  lemma BeAppendQuad(raw: seq<byte>, p: nat)
    requires p + 4 <= |raw|
    ensures BeValue(raw[..p + 4]) == BeValue(raw[..p]) * 0x1_0000_0000 + BeQuad(raw, p)
  {
    BeAppend(raw, p);
    BeAppend(raw, p + 1);
    BeAppend(raw, p + 2);
    BeAppend(raw, p + 3);
  }

  lemma BeAppend(raw: seq<byte>, p: nat)
    requires p < |raw|
    ensures BeValue(raw[..p + 1]) == 256 * BeValue(raw[..p]) + raw[p]
  {
    BeSnoc(raw[..p], raw[p]);
    assert raw[..p] + [raw[p]] == raw[..p + 1];
  }

  /** The three accepted widths are read consistently: zero-extending a short type changes
      nothing, no two short types collide, and a full UUID survives being sent and read back. */
  lemma TypeFidelity(a: u16, x: u32, y: u32, u: Uuid)
    ensures UuidFromRaw(LeBytes(a, 2)) == UuidFromRaw(LeBytes(a, 2) + [0, 0]) == Ok(ShortUuid(a))
    ensures UuidFromRaw(LeBytes(x, 4)) == Ok(ShortUuid(x))
    ensures UuidFromRaw(LeBytes(x, 4)) == UuidFromRaw(LeBytes(y, 4)) <==> x == y
    ensures UuidFromRaw(UuidBytes(u)) == Ok(u)
  {
    Widths();
    LeFits(a, 2);
    LeFits(a, 4);
    LeFits(x, 4);
    LeFits(y, 4);
    assert LeBytes(a, 4) == LeBytes(a, 2) + [0, 0] by {
      LePrefix(a, 2, 4);
      HighBytesAreZero(a);
    }
    UuidBytesInverse(u);
  }

  lemma HighBytesAreZero(a: u16)
    ensures LeBytes(a, 4)[2..] == [0, 0]
  {
    var b := a / 256 / 256;
    assert b == 0;
    assert LeBytes(a, 4) == [a % 256] + ([a / 256 % 256] + LeBytes(b, 2));
    assert LeBytes(b, 2) == [0] + ([0] + LeBytes(0, 0));
  }

  /** The last twelve bytes of every short type. */
  const BASE_TAIL: seq<byte> := [0, 0, 0x10, 0, 0x80, 0, 0, 0x80, 0x5f, 0x9b, 0x34, 0xfb]

  /** Sixteen bytes name the same type as a short form exactly when they are the base UUID
      with the short value in their first four bytes. */
  lemma ShortFormOf(raw: seq<byte>, x: u32)
    requires |raw| == 16
    ensures UuidFromRaw(raw) == Ok(ShortUuid(x)) <==> raw == BeBytes(x, 4) + BASE_TAIL
  {
    var head := BeBytes(x, 4);
    assert BeValue(head) == x by {
      Widths();
      BeFits(x, 4);
    }
    BaseTail(head);
    BeInjective(raw, head + BASE_TAIL);
  }

  lemma BeInjective(a: seq<byte>, b: seq<byte>)
    requires |a| == |b|
    ensures BeValue(a) == BeValue(b) <==> a == b
  {
    BeBytesOfValue(a);
    BeBytesOfValue(b);
  }

  lemma BaseTail(head: seq<byte>)
    ensures BeValue(head + BASE_TAIL) == BeValue(head) * 0x1_0000_0000_0000_0000_0000_0000 + UUID_BASE
  {
    var s0 := Snoc3(head, 0, 0, 0x10);
    var s1 := Snoc3(s0, 0, 0x80, 0);
    var s2 := Snoc3(s1, 0, 0x80, 0x5f);
    var s3 := Snoc3(s2, 0x9b, 0x34, 0xfb);
    assert s3 == head + BASE_TAIL;
  }

  function Snoc3(bs: seq<byte>, a: byte, b: byte, c: byte): (r: seq<byte>)
    ensures r == bs + [a, b, c]
    ensures BeValue(r) == BeValue(bs) * 0x100_0000 + a * 0x1_0000 + b * 0x100 + c
  {
    BeSnoc(bs, a);
    BeSnoc(bs + [a], b);
    BeSnoc(bs + [a] + [b], c);
    bs + [a] + [b] + [c]
  }

  lemma BeSnoc(bs: seq<byte>, b: byte)
    ensures BeValue(bs + [b]) == 256 * BeValue(bs) + b
  {
    assert (bs + [b])[..|bs|] == bs;
  }
}
