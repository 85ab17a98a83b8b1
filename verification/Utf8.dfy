// Well-formed UTF-8, as `core::str::from_utf8` accepts it (Table 3-7 of the Unicode Standard).

module Utf8 {
  import opened Bytes

  predicate Continuation(b: byte) {
    0x80 <= b <= 0xBF
  }

  /** Length of the well-formed sequence that starts `bs`, or 0 if there is none. */
  function SequenceLength(bs: seq<byte>): (n: nat)
    ensures n <= |bs| && n <= 4
  {
    if |bs| >= 1 && bs[0] <= 0x7F then 1
    else if |bs| >= 2 && 0xC2 <= bs[0] <= 0xDF && Continuation(bs[1]) then 2
    else if |bs| >= 3 && 0xE0 <= bs[0] <= 0xEF
            && (if bs[0] == 0xE0 then 0xA0 else 0x80) <= bs[1] <= (if bs[0] == 0xED then 0x9F else 0xBF)
            && Continuation(bs[2]) then 3
    else if |bs| >= 4 && 0xF0 <= bs[0] <= 0xF4
            && (if bs[0] == 0xF0 then 0x90 else 0x80) <= bs[1] <= (if bs[0] == 0xF4 then 0x8F else 0xBF)
            && Continuation(bs[2]) && Continuation(bs[3]) then 4
    else 0
  }

  predicate ValidUtf8(bs: seq<byte>) {
    bs == [] ||
    (SequenceLength(bs) > 0 && ValidUtf8(bs[SequenceLength(bs)..]))
  }

  // ---------- what is accepted: exactly the encodings of Unicode text ----------

  /** A Unicode scalar value: a code point that is not a surrogate. */
  type scalar = v: int | 0 <= v < 0xD800 || 0xE000 <= v < 0x11_0000

  function EncodeScalar(v: scalar): seq<byte> {
    var a, b, c := v / 0x40, v / 0x40 / 0x40, v / 0x40 / 0x40 / 0x40;
    if v < 0x80 then [v]
    else if v < 0x800 then [0xC0 + a, 0x80 + v % 0x40]
    else if v < 0x1_0000 then [0xE0 + b, 0x80 + a % 0x40, 0x80 + v % 0x40]
    else [0xF0 + c, 0x80 + b % 0x40, 0x80 + a % 0x40, 0x80 + v % 0x40]
  }

  function EncodeText(text: seq<scalar>): seq<byte> {
    if text == [] then [] else EncodeScalar(text[0]) + EncodeText(text[1..])
  }

  lemma ScalarStarts(v: scalar, rest: seq<byte>)
    ensures SequenceLength(EncodeScalar(v) + rest) == |EncodeScalar(v)|
  {
  }

  lemma {:induction false} TextIsValid(text: seq<scalar>)
    ensures ValidUtf8(EncodeText(text))
  {
    if text != [] {
      hide SequenceLength, EncodeScalar;
      var head, tail := EncodeScalar(text[0]), EncodeText(text[1..]);
      ScalarStarts(text[0], tail);
      ScalarIsNotEmpty(text[0]);
      assert (head + tail)[|head|..] == tail;
      TextIsValid(text[1..]);
    }
  }

  lemma ScalarIsNotEmpty(v: scalar)
    ensures EncodeScalar(v) != []
  {
  }

  /** Six more bits below those of `high`. */
  function Continued(high: nat, b: byte): (v: nat)
    requires Continuation(b)
    ensures v / 0x40 == high && 0x80 + v % 0x40 == b as int
    ensures 0x40 * high <= v < 0x40 * (high + 1)
  {
    0x40 * high + (b as int - 0x80)
  }

  /** The scalar value a well-formed sequence stands for. */
  function DecodeScalar(bs: seq<byte>): (v: scalar)
    requires SequenceLength(bs) > 0
    ensures EncodeScalar(v) == bs[..SequenceLength(bs)]
  {
    hide Continued;
    var lead := bs[0] as int;
    match SequenceLength(bs)
    case 1 => lead
    case 2 => Continued(lead - 0xC0, bs[1])
    case 3 => Continued(Continued(lead - 0xE0, bs[1]), bs[2])
    case _ => Continued(Continued(Continued(lead - 0xF0, bs[1]), bs[2]), bs[3])
  }

  function DecodeText(bs: seq<byte>): (text: seq<scalar>)
    requires ValidUtf8(bs)
    ensures EncodeText(text) == bs
  {
    hide SequenceLength, EncodeScalar;
    if bs == [] then [] else
    var n := SequenceLength(bs);
    assert bs[..n] + bs[n..] == bs;
    [DecodeScalar(bs)] + DecodeText(bs[n..])
  }

  /** A byte string is accepted if and only if it encodes some text. */
  lemma ValidExactly(bs: seq<byte>)
    ensures ValidUtf8(bs) <==> exists text :: EncodeText(text) == bs
  {
    if ValidUtf8(bs) {
      assert EncodeText(DecodeText(bs)) == bs;
    }
    forall text | EncodeText(text) == bs
      ensures ValidUtf8(bs)
    {
      TextIsValid(text);
    }
  }
}
