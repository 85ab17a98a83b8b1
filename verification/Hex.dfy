// Hexadecimal input of the write command (cli/src/main.rs, `WriteArgs::run`).

module Hex {
  import opened Wrappers
  import opened Bytes

  type nibble = n: int | 0 <= n < 16

  /** Rust's `char::is_whitespace`: the characters with the Unicode property White_Space. */
  predicate IsWhitespace(c: char) {
    var n := c as int;
    || 0x09 <= n <= 0x0D || n == 0x20 || n == 0x85 || n == 0xA0 || n == 0x1680
    || 0x2000 <= n <= 0x200A || n == 0x2028 || n == 0x2029 || n == 0x202F || n == 0x205F || n == 0x3000
  }

  /** Rust's `char::to_digit(16)`. */
  function ToDigit(c: char): Option<nibble> {
    if '0' <= c <= '9' then Some(c as int - '0' as int)
    else if 'a' <= c <= 'f' then Some(c as int - 'a' as int + 10)
    else if 'A' <= c <= 'F' then Some(c as int - 'A' as int + 10)
    else None
  }

  /** The digits of a text, white space skipped; nothing if some character is neither. */
  function Digits(text: seq<char>): Option<seq<nibble>> {
    if text == [] then Some([]) else
    var before, c := Digits(text[..|text| - 1]), text[|text| - 1];
    if IsWhitespace(c) || before.None? then before
    else if ToDigit(c).Some? then Some(before.value + [ToDigit(c).value])
    else None
  }

  /** Two digits to the byte; an odd last digit is dropped. */
  function Pairs(ds: seq<nibble>): (bs: seq<byte>)
    ensures |bs| == |ds| / 2
  {
    seq(|ds| / 2, i requires 0 <= i < |ds| / 2 => 16 * (ds[2 * i] as int) + ds[2 * i + 1])
  }

  function Decoded(text: seq<char>): Option<seq<byte>> {
    match Digits(text)
    case None => None
    case Some(ds) => Some(Pairs(ds))
  }

  /** The loop with its pending half byte. `None` is the error "bad hexadecimal data". */
  method Decode(text: seq<char>) returns (result: Option<seq<byte>>)
    ensures result == Decoded(text)
  {
    var data: seq<byte> := [];
    var half: Option<byte> := None;
    ghost var ds: seq<nibble> := [];
    for i := 0 to |text|
      invariant Digits(text[..i]) == Some(ds)
      invariant data == Pairs(ds)
      invariant half == if |ds| % 2 == 1 then Some(16 * (ds[|ds| - 1] as int)) else None
    {
      var c := text[i];
      assert text[..i + 1][..i] == text[..i];
      if IsWhitespace(c) {
        continue;
      }
      var digit := ToDigit(c);
      if digit.None? {
        BadPrefix(text, i + 1);
        return None;
      }
      if half.Some? {
        HalfOrDigit(ds[|ds| - 1], digit.value);
        data := data + [BitOr(half.value, digit.value)];
        half := None;
      } else {
        half := Some(16 * (digit.value as int));
      }
      ds := ds + [digit.value];
      assert data == Pairs(ds);
    }
    assert text[..|text|] == text;
    result := Some(data);
  }

  /** `half | dig`, where `half` was shifted left by four. */
  lemma HalfOrDigit(high: nibble, low: nibble)
    ensures BitOr(16 * (high as int), low) == 16 * (high as int) + low
  {
    assert Pow2(4) == 16;
    OrOfDisjoint(low, high, 4);
    OrCommutes(16 * (high as int), low);
  }

  lemma {:induction false} BadPrefix(text: seq<char>, k: nat)
    requires k <= |text| && Digits(text[..k]).None?
    ensures Digits(text).None?
  {
    if k == |text| {
      assert text[..k] == text;
    } else {
      var shorter := text[..|text| - 1];
      assert shorter[..k] == text[..k];
      BadPrefix(shorter, k);
    }
  }

  // ---------- what the decoder promises ----------

  const LOWER := "0123456789abcdef"
  const UPPER := "0123456789ABCDEF"

  /** The code points with the property White_Space. */
  const SPACES: seq<int> := [
    0x9, 0xA, 0xB, 0xC, 0xD, 0x20, 0x85, 0xA0, 0x1680,
    0x2000, 0x2001, 0x2002, 0x2003, 0x2004, 0x2005, 0x2006, 0x2007, 0x2008, 0x2009, 0x200A,
    0x2028, 0x2029, 0x202F, 0x205F, 0x3000]

  predicate IsSpace(c: char) {
    c as int in SPACES
  }

  predicate IsHexChar(c: char) {
    c in LOWER || c in UPPER
  }

  /** A digit has the value of its place in one of the two tables, and nothing else is a digit. */
  lemma DigitExactly(c: char, n: nibble)
    ensures ToDigit(c) == Some(n) <==> c == LOWER[n] || c == UPPER[n]
    ensures ToDigit(c).Some? <==> IsHexChar(c)
  {
    if ToDigit(c).Some? {
      var d := ToDigit(c).value;
      assert c == LOWER[d] || c == UPPER[d];
    }
  }

  lemma SpaceExactly(c: char)
    ensures IsWhitespace(c) <==> IsSpace(c)
  {
    var n := c as int;
    if 0x09 <= n <= 0x0D {
      assert SPACES[n - 0x09] == n;
    } else if 0x2000 <= n <= 0x200A {
      assert SPACES[9 + n - 0x2000] == n;
    } else if IsWhitespace(c) {
      assert n in [SPACES[5], SPACES[6], SPACES[7], SPACES[8],
                   SPACES[20], SPACES[21], SPACES[22], SPACES[23], SPACES[24]];
    }
  }

  /** White space may be put in or taken out anywhere. */
  lemma {:induction false} WhitespaceIsFree(before: seq<char>, w: char, after: seq<char>)
    requires IsSpace(w)
    ensures Decoded(before + [w] + after) == Decoded(before + after)
  {
    SpaceExactly(w);
    DigitsSkip(before, w, after);
  }

  lemma {:induction false} DigitsSkip(before: seq<char>, w: char, after: seq<char>)
    requires IsWhitespace(w)
    ensures Digits(before + [w] + after) == Digits(before + after)
  {
    var long, short := before + [w] + after, before + after;
    if after == [] {
      assert long[..|long| - 1] == before == short;
    } else {
      var init := after[..|after| - 1];
      assert long[..|long| - 1] == before + [w] + init;
      assert short[..|short| - 1] == before + init;
      DigitsSkip(before, w, init);
    }
  }

  function Visible(text: seq<char>): seq<char> {
    if text == [] then []
    else Visible(text[..|text| - 1]) + if IsSpace(text[|text| - 1]) then [] else [text[|text| - 1]]
  }

  /** Neither white space nor a digit. */
  predicate IsBad(c: char) {
    !IsSpace(c) && !IsHexChar(c)
  }

  lemma {:induction false} DigitsAreVisible(text: seq<char>)
    ensures Digits(text).None? <==> exists c | c in text :: IsBad(c)
    ensures Digits(text).Some? ==> |Digits(text).value| == |Visible(text)|
  {
    hide IsWhitespace, ToDigit, IsSpace, IsHexChar;
    if text != [] {
      var init, c := text[..|text| - 1], text[|text| - 1];
      SpaceExactly(c);
      DigitExactly(c, 0);
      DigitsAreVisible(init);
      assert text == init + [c];
      assert forall d :: d in text <==> d in init || d == c;
      if Digits(init).None? {
        var d :| d in init && IsBad(d);
        assert d in text;
      } else if IsBad(c) {
        assert c in text;
      }
    }
  }

  /** Decoding fails exactly when some character is neither white space nor a digit, and else
      gives one byte for every two visible characters. */
  lemma DecodedExactly(text: seq<char>)
    ensures Decoded(text).None? <==> exists c | c in text :: IsBad(c)
    ensures Decoded(text).Some? ==> |Decoded(text).value| == |Visible(text)| / 2
  {
    DigitsAreVisible(text);
  }

  predicate Denotes(c: char, n: nibble) {
    c == LOWER[n] || c == UPPER[n]
  }

  /** `text` spells `bs`, two digits to the byte, high one first, each in either case. */
  predicate Spells(text: seq<char>, bs: seq<byte>) {
    && |text| == 2 * |bs|
    && forall i | 0 <= i < |bs| :: Denotes(text[2 * i], bs[i] / 16) && Denotes(text[2 * i + 1], bs[i] % 16)
  }

  lemma {:induction false} DigitsOfDigits(text: seq<char>)
    requires forall i | 0 <= i < |text| :: ToDigit(text[i]).Some?
    ensures Digits(text).Some? && |Digits(text).value| == |text|
    ensures forall i | 0 <= i < |text| :: Digits(text).value[i] == ToDigit(text[i]).value
  {
    if text != [] {
      DigitsOfDigits(text[..|text| - 1]);
    }
  }

  /** Every spelling of a byte string decodes to it, and an odd digit after it is dropped. */
  lemma SpellingDecodes(text: seq<char>, bs: seq<byte>, odd: char)
    requires Spells(text, bs)
    ensures Decoded(text) == Some(bs)
    ensures IsHexChar(odd) ==> Decoded(text + [odd]) == Some(bs)
  {
    hide ToDigit, IsWhitespace, IsHexChar, Spells;
    DigitsOfSpelling(text, bs);
    var ds := Digits(text).value;
    assert Pairs(ds) == bs;
    if IsHexChar(odd) {
      DigitExactly(odd, 0);
      DigitIsVisible(odd);
      assert (text + [odd])[..|text|] == text;
      assert Pairs(ds + [ToDigit(odd).value]) == bs;
    }
  }

  lemma DigitsOfSpelling(text: seq<char>, bs: seq<byte>)
    requires Spells(text, bs)
    ensures Digits(text).Some? && |Digits(text).value| == 2 * |bs|
    ensures forall i | 0 <= i < |bs| ::
              16 * (Digits(text).value[2 * i] as int) + Digits(text).value[2 * i + 1] as int == bs[i] as int
  {
    hide ToDigit, Denotes;
    forall i | 0 <= i < |bs|
      ensures ToDigit(text[2 * i]) == Some(bs[i] / 16) && ToDigit(text[2 * i + 1]) == Some(bs[i] % 16)
    {
      DenotesDigit(text[2 * i], bs[i] / 16);
      DenotesDigit(text[2 * i + 1], bs[i] % 16);
    }
    forall i | 0 <= i < |text|
      ensures ToDigit(text[i]).Some?
    {
      var j := i / 2;
      assert ToDigit(text[2 * j]).Some? && ToDigit(text[2 * j + 1]).Some?;
    }
    DigitsOfDigits(text);
  }

  lemma DenotesDigit(c: char, n: nibble)
    ensures Denotes(c, n) <==> ToDigit(c) == Some(n)
  {
    DigitExactly(c, n);
  }

  lemma DigitIsVisible(c: char)
    requires ToDigit(c).Some?
    ensures !IsWhitespace(c)
  {
  }

  /** The rendering of `bs`, the case of each digit chosen by `caps`. */
  function Rendered(bs: seq<byte>, caps: seq<bool>): seq<char>
    requires |caps| == 2 * |bs|
  {
    seq(2 * |bs|, i requires 0 <= i < 2 * |bs| =>
      HexChar(if i % 2 == 0 then bs[i / 2] / 16 else bs[i / 2] % 16, caps[i]))
  }

  function HexChar(n: nibble, cap: bool): char {
    (if cap then UPPER else LOWER)[n]
  }

  /** Rendering in any mixture of cases and decoding gives back any bytes. */
  lemma RenderedSpells(bs: seq<byte>, caps: seq<bool>)
    requires |caps| == 2 * |bs|
    ensures Spells(Rendered(bs, caps), bs)
    ensures Decoded(Rendered(bs, caps)) == Some(bs)
  {
    hide HexChar, Denotes, Decoded;
    var text := Rendered(bs, caps);
    forall i | 0 <= i < |bs|
      ensures Denotes(text[2 * i], bs[i] / 16) && Denotes(text[2 * i + 1], bs[i] % 16)
    {
      HexCharDenotes(bs[i] / 16, caps[2 * i]);
      HexCharDenotes(bs[i] % 16, caps[2 * i + 1]);
    }
    SpellingDecodes(text, bs, '0');
  }

  lemma HexCharDenotes(n: nibble, cap: bool)
    ensures Denotes(HexChar(n, cap), n)
  {
  }
}
