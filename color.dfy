/**
 * `Color.rgbToHex` of `src/objects/color.ts`: each channel is written in base 16
 * (`Number.prototype.toString(16)`), padded to two digits by `componentToHex`, the three strings
 * are concatenated and read back with `parseInt(…, 16)`.
 */
module Colors {

  /** A lower-case hex digit, as `toString(16)` writes them. */
  predicate IsHexDigit(ch: char) {
    '0' <= ch <= '9' || 'a' <= ch <= 'f'
  }

  predicate IsHexString(s: seq<char>) {
    forall i :: 0 <= i < |s| ==> IsHexDigit(s[i])
  }

  function DigitChar(d: nat): (ch: char)
    requires d < 16
    ensures IsHexDigit(ch)
  {
    if d < 10 then ('0' as int + d) as char else ('a' as int + d - 10) as char
  }

  /** The value of one hex digit; it inverts `DigitChar`. */
  function DigitValue(ch: char): (d: nat)
    requires IsHexDigit(ch)
    ensures d < 16 && DigitChar(d) == ch
  {
    if '0' <= ch <= '9' then ch as int - '0' as int
    else ch as int - 'a' as int + 10
  }

  lemma DigitRoundTrip(d: nat)
    requires d < 16
    ensures DigitValue(DigitChar(d)) == d
  {
  }

  /** `n.toString(16)` for a non-negative integer: the shortest base-16 numeral. */
  function ToHex(n: nat): (s: seq<char>)
    ensures |s| >= 1 && IsHexString(s)
  {
    if n < 16 then [DigitChar(n)] else ToHex(n / 16) + [DigitChar(n % 16)]
  }

  /** `parseInt(s, 16)` on a non-empty string of hex digits. */
  function ParseHex(s: seq<char>): nat
    requires IsHexString(s)
  {
    if s == [] then 0 else ParseHex(s[..|s| - 1]) * 16 + DigitValue(s[|s| - 1])
  }

  /** `componentToHex`: single-digit numerals get a leading "0". */
  function ComponentToHex(c: nat): seq<char> {
    var hex := ToHex(c);
    if |hex| == 1 then "0" + hex else hex
  }

  function RgbToHex(r: nat, g: nat, b: nat): nat {
    ParseHex(ComponentToHex(r) + ComponentToHex(g) + ComponentToHex(b))
  }

  function Pow16(k: nat): nat {
    if k == 0 then 1 else 16 * Pow16(k - 1)
  }

  /** Reading back the numeral `toString(16)` writes gives the number. */
  lemma {:induction false} ParseToHex(n: nat)
    ensures ParseHex(ToHex(n)) == n
  {
    var s := ToHex(n);
    if n < 16 {
      DigitRoundTrip(n);
      assert s[..0] == [];
    } else {
      ParseToHex(n / 16);
      DigitRoundTrip(n % 16);
      assert s[..|s| - 1] == ToHex(n / 16);
      assert ParseHex(s) == (n / 16) * 16 + n % 16;
    }
  }

  /** The numeral has one digit exactly below 16 and two digits exactly from 16 to 255. */
  lemma ToHexLength(n: nat)
    ensures n < 16 <==> |ToHex(n)| == 1
    ensures 16 <= n < 256 ==> |ToHex(n)| == 2
  {
  }

  /** Parsing a concatenation: the left part is shifted by one hex place per digit of the right part. */
  lemma {:induction false} ParseHexAppend(a: seq<char>, b: seq<char>)
    requires IsHexString(a) && IsHexString(b)
    ensures IsHexString(a + b)
    ensures ParseHex(a + b) == ParseHex(a) * Pow16(|b|) + ParseHex(b)
  {
    if b == [] {
      assert a + b == a;
    } else {
      var b' := b[..|b| - 1];
      ParseHexAppend(a, b');
      assert (a + b)[..|a + b| - 1] == a + b';
      var d := DigitValue(b[|b| - 1]);
      assert ParseHex(a + b) == ParseHex(a + b') * 16 + d;
      assert ParseHex(b) == ParseHex(b') * 16 + d;
      ShiftStep(ParseHex(a), Pow16(|b'|), ParseHex(b'), d);
    }
  }

  lemma ShiftStep(x: int, p: int, y: int, d: int)
    ensures (x * p + y) * 16 + d == x * (16 * p) + (y * 16 + d)
  {
  }

  /** For a channel in 0..255, `componentToHex` has two digits, pads below 16, and reads back as the channel. */
  lemma ComponentToHexSpec(c: nat)
    requires c < 256
    ensures IsHexString(ComponentToHex(c)) && |ComponentToHex(c)| == 2
    ensures ParseHex(ComponentToHex(c)) == c
    ensures c < 16 <==> ComponentToHex(c)[0] == '0'
  {
    ToHexLength(c);
    ParseToHex(c);
    var hex := ToHex(c);
    if c < 16 {
      ParseHexAppend("0", hex);
      assert ParseHex("0") == 0 by { assert "0"[..0] == []; }
    } else {
      assert hex[..1] == ToHex(c / 16);
      assert hex[0] == DigitChar(c / 16);
    }
  }

  /** For channels in 0..255 the colour is `r * 65536 + g * 256 + b`. */
  lemma RgbToHexValue(r: nat, g: nat, b: nat)
    requires r < 256 && g < 256 && b < 256
    ensures RgbToHex(r, g, b) == r * 65536 + g * 256 + b
  {
    ComponentToHexSpec(r);
    ComponentToHexSpec(g);
    ComponentToHexSpec(b);
    var hr, hg, hb := ComponentToHex(r), ComponentToHex(g), ComponentToHex(b);
    assert Pow16(2) == 256;
    ParseHexAppend(hr, hg);
    assert ParseHex(hr + hg) == r * 256 + g;
    ParseHexAppend(hr + hg, hb);
    assert ParseHex(hr + hg + hb) == (r * 256 + g) * 256 + b;
  }

  /** The colour lies in 0..0xFFFFFF, and distinct channel triples give distinct colours. */
  lemma RgbToHexRangeAndInjective(r: nat, g: nat, b: nat, r': nat, g': nat, b': nat)
    requires r < 256 && g < 256 && b < 256
    requires r' < 256 && g' < 256 && b' < 256
    ensures 0 <= RgbToHex(r, g, b) <= 0xFFFFFF
    ensures RgbToHex(r, g, b) == RgbToHex(r', g', b') ==> r == r' && g == g' && b == b'
  {
    RgbToHexValue(r, g, b);
    RgbToHexValue(r', g', b');
  }
}
