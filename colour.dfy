/**
 * The browser's colour conversions between the colour picker's "#rrggbb"
 * text and the 24-bit integer the firmware stores.
 */
module Colour {
  import opened Common

  predicate IsHexDigit(c: char)
  {
    '0' <= c <= '9' || 'a' <= c <= 'f' || 'A' <= c <= 'F'
  }

  predicate IsLowerHexDigit(c: char)
  {
    '0' <= c <= '9' || 'a' <= c <= 'f'
  }

  predicate AllHexDigits(s: string)
  {
    forall i :: 0 <= i < |s| ==> IsHexDigit(s[i])
  }

  predicate AllLowerHexDigits(s: string)
  {
    forall i :: 0 <= i < |s| ==> IsLowerHexDigit(s[i])
  }

  /** A colour picker value: '#' and six hex digits. */
  predicate IsHexColour(s: string)
  {
    |s| == 7 && s[0] == '#' && AllHexDigits(s[1..])
  }

  function Pow16(k: nat): (p: nat)
    ensures p >= 1
  {
    if k == 0 then 1 else 16 * Pow16(k - 1)
  }

  lemma Pow16Six()
    ensures Pow16(6) == 0x100_0000
  {
    assert Pow16(2) == 0x100;
    assert Pow16(4) == 0x1_0000;
  }

  /** Value of one hex digit; parseInt accepts both cases. */
  function DigitValue(c: char): (v: nat)
    requires IsHexDigit(c)
    ensures v < 16
  {
    if '0' <= c <= '9' then c as int - '0' as int
    else if 'a' <= c <= 'f' then c as int - 'a' as int + 10
    else c as int - 'A' as int + 10
  }

  /** The digit toString(16) writes for `v`: always lower case. */
  function Digit(v: nat): (c: char)
    requires v < 16
    ensures IsLowerHexDigit(c) && DigitValue(c) == v
  {
    if v < 10 then ('0' as int + v) as char else ('a' as int + v - 10) as char
  }

  function LowerChar(c: char): (l: char)
  {
    if 'A' <= c <= 'F' then (c as int - 'A' as int + 'a' as int) as char else c
  }

  function Lower(s: string): (r: string)
    ensures |r| == |s|
  {
    seq(|s|, i requires 0 <= i < |s| => LowerChar(s[i]))
  }

  /** parseInt(s, 16) on a string made only of hex digits. */
  function ParseHex(s: string): (n: nat)
    requires AllHexDigits(s)
    ensures n < Pow16(|s|)
  {
    if s == [] then 0 else ParseHex(s[..|s| - 1]) * 16 + DigitValue(s[|s| - 1])
  }

  /** Number.prototype.toString(16) on a non-negative integer. */
  function ToHex(n: nat): (s: string)
    ensures 1 <= |s| && AllLowerHexDigits(s) && AllHexDigits(s)
    ensures ParseHex(s) == n
    ensures n > 0 ==> s[0] != '0'
    ensures n == 0 ==> s == "0"
    decreases n
  {
    if n < 16 then [Digit(n)]
    else
      var init := ToHex(n / 16);
      var s := init + [Digit(n % 16)];
      assert s[..|s| - 1] == init;
      s
  }

  /** The `k` lowest hex digits of `n`, most significant first. */
  function HexDigits(n: nat, k: nat): (s: string)
    ensures |s| == k && AllLowerHexDigits(s) && AllHexDigits(s)
  {
    if k == 0 then [] else HexDigits(n / 16, k - 1) + [Digit(n % 16)]
  }

  function Zeros(k: nat): (s: string)
    ensures |s| == k
  {
    if k == 0 then [] else Zeros(k - 1) + ['0']
  }

  /** String.slice(-k): the last k characters, or all of them if there are fewer. */
  function SliceFromEnd(s: string, k: nat): (r: string)
    ensures |r| == if |s| < k then |s| else k
  {
    if |s| < k then s else s[|s| - k..]
  }

  /** hexToDec: parseInt(hex.substring(1, 7), 16). */
  function HexToDec(hex: string): (v: nat)
    requires IsHexColour(hex)
    ensures v < 0x100_0000
  {
    Pow16Six();
    ParseHex(hex[1..7])
  }

  /** decToHex: "#" + ("000000" + dec.toString(16)).slice(-6). */
  function DecToHex(dec: nat): (hex: string)
    ensures IsHexColour(hex) && AllLowerHexDigits(hex[1..])
    ensures hex == "#" + HexDigits(dec, 6)
  {
    PaddedSuffix(6, dec, 6);
    "#" + SliceFromEnd(Zeros(6) + ToHex(dec), 6)
  }

  lemma {:induction false} ZerosAreDigitsOfZero(k: nat)
    ensures HexDigits(0, k) == Zeros(k)
  {
    if k > 0 {
      ZerosAreDigitsOfZero(k - 1);
    }
  }

  /** The last k characters of m zeros followed by toString(16) are the k lowest digits. */
  lemma {:induction false} PaddedSuffix(m: nat, n: nat, k: nat)
    requires k <= m + |ToHex(n)|
    ensures SliceFromEnd(Zeros(m) + ToHex(n), k) == HexDigits(n, k)
    decreases n, k
  {
    var s := Zeros(m) + ToHex(n);
    if k == 0 {
      assert s[|s|..] == [];
    } else if n < 16 {
      assert ToHex(n) == [Digit(n)];
      SingleDigitSuffix(m, n, k);
    } else {
      var p := Zeros(m) + ToHex(n / 16);
      assert ToHex(n) == ToHex(n / 16) + [Digit(n % 16)];
      assert s == p + [Digit(n % 16)];
      SliceFromEndAppend(p, Digit(n % 16), k);
      PaddedSuffix(m, n / 16, k - 1);
    }
  }

  /** The last k characters of m zeros followed by one digit are the k lowest digits of that digit's value. */
  lemma SingleDigitSuffix(m: nat, n: nat, k: nat)
    requires n < 16 && 1 <= k <= m + 1
    ensures SliceFromEnd(Zeros(m) + [Digit(n)], k) == HexDigits(n, k)
  {
    SliceFromEndAppend(Zeros(m), Digit(n), k);
    ZerosSuffix(m, k - 1);
    ZerosAreDigitsOfZero(k - 1);
    assert n / 16 == 0 && n % 16 == n;
  }

  /** Taking the last k characters after appending c takes k - 1 before it. */
  lemma SliceFromEndAppend(p: string, c: char, k: nat)
    requires 1 <= k <= |p| + 1
    ensures SliceFromEnd(p + [c], k) == SliceFromEnd(p, k - 1) + [c]
  {
    var s := p + [c];
    assert s[|s| - k..] == p[|p| - (k - 1)..] + [c];
  }

  lemma {:induction false} ZerosSuffix(m: nat, j: nat)
    requires j <= m
    ensures Zeros(m)[m - j..] == Zeros(j)
  {
    if j > 0 {
      ZerosSuffix(m - 1, j - 1);
      assert Zeros(m) == Zeros(m - 1) + ['0'];
    } else {
      assert Zeros(m)[m..] == [];
    }
  }

  /** Reading back the k lowest digits gives the value modulo 16^k. */
  lemma {:induction false} ParseHexDigits(n: nat, k: nat)
    ensures ParseHex(HexDigits(n, k)) == n % Pow16(k)
  {
    if k > 0 {
      var s := HexDigits(n, k);
      var init := HexDigits(n / 16, k - 1);
      assert s == init + [Digit(n % 16)];
      assert s[..|s| - 1] == init;
      ParseHexDigits(n / 16, k - 1);
      assert ParseHex(s) == ((n / 16) % Pow16(k - 1)) * 16 + n % 16;
      ModStep(n, Pow16(k - 1));
    }
  }

  /** n mod 16p splits into the low digit and (n / 16) mod p. */
  lemma ModStep(n: nat, p: nat)
    requires p >= 1
    ensures n % (16 * p) == ((n / 16) % p) * 16 + n % 16
  {
    var q, b := (n / 16) / p, (n / 16) % p;
    assert n / 16 == p * q + b;
    assert n == 16 * (n / 16) + n % 16;
    assert n == (16 * p) * q + (16 * b + n % 16);
    assert 16 * b + n % 16 < 16 * p;
    DivModUnique(n, 16 * p, q, 16 * b + n % 16);
  }

  /** Writing out the value of a digit string at its own width gives the string in lower case. */
  lemma {:induction false} HexDigitsOfParse(s: string)
    requires AllHexDigits(s)
    ensures HexDigits(ParseHex(s), |s|) == Lower(s)
  {
    if s != [] {
      var init := s[..|s| - 1];
      var c := s[|s| - 1];
      HexDigitsOfParse(init);
      DivModUnique(ParseHex(s), 16, ParseHex(init), DigitValue(c));
      assert Digit(DigitValue(c)) == LowerChar(c);
      assert Lower(s) == Lower(init) + [LowerChar(c)];
    }
  }

  /** decToHex keeps only the low 24 bits, as slice(-6) drops the higher digits. */
  lemma DecToHexWraps(v: nat)
    ensures DecToHex(v) == DecToHex(v % 0x100_0000)
  {
    var s := HexDigits(v, 6);
    ParseHexDigits(v, 6);
    Pow16Six();
    assert ParseHex(s) == v % 0x100_0000;
    HexDigitsOfParse(s);
    LowerOfLower(s);
    assert HexDigits(v % 0x100_0000, 6) == s;
  }

  lemma LowerOfLower(s: string)
    requires AllLowerHexDigits(s)
    ensures Lower(s) == s
  {
  }

  /** hexToDec inverts decToHex on 24-bit values, and wraps larger ones. */
  lemma HexRoundTrip(v: nat)
    ensures HexToDec(DecToHex(v)) == v % 0x100_0000
    ensures v < 0x100_0000 ==> HexToDec(DecToHex(v)) == v
  {
    var s := HexDigits(v, 6);
    assert DecToHex(v)[1..7] == s;
    ParseHexDigits(v, 6);
    Pow16Six();
    assert HexToDec(DecToHex(v)) == ParseHex(s);
    if v < 0x100_0000 {
      DivModUnique(v, 0x100_0000, 0, v);
    }
  }

  /** decToHex inverts hexToDec up to the case of the digits. */
  lemma TextRoundTrip(hex: string)
    requires IsHexColour(hex)
    ensures DecToHex(HexToDec(hex)) == "#" + Lower(hex[1..])
    ensures AllLowerHexDigits(hex[1..]) ==> DecToHex(HexToDec(hex)) == hex
  {
    HexDigitsOfParse(hex[1..7]);
    assert hex[1..7] == hex[1..];
    if AllLowerHexDigits(hex[1..]) {
      LowerOfLower(hex[1..]);
      assert hex == "#" + hex[1..];
    }
  }

  /** parseInt("ff0000", 16), digit by digit. */
  lemma RedHighDigits()
    ensures ParseHex("ff0") == 0xff0
  {
    assert ParseHex("ff") == 0xff;
    assert "ff0"[..2] == "ff";
  }

  lemma RedDigits()
    ensures ParseHex("ff0000") == 0xff0000
  {
    RedHighDigits();
    assert "ff00"[..3] == "ff0" && ParseHex("ff00") == 0xff00;
    assert "ff000"[..4] == "ff00" && ParseHex("ff000") == 0xff000;
    assert "ff0000"[..5] == "ff000";
  }

  /** The picker value of the default red is the firmware's default colour. */
  lemma RedValue()
    ensures IsHexColour("#ff0000") && HexToDec("#ff0000") == 0xFF0000
  {
    RedDigits();
    assert "#ff0000"[1..7] == "ff0000";
  }
}
