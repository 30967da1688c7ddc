/**
 * Hexadecimal numerals as they appear in corpus filenames: lower-case
 * digits, zero-padded on the left to a minimum width, never truncated.
 */
module Hex {
  import opened Wrappers

  /** Minimum number of hex digits in a corpus filename. */
  const MinWidth: nat := 5

  predicate IsLowerHexDigit(ch: char) {
    '0' <= ch <= '9' || 'a' <= ch <= 'f'
  }

  /** A digit base-16 parsing accepts: either case. */
  predicate IsHexDigit(ch: char) {
    IsLowerHexDigit(ch) || 'A' <= ch <= 'F'
  }

  predicate IsHexString(s: string) {
    forall i :: 0 <= i < |s| ==> IsHexDigit(s[i])
  }

  predicate IsLowerHexString(s: string) {
    forall i :: 0 <= i < |s| ==> IsLowerHexDigit(s[i])
  }

  /** The lower-case digit for `d`; `DigitValue` is its inverse. */
  function DigitChar(d: nat): (ch: char)
    requires d < 16
    ensures IsLowerHexDigit(ch)
    ensures DigitValue(ch) == d
  {
    if d < 10 then ('0' as int + d) as char else ('a' as int + d - 10) as char
  }

  function DigitValue(ch: char): (d: nat)
    requires IsHexDigit(ch)
    ensures d < 16
  {
    if '0' <= ch <= '9' then ch as int - '0' as int
    else if 'a' <= ch <= 'f' then ch as int - 'a' as int + 10
    else ch as int - 'A' as int + 10
  }

  function Pow16(k: nat): (p: nat)
    ensures p >= 1
  {
    if k == 0 then 1 else 16 * Pow16(k - 1)
  }

  /** The shortest lower-case numeral for `n` (a single "0" for zero). */
  function Digits(n: nat): (s: string)
    ensures 1 <= |s|
    ensures IsLowerHexString(s)
    ensures |s| > 1 ==> s[0] != '0'
    decreases n
  {
    if n < 16 then [DigitChar(n)] else Digits(n / 16) + [DigitChar(n % 16)]
  }

  function Zeros(k: nat): (s: string)
    ensures |s| == k
    ensures forall i :: 0 <= i < k ==> s[i] == '0'
  {
    if k == 0 then [] else Zeros(k - 1) + ['0']
  }

  /** The value of a numeral, most significant digit first. */
  function Value(s: string): nat
    requires IsHexString(s)
  {
    if |s| == 0 then 0 else Value(s[..|s| - 1]) * 16 + DigitValue(s[|s| - 1])
  }

  /**
   * The filename numeral of `n`: its digits, padded with zeros on the left
   * up to `MinWidth`.
   */
  function Encode(n: nat): (s: string)
    ensures IsLowerHexString(s)
    ensures |s| == if |Digits(n)| < MinWidth then MinWidth else |Digits(n)|
    ensures s[|s| - |Digits(n)|..] == Digits(n)
  {
    var d := Digits(n);
    if |d| < MinWidth then Zeros(MinWidth - |d|) + d else d
  }

  /** Base-16 parsing: a non-empty string of hex digits of either case. */
  function Decode(s: string): (r: Option<nat>)
    ensures r.Some? <==> |s| > 0 && IsHexString(s)
  {
    if |s| > 0 && IsHexString(s) then Some(Value(s)) else None
  }

  lemma {:induction false} ValueOfDigits(n: nat)
    ensures Value(Digits(n)) == n
    decreases n
  {
    var d := Digits(n);
    if n >= 16 {
      ValueOfDigits(n / 16);
      assert d[..|d| - 1] == Digits(n / 16);
    }
  }

  lemma {:induction false} ValueAppend(s: string, ch: char)
    requires IsHexString(s) && IsHexDigit(ch)
    ensures Value(s + [ch]) == Value(s) * 16 + DigitValue(ch)
  {
    assert (s + [ch])[..|s|] == s;
  }

  /** Leading zeros do not change a numeral's value. */
  lemma {:induction false} ValueIgnoresLeadingZeros(k: nat, s: string)
    requires IsHexString(s)
    ensures IsHexString(Zeros(k) + s)
    ensures Value(Zeros(k) + s) == Value(s)
    decreases |s|
  {
    var z := Zeros(k);
    if |s| == 0 {
      assert z + s == z;
      ZerosValue(k);
    } else {
      var init := s[..|s| - 1];
      ValueIgnoresLeadingZeros(k, init);
      assert z + s == (z + init) + [s[|s| - 1]];
      ValueAppend(z + init, s[|s| - 1]);
      ValueAppend(init, s[|s| - 1]);
      assert s == init + [s[|s| - 1]];
    }
  }

  lemma {:induction false} ZerosValue(k: nat)
    ensures IsHexString(Zeros(k))
    ensures Value(Zeros(k)) == 0
  {
    var z := Zeros(k);
    assert IsHexString(z) by {
      forall i | 0 <= i < k
        ensures IsHexDigit(z[i])
      {
        assert z[i] == '0';
      }
    }
    if k > 0 {
      ZerosValue(k - 1);
      assert z == Zeros(k - 1) + ['0'];
      ValueAppend(Zeros(k - 1), '0');
    }
  }

  /** Round trip: parsing the filename numeral of `n` gives back `n`. */
  lemma DecodeEncode(n: nat)
    ensures Decode(Encode(n)) == Some(n)
  {
    var d := Digits(n);
    ValueOfDigits(n);
    if |d| < MinWidth {
      ValueIgnoresLeadingZeros(MinWidth - |d|, d);
    }
  }

  /** Distinct numbers never share a filename numeral. */
  lemma EncodeInjective(m: nat, n: nat)
    requires Encode(m) == Encode(n)
    ensures m == n
  {
    DecodeEncode(m);
    DecodeEncode(n);
  }

  /** `n` needs at most `k` digits exactly when it is below 16^k. */
  lemma {:induction false} DigitsFit(n: nat, k: nat)
    requires k >= 1
    ensures |Digits(n)| <= k <==> n < Pow16(k)
    decreases n
  {
    if n >= 16 {
      if k == 1 {
        assert |Digits(n)| >= 2;
      } else {
        DigitsFit(n / 16, k - 1);
      }
    } else {
      PowAtLeast16(k);
    }
  }

  lemma {:induction false} PowAtLeast16(k: nat)
    requires k >= 1
    ensures Pow16(k) >= 16
  {
    if k > 1 {
      PowAtLeast16(k - 1);
    }
  }

  /**
   * Padding to `MinWidth` never truncates: the numeral is exactly five
   * digits long for every value below 16^5, and longer above.
   */
  lemma EncodeWidth(n: nat)
    ensures |Encode(n)| == MinWidth <==> n < 0x10_0000
    ensures |Encode(n)| >= MinWidth
  {
    DigitsFit(n, MinWidth);
    assert Pow16(MinWidth) == 0x10_0000;
  }

  /**
   * A numeral as `Encode` writes it: lower-case, at least `MinWidth`
   * digits, and zeros on the left only as padding up to `MinWidth`.
   */
  predicate IsCanonical(s: string) {
    && IsLowerHexString(s)
    && |s| >= MinWidth
    && (|s| > MinWidth ==> s[0] != '0')
  }

  lemma LowerIsHex(s: string)
    requires IsLowerHexString(s)
    ensures IsHexString(s)
  {
    forall i | 0 <= i < |s|
      ensures IsHexDigit(s[i])
    {
      assert IsLowerHexDigit(s[i]);
    }
  }

  lemma DigitCharOfValue(ch: char)
    requires IsLowerHexDigit(ch)
    ensures DigitChar(DigitValue(ch)) == ch
  {
  }

  /** A lower-case numeral that does not start with zero has value at least 16^(length-1) > 0. */
  lemma {:induction false} ValueWithoutLeadingZero(s: string)
    requires |s| >= 1 && IsLowerHexString(s) && s[0] != '0'
    ensures IsHexString(s)
    ensures Value(s) >= Pow16(|s| - 1)
    decreases |s|
  {
    LowerIsHex(s);
    if |s| > 1 {
      var init := s[..|s| - 1];
      ValueWithoutLeadingZero(init);
    }
  }

  /** The shortest numeral of a value is the numeral itself, when it has no leading zero. */
  lemma {:induction false} DigitsOfValue(s: string)
    requires |s| >= 1 && IsLowerHexString(s)
    requires |s| > 1 ==> s[0] != '0'
    ensures IsHexString(s)
    ensures Digits(Value(s)) == s
    decreases |s|
  {
    LowerIsHex(s);
    var last := s[|s| - 1];
    DigitCharOfValue(last);
    if |s| > 1 {
      var init := s[..|s| - 1];
      ValueWithoutLeadingZero(init);
      DigitsOfValue(init);
      var n := Value(s);
      assert n / 16 == Value(init) && n % 16 == DigitValue(last);
      assert s == init + [last];
    }
  }

  /** Any lower-case numeral is its shortest form padded with zeros on the left. */
  lemma {:induction false} PaddedDigits(s: string)
    requires |s| >= 1 && IsLowerHexString(s)
    ensures IsHexString(s)
    ensures |Digits(Value(s))| <= |s|
    ensures Zeros(|s| - |Digits(Value(s))|) + Digits(Value(s)) == s
    decreases |s|
  {
    LowerIsHex(s);
    if |s| == 1 || s[0] != '0' {
      DigitsOfValue(s);
      assert Zeros(0) + s == s;
    } else {
      var t := s[1..];
      assert s == Zeros(1) + t;
      LowerIsHex(t);
      ValueIgnoresLeadingZeros(1, t);
      PaddedDigits(t);
      var d := Digits(Value(t));
      var k := |s| - |d|;
      assert Zeros(k) == Zeros(1) + Zeros(k - 1);
    }
  }

  /** Canonical numerals are exactly the ones `Encode` produces: re-encoding a parsed one gives it back. */
  lemma EncodeValue(s: string)
    requires IsCanonical(s)
    ensures IsHexString(s)
    ensures Encode(Value(s)) == s
  {
    PaddedDigits(s);
    if |s| > MinWidth {
      DigitsOfValue(s);
    } else {
      assert Zeros(0) + Digits(Value(s)) == Digits(Value(s));
    }
  }

  lemma EncodeIsCanonical(n: nat)
    ensures IsCanonical(Encode(n))
  {
  }
}
