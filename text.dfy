/**
 * The JavaScript string and number conversions the draw logic relies on:
 * String(n), Number(s), s.padStart(w, "0") and s.split(c).
 */
module Text {
  import opened Wrappers

  predicate IsDigit(c: char) { '0' <= c <= '9' }

  predicate AllDigits(s: string) { forall i | 0 <= i < |s| :: IsDigit(s[i]) }

  /** The character of the decimal digit d. */
  function DigitChar(d: nat): (c: char)
    requires d < 10
    ensures IsDigit(c) && c as int - '0' as int == d
  {
    ('0' as int + d) as char
  }

  /** String(n) for a non-negative integer: its decimal numeral, without leading zeros. */
  function NatToString(n: nat): (s: string)
    ensures |s| >= 1 && AllDigits(s)
    ensures n >= 10 ==> |s| >= 2
    decreases n
  {
    if n < 10 then [DigitChar(n)] else NatToString(n / 10) + [DigitChar(n % 10)]
  }

  /** String(i) for any integer: a minus sign before the numeral of a negative value. */
  function IntToString(i: int): (s: string)
    ensures |s| >= 1
    ensures s[0] == '-' <==> i < 0
  {
    if i < 0 then "-" + NatToString(-i) else NatToString(i)
  }

  /** The value of a string of decimal digits; the empty string reads as 0, as Number("") does. */
  function DecimalValue(s: string): nat
    requires AllDigits(s)
    decreases |s|
  {
    if s == [] then 0 else 10 * DecimalValue(s[..|s| - 1]) + (s[|s| - 1] as int - '0' as int)
  }

  /**
   * Number(s) restricted to what a coupon cell can hold: a run of digits, optionally after
   * one minus sign. Anything else reads as NaN, here None.
   */
  function JsNumber(s: string): Option<int>
  {
    if AllDigits(s) then Some(DecimalValue(s) as int)
    else if |s| >= 2 && s[0] == '-' && AllDigits(s[1..]) then Some(-(DecimalValue(s[1..]) as int))
    else None
  }

  /** A run of k '0' characters. */
  function Zeros(k: nat): (z: string)
    ensures |z| == k && AllDigits(z)
    ensures forall i | 0 <= i < k :: z[i] == '0'
  {
    seq(k, _ => '0')
  }

  /** s.padStart(width, "0"): zeros are added in front until the string is width long. */
  function PadStart(s: string, width: int): string
  {
    if |s| >= width then s else Zeros(width - |s|) + s
  }

  /** s.split(sep): the pieces between the separators; a string without one gives [s]. */
  function Split(s: string, sep: char): (parts: seq<string>)
    ensures |parts| >= 1
    decreases |s|
  {
    if |s| == 0 then [""]
    else
      var rest := Split(s[1..], sep);
      if s[0] == sep then [""] + rest else [[s[0]] + rest[0]] + rest[1..]
  }

  // ---------------------------------------------------------------------------------------
  // Properties

  /** padStart never shortens, reaches the width, keeps s as its suffix and adds only zeros. */
  lemma PadStartShape(s: string, width: int)
    ensures var r := PadStart(s, width);
      && |r| == (if |s| >= width then |s| else width)
      && r[|r| - |s|..] == s
      && (forall i | 0 <= i < |r| - |s| :: r[i] == '0')
  {
  }

  /** Padding a padded string again changes nothing. */
  lemma PadStartIdempotent(s: string, width: int)
    ensures PadStart(PadStart(s, width), width) == PadStart(s, width)
  {
  }

  /** Leading zeros do not change the value of a numeral. */
  lemma {:induction false} DecimalValueLeadingZeros(k: nat, s: string)
    requires AllDigits(s)
    ensures AllDigits(Zeros(k) + s)
    ensures DecimalValue(Zeros(k) + s) == DecimalValue(s)
  {
    var z := Zeros(k) + s;
    assert AllDigits(z) by {
      forall i | 0 <= i < |z| ensures IsDigit(z[i]) {
        if i < k { assert z[i] == '0'; } else { assert z[i] == s[i - k]; }
      }
    }
    if s == [] {
      assert z == Zeros(k);
      ZerosValue(k);
    } else {
      var init := s[..|s| - 1];
      assert z[..|z| - 1] == Zeros(k) + init;
      assert AllDigits(init) by {
        forall i | 0 <= i < |init| ensures IsDigit(init[i]) { assert init[i] == s[i]; }
      }
      DecimalValueLeadingZeros(k, init);
    }
  }

  lemma {:induction false} ZerosValue(k: nat)
    ensures DecimalValue(Zeros(k)) == 0
  {
    if k > 0 {
      assert Zeros(k)[..k - 1] == Zeros(k - 1);
      ZerosValue(k - 1);
    }
  }

  /** Reading back the numeral of n gives n. */
  lemma {:induction false} DecimalValueOfNatToString(n: nat)
    ensures DecimalValue(NatToString(n)) == n
  {
    if n >= 10 {
      var s := NatToString(n);
      assert s[..|s| - 1] == NatToString(n / 10);
      DecimalValueOfNatToString(n / 10);
    }
  }

  /** Number(String(i)) == i for every integer. */
  lemma JsNumberOfIntToString(i: int)
    ensures JsNumber(IntToString(i)) == Some(i)
  {
    if i < 0 {
      var digits := NatToString(-i);
      var s := "-" + digits;
      assert IntToString(i) == s;
      assert s[1..] == digits;
      assert !AllDigits(s) by { assert !IsDigit(s[0]); }
      DecimalValueOfNatToString(-i);
    } else {
      DecimalValueOfNatToString(i);
    }
  }

  /** A zero-padded numeral of n still reads as n: padStart keeps the value of a coupon number. */
  lemma JsNumberOfPaddedNat(n: nat, width: int)
    ensures JsNumber(PadStart(NatToString(n), width)) == Some(n)
  {
    var s := NatToString(n);
    DecimalValueOfNatToString(n);
    if |s| < width {
      DecimalValueLeadingZeros(width - |s|, s);
    }
  }

  /** A larger number never has a shorter numeral. */
  lemma {:induction false} NatToStringLengthMonotone(a: nat, b: nat)
    requires a <= b
    ensures |NatToString(a)| <= |NatToString(b)|
  {
    if a >= 10 {
      NatToStringLengthMonotone(a / 10, b / 10);
    }
  }

  /** Distinct counts give distinct padded numerals (the user IDs of insertUser do not collide). */
  lemma PaddedNatInjective(a: nat, b: nat, width: int)
    requires PadStart(NatToString(a), width) == PadStart(NatToString(b), width)
    ensures a == b
  {
    JsNumberOfPaddedNat(a, width);
    JsNumberOfPaddedNat(b, width);
  }

  /** Splitting at the first separator: the part before it, then the split of the rest. */
  lemma {:induction false} SplitAtFirst(a: string, b: string, sep: char)
    requires sep !in a
    ensures Split(a + [sep] + b, sep) == [a] + Split(b, sep)
  {
    if a == [] {
      assert a + [sep] + b == [sep] + b;
      assert ([sep] + b)[1..] == b;
    } else {
      assert (a + [sep] + b)[1..] == a[1..] + [sep] + b;
      SplitAtFirst(a[1..], b, sep);
      assert [a[0]] + a[1..] == a;
    }
  }

  /** A string without the separator splits into itself alone. */
  lemma {:induction false} SplitWithoutSeparator(a: string, sep: char)
    requires sep !in a
    ensures Split(a, sep) == [a]
  {
    if a != [] {
      SplitWithoutSeparator(a[1..], sep);
      assert [a[0]] + a[1..] == a;
    }
  }
}
