/** Decimal rendering of integers as the stopwatch display uses it:
    `Number.prototype.toString()` on integral values and
    `String.prototype.padStart` with a one-character filler, together with a
    digit-string parser that serves as their inverse. */
module Decimal {

  predicate IsDigit(c: char) {
    '0' <= c <= '9'
  }

  predicate AllDigits(s: string) {
    forall i :: 0 <= i < |s| ==> IsDigit(s[i])
  }

  function DigitValue(c: char): (d: nat)
    requires IsDigit(c)
    ensures d < 10
  {
    c as int - '0' as int
  }

  function DigitChar(d: nat): (c: char)
    requires d < 10
    ensures IsDigit(c) && DigitValue(c) == d
  {
    ('0' as int + d) as char
  }

  /** The shortest decimal numeral of `n`: no sign, no leading zero. */
  function NatToString(n: nat): (s: string)
    ensures 1 <= |s| && AllDigits(s)
    ensures 0 < n ==> s[0] != '0'
    ensures (|s| == 1) == (n < 10)
    decreases n
  {
    if n < 10 then [DigitChar(n)] else NatToString(n / 10) + [DigitChar(n % 10)]
  }

  /** Numbers below 100 have at most two digits. */
  lemma NatToStringBelow100(n: nat)
    ensures n < 100 ==> |NatToString(n)| <= 2
  {
    if 10 <= n < 100 {
      assert NatToString(n) == NatToString(n / 10) + [DigitChar(n % 10)];
    }
  }

  /** `toString()` of an integral number: a minus sign before the numeral
      of the magnitude when negative. */
  function IntToString(i: int): (s: string)
    ensures 1 <= |s|
    ensures 0 <= i ==> AllDigits(s) && ParseNat(s) == i
    ensures i < 0 ==> |s| >= 2 && s[0] == '-' && AllDigits(s[1..]) && ParseNat(s[1..]) == -i
    ensures 0 < i ==> s[0] != '0'
    ensures i < 0 ==> s[1] != '0'
  {
    if i < 0 then
      ParseNatToString(-i);
      assert ("-" + NatToString(-i))[1..] == NatToString(-i);
      "-" + NatToString(-i)
    else
      ParseNatToString(i);
      NatToString(i)
  }

  function Repeat(c: char, k: nat): (s: string)
    ensures |s| == k
    ensures forall i :: 0 <= i < k ==> s[i] == c
  {
    seq(k, _ => c)
  }

  /** `s.padStart(targetLength, fill)`: fill characters are put in front of
      `s` until it is `targetLength` long; a string already that long or
      longer is returned unchanged. */
  function PadStart(s: string, targetLength: int, fill: char): (r: string)
    ensures |r| == if |s| < targetLength then targetLength else |s|
    ensures r[|r| - |s|..] == s
    ensures forall i :: 0 <= i < |r| - |s| ==> r[i] == fill
  {
    if |s| < targetLength then Repeat(fill, targetLength - |s|) + s else s
  }

  /** Reads a digit string as a number (the empty string reads as 0). */
  function ParseNat(s: string): nat
    requires AllDigits(s)
  {
    if |s| == 0 then 0 else ParseNat(s[..|s| - 1]) * 10 + DigitValue(s[|s| - 1])
  }

  /** Reading back the numeral `toString()` produced gives the number. */
  lemma {:induction false} ParseNatToString(n: nat)
    ensures ParseNat(NatToString(n)) == n
  {
    var s := NatToString(n);
    if n < 10 {
      assert s[..|s| - 1] == [];
    } else {
      assert s[..|s| - 1] == NatToString(n / 10);
      ParseNatToString(n / 10);
    }
  }

  /** Leading zeros do not change the value read. */
  lemma {:induction false} ParseNatLeadingZeros(k: nat, s: string)
    requires AllDigits(s)
    ensures AllDigits(Repeat('0', k) + s)
    ensures ParseNat(Repeat('0', k) + s) == ParseNat(s)
    decreases |s|, k
  {
    var z := Repeat('0', k);
    if |s| == 0 {
      assert z + s == z;
      if k > 0 {
        assert z[..k - 1] == Repeat('0', k - 1);
        ParseNatLeadingZeros(k - 1, s);
        assert Repeat('0', k - 1) + s == Repeat('0', k - 1);
      }
    } else {
      var t := z + s;
      assert t[..|t| - 1] == z + s[..|s| - 1];
      ParseNatLeadingZeros(k, s[..|s| - 1]);
    }
  }

  /** A non-negative number padded with zeros still reads as itself, whatever
      the target width. */
  lemma ParsePaddedNat(n: nat, width: int)
    ensures AllDigits(PadStart(NatToString(n), width, '0'))
    ensures ParseNat(PadStart(NatToString(n), width, '0')) == n
  {
    var s := NatToString(n);
    ParseNatToString(n);
    if |s| < width {
      ParseZeroPadded(s, width);
    } else {
      assert PadStart(s, width, '0') == s;
    }
  }

  /** Padding a digit string with zeros keeps its value. */
  lemma ParseZeroPadded(s: string, width: int)
    requires AllDigits(s) && |s| < width
    ensures AllDigits(PadStart(s, width, '0'))
    ensures ParseNat(PadStart(s, width, '0')) == ParseNat(s)
  {
    assert PadStart(s, width, '0') == Repeat('0', width - |s|) + s;
    ParseNatLeadingZeros(width - |s|, s);
  }
}
