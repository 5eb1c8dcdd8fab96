/** Numbers as printf writes them and atoi and strtoul read them, in bases up to 16. */
module Numerals {
  import opened Prelude

  function DigitChar(d: int): Byte
    requires 0 <= d < 16
  {
    if d < 10 then 48 + d else 87 + d
  }

  /** The value of a digit, or 16 for any other character. */
  function DigitVal(b: Byte): (v: int)
    ensures 0 <= v <= 16
  {
    if 48 <= b <= 57 then b - 48
    else if 97 <= b <= 102 then b - 87
    else if 65 <= b <= 70 then b - 55
    else 16
  }

  /** The digits of n. */
  function Printed(n: nat, base: int): (s: Text)
    requires 2 <= base <= 16
    ensures s != []
  {
    if n < base then [DigitChar(n)] else Printed(n / base, base) + [DigitChar(n % base)]
  }

  /** The digits of n after as many zeros as it takes to fill the width. */
  function Padded(n: nat, base: int, width: nat): Text
    requires 2 <= base <= 16
  {
    var s := Printed(n, base);
    seq(Max(width - |s|, 0), _ => 48) + s
  }

  /** The number that the digits at the front of s continue, when acc has been read already. */
  function Value(s: Text, base: int, acc: nat): nat
    requires 2 <= base <= 16
  {
    if s == [] || DigitVal(s[0]) >= base then acc else Value(s[1..], base, acc * base + DigitVal(s[0]))
  }

  predicate AllDigits(s: Text, base: int) {
    forall i :: 0 <= i < |s| ==> DigitVal(s[i]) < base
  }

  predicate EndsNumber(s: Text, base: int) {
    s != [] ==> DigitVal(s[0]) >= base
  }

  lemma {:induction false} ValueAppend(s: Text, t: Text, base: int, acc: nat)
    requires 2 <= base <= 16 && AllDigits(s, base)
    ensures Value(s + t, base, acc) == Value(t, base, Value(s, base, acc))
    decreases |s|
  {
    if s == [] {
      assert s + t == t;
    } else {
      assert (s + t)[1..] == s[1..] + t;
      ValueAppend(s[1..], t, base, acc * base + DigitVal(s[0]));
    }
  }

  lemma OneDigit(d: int, base: int, acc: nat)
    requires 2 <= base <= 16 && 0 <= d < base
    ensures Value([DigitChar(d)], base, acc) == acc * base + d
    ensures AllDigits([DigitChar(d)], base)
  {
    assert [DigitChar(d)][1..] == [];
  }

  /** Reading back the printed digits gives the number. */
  lemma {:induction false} PrintedValue(n: nat, base: int)
    requires 2 <= base <= 16
    ensures AllDigits(Printed(n, base), base) && Value(Printed(n, base), base, 0) == n
    decreases n
  {
    hide Value, AllDigits;
    if n < base {
      OneDigit(n, base, 0);
    } else {
      Divided(n, base);
      PrintedValue(n / base, base);
      AddDigit(Printed(n / base, base), n % base, base);
    }
  }

  lemma Divided(n: nat, base: int)
    requires 2 <= base <= n
    ensures 0 <= n / base < n && 0 <= n % base < base && (n / base) * base + n % base == n
  {
  }

  lemma AddDigit(s: Text, d: int, base: int)
    requires 2 <= base <= 16 && 0 <= d < base && AllDigits(s, base)
    ensures AllDigits(s + [DigitChar(d)], base)
    ensures Value(s + [DigitChar(d)], base, 0) == Value(s, base, 0) * base + d
  {
    hide Value;
    ValueAppend(s, [DigitChar(d)], base, 0);
    OneDigit(d, base, Value(s, base, 0));
  }

  lemma {:induction false} ZerosValue(k: nat, base: int)
    requires 2 <= base <= 16
    ensures AllDigits(seq(k, _ => 48), base) && Value(seq(k, _ => 48), base, 0) == 0
    decreases k
  {
    if k > 0 {
      var zeros: Text := seq(k, _ => 48);
      assert zeros[1..] == seq(k - 1, _ => 48);
      ZerosValue(k - 1, base);
    }
  }

  /** A number followed by anything but a digit reads back, with or without zeros in front. */
  lemma ReadPrinted(n: nat, base: int, rest: Text)
    requires 2 <= base <= 16 && EndsNumber(rest, base)
    ensures Value(Printed(n, base) + rest, base, 0) == n
  {
    PrintedValue(n, base);
    ValueAppend(Printed(n, base), rest, base, 0);
  }

  lemma ReadPadded(n: nat, base: int, width: nat, rest: Text)
    requires 2 <= base <= 16 && EndsNumber(rest, base)
    ensures Value(Padded(n, base, width) + rest, base, 0) == n
  {
    hide Printed, Value;
    var s := Printed(n, base);
    var zeros: Text := seq(Max(width - |s|, 0), _ => 48);
    ZerosValue(Max(width - |s|, 0), base);
    ValueAppend(zeros, s + rest, base, 0);
    assert zeros + (s + rest) == Padded(n, base, width) + rest;
    ReadPrinted(n, base, rest);
  }

  /** No space, line end or NUL is among the digits. */
  lemma DigitsArePlain(n: nat, base: int)
    requires 2 <= base <= 16
    ensures forall i :: 0 <= i < |Printed(n, base)| ==> 48 <= Printed(n, base)[i] <= 102
  {
    PrintedValue(n, base);
  }

  function Power(base: nat, k: nat): nat {
    if k == 0 then 1 else base * Power(base, k - 1)
  }

  lemma {:induction false} PrintedLength(n: nat, base: int, k: nat)
    requires 2 <= base <= 16 && k >= 1 && n < Power(base, k)
    ensures |Printed(n, base)| <= k
    decreases k
  {
    assert Power(base, 1) == base * Power(base, 0) == base;
    if n >= base {
      Divided(n, base);
      LessDivided(n, base, Power(base, k - 1));
      PrintedLength(n / base, base, k - 1);
    }
  }

  lemma LessDivided(n: nat, base: int, p: nat)
    requires 2 <= base && n < base * p
    ensures n / base < p
  {
  }

  /** Digits as they are written, the highest first, and zeros in front of them. */
  lemma WrittenDigits(d: int)
    requires 0 <= d < 16
    ensures DigitChar(d) as char == "0123456789abcdef"[d]
    ensures Printed(907, 10) == [57, 48, 55] && Printed(420, 8) == [54, 52, 52]
    ensures Padded(7, 10, 3) == [48, 48, 55] && Padded(175, 16, 4) == [48, 48, 97, 102]
  {
    assert Printed(90, 10) == [57, 48] && Printed(52, 8) == [54, 52] && Printed(175, 16) == [97, 102];
  }
}
