// The amount conversion `parseFloat(m[1].replace(/,/g, ''))` of
// src/utils/parsePaystub.ts:74, carried out on integer cents.
module Amounts {
  import opened Text

  /** The text of the capture group `([\d,]+\.\d{2})`. */
  predicate IsAmountText(c: string) {
    |c| >= 4 && (forall i | 0 <= i < |c| - 3 :: IsDigitOrComma(c[i]))
    && c[|c| - 3] == '.' && IsDigit(c[|c| - 2]) && IsDigit(c[|c| - 1])
  }

  /** What `parseFloat` receives once the commas are gone: digits, a point and
      two fraction digits. The whole part may be empty (a capture ",.50" leaves
      ".50", which `parseFloat` reads as 0.5). */
  predicate IsDecimalText(t: string) {
    |t| >= 3 && (forall i | 0 <= i < |t| - 3 :: IsDigit(t[i]))
    && t[|t| - 3] == '.' && IsDigit(t[|t| - 2]) && IsDigit(t[|t| - 1])
  }

  /** `replace(/,/g, '')`: drops every comma and keeps everything else. */
  function StripCommas(s: string): (r: string)
    ensures |r| <= |s|
    ensures forall i | 0 <= i < |r| :: r[i] != ','
  {
    if s == [] then []
    else if s[0] == ',' then StripCommas(s[1..])
    else [s[0]] + StripCommas(s[1..])
  }

  /** Removing commas distributes over concatenation. */
  lemma {:induction false} StripCommasAppend(a: string, b: string)
    ensures StripCommas(a + b) == StripCommas(a) + StripCommas(b)
  {
    if a == [] {
      assert a + b == b;
    } else {
      assert (a + b)[0] == a[0];
      assert (a + b)[1..] == a[1..] + b;
      StripCommasAppend(a[1..], b);
    }
  }

  /** Text without commas is left as it is. */
  lemma {:induction false} StripCommasNoComma(s: string)
    requires forall i | 0 <= i < |s| :: s[i] != ','
    ensures StripCommas(s) == s
  {
    if s != [] {
      StripCommasNoComma(s[1..]);
    }
  }

  /** Removing the commas of a run of digits and commas leaves only digits. */
  lemma {:induction false} StripCommasDigits(s: string)
    requires forall i | 0 <= i < |s| :: IsDigitOrComma(s[i])
    ensures forall i | 0 <= i < |StripCommas(s)| :: IsDigit(StripCommas(s)[i])
  {
    if s != [] {
      StripCommasDigits(s[1..]);
    }
  }

  /** A capture becomes decimal text once its commas are removed; the point
      and the two fraction digits are untouched. */
  lemma StripCommasAmount(c: string)
    requires IsAmountText(c)
    ensures StripCommas(c) == StripCommas(c[..|c| - 3]) + c[|c| - 3..]
    ensures IsDecimalText(StripCommas(c))
  {
    var whole, frac := c[..|c| - 3], c[|c| - 3..];
    assert c == whole + frac;
    StripCommasAppend(whole, frac);
    assert frac[0] == c[|c| - 3] && frac[1] == c[|c| - 2] && frac[2] == c[|c| - 1];
    StripCommasFraction(frac);
    StripCommasDigits(whole);
    DecimalTextAppend(StripCommas(whole), frac);
  }

  /** A point and two digits hold no comma. */
  lemma StripCommasFraction(frac: string)
    requires |frac| == 3 && frac[0] == '.' && IsDigit(frac[1]) && IsDigit(frac[2])
    ensures StripCommas(frac) == frac
  {
    StripCommasNoComma(frac);
  }

  lemma DecimalTextAppend(w: string, frac: string)
    requires forall i | 0 <= i < |w| :: IsDigit(w[i])
    requires |frac| == 3 && frac[0] == '.' && IsDigit(frac[1]) && IsDigit(frac[2])
    ensures IsDecimalText(w + frac)
  {
  }

  /** Amount text holds no minus sign. */
  lemma AmountTextUnsigned(c: string)
    requires IsAmountText(c)
    ensures '-' !in c
  {
    forall i | 0 <= i < |c| ensures c[i] != '-' {
      if i < |c| - 3 {
        assert IsDigitOrComma(c[i]);
      }
    }
  }

  function DigitValue(c: char): (d: nat)
    requires IsDigit(c)
    ensures d < 10
  {
    c as int - '0' as int
  }

  function DigitChar(d: nat): (c: char)
    requires d < 10
    ensures IsDigit(c) && DigitValue(c) == d
  {
    ('0' as int + d) as char
  }

  /** The value of a string of decimal digits (0 for the empty string). */
  function DigitsValue(ds: string): (r: nat)
    requires forall i | 0 <= i < |ds| :: IsDigit(ds[i])
  {
    if ds == [] then 0 else DigitsValue(ds[..|ds| - 1]) * 10 + DigitValue(ds[|ds| - 1])
  }

  /** The value of decimal text, in cents. */
  function DecimalCents(t: string): (r: nat)
    requires IsDecimalText(t)
  {
    DigitsValue(t[..|t| - 3]) * 100 + DigitValue(t[|t| - 2]) * 10 + DigitValue(t[|t| - 1])
  }

  /** The amount of a captured number: `parseFloat(capture.replace(/,/g, ''))`,
      in cents. */
  function AmountOf(c: string): (r: nat)
    requires IsAmountText(c)
    ensures r % 100 == DigitValue(c[|c| - 2]) * 10 + DigitValue(c[|c| - 1])
  {
    StripCommasAmount(c);
    var t := StripCommas(c);
    assert t[|t| - 2] == c[|c| - 2] && t[|t| - 1] == c[|c| - 1];
    CentsRemainder(DigitsValue(t[..|t| - 3]), DigitValue(t[|t| - 2]) * 10 + DigitValue(t[|t| - 1]));
    DecimalCents(t)
  }

  lemma CentsRemainder(whole: nat, cents: nat)
    requires cents < 100
    ensures (whole * 100 + cents) % 100 == cents
  {
  }

  /** Thousands separators do not change an amount: a comma put anywhere in
      the whole part of a captured number leaves its value as it was. */
  lemma CommaIgnored(c: string, i: nat)
    requires IsAmountText(c) && i <= |c| - 3
    ensures IsAmountText(c[..i] + "," + c[i..])
    ensures AmountOf(c[..i] + "," + c[i..]) == AmountOf(c)
  {
    var c' := c[..i] + "," + c[i..];
    assert c == c[..i] + c[i..];
    StripCommasAppend(c[..i] + ",", c[i..]);
    StripCommasAppend(c[..i], ",");
    StripCommasAppend(c[..i], c[i..]);
    assert StripCommas(",") == [];
    assert StripCommas(c') == StripCommas(c);
  }

  /** A leading zero does not change an amount: "007.50" reads as "7.50". */
  lemma LeadingZeroIgnored(c: string)
    requires IsAmountText(c)
    ensures IsAmountText("0" + c)
    ensures AmountOf("0" + c) == AmountOf(c)
  {
    var c' := "0" + c;
    assert c'[1..] == c;
    assert StripCommas(c') == "0" + StripCommas(c);
    var t, t' := StripCommas(c), StripCommas(c');
    StripCommasAmount(c);
    StripCommasAmount(c');
    assert t'[..|t'| - 3] == "0" + t[..|t| - 3];
    DigitsValueLeadingZero(t[..|t| - 3]);
  }

  lemma {:induction false} DigitsValueLeadingZero(ds: string)
    requires forall i | 0 <= i < |ds| :: IsDigit(ds[i])
    ensures DigitsValue("0" + ds) == DigitsValue(ds)
  {
    if ds != [] {
      var ds' := "0" + ds;
      assert ds'[..|ds'| - 1] == "0" + ds[..|ds| - 1];
      DigitsValueLeadingZero(ds[..|ds| - 1]);
    }
  }

  /** A capture with no digit before its point (",.50", which `parseFloat`
      receives as ".50") is worth just its two fraction digits. */
  lemma NoWholeDigits(c: string)
    requires IsAmountText(c)
    requires forall i | 0 <= i < |c| - 3 :: c[i] == ','
    ensures AmountOf(c) == DigitValue(c[|c| - 2]) * 10 + DigitValue(c[|c| - 1])
  {
    StripCommasAmount(c);
    StripCommasOnlyCommas(c[..|c| - 3]);
  }

  lemma {:induction false} StripCommasOnlyCommas(s: string)
    requires forall i | 0 <= i < |s| :: s[i] == ','
    ensures StripCommas(s) == []
  {
    if s != [] {
      StripCommasOnlyCommas(s[1..]);
    }
  }

  /** The decimal digits of `n`, most significant first, without leading zeros. */
  function ShowNat(n: nat): (ds: string)
    ensures |ds| >= 1 && forall i | 0 <= i < |ds| :: IsDigit(ds[i])
  {
    if n < 10 then [DigitChar(n)] else ShowNat(n / 10) + [DigitChar(n % 10)]
  }

  lemma {:induction false} ShowNatValue(n: nat)
    ensures DigitsValue(ShowNat(n)) == n
  {
    if n >= 10 {
      ShowNatValue(n / 10);
      var ds := ShowNat(n);
      assert ds[..|ds| - 1] == ShowNat(n / 10);
    }
  }

  /** An amount of `n` cents written as a pay stub prints it, without
      thousands separators ("1234.50"). */
  function FormatCents(n: nat): (c: string)
    ensures IsAmountText(c)
    ensures forall i | 0 <= i < |c| :: c[i] != ','
  {
    ShowNat(n / 100) + "." + [DigitChar(n / 10 % 10), DigitChar(n % 10)]
  }

  /** Every amount in cents is read back exactly from its printed form. */
  lemma AmountOfFormat(n: nat)
    ensures AmountOf(FormatCents(n)) == n
  {
    var c := FormatCents(n);
    StripCommasNoComma(c);
    ShowNatValue(n / 100);
    assert c[..|c| - 3] == ShowNat(n / 100);
    CentsDigits(n);
  }

  lemma CentsDigits(n: nat)
    ensures n == n / 100 * 100 + n / 10 % 10 * 10 + n % 10
  {
    var a := n / 10;
    assert n == a * 10 + n % 10;
    assert a == a / 10 * 10 + a % 10;
    assert a / 10 == n / 100;
  }
}
