/**
 * Integer <-> text conversions of the utilities: Python's `str(n)`, `int(s)`, the
 * mirror's amount reader `int(str(v).replace(',', '').replace('.', ''))`, the
 * thousands-separated rendering `f"{n:,}".replace(',', '.')` behind `format_currency`,
 * and the transfer description built by `generate_payment_message`.
 */
module Numerals {
  import opened Wrappers
  import Strings

  predicate IsDigit(c: char) {
    '0' <= c <= '9'
  }

  predicate AllDigits(s: string) {
    forall i :: 0 <= i < |s| ==> IsDigit(s[i])
  }

  function DigitChar(d: nat): (c: char)
    requires d < 10
    ensures IsDigit(c)
  {
    ('0' as int + d) as char
  }

  function DigitValue(c: char): nat
    requires IsDigit(c)
  {
    c as int - '0' as int
  }

  /** The value of a string of decimal digits (the empty string reads as 0). */
  function DigitsValue(s: string): nat
    requires AllDigits(s)
  {
    if s == [] then 0 else DigitsValue(s[..|s| - 1]) * 10 + DigitValue(s[|s| - 1])
  }

  /** Python's `str(n)` for `n >= 0`: the decimal digits of `n` without leading zeros. */
  function Digits(n: nat): (s: string)
    ensures s != [] && AllDigits(s)
    ensures |s| > 1 ==> s[0] != '0'
    decreases n
  {
    if n < 10 then [DigitChar(n)] else Digits(n / 10) + [DigitChar(n % 10)]
  }

  /** Python's `str(n)` and `f"{n}"` for any integer. */
  function IntToString(n: int): string {
    if n < 0 then "-" + Digits(-n) else Digits(n)
  }

  /** Python's `int(s)` on a `str`: surrounding whitespace, an optional sign, then one or
      more ASCII digits; anything else raises, which is `None` here. */
  function ParseInt(s: string): Option<int> {
    var t := Strings.Strip(s);
    if t == [] then None
    else if t[0] == '-' || t[0] == '+' then
      var body := t[1..];
      if body != [] && AllDigits(body) then
        Some(if t[0] == '-' then -(DigitsValue(body) as int) else DigitsValue(body))
      else None
    else if AllDigits(t) then Some(DigitsValue(t))
    else None
  }

  /** `s.replace(',', '').replace('.', '')`. */
  function RemoveSeparators(s: string): (r: string)
    ensures forall i :: 0 <= i < |r| ==> r[i] != ',' && r[i] != '.'
  {
    if s == [] then []
    else (if s[0] == ',' || s[0] == '.' then [] else [s[0]]) + RemoveSeparators(s[1..])
  }

  /** The mirror's amount reader: `int(text.replace(',', '').replace('.', ''))`. */
  function ParseSeparatedInt(s: string): Option<int> {
    ParseInt(RemoveSeparators(s))
  }

  function Pad3(k: nat): (s: string)
    requires k < 1000
    ensures |s| == 3 && AllDigits(s)
  {
    [DigitChar(k / 100), DigitChar(k / 10 % 10), DigitChar(k % 10)]
  }

  /** `f"{n:,}"` for `n >= 0` with the commas already turned into dots. */
  function GroupedDigits(n: nat): string
    decreases n
  {
    if n < 1000 then Digits(n) else GroupedDigits(n / 1000) + "." + Pad3(n % 1000)
  }

  /** `f"{amount:,}".replace(',', '.')`: the amount text of `format_currency` and of the
      payment message. */
  function FormatAmount(n: int): string {
    if n < 0 then "-" + GroupedDigits(-n) else GroupedDigits(n)
  }

  /** `format_currency`: the dotted amount followed by " VND". */
  function FormatCurrency(n: int): string {
    FormatAmount(n) + " VND"
  }

  /** `generate_payment_message`: name, dotted amount and the codes joined by ", ",
      separated by single spaces. */
  function PaymentMessage(name: string, amount: int, codes: seq<string>): string {
    name + " " + FormatAmount(amount) + " " + Strings.Join(codes, ", ")
  }

  /** Dots every three digits counted from the right, digits everywhere else. */
  predicate DotGrouped(s: string) {
    s != [] && IsDigit(s[0]) &&
    forall i :: 0 <= i < |s| ==> if (|s| - i) % 4 == 0 then s[i] == '.' else IsDigit(s[i])
  }

  // ---------------------------------------------------------------------------------

  lemma DigitsValueSnoc(a: string, c: char)
    requires AllDigits(a) && IsDigit(c)
    ensures AllDigits(a + [c])
    ensures DigitsValue(a + [c]) == DigitsValue(a) * 10 + DigitValue(c)
  {
    assert (a + [c])[..|a|] == a;
  }

  /** `int(str(n)) == n` for `n >= 0`. */
  lemma {:induction false} DigitsRoundTrip(n: nat)
    ensures DigitsValue(Digits(n)) == n
    decreases n
  {
    if n >= 10 {
      DigitsRoundTrip(n / 10);
      DigitsValueSnoc(Digits(n / 10), DigitChar(n % 10));
    }
  }

  /** `int(str(n)) == n` for every integer. */
  lemma ParseIntOfIntToString(n: int)
    ensures ParseInt(IntToString(n)) == Some(n)
  {
    var s := IntToString(n);
    var d := if n < 0 then Digits(-n) else Digits(n);
    assert IsDigit(d[|d| - 1]);
    assert s[|s| - 1] == d[|d| - 1];
    assert Strings.Strip(s) == s;
    if n < 0 {
      assert s[1..] == d;
      DigitsRoundTrip(-n);
    } else {
      DigitsRoundTrip(n);
    }
  }

  lemma {:induction false} RemoveSeparatorsAppend(a: string, b: string)
    ensures RemoveSeparators(a + b) == RemoveSeparators(a) + RemoveSeparators(b)
    decreases |a|
  {
    if a != [] {
      assert (a + b)[1..] == a[1..] + b;
      RemoveSeparatorsAppend(a[1..], b);
    } else {
      assert a + b == b;
    }
  }

  lemma {:induction false} RemoveSeparatorsOfDigits(s: string)
    requires AllDigits(s)
    ensures RemoveSeparators(s) == s
    decreases |s|
  {
    if s != [] {
      RemoveSeparatorsOfDigits(s[1..]);
      assert s == [s[0]] + s[1..];
    }
  }

  lemma Pad3Value(a: string, k: nat)
    requires AllDigits(a) && k < 1000
    ensures AllDigits(a + Pad3(k))
    ensures DigitsValue(a + Pad3(k)) == DigitsValue(a) * 1000 + k
  {
    var p := Pad3(k);
    DigitsValueSnoc(a, p[0]);
    DigitsValueSnoc(a + [p[0]], p[1]);
    DigitsValueSnoc(a + [p[0]] + [p[1]], p[2]);
    assert a + p == a + [p[0]] + [p[1]] + [p[2]];
    var q := k / 10;
    assert k == q * 10 + k % 10;
    assert q == (k / 100) * 10 + q % 10;
  }

  /** Stripping the dots from the grouped text gives back digits whose value is `n`. */
  lemma {:induction false} GroupedDigitsValue(n: nat)
    ensures RemoveSeparators(GroupedDigits(n)) != []
    ensures AllDigits(RemoveSeparators(GroupedDigits(n)))
    ensures DigitsValue(RemoveSeparators(GroupedDigits(n))) == n
    decreases n
  {
    if n < 1000 {
      RemoveSeparatorsOfDigits(Digits(n));
      DigitsRoundTrip(n);
    } else {
      var g := GroupedDigits(n / 1000);
      GroupedDigitsValue(n / 1000);
      RemoveSeparatorsAppend(g + ".", Pad3(n % 1000));
      RemoveSeparatorsAppend(g, ".");
      RemoveSeparatorsOfDigits(Pad3(n % 1000));
      assert RemoveSeparators(".") == [];
      assert GroupedDigits(n) == (g + ".") + Pad3(n % 1000);
      assert RemoveSeparators(GroupedDigits(n)) == RemoveSeparators(g) + Pad3(n % 1000);
      Pad3Value(RemoveSeparators(g), n % 1000);
      assert n == n / 1000 * 1000 + n % 1000;
    }
  }

  /** The grouped text has a digit first, a dot before every full group of three and
      digits everywhere else. */
  lemma {:induction false} GroupedDigitsShape(n: nat)
    ensures DotGrouped(GroupedDigits(n))
    decreases n
  {
    if n < 1000 {
      SmallGroupedShape(n);
    } else {
      GroupedDigitsShape(n / 1000);
      DotGroupedAppend(GroupedDigits(n / 1000), Pad3(n % 1000));
    }
  }

  /** Below 1000 the grouped text is the plain digits, at most three of them. */
  lemma SmallGroupedShape(n: nat)
    requires n < 1000
    ensures DotGrouped(GroupedDigits(n))
  {
    var s := GroupedDigits(n);
    DigitsRoundTrip(n);
    assert |s| <= 3 by {
      if |s| > 3 {
        DigitsPrefixBound(s);
      }
    }
  }

  /** A dot and a further group of three digits keep the text dot-grouped. */
  lemma DotGroupedAppend(g: string, p: string)
    requires DotGrouped(g) && |p| == 3 && AllDigits(p)
    ensures DotGrouped(g + "." + p)
  {
    var s := g + "." + p;
    forall i | 0 <= i < |s|
      ensures if (|s| - i) % 4 == 0 then s[i] == '.' else IsDigit(s[i])
    {
      if i < |g| {
        assert s[i] == g[i];
        assert (|s| - i) % 4 == (|g| - i) % 4;
      } else if i > |g| {
        assert s[i] == p[i - |g| - 1];
      }
    }
  }

  /** A digit string without a leading zero and longer than three digits is worth at least 1000. */
  lemma DigitsPrefixBound(s: string)
    requires AllDigits(s) && |s| > 3 && s[0] != '0'
    ensures DigitsValue(s) >= 1000
  {
    LeadingDigitBound(s);
    Pow10AtLeast(|s| - 1);
  }

  /** A number below `10^k` has at most `k` digits. */
  lemma {:induction false} DigitsLength(n: nat, k: nat)
    ensures k >= 1 && n < Pow10(k) ==> |Digits(n)| <= k
    decreases n
  {
    if k >= 1 && n < Pow10(k) && n >= 10 {
      DigitsLength(n / 10, k - 1);
    }
  }

  /** Zeros in front of a digit string do not change its value. */
  lemma {:induction false} LeadingZeros(z: nat, s: string)
    requires AllDigits(s)
    ensures AllDigits(seq(z, _ => '0') + s)
    ensures DigitsValue(seq(z, _ => '0') + s) == DigitsValue(s)
  {
    if z > 0 {
      LeadingZeros(z - 1, s);
      assert seq(z, _ => '0') + s == ['0'] + (seq(z - 1, _ => '0') + s);
      LeadingZero(seq(z - 1, _ => '0') + s);
    } else {
      assert seq(z, _ => '0') + s == s;
    }
  }

  lemma {:induction false} LeadingZero(s: string)
    requires AllDigits(s)
    ensures AllDigits(['0'] + s) && DigitsValue(['0'] + s) == DigitsValue(s)
    decreases |s|
  {
    if s != [] {
      var t := ['0'] + s;
      assert t[..|t| - 1] == ['0'] + s[..|s| - 1];
      LeadingZero(s[..|s| - 1]);
    }
  }

  lemma {:induction false} Pow10AtLeast(k: nat)
    requires k >= 3
    ensures Pow10(k) >= 1000
  {
    if k > 3 { Pow10AtLeast(k - 1); }
  }

  lemma {:induction false} LeadingDigitBound(s: string)
    requires AllDigits(s) && |s| >= 1 && s[0] != '0'
    ensures DigitsValue(s) >= Pow10(|s| - 1)
    decreases |s|
  {
    if |s| > 1 {
      LeadingDigitBound(s[..|s| - 1]);
    }
  }

  function Pow10(k: nat): (p: nat)
    ensures p >= 1
  {
    if k == 0 then 1 else 10 * Pow10(k - 1)
  }

  /** `format_currency` / the payment message render an amount that the mirror's amount
      reader turns back into the same integer. */
  /** `int` reads a digit string, with or without a leading minus sign. */
  lemma ParseIntOfDigits(d: string)
    requires d != [] && AllDigits(d)
    ensures ParseInt(d) == Some(DigitsValue(d) as int)
    ensures ParseInt("-" + d) == Some(-(DigitsValue(d) as int))
  {
    assert IsDigit(d[0]) && IsDigit(d[|d| - 1]);
    assert Strings.Strip(d) == d;
    var t := "-" + d;
    assert t[|t| - 1] == d[|d| - 1];
    assert Strings.Strip(t) == t;
    assert t[1..] == d;
  }

  lemma FormatAmountRoundTrip(n: int)
    ensures ParseSeparatedInt(FormatAmount(n)) == Some(n)
  {
    var m := if n < 0 then -n else n;
    var g := GroupedDigits(m);
    GroupedDigitsValue(m);
    var d := RemoveSeparators(g);
    ParseIntOfDigits(d);
    if n < 0 {
      RemoveSeparatorsAppend("-", g);
      assert RemoveSeparators("-") == "-";
      assert RemoveSeparators(FormatAmount(n)) == "-" + d;
    }
  }

  /** `f"{n}"`, the text the mirror writes into a paid cell, reads back as `n`. */
  lemma IntToStringRoundTrip(n: int)
    ensures ParseSeparatedInt(IntToString(n)) == Some(n)
  {
    var d := if n < 0 then Digits(-n) else Digits(n);
    RemoveSeparatorsOfDigits(d);
    if n < 0 {
      RemoveSeparatorsAppend("-", d);
      assert RemoveSeparators("-") == "-";
    }
    ParseIntOfIntToString(n);
  }

  /** The documented example of `format_currency` (with the dots the code writes). */
  lemma FormatCurrencyExample()
    ensures FormatCurrency(10000) == "10.000 VND"
  {
    assert Digits(10) == "10";
    assert GroupedDigits(10000) == "10.000";
  }

  /** The documented example of `generate_payment_message`. */
  lemma PaymentMessageExample()
    ensures PaymentMessage("Vũ Trần Đình Tâm", 310000, ["VP01", "VP04", "VP05"])
         == "Vũ Trần Đình Tâm 310.000 VP01, VP04, VP05"
  {
    ExampleAmount();
    ExampleCodes();
  }

  lemma ExampleAmount()
    ensures FormatAmount(310000) == "310.000"
  {
    assert Digits(3) == "3";
    assert Digits(31) == Digits(3) + "1";
    assert Digits(310) == Digits(31) + "0";
    assert Pad3(0) == "000";
    assert GroupedDigits(310) == "310";
  }

  lemma ExampleCodes()
    ensures Strings.Join(["VP01", "VP04", "VP05"], ", ") == "VP01, VP04, VP05"
  {
    var codes := ["VP01", "VP04", "VP05"];
    assert codes[1..] == ["VP04", "VP05"];
    assert codes[1..][1..] == ["VP05"];
  }
}
