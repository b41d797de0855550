/** Durations as the agent prints them and the collector reads them. */
module MergedNumbers {
  import opened MergedFile
  import opened Text
  import opened Wrappers

  lemma FractionCons(d: char, rest: string)
    ensures Fraction([d] + rest) == (DigitValue(d) as real + Fraction(rest)) / 10.0
  {
    assert ([d] + rest)[1..] == rest;
  }

  lemma ThreeDigits(a: nat, b: nat, c: nat)
    requires a < 10 && b < 10 && c < 10
    ensures Fraction([Digit(a), Digit(b), Digit(c)]) == (100 * a + 10 * b + c) as real / 1000.0
  {
    FractionCons(Digit(c), "");
    FractionCons(Digit(b), [Digit(c)]);
    FractionCons(Digit(a), [Digit(b), Digit(c)]);
    assert [Digit(c)] + "" == [Digit(c)] && [Digit(b)] + [Digit(c)] == [Digit(b), Digit(c)];
    assert [Digit(a)] + [Digit(b), Digit(c)] == [Digit(a), Digit(b), Digit(c)];
  }

  lemma Pad3Value(r: nat)
    requires r < 1000
    ensures Fraction(Pad3(r)) == r as real / 1000.0
    ensures forall i | 0 <= i < 3 :: IsDigit(Pad3(r)[i], 10)
  {
    ThreeDigits(r / 100, r / 10 % 10, r % 10);
    assert r == 100 * (r / 100) + 10 * (r / 10 % 10) + r % 10;
  }

  lemma DecimalsOf(whole: string, frac: string, rest: string)
    requires forall i | 0 <= i < |frac| :: IsDigit(frac[i], 10)
    requires rest == "" || !IsDigit(rest[0], 10)
    ensures Decimals(whole + ("." + (frac + rest)), |whole|) == frac
  {
    var s := whole + ("." + (frac + rest));
    assert s[|whole|] == '.' && s[|whole| + 1..] == frac + rest;
    DigitRunGrows(frac, rest);
    assert (frac + rest)[..|frac|] == frac;
  }

  lemma StrToDOf(whole: string, frac: string, rest: string)
    requires IsNumeral(whole, 10) && forall i | 0 <= i < |frac| :: IsDigit(frac[i], 10)
    requires rest == "" || !IsDigit(rest[0], 10)
    ensures StrToD(whole + ("." + (frac + rest))) ==
      Some(Value(whole, 10) as real + Fraction(frac))
  {
    var s := whole + ("." + (frac + rest));
    DigitRunGrows(whole, "." + (frac + rest));
    DecimalsOf(whole, frac, rest);
    UnsignedOf(s, whole, frac);
    assert s[0] == whole[0];
  }

  lemma UnsignedOf(s: string, whole: string, frac: string)
    requires whole != "" && DigitRun(s) == |whole| && whole <= s && Decimals(s, |whole|) == frac
    ensures UnsignedValue(s) == Some(Value(whole, 10) as real + Fraction(frac))
  {
    assert s[..|whole|] == whole;
  }

  lemma Thousandths(ns: nat)
    ensures (ns / 1000) as real + (ns % 1000) as real / 1000.0 == ns as real / 1000.0
  {
    assert ns as real == 1000.0 * (ns / 1000) as real + (ns % 1000) as real;
  }

  lemma Regrouped(a: string, b: string, c: string, d: string)
    ensures a + b + c + d == a + (b + (c + d))
  {}

  lemma Fixed3Text(ns: nat, rest: string)
    ensures Fixed3(ns) + rest == Dec(ns / 1000) + ("." + (Pad3(ns % 1000) + rest))
  {
    var whole, frac := Dec(ns / 1000), Pad3(ns % 1000);
    assert Fixed3(ns) == "" + whole + "." + frac;
    assert "" + whole == whole;
    Regrouped(whole, ".", frac, rest);
  }

  lemma PartsReadBack(ns: nat, rest: string, text: string)
    requires rest == "" || !IsDigit(rest[0], 10)
    requires text == Dec(ns / 1000) + ("." + (Pad3(ns % 1000) + rest))
    ensures StrToD(text) == Some(ns as real / 1000.0)
  {
    NumeralValue(ns / 1000, 10);
    Pad3Value(ns % 1000);
    StrToDOf(Dec(ns / 1000), Pad3(ns % 1000), rest);
    Thousandths(ns);
  }

  /** A printed duration reads back exactly, whatever follows it. */
  lemma Fixed3ReadsBack(ns: nat, rest: string)
    requires rest == "" || !IsDigit(rest[0], 10)
    ensures StrToD(Fixed3(ns) + rest) == Some(ns as real / 1000.0)
  {
    Fixed3Text(ns, rest);
    PartsReadBack(ns, rest, Fixed3(ns) + rest);
  }

  lemma MinusText(ns: int, minus: nat, rest: string)
    requires ns < 0 && minus == 0 - ns
    ensures Fixed3(ns) + rest == "-" + (Fixed3(minus) + rest)
  {
    assert Fixed3(ns) == "-" + Fixed3(minus);
  }

  lemma MinusIsRead(text: string, value: real)
    requires text != "" && text[0] != '-' && StrToD(text) == Some(value)
    ensures StrToD("-" + text) == Some(0.0 - value)
  {
    assert ("-" + text)[1..] == text;
  }

  lemma StartsWithADigit(ns: nat, rest: string)
    ensures Fixed3(ns) + rest != "" && IsDigit((Fixed3(ns) + rest)[0], 10)
  {
    Fixed3Text(ns, rest);
    NumeralValue(ns / 1000, 10);
    assert (Fixed3(ns) + rest)[0] == Dec(ns / 1000)[0];
  }

  lemma MinusReadsBack(minus: nat, rest: string, text: string, value: real)
    requires rest == "" || !IsDigit(rest[0], 10)
    requires text == Fixed3(minus) + rest && value == minus as real / 1000.0
    ensures StrToD("-" + text) == Some(0.0 - value)
  {
    Fixed3ReadsBack(minus, rest);
    StartsWithADigit(minus, rest);
    MinusIsRead(text, value);
  }

  lemma NegativeReadsBack(ns: int, minus: nat, rest: string, value: real)
    requires ns < 0 && minus == 0 - ns && (rest == "" || !IsDigit(rest[0], 10)) && value == minus as real / 1000.0
    ensures StrToD(Fixed3(ns) + rest) == Some(0.0 - value)
  {
    MinusText(ns, minus, rest);
    MinusReadsBack(minus, rest, Fixed3(minus) + rest, value);
  }

  lemma Negated(ns: int, minus: nat)
    requires minus == 0 - ns
    ensures 0.0 - minus as real / 1000.0 == ns as real / 1000.0
  {}

  /** So does a negative one, behind its sign. */
  lemma SignedReadsBack(ns: int, rest: string)
    requires rest == "" || !IsDigit(rest[0], 10)
    ensures StrToD(Fixed3(ns) + rest) == Some(ns as real / 1000.0)
  {
    if ns >= 0 {
      Fixed3ReadsBack(ns, rest);
    } else {
      var minus := 0 - ns;
      NegativeReadsBack(ns, minus, rest, minus as real / 1000.0);
      Negated(ns, minus);
    }
  }
}
