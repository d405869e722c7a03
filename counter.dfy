/** The statistics counters (`initStatsCounter` and `animateCounter`). The target is
    the text's ASCII digits read as a decimal number; the animation adds a fiftieth of
    it per tick. Arithmetic is exact: `acc` below is fifty times `currentValue`. */
module StatsCounter {
  import opened Page

  const Ticks: nat := 50

  predicate IsDigit(c: char)
  {
    '0' <= c <= '9'
  }

  predicate AllDigits(s: string)
  {
    forall i :: 0 <= i < |s| ==> IsDigit(s[i])
  }

  predicate NoDigits(s: string)
  {
    forall i :: 0 <= i < |s| ==> !IsDigit(s[i])
  }

  /** `text.replace(/\D/g, '')`: the digits of the text, in order. */
  function Digits(text: string): (ds: string)
    ensures AllDigits(ds) && |ds| <= |text|
  {
    if text == [] then []
    else (if IsDigit(text[0]) then [text[0]] else []) + Digits(text[1..])
  }

  /** `text.replace(/\d/g, '')`: the text with every digit removed. */
  function Suffix(text: string): (suf: string)
    ensures NoDigits(suf) && |suf| <= |text|
  {
    if text == [] then []
    else (if IsDigit(text[0]) then [] else [text[0]]) + Suffix(text[1..])
  }

  /** Every character of the text lands in exactly one of the two parts. */
  lemma {:induction false} DigitsSuffixPartition(text: string)
    ensures |Digits(text)| + |Suffix(text)| == |text|
    ensures multiset(Digits(text)) + multiset(Suffix(text)) == multiset(text)
  {
    if text != [] {
      DigitsSuffixPartition(text[1..]);
      assert text == [text[0]] + text[1..];
    }
  }

  /** `Digits` keeps the order of the text: it distributes over concatenation, so together
      with `DigitsCons` it is fixed on every text. */
  lemma {:induction false} DigitsAppend(a: string, b: string)
    ensures Digits(a + b) == Digits(a) + Digits(b)
  {
    if a == [] {
      assert a + b == b;
    } else {
      var ab := a + b;
      assert ab[0] == a[0] && ab[1..] == a[1..] + b;
      var head := if IsDigit(a[0]) then [a[0]] else [];
      assert Digits(ab) == head + Digits(a[1..] + b);
      DigitsAppend(a[1..], b);
      assert Digits(a) == head + Digits(a[1..]);
    }
  }

  /** `Suffix` keeps the order of the text: it distributes over concatenation. */
  lemma {:induction false} SuffixAppend(a: string, b: string)
    ensures Suffix(a + b) == Suffix(a) + Suffix(b)
  {
    if a == [] {
      assert a + b == b;
    } else {
      var ab := a + b;
      assert ab[0] == a[0] && ab[1..] == a[1..] + b;
      var head := if IsDigit(a[0]) then [] else [a[0]];
      assert Suffix(ab) == head + Suffix(a[1..] + b);
      SuffixAppend(a[1..], b);
      assert Suffix(a) == head + Suffix(a[1..]);
    }
  }

  /** A text made of a digit run followed by non-digit characters splits back into them. */
  lemma {:induction false} DigitsSuffixSplit(ds: string, suf: string)
    requires AllDigits(ds) && NoDigits(suf)
    ensures Digits(ds + suf) == ds && Suffix(ds + suf) == suf
  {
    if ds == [] {
      assert ds + suf == suf;
      NoDigitsParts(suf);
    } else {
      assert (ds + suf)[1..] == ds[1..] + suf;
      DigitsSuffixSplit(ds[1..], suf);
    }
  }

  lemma {:induction false} NoDigitsParts(suf: string)
    requires NoDigits(suf)
    ensures Digits(suf) == [] && Suffix(suf) == suf
  {
    if suf != [] {
      NoDigitsParts(suf[1..]);
    }
  }

  function DigitValue(c: char): (d: nat)
    requires IsDigit(c)
    ensures d < 10
  {
    (c as int - '0' as int) as nat
  }

  function DigitChar(d: nat): (c: char)
    requires d < 10
    ensures IsDigit(c) && DigitValue(c) == d
  {
    ('0' as int + d) as char
  }

  /** `parseInt` of a non-empty string of decimal digits. */
  function ParseDecimal(ds: string): nat
    requires AllDigits(ds)
    decreases |ds|
  {
    if ds == [] then 0
    else ParseDecimal(ds[..|ds| - 1]) * 10 + DigitValue(ds[|ds| - 1])
  }

  /** The decimal text JavaScript prints for a whole number. */
  function NatToString(n: nat): (s: string)
    ensures s != [] && AllDigits(s)
    ensures |s| > 1 ==> s[0] != '0'
  {
    if n < 10 then [DigitChar(n)] else NatToString(n / 10) + [DigitChar(n % 10)]
  }

  /** Reading back a printed number gives the number. */
  lemma {:induction false} ParsePrinted(n: nat)
    ensures ParseDecimal(NatToString(n)) == n
  {
    if n >= 10 {
      ParsePrinted(n / 10);
      var s := NatToString(n);
      assert s[..|s| - 1] == NatToString(n / 10);
    }
  }

  /** Printing a parsed digit run without leading zeros gives the run. */
  lemma {:induction false} PrintParsed(ds: string)
    requires ds != [] && AllDigits(ds) && (|ds| > 1 ==> ds[0] != '0')
    ensures NatToString(ParseDecimal(ds)) == ds
    decreases |ds|
  {
    var init := ds[..|ds| - 1];
    var last := DigitValue(ds[|ds| - 1]);
    if |ds| == 1 {
      assert ParseDecimal(ds) == last;
      assert [DigitChar(last)] == ds;
    } else {
      PrintParsed(init);
      LeadingDigitPositive(init);
      var n := ParseDecimal(ds);
      assert n == ParseDecimal(init) * 10 + last;
      assert n / 10 == ParseDecimal(init) && n % 10 == last;
      assert ds == init + [ds[|ds| - 1]];
    }
  }

  /** A digit run that does not start with `0` reads as a positive number. */
  lemma {:induction false} LeadingDigitPositive(ds: string)
    requires ds != [] && AllDigits(ds) && ds[0] != '0'
    ensures ParseDecimal(ds) > 0
    decreases |ds|
  {
    if |ds| > 1 {
      LeadingDigitPositive(ds[..|ds| - 1]);
    } else {
      assert ds[..|ds| - 1] == [];
    }
  }

  /** `parseInt(text.replace(/\D/g, ''))`, with `None` for `NaN` (no digit at all). */
  function FinalValue(text: string): (v: Option<nat>)
    ensures v.None? <==> NoDigits(text)
  {
    var ds := Digits(text);
    NoDigitsIffEmpty(text);
    if ds == [] then None else Some(ParseDecimal(ds))
  }

  lemma {:induction false} NoDigitsIffEmpty(text: string)
    ensures Digits(text) == [] <==> NoDigits(text)
  {
    if text != [] {
      NoDigitsIffEmpty(text[1..]);
      assert forall i :: 1 <= i < |text| ==> text[i] == text[1..][i - 1];
    }
  }

  /** `finalValue && finalValue > 0`: `NaN` and `0` start no animation. */
  predicate StartsAnimation(text: string)
  {
    FinalValue(text).Some? && FinalValue(text).value > 0
  }

  /** The number shown after tick `k` (from 1): the floor of `k * finalValue / 50` until
      that reaches `finalValue`, which is then shown exactly. */
  function Displayed(k: nat, finalValue: nat): (v: nat)
    ensures v <= finalValue
  {
    if k * finalValue >= Ticks * finalValue then finalValue else (k * finalValue) / Ticks
  }

  /** The number of ticks before the interval is cleared. */
  function TickCount(finalValue: nat): (n: nat)
    ensures n >= 1
    ensures forall k :: 1 <= k < n ==> k * finalValue < Ticks * finalValue
    ensures n * finalValue >= Ticks * finalValue
  {
    if finalValue == 0 then 1 else Ticks
  }

  /** The displayed numbers never decrease. */
  lemma DisplayedMonotone(i: nat, j: nat, finalValue: nat)
    requires i <= j
    ensures Displayed(i, finalValue) <= Displayed(j, finalValue)
  {
    assert i * finalValue <= j * finalValue by {
      MulMonotone(i, j, finalValue);
    }
  }

  lemma MulMonotone(i: nat, j: nat, f: nat)
    requires i <= j
    ensures i * f <= j * f
  {
    assert j * f == i * f + (j - i) * f;
  }

  lemma MulLess(a: nat, b: nat, f: nat)
    requires a * f < b * f
    ensures a < b
  {
    if a >= b {
      MulMonotone(b, a, f);
    }
  }

  /** The interval loop of `animateCounter`: `shown` is the number written at each tick
      and `texts` what `textContent` becomes. */
  method AnimateCounter(finalValue: nat, suffix: string) returns (shown: seq<nat>, texts: seq<string>)
    ensures |shown| == TickCount(finalValue) && |texts| == |shown|
    ensures forall k :: 0 <= k < |shown| ==> shown[k] == Displayed(k + 1, finalValue)
    ensures forall i, j :: 0 <= i <= j < |shown| ==> shown[i] <= shown[j] <= finalValue
    ensures shown[|shown| - 1] == finalValue
    ensures forall k :: 0 <= k < |texts| ==> texts[k] == NatToString(shown[k]) + suffix
  {
    var ticks: nat := 0;
    var acc: nat := 0;
    var done := false;
    shown, texts := [], [];
    while !done
      invariant ticks == |shown| == |texts|
      invariant acc == ticks * finalValue
      invariant !done ==> ticks == 0 || acc < Ticks * finalValue
      invariant !done ==> ticks < Ticks
      invariant done ==> ticks == TickCount(finalValue) && shown[ticks - 1] == finalValue
      invariant forall k :: 0 <= k < ticks ==> shown[k] == Displayed(k + 1, finalValue)
      invariant forall k :: 0 <= k < ticks ==> texts[k] == NatToString(shown[k]) + suffix
      decreases Ticks - ticks
    {
      acc := acc + finalValue;
      ticks := ticks + 1;
      assert acc == ticks * finalValue;
      var value;
      if acc >= Ticks * finalValue {
        value := finalValue;
        done := true;
        if finalValue > 0 {
          MulLess(ticks - 1, Ticks, finalValue);
          if ticks < Ticks {
            MulMonotone(ticks, Ticks - 1, finalValue);
          }
        }
      } else {
        value := acc / Ticks;
        MulLess(ticks, Ticks, finalValue);
      }
      assert value == Displayed(ticks, finalValue);
      shown := shown + [value];
      texts := texts + [NatToString(value) + suffix];
    }
    forall i, j | 0 <= i <= j < |shown| ensures shown[i] <= shown[j] <= finalValue {
      DisplayedMonotone(i + 1, j + 1, finalValue);
    }
  }

  /** The last text the counter writes. */
  function FinalText(text: string): (t: string)
    requires StartsAnimation(text)
  {
    NatToString(FinalValue(text).value) + Suffix(text)
  }

  /** The observer's callback for one visible `.stat-number`: the texts it writes, none
      when the target is `NaN` or 0. */
  method OnVisible(text: string) returns (texts: seq<string>)
    ensures texts == [] <==> !StartsAnimation(text)
    ensures StartsAnimation(text) ==> |texts| == Ticks && texts[|texts| - 1] == FinalText(text)
  {
    var finalValue := FinalValue(text);
    if finalValue.Some? && finalValue.value > 0 {
      var shown;
      shown, texts := AnimateCounter(finalValue.value, Suffix(text));
    } else {
      texts := [];
    }
  }

  /** A counter whose text is a number without leading zeros followed by non-digits
      ("500+") ends on exactly that text. */
  lemma ConvergesToOriginal(ds: string, suf: string)
    requires ds != [] && AllDigits(ds) && ds[0] != '0' && NoDigits(suf)
    ensures StartsAnimation(ds + suf) && FinalText(ds + suf) == ds + suf
  {
    DigitsSuffixSplit(ds, suf);
    LeadingDigitPositive(ds);
    PrintParsed(ds);
  }

  lemma FiveHundredPlus()
    ensures StartsAnimation("500+") && FinalText("500+") == "500+"
  {
    ConvergesToOriginal("500", "+");
    assert "500" + "+" == "500+";
  }

  lemma DigitsCons(c: char, rest: string)
    ensures Digits([c] + rest) == (if IsDigit(c) then [c] else []) + Digits(rest)
    ensures Suffix([c] + rest) == (if IsDigit(c) then [] else [c]) + Suffix(rest)
  {
    assert ([c] + rest)[1..] == rest;
  }

  /** Every non-digit moves behind the number: "1,200+" ends as "1200,+". */
  lemma SeparatorsMoveToSuffix()
    ensures StartsAnimation("1,200+") && FinalText("1,200+") == "1200,+"
  {
    assert "1,200+" == ['1'] + ",200+";
    assert ",200+" == [','] + "200+";
    assert "200+" == "200" + "+";
    DigitsCons('1', ",200+");
    DigitsCons(',', "200+");
    DigitsSuffixSplit("200", "+");
    assert Digits("1,200+") == "1200";
    assert Suffix("1,200+") == ",+";
    LeadingDigitPositive("1200");
    PrintParsed("1200");
  }
}
