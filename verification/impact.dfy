/** The "Our Impact" counters (`components/Impact.tsx`): the number each
    counter runs up to, read from its stat text, and the text it shows. */
module Impact {
  import opened Text
  import opened Wrappers
  import opened Decimal
  import opened Seqs

  datatype Stat = Stat(number: string, caption: string)

  const Stats: seq<Stat> := [
    Stat("5000+", "Students Reached"),
    Stat("50+", "Schools Partnered"),
    Stat("100+", "Workshops Conducted"),
    Stat("90%", "Student Satisfaction")
  ]

  /** `number.replace(/[^0-9]/g, '')`. */
  function Digits(number: string): (d: string)
    ensures AllDigits(d)
  {
    Filter(number, IsDigit)
  }

  /** `finalNumber`: the integer the counter springs to; `None` is NaN,
      the result for a stat text without any digit. */
  function FinalNumber(number: string): Option<int> {
    ParseInt(Digits(number))
  }

  /** The symbol after the count: "+" wins over "%". */
  function Suffix(number: string): (r: string)
    ensures r == "+" <==> Contains(number, '+')
    ensures r == "%" <==> !Contains(number, '+') && Contains(number, '%')
    ensures r == "" <==> !Contains(number, '+') && !Contains(number, '%')
  {
    if Contains(number, '+') then "+" else if Contains(number, '%') then "%" else ""
  }

  /** The text shown once the spring's value has been rounded to
      `rounded`. */
  function Display(rounded: int, number: string): string {
    IntToString(rounded) + Suffix(number)
  }

  /** The target is the value of all digits of the stat text read as one
      numeral, and NaN exactly when there is no digit. */
  lemma FinalNumberValue(number: string)
    ensures var d := Digits(number);
      FinalNumber(number) == (if d == [] then None else Some(ValueOf(d)))
  {
    ParseIntOfDigits(Digits(number));
  }

  /** Characters other than digits anywhere in the text do not change the
      target. */
  lemma FinalNumberIgnoresNonDigits(a: string, c: char, b: string)
    requires !IsDigit(c)
    ensures FinalNumber(a + [c] + b) == FinalNumber(a + b)
  {
    FilterSkipsRejected(a, c, b, IsDigit);
  }

  /** Whatever count is shown, `parseInt` reads it back from the display:
      the suffix never extends the numeral. */
  lemma DisplayReadsBack(rounded: int, number: string)
    ensures ParseInt(Display(rounded, number)) == Some(rounded)
  {
    ParseIntOfIntToString(rounded, Suffix(number));
  }

  /** A stat written as a number in its shortest form followed by "+",
      "%" or nothing: the counter runs to that number and, once it has
      settled there, shows exactly the stat text. */
  lemma SettlesOnStatText(n: nat, suffix: string)
    requires suffix == "+" || suffix == "%" || suffix == ""
    ensures FinalNumber(NatToString(n) + suffix) == Some(n)
    ensures Display(n, NatToString(n) + suffix) == NatToString(n) + suffix
  {
    var text := NatToString(n) + suffix;
    DigitsOfStatText(n, suffix);
    FinalNumberValue(text);
    ValueOfNatToString(n);
    SuffixOfStatText(n, suffix);
  }

  lemma DigitsOfStatText(n: nat, suffix: string)
    requires suffix == "+" || suffix == "%" || suffix == ""
    ensures Digits(NatToString(n) + suffix) == NatToString(n)
  {
    FilterAppend(NatToString(n), suffix, IsDigit);
    FilterKeepsAll(NatToString(n), IsDigit);
    assert Filter(suffix, IsDigit) == [] by {
      if suffix != [] {
        assert suffix[1..] == [];
      }
    }
  }

  lemma SuffixOfStatText(n: nat, suffix: string)
    requires suffix == "+" || suffix == "%" || suffix == ""
    ensures Suffix(NatToString(n) + suffix) == suffix
  {
    var digits := NatToString(n);
    var text := digits + suffix;
    if suffix != [] {
      assert text[|text| - 1] == suffix[0];
    }
    if Contains(text, '+') {
      var i :| 0 <= i < |text| && text[i] == '+';
      assert i >= |digits|;
    }
    if Contains(text, '%') {
      var i :| 0 <= i < |text| && text[i] == '%';
      assert i >= |digits|;
    }
  }

  /** The four counters run to 5000, 50, 100 and 90 and come to rest on
      "5000+", "50+", "100+" and "90%". */
  lemma StatsSettle(k: int)
    requires 0 <= k < |Stats|
    ensures var targets := [5000, 50, 100, 90];
      && FinalNumber(Stats[k].number) == Some(targets[k])
      && Display(targets[k], Stats[k].number) == Stats[k].number
  {
    var stats := Stats;
    var targets: seq<nat> := [5000, 50, 100, 90];
    var suffixes := ["+", "+", "+", "%"];
    assert NatToString(5000) == "5000" by {
      assert NatToString(5) == "5";
      assert NatToString(50) == "50";
      assert NatToString(500) == "500";
    }
    assert NatToString(50) == "50" by {
      assert NatToString(5) == "5";
    }
    assert NatToString(100) == "100" by {
      assert NatToString(1) == "1";
      assert NatToString(10) == "10";
    }
    assert NatToString(90) == "90" by {
      assert NatToString(9) == "9";
    }
    assert stats[k].number == NatToString(targets[k]) + suffixes[k];
    SettlesOnStatText(targets[k], suffixes[k]);
  }
}
