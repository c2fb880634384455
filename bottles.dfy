/** The "green bottles" song: spelling a number in English words, three-digit
    group by three-digit group, and the verses that count the bottles down.
    src/bottles.rs and src/bottles_single.rs implement the same algorithm and
    differ only in where the teen table lives (a global map in the first, a map
    rebuilt on every call in the second); both are modelled here, with the teen
    table as one constant map. */
module Bottles {
  import opened Text
  import opened Wrappers

  /** The largest number `english_number` accepts: the magnitude table stops at "trillion". */
  const MaxNumber: nat := 999_999_999_999_999

  /** Numbers whose last two digits do not follow the "tens-units" pattern. */
  const SpecialNums: map<nat, string> := map[
    11 := "eleven", 12 := "twelve", 13 := "thirteen", 14 := "fourteen", 15 := "fifteen",
    16 := "sixteen", 17 := "seventeen", 18 := "eighteen", 19 := "nineteen"]

  /** The teen table covers exactly the keys 11 to 19. */
  lemma SpecialNumsKeys(k: nat)
    ensures k in SpecialNums <==> 11 <= k <= 19
  {
  }

  /** The unit words, "one" to "nine"; entry k spells k + 1. */
  const Units: seq<string> := ["one", "two", "three", "four", "five", "six", "seven", "eight", "nine"]

  /** The tens words, "ten" to "ninety"; entry k spells 10 * (k + 1). */
  const Tens: seq<string> := ["ten", "twenty", "thirty", "forty", "fifty", "sixty", "seventy", "eighty", "ninety"]

  /** The magnitude words; entry k names 1000^(k + 1), up to "trillion". */
  const Thousands: seq<string> := ["thousand", "million", "billion", "trillion"]

  /** One term of a spelled number: non-empty, starting and ending with a
      lower-case letter, without commas or line breaks. */
  predicate Term(s: string)
  {
    |s| >= 1 && IsLower(s[0]) && IsLower(s[|s| - 1]) && ',' !in s && '\n' !in s
  }

  /** Every word of the unit, ten, magnitude and teen tables is a term. */
  lemma TablesAreTerms()
    ensures forall k :: 0 <= k < |Units| ==> Term(Units[k])
    ensures forall k :: 0 <= k < |Tens| ==> Term(Tens[k])
    ensures forall k :: 0 <= k < |Thousands| ==> Term(Thousands[k])
    ensures forall k :: k in SpecialNums ==> Term(SpecialNums[k])
  {
    UnitsAreTerms();
    TensAreTerms();
    TeensAreTerms();
  }

  lemma UnitsAreTerms()
    ensures forall k :: 0 <= k < |Units| ==> Term(Units[k])
  {
  }

  lemma TensAreTerms()
    ensures forall k :: 0 <= k < |Tens| ==> Term(Tens[k])
  {
  }

  lemma TeensAreTerms()
    ensures forall k :: k in SpecialNums ==> Term(SpecialNums[k])
  {
  }

  /** The words for the last two digits of `n`: the teen word, "tens-units",
      the tens or the units word alone, or None when both digits are zero. */
  function TensAndUnit(n: nat): Option<string>
  {
    var subHundred := n % 100;
    if subHundred in SpecialNums then Some(SpecialNums[subHundred])
    else
      var tens :=
        if n >= 10 then
          var tensPlace := (n / 10) % 10;
          if tensPlace == 0 then None else Some(Tens[tensPlace - 1])
        else None;
      var units :=
        var unitsPlace := n % 10;
        if unitsPlace == 0 then None else Some(Units[unitsPlace - 1]);
      match (tens, units)
      case (Some(ten), Some(unit)) => Some(ten + "-" + unit)
      case (Some(ten), None) => Some(ten)
      case (None, Some(unit)) => Some(unit)
      case (None, None) => None
  }

  /** The connectors `under_1000` glues words with hold no comma and no line break. */
  lemma ConnectorsAreClean()
    ensures ',' !in "-hundred and " && '\n' !in "-hundred and "
    ensures ',' !in "-" && '\n' !in "-" && ',' !in " " && '\n' !in " "
    ensures Term("hundred")
  {
  }

  /** Gluing two terms with a connector free of commas and line breaks gives a term. */
  lemma TermGlue(a: string, glue: string, b: string)
    requires Term(a) && Term(b) && ',' !in glue && '\n' !in glue
    ensures Term(a + glue + b)
  {
  }

  /** The words for one non-zero three-digit group `n` at magnitude `thousand`
      (0 for units, 1 for thousands, up to 4 for trillions). */
  function Under1000(n: nat, thousand: nat): string
    requires 1 <= n <= 999 && thousand <= 4
  {
    var hundreds := if n >= 100 then Some(Units[n / 100 - 1]) else None;
    var hundredTenAndUnit :=
      match (hundreds, TensAndUnit(n))
      case (Some(hundred), Some(tenAndUnit)) => hundred + "-hundred and " + tenAndUnit
      case (Some(hundred), None) => hundred + "-hundred"
      case (None, Some(tenAndUnit)) => tenAndUnit
      case (None, None) => assert false; "";
    if thousand == 0 then hundredTenAndUnit
    else hundredTenAndUnit + " " + Thousands[thousand - 1]
  }

  /** The words for the last two digits, when there are any, form a term. */
  lemma TensAndUnitIsTerm(n: nat)
    ensures TensAndUnit(n).Some? ==> Term(TensAndUnit(n).value)
  {
    TablesAreTerms();
    var subHundred := n % 100;
    if subHundred !in SpecialNums && n >= 10 && (n / 10) % 10 != 0 && n % 10 != 0 {
      TermGlue(Tens[(n / 10) % 10 - 1], "-", Units[n % 10 - 1]);
    }
  }

  /** Every group spells to a term: never empty, so never a source of a stray comma. */
  lemma Under1000IsTerm(n: nat, thousand: nat)
    requires 1 <= n <= 999 && thousand <= 4
    ensures Term(Under1000(n, thousand))
  {
    GroupIsTerm(n);
    if thousand > 0 {
      TablesAreTerms();
      Under1000Magnitude(n, thousand);
      TermGlue(Under1000(n, 0), " ", Thousands[thousand - 1]);
    }
  }

  /** The words for a group without its magnitude form a term. */
  lemma GroupIsTerm(n: nat)
    requires 1 <= n <= 999
    ensures Term(Under1000(n, 0))
  {
    TablesAreTerms();
    ConnectorsAreClean();
    if n < 100 {
      assert n % 100 == n;
      TensAndUnitSome(n);
      TensAndUnitIsTerm(n);
    } else {
      Under1000Hundreds(n);
      var hundred := Units[n / 100 - 1];
      if n % 100 == 0 {
        TermGlue(hundred, "-", "hundred");
        assert hundred + "-" + "hundred" == hundred + "-hundred";
      } else {
        GroupIsTerm(n % 100);
        TermGlue(hundred, "-hundred and ", Under1000(n % 100, 0));
      }
    }
  }

  /** Last two digits that are not both zero always have words. */
  lemma TensAndUnitSome(n: nat)
    requires n % 100 != 0
    ensures TensAndUnit(n).Some?
  {
    LastTwoDigits(n);
  }

  /** A group whose last two digits are 11 to 19 ends in the teen word. */
  lemma Under1000Teen(n: nat)
    requires 1 <= n <= 999 && 11 <= n % 100 <= 19
    ensures n < 100 ==> Under1000(n, 0) == SpecialNums[n]
    ensures n >= 100 ==> Under1000(n, 0) == Units[n / 100 - 1] + "-hundred and " + SpecialNums[n % 100]
  {
    SpecialNumsKeys(n % 100);
    assert TensAndUnit(n) == Some(SpecialNums[n % 100]);
    if n < 100 {
      assert n % 100 == n;
    }
  }

  /** Below one hundred and outside the teens: the tens word and the units word,
      joined by a hyphen when both digits are non-zero. */
  lemma Under1000BelowHundred(n: nat)
    requires 1 <= n <= 99 && !(11 <= n <= 19)
    ensures n < 10 ==> Under1000(n, 0) == Units[n - 1]
    ensures n >= 10 && n % 10 == 0 ==> Under1000(n, 0) == Tens[n / 10 - 1]
    ensures n >= 10 && n % 10 != 0 ==> Under1000(n, 0) == Tens[n / 10 - 1] + "-" + Units[n % 10 - 1]
  {
    if n < 10 {
      UnitsAlone(n);
    } else if n % 10 == 0 {
      TensAlone(n);
    } else {
      TensDashUnits(n);
    }
  }

  lemma UnitsAlone(n: nat)
    requires 1 <= n <= 9
    ensures TensAndUnit(n) == Some(Units[n - 1])
  {
    SpecialNumsKeys(n % 100);
  }

  /** A multiple of ten below one hundred is spelled by its tens word alone. */
  lemma TensAlone(n: nat)
    requires 10 <= n <= 99 && n % 10 == 0
    ensures TensAndUnit(n) == Some(Tens[n / 10 - 1])
  {
    TwoDigits(n);
    SpecialNumsKeys(n);
  }

  /** Outside the teens and the multiples of ten, a number below one hundred is
      spelled "tens-units". */
  lemma TensDashUnits(n: nat)
    requires 10 <= n <= 99 && n % 10 != 0 && !(11 <= n <= 19)
    ensures TensAndUnit(n) == Some(Tens[n / 10 - 1] + "-" + Units[n % 10 - 1])
  {
    TwoDigits(n);
    SpecialNumsKeys(n);
  }

  /** A number below one hundred is its own last two digits, and its tens place is `n / 10`. */
  lemma TwoDigits(n: nat)
    requires n <= 99
    ensures n % 100 == n && (n / 10) % 10 == n / 10
  {
    assert n == 10 * (n / 10) + n % 10 && n / 10 < 10;
  }

  /** Only the last two digits of a group matter to its tens-and-units words. */
  lemma TensAndUnitLastTwoDigits(n: nat)
    ensures TensAndUnit(n) == TensAndUnit(n % 100)
  {
    LastTwoDigits(n);
  }

  /** The digits of `n % 100` are the last two digits of `n`. */
  lemma LastTwoDigits(n: nat)
    ensures (n % 100) % 100 == n % 100
    ensures (n % 100) % 10 == n % 10
    ensures ((n % 100) / 10) % 10 == (n / 10) % 10
    ensures n % 100 >= 10 ==> n >= 10
    ensures n >= 10 && n % 100 < 10 ==> (n / 10) % 10 == 0
  {
    var q, m := n / 100, n % 100;
    assert n == 100 * q + m && 0 <= m < 100;
    assert m == 10 * (m / 10) + m % 10 && 0 <= m % 10 < 10;
    assert n == 10 * (10 * q + m / 10) + m % 10;
    assert n / 10 == 10 * q + m / 10;
    assert n % 10 == m % 10;
  }

  /** From one hundred up: "X-hundred", followed by " and " and the words for the
      last two digits when they are not both zero. */
  lemma Under1000Hundreds(n: nat)
    requires 100 <= n <= 999
    ensures n % 100 == 0 ==> Under1000(n, 0) == Units[n / 100 - 1] + "-hundred"
    ensures n % 100 != 0 ==>
      Under1000(n, 0) == Units[n / 100 - 1] + "-hundred and " + Under1000(n % 100, 0)
  {
    var low := n % 100;
    TensAndUnitLastTwoDigits(n);
    if low == 0 {
      LastTwoDigits(n);
      SpecialNumsKeys(low);
      assert TensAndUnit(n) == None;
    } else {
      assert low % 100 == low;
      TensAndUnitSome(low);
      assert Under1000(low, 0) == TensAndUnit(low).value;
    }
  }

  /** Magnitude 0 adds nothing; magnitude k adds a space and the k-th magnitude word. */
  lemma Under1000Magnitude(n: nat, thousand: nat)
    requires 1 <= n <= 999 && 1 <= thousand <= 4
    ensures Under1000(n, thousand) == Under1000(n, 0) + " " + Thousands[thousand - 1]
  {
  }

  lemma TensAndUnitExamples()
    ensures Under1000(7, 0) == "seven" && Under1000(40, 0) == "forty"
    ensures Under1000(42, 0) == "forty-two"
  {
    Under1000BelowHundred(7);
    Under1000BelowHundred(40);
    Under1000BelowHundred(42);
  }

  lemma TeenExamples()
    ensures Under1000(15, 0) == "fifteen" && Under1000(115, 0) == "one-hundred and " + "fifteen"
  {
    Under1000Teen(15);
    Under1000Teen(115);
  }

  lemma HundredsExamples()
    ensures Under1000(100, 0) == "one-hundred" && Under1000(101, 0) == "one-hundred and one"
  {
    Under1000Hundreds(100);
    Under1000Hundreds(101);
    Under1000BelowHundred(1);
  }

  lemma NinetyNineExample()
    ensures Under1000(99, 0) == "ninety-nine"
  {
    Under1000BelowHundred(99);
  }

  lemma LargestGroupExample()
    ensures Under1000(999, 0) == "nine-hundred and " + "ninety-nine"
  {
    NinetyNineExample();
    Under1000Hundreds(999);
  }

  lemma MagnitudeExamples()
    ensures Under1000(1, 1) == "one thousand" && Under1000(3, 2) == "three million"
  {
    Under1000Magnitude(1, 1);
    Under1000BelowHundred(1);
    Under1000Magnitude(3, 2);
    Under1000BelowHundred(3);
  }

  /** One non-zero three-digit group of a number and the power of one thousand it stands for. */
  datatype Segment = Segment(group: nat, magnitude: nat)

  predicate ValidSegment(s: Segment)
  {
    1 <= s.group <= 999 && s.magnitude <= 4
  }

  /** 1000 to the power `k`. */
  function Scale(k: nat): nat
  {
    if k == 0 then 1 else 1000 * Scale(k - 1)
  }

  /** The groups of `n`, read as a number at magnitude `magnitude`, most
      significant first, leaving out the groups that are zero. */
  function SegmentsFrom(n: nat, magnitude: nat): (segs: seq<Segment>)
    requires 1 <= n && magnitude <= 4 && n < Scale(5 - magnitude)
    ensures |segs| >= 1
    ensures forall i :: 0 <= i < |segs| ==> ValidSegment(segs[i]) && magnitude <= segs[i].magnitude
    ensures forall i, j :: 0 <= i < j < |segs| ==> segs[i].magnitude > segs[j].magnitude
    decreases n
  {
    if n < 1000 then [Segment(n, magnitude)]
    else
      var rest := SegmentsFrom(n / 1000, magnitude + 1);
      if n % 1000 != 0 then rest + [Segment(n % 1000, magnitude)] else rest
  }

  /** The number a list of segments stands for. */
  function ValueOf(segs: seq<Segment>): nat
  {
    if |segs| == 0 then 0
    else ValueOf(segs[..|segs| - 1]) + segs[|segs| - 1].group * Scale(segs[|segs| - 1].magnitude)
  }

  /** The segments add back up to the number they came from. */
  lemma {:induction false} SegmentsFromValue(n: nat, magnitude: nat)
    requires 1 <= n && magnitude <= 4 && n < Scale(5 - magnitude)
    ensures ValueOf(SegmentsFrom(n, magnitude)) == n * Scale(magnitude)
    decreases n
  {
    if n >= 1000 {
      var rest := SegmentsFrom(n / 1000, magnitude + 1);
      SegmentsFromValue(n / 1000, magnitude + 1);
      var s := Scale(magnitude);
      assert Scale(magnitude + 1) == 1000 * s;
      Regroup(n, s);
      var value := ValueOf(rest);
      assert value == (n / 1000) * (1000 * s);
      if n % 1000 != 0 {
        var segs := rest + [Segment(n % 1000, magnitude)];
        assert segs[..|segs| - 1] == rest;
        assert SegmentsFrom(n, magnitude) == segs;
        assert ValueOf(segs) == value + (n % 1000) * s;
      } else {
        assert SegmentsFrom(n, magnitude) == rest;
        assert (n % 1000) * s == 0;
      }
    } else {
      var segs := [Segment(n, magnitude)];
      assert segs[..0] == [];
    }
  }

  /** Splitting off the low group keeps the value: high part at the next magnitude
      plus the low group at this one. */
  lemma Regroup(n: nat, s: nat)
    ensures (n / 1000) * (1000 * s) + (n % 1000) * s == n * s
  {
    var q, r := n / 1000, n % 1000;
    calc {
      q * (1000 * s) + r * s;
      { assert q * (1000 * s) == (1000 * q) * s; }
      (1000 * q) * s + r * s;
      (1000 * q + r) * s;
      n * s;
    }
  }

  /** The non-zero groups of `n`, most significant first. */
  function Segments(n: nat): (segs: seq<Segment>)
    requires 1 <= n <= MaxNumber
    ensures ValueOf(segs) == n
    ensures forall i :: 0 <= i < |segs| ==> ValidSegment(segs[i])
    ensures forall i, j :: 0 <= i < j < |segs| ==> segs[i].magnitude > segs[j].magnitude
  {
    SegmentsFromValue(n, 0);
    SegmentsFrom(n, 0)
  }

  /** The words for each segment, in the same order. */
  function Terms(segs: seq<Segment>): (terms: seq<string>)
    requires forall i :: 0 <= i < |segs| ==> ValidSegment(segs[i])
    ensures |terms| == |segs|
  {
    seq(|segs|, i requires 0 <= i < |segs| && ValidSegment(segs[i]) =>
      Under1000(segs[i].group, segs[i].magnitude))
  }

  lemma TermsAreTerms(segs: seq<Segment>)
    requires forall i :: 0 <= i < |segs| ==> ValidSegment(segs[i])
    ensures forall i :: 0 <= i < |segs| ==> Term(Terms(segs)[i])
  {
    forall i | 0 <= i < |segs| ensures Term(Terms(segs)[i]) {
      Under1000IsTerm(segs[i].group, segs[i].magnitude);
    }
  }

  lemma TermsAppend(a: seq<Segment>, b: seq<Segment>)
    requires forall i :: 0 <= i < |a| ==> ValidSegment(a[i])
    requires forall i :: 0 <= i < |b| ==> ValidSegment(b[i])
    ensures Terms(a + b) == Terms(a) + Terms(b)
  {
    var ab := a + b;
    assert forall i :: 0 <= i < |ab| ==> ab[i] == if i < |a| then a[i] else b[i - |a|];
  }

  /** A spelled number is well punctuated: it starts and ends with a lower-case
      letter, has no line break, and every comma sits between a letter and a
      space followed by a letter (so no leading, trailing or doubled comma). */
  predicate WellPunctuated(r: string)
  {
    |r| >= 1 && IsLower(r[0]) && IsLower(r[|r| - 1]) && '\n' !in r &&
    forall i :: 0 <= i < |r| && r[i] == ',' ==>
      1 <= i && IsLower(r[i - 1]) && i + 2 < |r| && r[i + 1] == ' ' && IsLower(r[i + 2])
  }

  /** Joining terms with ", " gives a well-punctuated phrase. */
  lemma {:induction false} JoinTermsWellPunctuated(terms: seq<string>)
    requires |terms| >= 1
    requires forall i :: 0 <= i < |terms| ==> Term(terms[i])
    ensures WellPunctuated(Join(terms, ", "))
  {
    if |terms| > 1 {
      var x, rest := terms[0], Join(terms[1..], ", ");
      JoinTermsWellPunctuated(terms[1..]);
      var r := x + ", " + rest;
      assert r == Join(terms, ", ");
      forall i | 0 <= i < |r| && r[i] == ','
        ensures 1 <= i && IsLower(r[i - 1]) && i + 2 < |r| && r[i + 1] == ' ' && IsLower(r[i + 2])
      {
        if i < |x| {
          assert false;
        } else if i > |x| {
          assert r[i] == rest[i - |x| - 2];
        }
      }
      assert '\n' !in x + ", " + rest;
    }
  }

  /** The English spelling of `n`: its group terms, most significant first, joined by ", ". */
  function Spelling(n: nat): (r: string)
    requires 1 <= n <= MaxNumber
    ensures |r| >= 1
  {
    TermsAreTerms(Segments(n));
    JoinTermsWellPunctuated(Terms(Segments(n)));
    Join(Terms(Segments(n)), ", ")
  }

  /** Every spelling is well punctuated: no leading, trailing or doubled comma,
      no empty term and no line break. */
  lemma SpellingWellPunctuated(n: nat)
    requires 1 <= n <= MaxNumber
    ensures WellPunctuated(Spelling(n))
  {
    TermsAreTerms(Segments(n));
    JoinTermsWellPunctuated(Terms(Segments(n)));
  }

  /** One turn of the loop in `english_number`: the low group, when it is not
      zero, contributes the last term. */
  lemma TermsPeel(n: nat, thousand: nat)
    requires 1000 <= n && thousand <= 4 && n < Scale(5 - thousand)
    ensures thousand < 4 && 1 <= n / 1000 < Scale(5 - (thousand + 1))
    ensures Terms(SegmentsFrom(n, thousand)) ==
      Terms(SegmentsFrom(n / 1000, thousand + 1))
      + (if n % 1000 != 0 then [Under1000(n % 1000, thousand)] else [])
  {
    if n % 1000 != 0 {
      TermsAppend(SegmentsFrom(n / 1000, thousand + 1), [Segment(n % 1000, thousand)]);
    }
  }

  /** When the loop in `english_number` stops, the remaining group is the
      first term. */
  lemma TermsLast(n: nat, thousand: nat)
    requires 1 <= n < 1000 && thousand <= 4
    ensures n < Scale(5 - thousand)
    ensures Terms(SegmentsFrom(n, thousand)) == [Under1000(n, thousand)]
  {
    assert Scale(1) == 1000;
    ScaleGrows(5 - thousand);
  }

  /** 1000 to a positive power is at least 1000. */
  lemma {:induction false} ScaleGrows(k: nat)
    requires k >= 1
    ensures Scale(k) >= 1000
  {
    if k > 1 {
      ScaleGrows(k - 1);
    }
  }

  /** One turn of the loop in `english_number` keeps its invariant: `whole`, the
      terms of the number, is the terms still to come from `n` at magnitude
      `thousand` followed by the terms collected so far, which the loop pushes
      least significant first. */
  lemma PeelStep(whole: seq<string>, n: nat, thousand: nat, terms: seq<string>)
    requires 1000 <= n && thousand <= 4 && n < Scale(5 - thousand)
    requires whole == Terms(SegmentsFrom(n, thousand)) + Reversed(terms)
    ensures thousand + 1 <= 4 && 1 <= n / 1000 < Scale(5 - (thousand + 1))
    ensures whole == Terms(SegmentsFrom(n / 1000, thousand + 1)) + Reversed(
      if n % 1000 != 0 then terms + [Under1000(n % 1000, thousand)] else terms)
  {
    TermsPeel(n, thousand);
    var rest := Terms(SegmentsFrom(n / 1000, thousand + 1));
    if n % 1000 != 0 {
      var low := Under1000(n % 1000, thousand);
      ReversedSnoc(terms, low);
      assert (rest + [low]) + Reversed(terms) == rest + Reversed(terms + [low]);
    } else {
      assert rest + [] == rest;
    }
  }

  /** Every accepted number fits in five groups. */
  lemma MaxNumberFits()
    ensures MaxNumber < Scale(5)
  {
  }

  /** The spelling joins the terms of all the groups of `number`, read from magnitude 0. */
  lemma SpellingJoinsTerms(number: nat)
    requires 1 <= number <= MaxNumber
    ensures number < Scale(5 - 0)
    ensures Spelling(number) == Join(Terms(SegmentsFrom(number, 0)), ", ")
  {
  }

  /** When the loop stops, pushing the last group and reversing gives all the terms. */
  lemma PeelLast(whole: seq<string>, n: nat, thousand: nat, terms: seq<string>)
    requires 1 <= n < 1000 && thousand <= 4
    requires n < Scale(5 - thousand)
    requires whole == Terms(SegmentsFrom(n, thousand)) + Reversed(terms)
    ensures Reversed(terms + [Under1000(n, thousand)]) == whole
  {
    TermsLast(n, thousand);
    ReversedSnoc(terms, Under1000(n, thousand));
  }

  /** `english_number`: peels three-digit groups off the low end in a loop,
      keeps the terms of the non-zero ones, then reverses and joins them. */
  method EnglishNumber(number: nat) returns (r: string)
    requires 1 <= number <= MaxNumber
    ensures r == Spelling(number)
  {
    MaxNumberFits();
    ghost var whole := Terms(SegmentsFrom(number, 0));
    var n := number;
    var terms: seq<string> := [];
    var thousand: nat := 0;
    assert Reversed(terms) == [];
    while n >= 1000
      invariant 1 <= n && thousand <= 4 && n < Scale(5 - thousand)
      invariant whole == Terms(SegmentsFrom(n, thousand)) + Reversed(terms)
      decreases n
    {
      PeelStep(whole, n, thousand, terms);
      var sub := n % 1000;
      n := n / 1000;
      if sub != 0 {
        terms := terms + [Under1000(sub, thousand)];
      }
      thousand := thousand + 1;
    }
    PeelLast(whole, n, thousand, terms);
    terms := terms + [Under1000(n, thousand)];
    terms := Reversed(terms);
    r := Join(terms, ", ");
    SpellingJoinsTerms(number);
  }

  /** A number below one thousand is spelled as its single group. */
  lemma SpellingBelowThousand(n: nat)
    requires 1 <= n <= 999
    ensures Spelling(n) == Under1000(n, 0)
  {
    assert Segments(n) == [Segment(n, 0)];
  }

  /** Zero groups are skipped: 1000 and one million have a single segment. */
  lemma SegmentsExamples()
    ensures Segments(1000) == [Segment(1, 1)]
    ensures Segments(1001) == [Segment(1, 1), Segment(1, 0)]
    ensures Segments(1_000_000) == [Segment(1, 2)]
  {
  }

  /** Zero groups leave no term behind, and the terms come most significant first. */
  lemma SpellingExamples()
    ensures Spelling(1000) == "one thousand"
    ensures Spelling(1001) == "one thousand, one"
  {
    SegmentsExamples();
    MagnitudeExamples();
    Under1000BelowHundred(1);
  }

  lemma SpellingMillionExample()
    ensures Spelling(1_000_000) == "one million"
  {
    SegmentsExamples();
    Under1000Magnitude(1, 2);
    Under1000BelowHundred(1);
  }

  /** The word for the bottles left after one falls from `i`. */
  function NextWord(i: nat): (r: string)
    requires 1 <= i <= MaxNumber
    ensures i == 1 ==> r == "no"
    ensures i > 1 ==> r == Spelling(i - 1)
  {
    var next := i - 1;
    if next == 0 then "no" else Spelling(next)
  }

  /** The verse sung when `i` bottles hang on the wall: the eight-line template
      with the capitalised count on lines 1 and 3 and the next count on line 7. */
  function Verse(i: nat): string
    requires 1 <= i <= MaxNumber
  {
    VerseText(Capitalised(Spelling(i)), NextWord(i))
  }

  /** The verse template with `current` substituted twice and `next` once. */
  function VerseText(current: string, next: string): string
  {
    var currentBottles := current + " green bottles";
    var nextBottles := "There'll be " + next + " green bottles";
    currentBottles + "\n" + "Hanging on the wall" + "\n"
    + currentBottles + "\n" + "Hanging on the wall" + "\n"
    + "And if one green bottle" + "\n" + "Should accidentally fall" + "\n"
    + nextBottles + "\n" + "Hanging on the wall"
  }

  /** The eight lines of a verse whose current count is `current` and next count `next`. */
  function TemplateLines(current: string, next: string): seq<string>
  {
    [current + " green bottles", "Hanging on the wall",
     current + " green bottles", "Hanging on the wall",
     "And if one green bottle", "Should accidentally fall",
     "There'll be " + next + " green bottles", "Hanging on the wall"]
  }

  lemma JoinEightLines(l0: string, l1: string, l2: string, l3: string,
                       l4: string, l5: string, l6: string, l7: string)
    ensures Join([l0, l1, l2, l3, l4, l5, l6, l7], "\n") ==
      l0 + "\n" + l1 + "\n" + l2 + "\n" + l3 + "\n" + l4 + "\n" + l5 + "\n" + l6 + "\n" + l7
  {
    var s1 := [l0];
    JoinSnoc(s1, l1, "\n");
    var s2 := s1 + [l1];
    JoinSnoc(s2, l2, "\n");
    var s3 := s2 + [l2];
    JoinSnoc(s3, l3, "\n");
    var s4 := s3 + [l3];
    JoinSnoc(s4, l4, "\n");
    var s5 := s4 + [l4];
    JoinSnoc(s5, l5, "\n");
    var s6 := s5 + [l5];
    JoinSnoc(s6, l6, "\n");
    var s7 := s6 + [l6];
    JoinSnoc(s7, l7, "\n");
    assert s7 + [l7] == [l0, l1, l2, l3, l4, l5, l6, l7];
  }

  /** The capitalised spelling starts with an upper-case letter and has no line break. */
  lemma CapitalisedSpelling(i: nat)
    requires 1 <= i <= MaxNumber
    ensures var c := Capitalised(Spelling(i)); |c| >= 1 && IsUpper(c[0]) && '\n' !in c
  {
    var s := Spelling(i);
    SpellingWellPunctuated(i);
    var c := Capitalised(s);
    forall k | 0 <= k < |c| ensures c[k] != '\n' {
      if k > 0 { assert s[k] in s; }
    }
  }

  /** The text around the counts in the verse template holds no line break. */
  lemma CountPiecesAreOneLine()
    ensures '\n' !in " green bottles" && '\n' !in "There'll be "
  {
  }

  /** The fixed lines of the verse template hold no line break. */
  lemma FixedLinesAreOneLine()
    ensures '\n' !in "Hanging on the wall" && '\n' !in "And if one green bottle"
    ensures '\n' !in "Should accidentally fall"
  {
  }

  /** With counts free of line breaks, the template splits back into its eight lines. */
  lemma TemplateSplits(current: string, next: string)
    requires '\n' !in current && '\n' !in next
    ensures Split(VerseText(current, next), '\n') == TemplateLines(current, next)
  {
    var lines := TemplateLines(current, next);
    CountPiecesAreOneLine();
    FixedLinesAreOneLine();
    assert '\n' !in lines[0] && '\n' !in lines[2] && '\n' !in lines[6];
    assert forall k :: 0 <= k < |lines| ==> '\n' !in lines[k];
    JoinEightLines(lines[0], lines[1], lines[2], lines[3], lines[4], lines[5], lines[6], lines[7]);
    SplitJoin(lines, '\n');
  }

  /** A verse starts with its current count. */
  lemma VerseTextStart(current: string, next: string)
    requires |current| >= 1
    ensures |VerseText(current, next)| >= 1 && VerseText(current, next)[0] == current[0]
  {
    var t := VerseText(current, next);
    var rest := t[|current + " green bottles"|..];
    assert t == current + " green bottles" + rest;
  }

  /** A verse is exactly eight lines: the capitalised count, starting with an
      upper-case letter, on lines 1 and 3, and the next count (or "no") on line 7. */
  lemma VerseHasEightLines(i: nat)
    requires 1 <= i <= MaxNumber
    ensures Split(Verse(i), '\n') == TemplateLines(Capitalised(Spelling(i)), NextWord(i))
    ensures IsUpper(Verse(i)[0])
  {
    CapitalisedSpelling(i);
    VerseTextStart(Capitalised(Spelling(i)), NextWord(i));
    assert '\n' !in NextWord(i) by {
      if i > 1 {
        SpellingWellPunctuated(i - 1);
      }
    }
    TemplateSplits(Capitalised(Spelling(i)), NextWord(i));
  }

  /** The song for `n` starting bottles: the verses for n down to 1, separated by a blank line. */
  function SingBottles(n: nat): string
    requires n <= MaxNumber
  {
    Join(Countdown(n), "\n\n")
  }

  /** The verses for `n` down to 1. */
  function Countdown(n: nat): (verses: seq<string>)
    requires n <= MaxNumber
    ensures |verses| == n
  {
    seq(n, j requires 0 <= j < n => Verse(n - j))
  }

  /** Dropping the first verse of a countdown leaves the countdown from `n - 1`. */
  lemma CountdownTail(n: nat)
    requires 1 <= n <= MaxNumber
    ensures Countdown(n) == [Verse(n)] + Countdown(n - 1)
  {
    var verses, rest := Countdown(n), Countdown(n - 1);
    forall j | 0 <= j < n - 1 ensures verses[j + 1] == rest[j] {
    }
    assert verses == [verses[0]] + verses[1..];
  }

  /** The song is the verse for `n`, a blank line, and the song for `n - 1`;
      one bottle gives a single verse and none an empty song. */
  lemma SongUnfolds(n: nat)
    requires n <= MaxNumber
    ensures n == 0 ==> SingBottles(n) == ""
    ensures n == 1 ==> SingBottles(n) == Verse(1)
    ensures n >= 2 ==> SingBottles(n) == Verse(n) + "\n\n" + SingBottles(n - 1)
  {
    if n >= 1 {
      CountdownTail(n);
      if n >= 2 {
        JoinCons(Verse(n), Countdown(n - 1), "\n\n");
      } else {
        assert Countdown(1) == [Verse(1)];
      }
    }
  }

  lemma SpellingOneTwoExample()
    ensures Spelling(1) == "one" && Spelling(2) == "two"
  {
    SpellingBelowThousand(1);
    SpellingBelowThousand(2);
    Under1000BelowHundred(1);
    Under1000BelowHundred(2);
  }

  /** The verse for one bottle: "One" on lines 1 and 3, "no" on line 7. */
  lemma VerseOneExample()
    ensures Verse(1) == VerseText("One", "no")
  {
    SpellingOneTwoExample();
    assert Capitalised("one") == "One";
  }

  /** The verse for two bottles: "Two" on lines 1 and 3, "one" on line 7. */
  lemma VerseTwoExample()
    ensures Verse(2) == VerseText("Two", "one")
  {
    SpellingOneTwoExample();
    assert Capitalised("two") == "Two";
  }

  /** Two bottles: the verse for two, a blank line, then the verse for one, whose
      next count is "no". */
  lemma SongOfTwo()
    ensures SingBottles(2) == VerseText("Two", "one") + "\n\n" + VerseText("One", "no")
  {
    SongUnfolds(2);
    SongUnfolds(1);
    VerseOneExample();
    VerseTwoExample();
  }
}
