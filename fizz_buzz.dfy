/** FizzBuzz over 1..value, as one comma-separated line. */
module FizzBuzz {
  import opened Text

  function DigitChar(d: nat): char
    requires d < 10
  {
    ('0' as int + d) as char
  }

  /** The decimal spelling of `i` (Rust's `to_string` on an unsigned integer). */
  function Decimal(i: nat): (r: string)
    ensures |r| >= 1 && (forall k :: 0 <= k < |r| ==> IsDigit(r[k]))
    ensures r[0] == '0' ==> i == 0
  {
    if i < 10 then [DigitChar(i)] else Decimal(i / 10) + [DigitChar(i % 10)]
  }

  /** The number a string of decimal digits denotes. */
  function DigitsValue(s: string): nat
    requires forall k :: 0 <= k < |s| ==> IsDigit(s[k])
  {
    if |s| == 0 then 0
    else
      assert IsDigit(s[|s| - 1]);
      DigitsValue(s[..|s| - 1]) * 10 + (s[|s| - 1] as int - '0' as int)
  }

  /** Reading the decimal spelling back gives the number. */
  lemma {:induction false} DecimalRoundTrip(i: nat)
    ensures DigitsValue(Decimal(i)) == i
  {
    if i >= 10 {
      var r := Decimal(i);
      assert r[..|r| - 1] == Decimal(i / 10);
      DecimalRoundTrip(i / 10);
    }
  }

  /** A multiple of 15 is exactly a multiple of both 3 and 5. */
  lemma DivisibleByFifteen(i: nat)
    ensures i % 15 == 0 <==> i % 3 == 0 && i % 5 == 0
  {
    if i % 15 == 0 {
      assert i == 3 * (5 * (i / 15)) && i == 5 * (3 * (i / 15));
    }
    if i % 3 == 0 && i % 5 == 0 {
      var a, d := i / 3, i / 5;
      assert i == 3 * a && i == 5 * d;
      assert a == 5 * (2 * d - a);
      assert i == 15 * (2 * d - a);
    }
  }

  /** A decimal spelling holds no comma. */
  lemma DecimalHasNoComma(i: nat)
    ensures ',' !in Decimal(i)
  {
    var r := Decimal(i);
    forall k | 0 <= k < |r| ensures r[k] != ',' {
      assert IsDigit(r[k]);
    }
  }

  /** The word for index `i`: "Fizz" for multiples of 3, then "Buzz" for
      multiples of 5, and the number itself when neither was written. */
  function Item(i: nat): (r: string)
    ensures i % 15 == 0 ==> r == "FizzBuzz"
    ensures i % 3 == 0 && i % 5 != 0 ==> r == "Fizz"
    ensures i % 3 != 0 && i % 5 == 0 ==> r == "Buzz"
    ensures i % 3 != 0 && i % 5 != 0 ==> r == Decimal(i) && DigitsValue(r) == i
    ensures |r| >= 1 && ',' !in r
  {
    var fizz := if i % 3 == 0 then "Fizz" else "";
    var out := if i % 5 == 0 then fizz + "Buzz" else fizz;
    DivisibleByFifteen(i);
    if out == "" then DecimalRoundTrip(i); DecimalHasNoComma(i); Decimal(i) else out
  }

  /** The items for 1..value, in order. */
  function Items(value: nat): (items: seq<string>)
    ensures |items| == value
    ensures forall k :: 0 <= k < value ==> items[k] == Item(k + 1)
  {
    seq(value, k requires 0 <= k < value => Item(k + 1))
  }

  /** The fold that appends each item and then a comma. */
  function FoldWithCommas(items: seq<string>): string
  {
    if |items| == 0 then "" else FoldWithCommas(items[..|items| - 1]) + items[|items| - 1] + ","
  }

  /** The fold is the items joined by commas, plus one trailing comma. */
  lemma {:induction false} FoldIsJoinPlusComma(items: seq<string>)
    requires |items| >= 1
    ensures FoldWithCommas(items) == Join(items, ",") + ","
  {
    if |items| > 1 {
      var front, last := items[..|items| - 1], items[|items| - 1];
      FoldIsJoinPlusComma(front);
      JoinSnoc(front, last, ",");
      assert front + [last] == items;
    }
  }

  /** `fizz_buzz`: the fold with its final comma truncated. */
  function FizzBuzz(value: nat): (r: string)
    requires value >= 1
    ensures r == Join(Items(value), ",")
  {
    var out := FoldWithCommas(Items(value));
    FoldIsJoinPlusComma(Items(value));
    out[..|out| - 1]
  }

  /** Splitting the output at commas gives back exactly the `value` items, so the
      output has `value - 1` commas, no empty field and no trailing comma. */
  lemma FizzBuzzFields(value: nat)
    requires value >= 1
    ensures Split(FizzBuzz(value), ',') == Items(value)
  {
    SplitJoin(Items(value), ',');
  }

  /** The items for 1..5. */
  lemma ItemsExamples()
    ensures Items(5) == ["1", "2", "Fizz", "4", "Buzz"]
  {
    assert Item(1) == "1" && Item(2) == "2" && Item(4) == "4";
  }

  /** Item 15 is a multiple of both 3 and 5; item 20 only of 5. */
  lemma FizzBuzzItemExamples()
    ensures Items(20)[14] == "FizzBuzz" && Items(20)[19] == "Buzz"
  {
  }
}
