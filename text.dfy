/** String helpers shared by the exercises: ASCII character classes, joining a
    list of strings with a separator (Rust's `join`), splitting at a character,
    reversing a list and upper-casing the first character of a string. */
module Text {

  predicate IsLower(c: char) { 'a' <= c <= 'z' }
  predicate IsUpper(c: char) { 'A' <= c <= 'Z' }
  predicate IsDigit(c: char) { '0' <= c <= '9' }

  /** Lower-cases an ASCII upper-case letter and leaves every other character alone. */
  function ToLower(c: char): char
  {
    if IsUpper(c) then (c as int + 32) as char else c
  }

  /** Upper-cases an ASCII lower-case letter and leaves every other character alone. */
  function ToUpper(c: char): (r: char)
    ensures IsLower(c) ==> IsUpper(r) && ToLower(r) == c
    ensures !IsLower(c) ==> r == c
  {
    if IsLower(c) then (c as int - 32) as char else c
  }

  /** `s` with its first character upper-cased and the rest untouched. */
  function Capitalised(s: string): (r: string)
    requires |s| >= 1
    ensures |r| == |s|
    ensures forall i :: 1 <= i < |s| ==> r[i] == s[i]
    ensures IsLower(s[0]) ==> IsUpper(r[0]) && ToLower(r[0]) == s[0]
  {
    [ToUpper(s[0])] + s[1..]
  }

  /** The elements of `xs` in order with `sep` between neighbours; "" for no elements. */
  function Join(xs: seq<string>, sep: string): string
  {
    if |xs| == 0 then ""
    else if |xs| == 1 then xs[0]
    else xs[0] + sep + Join(xs[1..], sep)
  }

  /** Prepending an element puts one more separator after it. */
  lemma JoinCons(x: string, xs: seq<string>, sep: string)
    requires |xs| >= 1
    ensures Join([x] + xs, sep) == x + sep + Join(xs, sep)
  {
    assert ([x] + xs)[1..] == xs;
  }

  /** Appending an element puts one more separator before it. */
  lemma {:induction false} JoinSnoc(xs: seq<string>, x: string, sep: string)
    requires |xs| >= 1
    ensures Join(xs + [x], sep) == Join(xs, sep) + sep + x
  {
    if |xs| == 1 {
      assert (xs + [x])[1..] == [x];
    } else {
      assert (xs + [x])[1..] == xs[1..] + [x];
      JoinSnoc(xs[1..], x, sep);
    }
  }

  /** The pieces of `s` between occurrences of `c`: always one more piece than
      there are occurrences of `c`. */
  function Split(s: string, c: char): (pieces: seq<string>)
    ensures |pieces| >= 1
  {
    if |s| == 0 then [""]
    else
      var rest := Split(s[1..], c);
      if s[0] == c then [""] + rest else [[s[0]] + rest[0]] + rest[1..]
  }

  /** A prefix free of `c` becomes the start of the first piece. */
  lemma {:induction false} SplitPrefix(x: string, t: string, c: char)
    requires c !in x
    ensures Split(x + t, c) == [x + Split(t, c)[0]] + Split(t, c)[1..]
  {
    if |x| > 0 {
      assert x[0] in x;
      assert (x + t)[1..] == x[1..] + t;
      SplitPrefix(x[1..], t, c);
      assert [x[0]] + (x[1..] + Split(t, c)[0]) == x + Split(t, c)[0];
    } else {
      var pieces := Split(t, c);
      assert x + t == t && x + pieces[0] == pieces[0];
      assert pieces == [pieces[0]] + pieces[1..];
    }
  }

  /** Splitting undoes joining with a one-character separator that no element contains. */
  lemma {:induction false} SplitJoin(xs: seq<string>, c: char)
    requires |xs| >= 1
    requires forall i :: 0 <= i < |xs| ==> c !in xs[i]
    ensures Split(Join(xs, [c]), c) == xs
  {
    if |xs| == 1 {
      SplitPrefix(xs[0], "", c);
      assert xs[0] + "" == xs[0];
    } else {
      var rest := Join(xs[1..], [c]);
      SplitJoin(xs[1..], c);
      assert ([c] + rest)[1..] == rest;
      assert Split([c] + rest, c) == [""] + xs[1..];
      assert Join(xs, [c]) == xs[0] + ([c] + rest);
      SplitPrefix(xs[0], [c] + rest, c);
      assert xs[0] + "" == xs[0];
    }
  }

  /** `s` in reverse order (Rust's in-place `reverse`, as a value). */
  function Reversed<T>(s: seq<T>): seq<T>
  {
    if |s| == 0 then [] else [s[|s| - 1]] + Reversed(s[..|s| - 1])
  }

  /** Element `k` of the reversal is element `|s| - 1 - k` of the original. */
  lemma {:induction false} ReversedAt<T>(s: seq<T>, k: nat)
    requires k < |s|
    ensures |Reversed(s)| == |s| && Reversed(s)[k] == s[|s| - 1 - k]
  {
    if k > 0 {
      ReversedAt(s[..|s| - 1], k - 1);
    } else if |s| > 1 {
      ReversedAt(s[..|s| - 1], 0);
    }
  }

  /** Reversing after appending puts the appended element first. */
  lemma ReversedSnoc<T>(s: seq<T>, x: T)
    ensures Reversed(s + [x]) == [x] + Reversed(s)
  {
    assert (s + [x])[..|s|] == s;
  }
}
