/** The password validator: a password is too short, fails some of three
    character criteria, or passes. */
module Validator {
  import opened Text
  import opened Wrappers

  const MinimumLength: nat := 8

  /** The character classes a password must each contain at least once. */
  datatype Criteria = LowercaseChar | UppercaseChar | Digit

  /** The outcome of validating one password; `Failed` lists the missing criteria. */
  datatype ValidationState = TooShort | Failed(failures: seq<Criteria>) | Passed

  /** The phrase that names a criterion in the rejection message. */
  function Describe(c: Criteria): (r: string)
    ensures CriteriaNamed(r) == Some(c)
  {
    match c
    case LowercaseChar => "1 lowercase character"
    case UppercaseChar => "1 uppercase character"
    case Digit => "1 digit"
  }

  /** The criterion a phrase names, if any: the inverse of Describe. */
  function CriteriaNamed(phrase: string): Option<Criteria>
  {
    if phrase == "1 lowercase character" then Some(LowercaseChar)
    else if phrase == "1 uppercase character" then Some(UppercaseChar)
    else if phrase == "1 digit" then Some(Digit)
    else None
  }

  /** Whether one character meets a criterion (ASCII classes). */
  predicate Satisfies(ch: char, c: Criteria)
  {
    match c
    case LowercaseChar => IsLower(ch)
    case UppercaseChar => IsUpper(ch)
    case Digit => IsDigit(ch)
  }

  /** Whether some character of the password meets the criterion. */
  predicate Meets(password: string, c: Criteria)
  {
    exists i :: 0 <= i < |password| && Satisfies(password[i], c)
  }

  /** The fixed order in which missing criteria are reported. */
  function Rank(c: Criteria): nat
  {
    match c
    case LowercaseChar => 0
    case UppercaseChar => 1
    case Digit => 2
  }

  /** The criteria the password does not meet, in reporting order. */
  function Missing(password: string): seq<Criteria>
  {
    (if Meets(password, LowercaseChar) then [] else [LowercaseChar])
    + (if Meets(password, UppercaseChar) then [] else [UppercaseChar])
    + (if Meets(password, Digit) then [] else [Digit])
  }

  /** What validation should decide for a password. */
  function Classify(password: string): ValidationState
  {
    if |password| < MinimumLength then TooShort
    else if Missing(password) == [] then Passed
    else Failed(Missing(password))
  }

  /** `validate`: rejects short passwords, then scans the characters once,
      setting a flag per criterion, and lists the criteria whose flag stayed unset. */
  method Validate(password: string) returns (state: ValidationState)
    ensures state == Classify(password)
  {
    if |password| < MinimumLength {
      return TooShort;
    }
    var hasLowercase, hasUppercase, hasDigit := false, false, false;
    for i := 0 to |password|
      invariant hasLowercase <==> exists j :: 0 <= j < i && IsLower(password[j])
      invariant hasUppercase <==> exists j :: 0 <= j < i && IsUpper(password[j])
      invariant hasDigit <==> exists j :: 0 <= j < i && IsDigit(password[j])
    {
      var ch := password[i];
      if IsLower(ch) {
        hasLowercase := true;
      }
      if IsUpper(ch) {
        hasUppercase := true;
      }
      if IsDigit(ch) {
        hasDigit := true;
      }
    }
    assert hasLowercase == Meets(password, LowercaseChar);
    assert hasUppercase == Meets(password, UppercaseChar);
    assert hasDigit == Meets(password, Digit);
    var failures: seq<Criteria> := [];
    if !hasLowercase {
      failures := failures + [LowercaseChar];
    }
    if !hasUppercase {
      failures := failures + [UppercaseChar];
    }
    if !hasDigit {
      failures := failures + [Digit];
    }
    if failures != [] {
      state := Failed(failures);
    } else {
      state := Passed;
    }
  }

  /** A criterion is listed exactly when the password does not meet it; the list
      follows the reporting order strictly, so it has no duplicates and at most three entries. */
  lemma MissingExactly(password: string)
    ensures forall c :: c in Missing(password) <==> !Meets(password, c)
    ensures forall i, j :: 0 <= i < j < |Missing(password)| ==>
      Rank(Missing(password)[i]) < Rank(Missing(password)[j])
    ensures |Missing(password)| <= 3
  {
    var missing := Missing(password);
    forall c ensures c in missing <==> !Meets(password, c) {
      match c
      case LowercaseChar =>
      case UppercaseChar =>
      case Digit =>
    }
  }

  /** A password passes exactly when it is long enough and meets all three criteria;
      a failure always names at least one missing criterion. */
  lemma PassedIff(password: string)
    ensures Classify(password) == Passed <==>
      |password| >= MinimumLength && Meets(password, LowercaseChar)
      && Meets(password, UppercaseChar) && Meets(password, Digit)
    ensures Classify(password) == TooShort <==> |password| < MinimumLength
    ensures Classify(password).Failed? ==> Classify(password).failures != []
  {
  }

  lemma ClassifyExamples()
    ensures Classify("abc") == TooShort
    ensures Classify("abcdefgh") == Failed([UppercaseChar, Digit])
    ensures Classify("Abcdefg1") == Passed
  {
    assert IsLower("abcdefgh"[0]);
    assert IsUpper("Abcdefg1"[0]) && IsLower("Abcdefg1"[1]) && IsDigit("Abcdefg1"[7]);
  }
}
