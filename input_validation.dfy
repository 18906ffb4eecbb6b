/**
 * The validator of examples/input_validation.rs: accepts a `SELECT`
 * statement once it ends with a semicolon.
 */
module InputValidation {
  import opened Wrappers
  import opened Validation

  const Keyword: string := "SELECT"
  const Expectation: string := " --< Expect: SELECT stmt"

  /** `str::starts_with` */
  predicate StartsWith(s: string, prefix: string)
  {
    |prefix| <= |s| && s[..|prefix|] == prefix
  }

  /** `str::ends_with` for a single character */
  predicate EndsWith(s: string, c: char)
  {
    |s| > 0 && s[|s| - 1] == c
  }

  /**
   * `validate`: the prefix is checked first, then the final semicolon; the
   * call always succeeds.
   */
  function Validate(input: string): (r: Result<ValidationResult, ReadlineError>)
    ensures r.Ok?
    ensures r.value.Invalid? <==> !(Keyword <= input)
    ensures r.value.Incomplete? <==> Keyword <= input && (input == [] || input[|input| - 1] != ';')
    ensures r.value.Valid? <==> Keyword <= input && |input| > 0 && input[|input| - 1] == ';'
    ensures r.value.Invalid? ==> r.value.message == Some(Expectation)
    ensures r.value.Incomplete? ==> r.value == Incomplete(0)
    ensures r.value.Valid? ==> r.value.message == None
  {
    var result :=
      if !StartsWith(input, Keyword) then Invalid(Some(Expectation))
      else if !EndsWith(input, ';') then Incomplete(0)
      else Valid(None);
    Ok(result)
  }

  /** Ending an incomplete statement with a semicolon makes it valid. */
  lemma CompletedBySemicolon(input: string)
    requires Validate(input).value.Incomplete?
    ensures Validate(input + ";").value == Valid(None)
  {
    assert (input + ";")[..|Keyword|] == input[..|Keyword|];
  }

  /** Once six characters are typed, no continuation can repair a wrong prefix. */
  lemma InvalidStaysInvalid(input: string, more: string)
    requires |input| >= |Keyword| && Validate(input).value.Invalid?
    ensures Validate(input + more).value.Invalid?
  {
    assert (input + more)[..|Keyword|] == input[..|Keyword|];
  }

  /** The prefix is tested before the semicolon. */
  lemma ValidateExamples()
    ensures Validate("x;").value == Invalid(Some(Expectation))
    ensures Validate("SELECT *").value == Incomplete(0)
    ensures Validate("SELECT 1;").value == Valid(None)
  {
  }
}
