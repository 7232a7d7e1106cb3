/** Precondition checks (`Validate`): each check either returns its
    argument or throws, and the model returns the thrown exception as an
    `Err`. The comparison checks are modelled on `int`, the one
    `Comparable` their callers in the modelled code use. */
module Validate {
  import opened Outcomes
  import Text

  const DefaultFailedCheck := "Failed check."
  const DefaultRequiredValueWasNull := "Required value was null."
  const DefaultStringIsBlank := "String is null or blank."

  /** Throws `IllegalArgumentException(errorMessage)` when the expression
      does not hold. */
  function CheckArgument(expression: bool, errorMessage: string): (r: Result<(), Fault>)
    ensures r.Ok? <==> expression
    ensures r.Err? ==> r.error == IllegalArgument(errorMessage)
  {
    if !expression then Err(IllegalArgument(errorMessage)) else Ok(())
  }

  /** Throws `IllegalStateException(errorMessage)` when the expression does
      not hold. */
  function CheckState(expression: bool, errorMessage: string): (r: Result<(), Fault>)
    ensures r.Ok? <==> expression
    ensures r.Err? ==> r.error == IllegalState(errorMessage)
  {
    if !expression then Err(IllegalState(errorMessage)) else Ok(())
  }

  /** Returns a non-null reference unchanged, throws on null. */
  function CheckNotNull<T>(reference: Option<T>, errorMessage: string): (r: Result<T, Fault>)
    ensures reference.Some? ==> r == Ok(reference.value)
    ensures reference.None? ==> r == Err(NullPointer(errorMessage))
  {
    match reference
    case None => Err(NullPointer(errorMessage))
    case Some(v) => Ok(v)
  }

  // ---------------------------------------------------------------------
  // The four comparison checks and their default messages
  // ---------------------------------------------------------------------

  function GreaterThanMessage(value: int, lowerBoundExclusive: int): string {
    Text.IntToDecimal(value) + " is less than or equal to " + Text.IntToDecimal(lowerBoundExclusive)
  }

  function GreaterThanOrEqualToMessage(value: int, lowerBoundInclusive: int): string {
    Text.IntToDecimal(value) + " is less than " + Text.IntToDecimal(lowerBoundInclusive)
  }

  function LessThanMessage(value: int, upperBoundExclusive: int): string {
    Text.IntToDecimal(value) + " is greater than or equal to " + Text.IntToDecimal(upperBoundExclusive)
  }

  function LessThanOrEqualToMessage(value: int, upperBoundInclusive: int): string {
    Text.IntToDecimal(value) + " is greater than " + Text.IntToDecimal(upperBoundInclusive)
  }

  function CheckGreaterThan(value: int, lowerBoundExclusive: int, errorMessage: string): (r: Result<int, Fault>)
    ensures r.Err? <==> value <= lowerBoundExclusive
    ensures r.Ok? ==> r.value == value
    ensures r.Err? ==> r.error == IllegalArgument(errorMessage)
  {
    if value <= lowerBoundExclusive then Err(IllegalArgument(errorMessage)) else Ok(value)
  }

  function CheckGreaterThanOrEqualTo(value: int, lowerBoundInclusive: int, errorMessage: string): (r: Result<int, Fault>)
    ensures r.Err? <==> value < lowerBoundInclusive
    ensures r.Ok? ==> r.value == value
    ensures r.Err? ==> r.error == IllegalArgument(errorMessage)
  {
    if value < lowerBoundInclusive then Err(IllegalArgument(errorMessage)) else Ok(value)
  }

  function CheckLessThan(value: int, upperBoundExclusive: int, errorMessage: string): (r: Result<int, Fault>)
    ensures r.Err? <==> value >= upperBoundExclusive
    ensures r.Ok? ==> r.value == value
    ensures r.Err? ==> r.error == IllegalArgument(errorMessage)
  {
    if value >= upperBoundExclusive then Err(IllegalArgument(errorMessage)) else Ok(value)
  }

  function CheckLessThanOrEqualTo(value: int, upperBoundInclusive: int, errorMessage: string): (r: Result<int, Fault>)
    ensures r.Err? <==> value > upperBoundInclusive
    ensures r.Ok? ==> r.value == value
    ensures r.Err? ==> r.error == IllegalArgument(errorMessage)
  {
    if value > upperBoundInclusive then Err(IllegalArgument(errorMessage)) else Ok(value)
  }

  // ---------------------------------------------------------------------
  // Collection, map and string checks
  // ---------------------------------------------------------------------

  function MustNotBeNullMessage(valueName: string): string {
    valueName + " must not be null."
  }

  function ElementMustNotBeNullMessage(valueName: string, index: int): string {
    valueName + "[" + Text.IntToDecimal(index) + "] must not be null."
  }

  function IsEmptyMessage(valueName: string): string {
    valueName + " is empty."
  }

  /** `k` is the position of the first null element of `s`. */
  predicate IsFirstNull<T>(s: seq<Option<T>>, k: int) {
    0 <= k < |s| && s[k].None? && forall j :: 0 <= j < k ==> s[j].Some?
  }

  predicate NoNulls<T>(s: seq<Option<T>>) {
    forall j :: 0 <= j < |s| ==> s[j].Some?
  }

  /** Walks the collection in iteration order and throws on the first null
      element, naming its index. */
  method CheckCollectionElementsNotNull<T>(value: Option<seq<Option<T>>>, valueName: string)
    returns (r: Result<seq<Option<T>>, Fault>)
    ensures value.None? ==> r == Err(NullPointer(MustNotBeNullMessage(valueName)))
    ensures value.Some? && NoNulls(value.value) ==> r == Ok(value.value)
    ensures forall k :: value.Some? && IsFirstNull(value.value, k) ==>
                          r == Err(NullPointer(ElementMustNotBeNullMessage(valueName, k)))
  {
    if value.None? {
      return Err(NullPointer(MustNotBeNullMessage(valueName)));
    }
    var s := value.value;
    var ctr := 0;
    while ctr < |s|
      invariant 0 <= ctr <= |s|
      invariant forall j :: 0 <= j < ctr ==> s[j].Some?
    {
      if s[ctr].None? {
        return Err(NullPointer(ElementMustNotBeNullMessage(valueName, ctr)));
      }
      ctr := ctr + 1;
    }
    return Ok(s);
  }

  function CheckCollectionNotEmpty<T>(value: Option<seq<T>>, valueName: string): (r: Result<seq<T>, Fault>)
    ensures value.None? ==> r == Err(NullPointer(MustNotBeNullMessage(valueName)))
    ensures value.Some? && |value.value| == 0 ==> r == Err(IllegalArgument(IsEmptyMessage(valueName)))
    ensures value.Some? && |value.value| > 0 ==> r == Ok(value.value)
  {
    match value
    case None => Err(NullPointer(MustNotBeNullMessage(valueName)))
    case Some(c) => if |c| == 0 then Err(IllegalArgument(IsEmptyMessage(valueName))) else Ok(c)
  }

  function CheckMapNotEmpty<K, V>(value: Option<map<K, V>>, valueName: string): (r: Result<map<K, V>, Fault>)
    ensures value.None? ==> r == Err(NullPointer(MustNotBeNullMessage(valueName)))
    ensures value.Some? && |value.value| == 0 ==> r == Err(IllegalArgument(IsEmptyMessage(valueName)))
    ensures value.Some? && |value.value| > 0 ==> r == Ok(value.value)
  {
    match value
    case None => Err(NullPointer(MustNotBeNullMessage(valueName)))
    case Some(m) => if |m| == 0 then Err(IllegalArgument(IsEmptyMessage(valueName))) else Ok(m)
  }

  /** Null, empty and whitespace-only strings are rejected with one
      `IllegalArgumentException`. */
  function CheckStringNotBlank(s: Option<string>, errorMessage: string): (r: Result<string, Fault>)
    ensures r.Err? <==> s.None? || Text.IsBlank(s.value)
    ensures r.Ok? ==> s == Some(r.value) && exists i :: 0 <= i < |r.value| && !Text.IsWhitespace(r.value[i])
    ensures r.Err? ==> r.error == IllegalArgument(errorMessage)
  {
    if s.None? || Text.IsBlank(s.value) then Err(IllegalArgument(errorMessage)) else Ok(s.value)
  }

  /** The empty string and a string of spaces are both blank, so both are
      refused; a string with one letter passes. */
  lemma StringCheckExamples(m: string)
    ensures CheckStringNotBlank(Some(""), m).Err?
    ensures CheckStringNotBlank(Some(" \t\n"), m).Err?
    ensures CheckStringNotBlank(Some(" a "), m) == Ok(" a ")
  {
    assert !Text.IsWhitespace(" a "[1]);
  }
}
