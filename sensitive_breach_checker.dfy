/**
 * The sensitive-information checker of the web client: four pieces of
 * component state, the submit and close handlers, and the values the form
 * derives from the state (placeholder, input limits, severity label).
 * The submit handler awaits a timer before producing a fixed mock result;
 * here it is split into the step before the await and the step after it.
 */
module SensitiveBreachChecker {
  import opened Wrappers

  datatype Severity = Low | Medium | High

  datatype BreachResult = BreachResult(
    service: string,
    breachedData: seq<string>,
    date: string,
    severity: Severity)

  function SeverityText(s: Severity): string {
    match s
    case Low => "low"
    case Medium => "medium"
    case High => "high"
  }

  // ---------------------------------------------------------------------------
  // Display derivations
  // ---------------------------------------------------------------------------

  /** `toUpperCase` on one character, for ASCII letters. */
  function UpperCase(c: char): (u: char)
    ensures 'a' <= c <= 'z' ==> 'A' <= u <= 'Z' && u as int - c as int == 'A' as int - 'a' as int
    ensures !('a' <= c <= 'z') ==> u == c
  {
    if 'a' <= c <= 'z' then (c as int - 'a' as int + 'A' as int) as char else c
  }

  /** `s.charAt(0).toUpperCase() + s.slice(1)`. */
  function Capitalize(s: string): string {
    if s == [] then [] else [UpperCase(s[0])] + s[1..]
  }

  /** The severity label of a result card. */
  function SeverityLabel(s: Severity): string {
    Capitalize(SeverityText(s))
  }

  /** The input's placeholder: "Enter SSN" for an SSN, "Enter " and the capitalised type otherwise. */
  function Placeholder(sensitiveType: string): string {
    "Enter " + (if sensitiveType == "ssn" then "SSN" else Capitalize(sensitiveType))
  }

  /** The input's `maxLength`: nine characters for an SSN, no limit otherwise. */
  function MaxLength(sensitiveType: string): Option<nat> {
    if sensitiveType == "ssn" then Some(9) else None
  }

  /** The SSN input's `pattern`, `\d{9}`, which the browser matches against the whole value. */
  predicate IsNineDigits(v: string) {
    |v| == 9 && forall i :: 0 <= i < |v| ==> '0' <= v[i] <= '9'
  }

  /** The browser submits the form only when the value is present and, for an SSN, nine digits. */
  predicate FormValid(sensitiveType: string, sensitiveValue: string) {
    sensitiveValue != [] && (sensitiveType == "ssn" ==> IsNineDigits(sensitiveValue))
  }

  /** Values the user can type into the input under its `maxLength`. */
  predicate WithinMaxLength(sensitiveType: string, sensitiveValue: string) {
    MaxLength(sensitiveType).Some? ==> |sensitiveValue| <= MaxLength(sensitiveType).value
  }

  /** The fixed result the submit handler produces for the type it was submitted with. */
  function MockResult(sensitiveType: string): BreachResult {
    BreachResult("SensitiveDataService", [sensitiveType], "2023-03-20", High)
  }

  // ---------------------------------------------------------------------------
  // Component state and its transitions
  // ---------------------------------------------------------------------------

  class Checker {
    var sensitiveType: string
    var sensitiveValue: string
    var sensitiveResults: seq<BreachResult>
    var isSensitiveLoading: bool
    /** The type the in-flight submit closed over; the mock result reports this one. */
    var submittedType: Option<string>

    /** A submit is in flight exactly while the component shows it is loading. */
    ghost predicate Valid()
      reads this
    {
      isSensitiveLoading <==> submittedType.Some?
    }

    /** The component's initial state. */
    constructor ()
      ensures Valid()
      ensures sensitiveType == "password" && sensitiveValue == ""
      ensures sensitiveResults == [] && !isSensitiveLoading
    {
      sensitiveType := "password";
      sensitiveValue := "";
      sensitiveResults := [];
      isSensitiveLoading := false;
      submittedType := None;
    }

    /** The select's `onValueChange`; the select stays enabled while a submit is in flight. */
    method SelectType(t: string)
      requires Valid()
      modifies this
      ensures Valid()
      ensures sensitiveType == t
      ensures sensitiveValue == old(sensitiveValue) && sensitiveResults == old(sensitiveResults)
      ensures isSensitiveLoading == old(isSensitiveLoading) && submittedType == old(submittedType)
    {
      sensitiveType := t;
    }

    /**
     * The input's `onChange`. The browser stops typing past `maxLength`, but a
     * value that was already longer (typed before the type became `ssn`) can
     * still be edited, so any value can arrive.
     */
    method EditValue(v: string)
      requires Valid()
      modifies this
      ensures Valid()
      ensures sensitiveValue == v
      ensures sensitiveType == old(sensitiveType) && sensitiveResults == old(sensitiveResults)
      ensures isSensitiveLoading == old(isSensitiveLoading) && submittedType == old(submittedType)
    {
      sensitiveValue := v;
    }

    /**
     * The submit handler up to its await. The button is disabled while
     * loading and the browser blocks an invalid form, so otherwise nothing
     * happens; when it starts, only the loading flag changes.
     */
    method StartSubmit() returns (started: bool)
      requires Valid()
      modifies this
      ensures Valid()
      ensures started <==> !old(isSensitiveLoading) && FormValid(old(sensitiveType), old(sensitiveValue))
      ensures started ==> isSensitiveLoading && submittedType == Some(old(sensitiveType))
      ensures !started ==> isSensitiveLoading == old(isSensitiveLoading) && submittedType == old(submittedType)
      ensures sensitiveType == old(sensitiveType) && sensitiveValue == old(sensitiveValue)
      ensures sensitiveResults == old(sensitiveResults)
    {
      started := !SubmitDisabled() && FormValid(sensitiveType, sensitiveValue);
      if started {
        submittedType := Some(sensitiveType);
        isSensitiveLoading := true;
      }
    }

    /**
     * The submit handler after its await: the results become the one mock
     * result for the submitted type, loading ends and the value is cleared.
     */
    method CompleteSubmit()
      requires Valid() && isSensitiveLoading
      modifies this
      ensures Valid()
      ensures sensitiveResults == [MockResult(old(submittedType).value)]
      ensures !isSensitiveLoading && sensitiveValue == ""
      ensures sensitiveType == old(sensitiveType)
    {
      sensitiveResults := [MockResult(submittedType.value)];
      isSensitiveLoading := false;
      submittedType := None;
      sensitiveValue := "";
    }

    /** The close button: results are emptied and nothing else changes. */
    method CloseResults()
      requires Valid()
      modifies this
      ensures Valid()
      ensures sensitiveResults == [] && !ResultsShown()
      ensures sensitiveType == old(sensitiveType) && sensitiveValue == old(sensitiveValue)
      ensures isSensitiveLoading == old(isSensitiveLoading) && submittedType == old(submittedType)
    {
      sensitiveResults := [];
    }

    /** The submit button's `disabled`. */
    function SubmitDisabled(): bool
      reads this
    {
      isSensitiveLoading
    }

    /** Whether the results section is rendered. */
    function ResultsShown(): bool
      reads this
    {
      |sensitiveResults| > 0
    }
  }

  /**
   * One lookup as a user drives it: choose a type, enter a valid value,
   * submit, press submit again and switch the type while the timer runs,
   * then let the timer fire. The second press does nothing, and the result
   * reports the type that was submitted, not the one selected afterwards.
   */
  method SubmitLifecycle(t: string, v: string, later: string)
    returns (again: bool, results: seq<BreachResult>, shown: bool, value: string)
    requires FormValid(t, v)
    ensures !again
    ensures results == [MockResult(t)] && shown
    ensures value == ""
  {
    var c := new Checker();
    c.SelectType(t);
    c.EditValue(v);
    var started := c.StartSubmit();
    again := c.StartSubmit();
    c.SelectType(later);
    c.CompleteSubmit();
    results, shown, value := c.sensitiveResults, c.ResultsShown(), c.sensitiveValue;
  }

  // ---------------------------------------------------------------------------
  // Lemmas
  // ---------------------------------------------------------------------------

  /** Capitalising keeps the length and the tail, and only the first character can change. */
  lemma CapitalizeShape(s: string)
    ensures |Capitalize(s)| == |s|
    ensures s != [] ==> Capitalize(s)[0] == UpperCase(s[0]) && Capitalize(s)[1..] == s[1..]
  {
  }

  /** Capitalising twice is capitalising once. */
  lemma CapitalizeIdempotent(s: string)
    ensures Capitalize(Capitalize(s)) == Capitalize(s)
  {
    if s != [] {
      assert Capitalize(s)[1..] == s[1..];
    }
  }

  /** The labels a result card shows for the three severities, pairwise distinct. */
  lemma SeverityLabels()
    ensures SeverityLabel(Low) == "Low"
    ensures SeverityLabel(Medium) == "Medium"
    ensures SeverityLabel(High) == "High"
  {
  }

  lemma SeverityLabelInjective(a: Severity, b: Severity)
    requires SeverityLabel(a) == SeverityLabel(b)
    ensures a == b
  {
    SeverityLabels();
  }

  /** The placeholders of the three selectable types. */
  lemma PlaceholderOfEachType()
    ensures Placeholder("password") == "Enter Password"
    ensures Placeholder("ssn") == "Enter SSN"
    ensures Placeholder("other") == "Enter Other"
  {
  }

  /** A value the SSN pattern accepts fits the SSN `maxLength`. */
  lemma SsnPatternFitsMaxLength(v: string)
    requires FormValid("ssn", v)
    ensures WithinMaxLength("ssn", v) && |v| == 9
  {
  }
}
