/** The behaviour of the FluentValidation library that CustomerValidator builds on.
    A rule (`RuleFor(x => x.P)`) holds a chain of property validators and `When` conditions.
    With the default cascade mode every validator of the chain runs, so the failures of
    a rule accumulate; a `When` applies its condition to every validator declared before
    it in the chain, and to none declared after it. */
module FluentRules {
  import opened Wrappers
  import opened DotNetText
  import opened DotNetDateTime

  /** A failure message: FluentValidation's default templates for NotEmpty, Length and
      Matches, or the text given by `WithMessage`. */
  datatype Message =
    | NotEmptyMessage                                              // "'{PropertyName}' must not be empty."
    | LengthMessage(minLength: int, maxLength: int, totalLength: nat) // "... must be between {MinLength} and {MaxLength} characters. You entered {TotalLength} characters."
    | FormatMessage                                                // "'{PropertyName}' is not in the correct format."
    | Custom(text: string)

  /** One element of a rule chain: a validator already applied to the property value
      (whether it passed, and the message it reports if not), or a `When` condition
      already evaluated on the record. */
  datatype Step = Check(passed: bool, message: Message) | When(condition: bool)

  /** The message a step contributes on its own: that of a failed validator. */
  function Failure(s: Step): seq<Message> {
    if s.Check? && !s.passed then [s.message] else []
  }

  /** Validator `i` runs iff every `When` declared after it holds. */
  predicate Runs(chain: seq<Step>, i: int)
    requires 0 <= i < |chain|
  {
    forall j :: i < j < |chain| ==> (chain[j].When? ==> chain[j].condition)
  }

  /** The messages a rule reports, in declaration order. */
  function Run(chain: seq<Step>): (r: seq<Message>)
    ensures |r| <= |chain|
    ensures forall m :: m in r <==>
      exists i :: 0 <= i < |chain| && chain[i] == Check(false, m) && Runs(chain, i)
  {
    if chain == [] then []
    else
      var n := |chain| - 1;
      var earlier := Run(chain[..n]);
      assert forall i :: 0 <= i < n ==> chain[..n][i] == chain[i];
      match chain[n]
      case When(c) =>
        if c then earlier else []
      case Check(ok, m) =>
        earlier + Failure(chain[n])
  }

  /** A rule of two validators reports the failures of both, in order. */
  lemma RunTwo(a: Message, okA: bool, b: Message, okB: bool)
    ensures Run([Check(okA, a), Check(okB, b)]) ==
      (if okA then [] else [a]) + (if okB then [] else [b])
  {
    assert [Check(okA, a), Check(okB, b)][..1] == [Check(okA, a)];
  }

  /** In `A.When(c).B` the condition guards A only: B always runs. */
  lemma RunGuarded(a: Message, okA: bool, c: bool, b: Message, okB: bool)
    ensures Run([Check(okA, a), When(c), Check(okB, b)]) ==
      (if c && !okA then [a] else []) + (if okB then [] else [b])
  {
    var chain := [Check(okA, a), When(c), Check(okB, b)];
    var guarded := [Check(okA, a), When(c)];
    assert chain[..2] == guarded;
    assert guarded[..1] == [Check(okA, a)];
    assert [Check(okA, a)][..0] == [];
    assert Run([Check(okA, a)]) == (if okA then [] else [a]);
    assert Run(guarded) == (if c && !okA then [a] else []);
  }

  // ---------------------------------------------------------------------------
  // Property validators

  /** NotEmpty on a string: fails on null, on "" and on white space only. */
  function NotEmpty(value: Option<string>, message: Message): (r: Step)
    ensures r.Check? && r.message == message
    ensures r.passed <==> value.Some? && exists i :: 0 <= i < |value.value| && !IsWhiteSpace(value.value[i])
  {
    Check(!IsNullOrWhiteSpace(value), message)
  }

  /** NotEmpty on a DateTime: fails on default(DateTime), which is 0001-01-01 00:00. */
  function NotEmptyDate(value: DateTime, message: Message): (r: Step)
    requires value.Valid()
    ensures r.Check? && r.message == message
    ensures r.passed <==> value != MinValue
  {
    Check(!IsDefault(value), message)
  }

  /** Length(min, max): passes on null; otherwise fails when the UTF-16 length is below
      `min`, or above `max` unless `max` is -1 (no upper bound). */
  function Length(value: Option<string>, min: int, max: int): (r: Step)
    ensures r.Check?
    ensures value.Some? ==> r.message == LengthMessage(min, max, Utf16Length(value.value))
    ensures r.passed <==> value.None? || (min <= Utf16Length(value.value) && (max == -1 || Utf16Length(value.value) <= max))
  {
    match value
    case None => Check(true, LengthMessage(min, max, 0))
    case Some(s) =>
      var n := Utf16Length(s);
      Check(!(n < min || (n > max && max != -1)), LengthMessage(min, max, n))
  }

  /** LengthValidator's constructor throws ArgumentOutOfRangeException unless the bounds are
      ordered or the maximum is -1. */
  predicate LengthBoundsAccepted(min: int, max: int) {
    max == -1 || min <= max
  }

  /** For a maximum of -1 or more, the constructor accepts exactly the bounds that some
      string can meet; an ordered pair of negative bounds is accepted though no string
      meets it. */
  lemma BoundsAcceptedExactlyWhenSatisfiable(min: int, max: int)
    ensures max >= -1 ==> (LengthBoundsAccepted(min, max) <==> exists s :: Length(Some(s), min, max).passed)
    ensures max < -1 ==> forall s :: !Length(Some(s), min, max).passed
  {
    if max >= -1 && LengthBoundsAccepted(min, max) {
      var sample := seq(if min < 0 then 0 else min, _ => 'a');
      assert Utf16Length(sample) == |sample|;
      assert Length(Some(sample), min, max).passed;
    }
  }

  /** Matches(pattern): passes on null; otherwise the regular expression must find a match. */
  function Matches(value: Option<string>, pattern: string, isMatch: (string, string) -> bool): (r: Step)
    ensures r.Check? && r.message == FormatMessage
    ensures value.None? ==> r.passed
    ensures value.Some? ==> (r.passed <==> isMatch(pattern, value.value))
  {
    Check(value.None? || isMatch(pattern, value.value), FormatMessage)
  }

  /** LessThanOrEqualTo(bound) on a DateTime: compares tick counts, so it passes unless
      `value` is later than `bound` in the calendar. */
  function LessThanOrEqualTo(value: DateTime, bound: DateTime, message: Message): (r: Step)
    requires value.Valid() && bound.Valid()
    ensures r.Check? && r.message == message
    ensures r.passed <==> !CalendarBefore(bound, value)
  {
    TicksFollowCalendar(bound, value);
    Check(value.Ticks() <= bound.Ticks(), message)
  }
}
