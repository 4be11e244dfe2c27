/** The validator under the configuration its unit tests use: ages from 18, names of 3 to 50
    characters, and the policy and email patterns below. `now` stands for DateTime.Now, read
    once; the cutoff and the test dates are all derived from that one instant. */
module ValidatorScenarios {
  import opened Wrappers
  import opened DotNetText
  import opened DotNetDateTime
  import opened FluentRules
  import opened Configuration
  import opened CustomerModel
  import opened CustomerValidation
  import PolicyReferencePattern

  const TestEmailPattern: string := "^[\\w]{4,}@\\w{2,}(.com|.co.uk)$"

  const TestConfig: ValidatorConfig :=
    ValidatorConfig(18, 3, 50, PolicyReferencePattern.Pattern, TestEmailPattern)

  const TestEmail: string := "abcd@a1.co.uk"

  /** A regular-expression engine that decides the policy pattern as .NET does and accepts the
      test record's email. The email pattern is otherwise left open. */
  ghost predicate TestEngine(isMatch: RegexEngine) {
    && (forall s :: isMatch(PolicyReferencePattern.Pattern, s) == PolicyReferencePattern.IsMatch(s))
    && isMatch(TestEmailPattern, TestEmail)
  }

  /** The clock reads a year late enough for the test dates, which go back 20 years. */
  predicate PlausibleNow(now: DateTime) {
    now.Valid() && 21 < now.year
  }

  /** The validator the tests construct. */
  function TestValidator(now: DateTime): (v: CustomerValidator)
    requires PlausibleNow(now)
    ensures v.Valid() && v.config == TestConfig
    ensures v.dateToCompare.year == now.year - 18 && v.dateToCompare.month == now.month
  {
    NewCustomerValidator(Some(TestConfig), now).value
  }

  /** The record each test starts from: a valid customer born 20 years before `now`. */
  function TestCustomer(now: DateTime): (c: CustomerDto)
    requires PlausibleNow(now)
    ensures c.dateOfBirth.Valid() && c.dateOfBirth.year == now.year - 20
  {
    CustomerDto(Some("John"), Some("Test"), Some("AA-000001"), AddYears(now, -20).value, Some(TestEmail))
  }

  lemma NotBlank(s: string, i: int)
    requires 0 <= i < |s| && !IsWhiteSpace(s[i])
    ensures !IsNullOrWhiteSpace(Some(s))
  {
  }

  /** Names, policy reference and email of the test record pass their rules. */
  lemma TestFieldsPass(now: DateTime, isMatch: RegexEngine)
    requires PlausibleNow(now) && TestEngine(isMatch)
    ensures !NameRejected(TestConfig, Some("John")) && !NameRejected(TestConfig, Some("Test"))
    ensures !IsNullOrWhiteSpace(Some("AA-000001")) && isMatch(PolicyReferencePattern.Pattern, "AA-000001")
    ensures !IsNullOrWhiteSpace(Some(TestEmail)) && isMatch(TestEmailPattern, TestEmail)
  {
    NotBlank("John", 0);
    NotBlank("Test", 0);
    NotBlank("AA-000001", 0);
    NotBlank(TestEmail, 0);
    PolicyReferencePattern.TestReferenceMatches();
  }

  /** A record without a date of birth but with a matching email is valid. */
  lemma ValidWithEmailAndNoBirthDate(now: DateTime, isMatch: RegexEngine)
    requires PlausibleNow(now) && TestEngine(isMatch)
    ensures Validate(TestValidator(now), isMatch, TestCustomer(now).(dateOfBirth := MinValue)) == []
  {
    var v, c := TestValidator(now), TestCustomer(now).(dateOfBirth := MinValue);
    TestFieldsPass(now, isMatch);
    ValidExactlyWhenAcceptable(v, isMatch, c);
  }

  /** A record without an email but born at least 18 years ago is valid. */
  lemma ValidWithBirthDateAndNoEmail(now: DateTime, isMatch: RegexEngine)
    requires PlausibleNow(now) && TestEngine(isMatch)
    ensures Validate(TestValidator(now), isMatch, TestCustomer(now).(email := None)) == []
  {
    var v, c := TestValidator(now), TestCustomer(now).(email := None);
    TestFieldsPass(now, isMatch);
    ValidExactlyWhenAcceptable(v, isMatch, c);
  }

  /** The first and last names the tests reject under bounds 3 to 50: null, empty, blank,
      too short and too long. */
  lemma TestNamesRejected(name: Option<string>)
    requires name in {None, Some(""), Some("    "), Some("aa"),
      Some("My First name  is more than fifty charcters long. Please enter shorter name"),
      Some("My Last name  is more than fifty charcters long. Please enter shorter name")}
    ensures NameRejected(TestConfig, name)
  {
    if name == Some("aa") {
      assert Utf16Length("aa") == 2;
    } else if name.Some? && |name.value| > 4 {
      assert |name.value| > 50;
    }
  }

  /** A record whose first or last name is one of those is invalid. */
  lemma InvalidNameRejected(now: DateTime, isMatch: RegexEngine, name: Option<string>)
    requires PlausibleNow(now)
    requires NameRejected(TestConfig, name)
    ensures Validate(TestValidator(now), isMatch, TestCustomer(now).(firstName := name)) != []
    ensures Validate(TestValidator(now), isMatch, TestCustomer(now).(lastName := name)) != []
  {
    NamesRequiredAndBounded(TestValidator(now), isMatch, TestCustomer(now).(firstName := name));
    NamesRequiredAndBounded(TestValidator(now), isMatch, TestCustomer(now).(lastName := name));
  }

  /** A record whose policy reference is null, blank or malformed is invalid. */
  lemma InvalidPolicyReferenceRejected(now: DateTime, isMatch: RegexEngine, reference: Option<string>)
    requires PlausibleNow(now) && TestEngine(isMatch)
    requires reference in {None, Some(""), Some("    "), Some("AAA-000000"), Some("A-000000"),
      Some("AA-0000001"), Some("AA-00000"), Some("AA000000"), Some("aa-000000")}
    ensures Validate(TestValidator(now), isMatch, TestCustomer(now).(policyReferenceNumber := reference)) != []
  {
    PolicyReferencePattern.MalformedReferencesDoNotMatch();
    PolicyReferenceRequiredAndMatched(TestValidator(now), isMatch, TestCustomer(now).(policyReferenceNumber := reference));
  }

  /** Born 15 years ago: invalid even though a matching email is present. */
  lemma UnderageRejectedDespiteEmail(now: DateTime, isMatch: RegexEngine)
    requires PlausibleNow(now) && TestEngine(isMatch)
    ensures
      var v := TestValidator(now);
      var c := TestCustomer(now).(dateOfBirth := AddYears(now, -15).value);
      Violation(DateOfBirthDate, Custom(AgeMessage(18))) in Validate(v, isMatch, c)
  {
    var v := TestValidator(now);
    var c := TestCustomer(now).(dateOfBirth := AddYears(now, -15).value);
    AgeCheckUnconditional(v, isMatch, c);
  }

  /** Born exactly 18 years ago: valid. A day later: invalid. A day earlier: valid. */
  lemma EighteenthBirthdayBoundary(now: DateTime, isMatch: RegexEngine)
    requires PlausibleNow(now) && TestEngine(isMatch)
    ensures
      var v := TestValidator(now);
      var born := AddYears(now, -18).value;
      && NextDay(born).Ok? && PreviousDay(born).Ok?
      && Validate(v, isMatch, TestCustomer(now).(dateOfBirth := born)) == []
      && Validate(v, isMatch, TestCustomer(now).(dateOfBirth := NextDay(born).value)) != []
      && Validate(v, isMatch, TestCustomer(now).(dateOfBirth := PreviousDay(born).value)) == []
  {
    var v := TestValidator(now);
    var born := AddYears(now, -18).value;
    var dayLater, dayEarlier := NextDay(born).value, PreviousDay(born).value;
    assert born.Date() == v.dateToCompare;
    TestFieldsPass(now, isMatch);

    var exact := TestCustomer(now).(dateOfBirth := born);
    ValidExactlyWhenAcceptable(v, isMatch, exact);

    var young := TestCustomer(now).(dateOfBirth := dayLater);
    TicksFollowCalendar(v.dateToCompare, dayLater.Date());
    AgeCheckUnconditional(v, isMatch, young);

    var adult := TestCustomer(now).(dateOfBirth := dayEarlier);
    TicksFollowCalendar(v.dateToCompare, dayEarlier.Date());
    ValidExactlyWhenAcceptable(v, isMatch, adult);
  }

  /** Without a date of birth, a null, blank or non-matching email makes the record invalid. */
  lemma MissingOrMalformedEmailRejected(now: DateTime, isMatch: RegexEngine, email: Option<string>)
    requires PlausibleNow(now)
    requires IsNullOrWhiteSpace(email) || !isMatch(TestEmailPattern, email.value)
    ensures Validate(TestValidator(now), isMatch, TestCustomer(now).(dateOfBirth := MinValue, email := email)) != []
  {
    var v, c := TestValidator(now), TestCustomer(now).(dateOfBirth := MinValue, email := email);
    ValidExactlyWhenAcceptable(v, isMatch, c);
  }

  /** On 29 February the cutoff stays on 29 February when the target year is a leap year
      and moves to 28 February otherwise. */
  lemma LeapDayCutoff()
    ensures NewCustomerValidator(Some(TestConfig.(minimumCustomerAge := 4)), DateTime(2024, 2, 29, 0)).value.dateToCompare
      == DateTime(2020, 2, 29, 0)
    ensures NewCustomerValidator(Some(TestConfig), DateTime(2024, 2, 29, 0)).value.dateToCompare
      == DateTime(2006, 2, 28, 0)
  {
  }
}
