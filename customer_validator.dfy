/** CustomerValidator: the rule set applied to a CustomerDto before it is stored.
    The constructor fixes the configuration and the age cutoff; afterwards validation
    is a function of the record alone, and reports every failure, not the first. */
module CustomerValidation {
  import opened Wrappers
  import opened DotNetText
  import opened DotNetDateTime
  import opened FluentRules
  import opened Configuration
  import opened CustomerModel

  /** The member a rule is declared on. The date-of-birth rule is declared on
      `DateOfBirth.Date`, not on `DateOfBirth`. */
  datatype Property = FirstName | LastName | PolicyReferenceNumber | DateOfBirthDate | Email

  /** One reported failure, as FluentValidation's ValidationFailure: a property and a message. */
  datatype Violation = Violation(property: Property, message: Message)

  /** Regex.IsMatch, taking the pattern first and the input second. The .NET regular
      expression engine is not modelled; every result here holds for any engine. */
  type RegexEngine = (string, string) -> bool

  const EitherRequired: string := "Either Date Of Birth or Email is required"

  /** The text given to the age check, with the configured age interpolated. */
  function AgeMessage(minimumAge: Int32): (s: string)
    ensures |s| > |AgePrefix| && s[..|AgePrefix|] == AgePrefix
    ensures var numeral := s[|AgePrefix|..];
      && (if numeral[0] == '-' then IsDigits(numeral[1..]) else IsDigits(numeral))
      && SignedDecimalValue(numeral) == minimumAge as int
  {
    var s := AgePrefix + IntToDecimal(minimumAge as int);
    assert s[|AgePrefix|..] == IntToDecimal(minimumAge as int);
    s
  }

  const AgePrefix: string := "Age of customer must be greater than or equal to: "

  /** What goes wrong in the constructor: a null configuration (ArgumentNullException), name
      bounds that FluentValidation's Length refuses, or an age that moves the current year
      outside [1, 9999] (both ArgumentOutOfRangeException). */
  datatype ConstructionError = ConfigNotInitialised | NameLengthBoundsOutOfRange | AgeOutOfRange

  /** A constructed validator: the configuration and the date the birth date is compared to. */
  datatype CustomerValidator = CustomerValidator(config: ValidatorConfig, dateToCompare: DateTime) {
    predicate Valid() {
      && dateToCompare.Valid()
      && dateToCompare.timeOfDay == 0
      && LengthBoundsAccepted(config.minimumNameLength as int, config.maximumNameLength as int)
    }
  }

  /** The constructor, given the value of `options.Value` and the clock's `DateTime.Now`. */
  function NewCustomerValidator(options: Option<ValidatorConfig>, now: DateTime): (r: Result<CustomerValidator, ConstructionError>)
    requires now.Valid()
    ensures options.None? ==> r == Err(ConfigNotInitialised)
    ensures r.Ok? <==>
      && options.Some?
      && LengthBoundsAccepted(options.value.minimumNameLength as int, options.value.maximumNameLength as int)
      && 1 <= now.year - options.value.minimumCustomerAge as int <= MaxYear
    ensures r.Ok? ==> r.value.Valid() && r.value.config == options.value
    ensures r.Ok? ==>
      var cutoff := r.value.dateToCompare;
      && cutoff.year == now.year - r.value.config.minimumCustomerAge as int
      && cutoff.month == now.month
      && (cutoff.day == now.day || (now.month == 2 && now.day == 29 && cutoff.day == 28 && !IsLeapYear(cutoff.year)))
  {
    match options
    case None => Err(ConfigNotInitialised)
    case Some(config) =>
      if !LengthBoundsAccepted(config.minimumNameLength as int, config.maximumNameLength as int) then
        Err(NameLengthBoundsOutOfRange)
      else
        match AddYears(now, NegateInt32(config.minimumCustomerAge) as int)
        case Err(_) => Err(AgeOutOfRange)
        case Ok(shifted) => Ok(CustomerValidator(config, shifted.Date()))
  }

  // ---------------------------------------------------------------------------
  // The five rules

  /** A rule's messages, each reported against the rule's property. */
  function Tag(property: Property, messages: seq<Message>): (r: seq<Violation>)
    ensures |r| == |messages|
    ensures forall x :: x in r <==> x.property == property && x.message in messages
  {
    if messages == [] then []
    else [Violation(property, messages[0])] + Tag(property, messages[1..])
  }

  /** The configured length bounds in plain terms: at least the minimum, and at most the
      maximum unless the maximum is -1. */
  predicate WithinNameLength(config: ValidatorConfig, n: int) {
    config.minimumNameLength as int <= n && (config.maximumNameLength == -1 || n <= config.maximumNameLength as int)
  }

  /** A first or last name the validator refuses. */
  predicate NameRejected(config: ValidatorConfig, name: Option<string>) {
    IsNullOrWhiteSpace(name) || (name.Some? && !WithinNameLength(config, Utf16Length(name.value)))
  }

  /** A date on the first day of the calendar, 0001-01-01, whatever its time of day. */
  predicate OnFirstDay(d: DateTime) {
    d.year == 1 && d.month == 1 && d.day == 1
  }

  /** `RuleFor(name).NotEmpty().Length(min, max)`, for the first and for the last name. */
  function NameRule(property: Property, name: Option<string>, config: ValidatorConfig): (r: seq<Violation>)
    ensures |r| <= 2
    ensures forall x :: x in r ==> x.property == property && (x.message == NotEmptyMessage || x.message.LengthMessage?)
    ensures Violation(property, NotEmptyMessage) in r <==> IsNullOrWhiteSpace(name)
    ensures (exists x :: x in r && x.message.LengthMessage?) <==>
      name.Some? && !WithinNameLength(config, Utf16Length(name.value))
  {
    var notEmpty := NotEmpty(name, NotEmptyMessage);
    var length := Length(name, config.minimumNameLength as int, config.maximumNameLength as int);
    RunTwo(notEmpty.message, notEmpty.passed, length.message, length.passed);
    var r := Tag(property, Run([notEmpty, length]));
    assert !length.passed ==> Violation(property, length.message) in r;
    r
  }

  /** `RuleFor(PolicyReferenceNumber).NotEmpty().Matches(PolicyReferencePattern)`. */
  function PolicyReferenceRule(reference: Option<string>, config: ValidatorConfig, isMatch: RegexEngine): (r: seq<Violation>)
    ensures |r| <= 2
    ensures forall x :: x in r ==>
      x.property == PolicyReferenceNumber && (x.message == NotEmptyMessage || x.message == FormatMessage)
    ensures Violation(PolicyReferenceNumber, NotEmptyMessage) in r <==> IsNullOrWhiteSpace(reference)
    ensures Violation(PolicyReferenceNumber, FormatMessage) in r <==>
      reference.Some? && !isMatch(config.policyReferencePattern, reference.value)
  {
    var notEmpty := NotEmpty(reference, NotEmptyMessage);
    var matches := Matches(reference, config.policyReferencePattern, isMatch);
    RunTwo(notEmpty.message, notEmpty.passed, matches.message, matches.passed);
    Tag(PolicyReferenceNumber, Run([notEmpty, matches]))
  }

  /** `RuleFor(DateOfBirth.Date).NotEmpty().When(email is blank).LessThanOrEqualTo(dateToCompare)`.
      The `When` guards the required check only; the age check always runs. The two never
      fail together, since the first day of the calendar is never after the cutoff. */
  function DateOfBirthRule(v: CustomerValidator, customer: CustomerDto): (r: seq<Violation>)
    requires v.Valid() && customer.dateOfBirth.Valid()
    ensures |r| <= 1
    ensures forall x :: x in r ==>
      && x.property == DateOfBirthDate
      && (x.message == Custom(EitherRequired) || x.message == Custom(AgeMessage(v.config.minimumCustomerAge)))
    ensures Violation(DateOfBirthDate, Custom(EitherRequired)) in r <==>
      IsNullOrWhiteSpace(customer.email) && OnFirstDay(customer.dateOfBirth)
    ensures Violation(DateOfBirthDate, Custom(AgeMessage(v.config.minimumCustomerAge))) in r <==>
      CalendarBefore(v.dateToCompare, customer.dateOfBirth.Date())
  {
    var date := customer.dateOfBirth.Date();
    var required := NotEmptyDate(date, Custom(EitherRequired));
    var guard := IsNullOrWhiteSpace(customer.email);
    var oldEnough := LessThanOrEqualTo(date, v.dateToCompare, Custom(AgeMessage(v.config.minimumCustomerAge)));
    RunGuarded(required.message, required.passed, guard, oldEnough.message, oldEnough.passed);
    DefaultIsMinValue(customer.dateOfBirth);
    TicksFollowCalendar(v.dateToCompare, date);
    assert Custom(EitherRequired) != Custom(AgeMessage(v.config.minimumCustomerAge)) by {
      assert |EitherRequired| < |AgePrefix|;
    }
    Tag(DateOfBirthDate, Run([required, When(guard), oldEnough]))
  }

  /** `RuleFor(Email).NotEmpty().When(DateOfBirth == default).Matches(EmailPattern)`.
      The `When` guards the required check only; the pattern check always runs. */
  function EmailRule(v: CustomerValidator, isMatch: RegexEngine, customer: CustomerDto): (r: seq<Violation>)
    requires customer.dateOfBirth.Valid()
    ensures |r| <= 2
    ensures forall x :: x in r ==>
      x.property == Email && (x.message == Custom(EitherRequired) || x.message == FormatMessage)
    ensures Violation(Email, Custom(EitherRequired)) in r <==>
      customer.dateOfBirth == MinValue && IsNullOrWhiteSpace(customer.email)
    ensures Violation(Email, FormatMessage) in r <==>
      customer.email.Some? && !isMatch(v.config.emailPattern, customer.email.value)
  {
    var required := NotEmpty(customer.email, Custom(EitherRequired));
    var guard := IsDefault(customer.dateOfBirth);
    var matches := Matches(customer.email, v.config.emailPattern, isMatch);
    RunGuarded(required.message, required.passed, guard, matches.message, matches.passed);
    DefaultIsMinValue(customer.dateOfBirth);
    Tag(Email, Run([required, When(guard), matches]))
  }

  /** `Validate(customer).Errors`: the rules in declaration order, each reporting all its failures. */
  function Validate(v: CustomerValidator, isMatch: RegexEngine, customer: CustomerDto): (r: seq<Violation>)
    requires v.Valid() && customer.dateOfBirth.Valid()
    ensures |r| <= 9
  {
    NameRule(FirstName, customer.firstName, v.config)
    + NameRule(LastName, customer.lastName, v.config)
    + PolicyReferenceRule(customer.policyReferenceNumber, v.config, isMatch)
    + DateOfBirthRule(v, customer)
    + EmailRule(v, isMatch, customer)
  }

  // ---------------------------------------------------------------------------
  // What the rule set promises

  predicate HasViolationFor(vs: seq<Violation>, property: Property) {
    exists x :: x in vs && x.property == property
  }

  /** The records the validator accepts, stated field by field. */
  predicate Acceptable(v: CustomerValidator, isMatch: RegexEngine, c: CustomerDto)
    requires v.Valid() && c.dateOfBirth.Valid()
  {
    && !NameRejected(v.config, c.firstName)
    && !NameRejected(v.config, c.lastName)
    && !IsNullOrWhiteSpace(c.policyReferenceNumber)
    && isMatch(v.config.policyReferencePattern, c.policyReferenceNumber.value)
    // a blank email needs a date of birth that was supplied
    && (IsNullOrWhiteSpace(c.email) ==> !OnFirstDay(c.dateOfBirth))
    // old enough: born on or before the cutoff day
    && !CalendarBefore(v.dateToCompare, c.dateOfBirth.Date())
    // an email that is present must match, whether or not a date of birth was given
    && (c.email.Some? ==> isMatch(v.config.emailPattern, c.email.value))
  }

  /** A violation of Validate's result comes from the rule declared on its property. */
  lemma FromOwnRule(v: CustomerValidator, isMatch: RegexEngine, c: CustomerDto, x: Violation)
    requires v.Valid() && c.dateOfBirth.Valid()
    ensures x in Validate(v, isMatch, c) <==>
      match x.property
      case FirstName => x in NameRule(FirstName, c.firstName, v.config)
      case LastName => x in NameRule(LastName, c.lastName, v.config)
      case PolicyReferenceNumber => x in PolicyReferenceRule(c.policyReferenceNumber, v.config, isMatch)
      case DateOfBirthDate => x in DateOfBirthRule(v, c)
      case Email => x in EmailRule(v, isMatch, c)
  {
  }

  /** First and last name: refused exactly when null, blank, or of a length outside the bounds. */
  lemma NamesRequiredAndBounded(v: CustomerValidator, isMatch: RegexEngine, c: CustomerDto)
    requires v.Valid() && c.dateOfBirth.Valid()
    ensures HasViolationFor(Validate(v, isMatch, c), FirstName) <==> NameRejected(v.config, c.firstName)
    ensures HasViolationFor(Validate(v, isMatch, c), LastName) <==> NameRejected(v.config, c.lastName)
  {
    NameReported(v, isMatch, c, FirstName, c.firstName);
    NameReported(v, isMatch, c, LastName, c.lastName);
  }

  lemma NameReported(v: CustomerValidator, isMatch: RegexEngine, c: CustomerDto, property: Property, name: Option<string>)
    requires v.Valid() && c.dateOfBirth.Valid()
    requires (property == FirstName && name == c.firstName) || (property == LastName && name == c.lastName)
    ensures HasViolationFor(Validate(v, isMatch, c), property) <==> NameRejected(v.config, name)
  {
    var r := Validate(v, isMatch, c);
    var rule := NameRule(property, name, v.config);
    if HasViolationFor(r, property) {
      var x :| x in r && x.property == property;
      FromOwnRule(v, isMatch, c, x);
      assert x in rule;
    }
    if IsNullOrWhiteSpace(name) {
      FromOwnRule(v, isMatch, c, Violation(property, NotEmptyMessage));
    } else if NameRejected(v.config, name) {
      var x :| x in rule && x.message.LengthMessage?;
      FromOwnRule(v, isMatch, c, x);
    }
  }

  /** Policy reference: refused exactly when null or blank, or when the pattern does not match it. */
  lemma PolicyReferenceRequiredAndMatched(v: CustomerValidator, isMatch: RegexEngine, c: CustomerDto)
    requires v.Valid() && c.dateOfBirth.Valid()
    ensures HasViolationFor(Validate(v, isMatch, c), PolicyReferenceNumber) <==>
      IsNullOrWhiteSpace(c.policyReferenceNumber) ||
      !isMatch(v.config.policyReferencePattern, c.policyReferenceNumber.value)
  {
    var r := Validate(v, isMatch, c);
    var rule := PolicyReferenceRule(c.policyReferenceNumber, v.config, isMatch);
    if HasViolationFor(r, PolicyReferenceNumber) {
      var x :| x in r && x.property == PolicyReferenceNumber;
      FromOwnRule(v, isMatch, c, x);
      assert x in rule;
    }
    if IsNullOrWhiteSpace(c.policyReferenceNumber) {
      FromOwnRule(v, isMatch, c, Violation(PolicyReferenceNumber, NotEmptyMessage));
    } else if !isMatch(v.config.policyReferencePattern, c.policyReferenceNumber.value) {
      FromOwnRule(v, isMatch, c, Violation(PolicyReferenceNumber, FormatMessage));
    }
  }

  /** "Either Date Of Birth or Email is required" on the date of birth: reported exactly when the
      email is null or blank and the birth date falls on 0001-01-01, at any time of that day. */
  lemma DateOfBirthRequiredWhenEmailBlank(v: CustomerValidator, isMatch: RegexEngine, c: CustomerDto)
    requires v.Valid() && c.dateOfBirth.Valid()
    ensures Violation(DateOfBirthDate, Custom(EitherRequired)) in Validate(v, isMatch, c) <==>
      IsNullOrWhiteSpace(c.email) && OnFirstDay(c.dateOfBirth)
  {
  }

  /** The age check runs whatever the email: the birth date is refused exactly when its day
      comes after the cutoff day. */
  lemma AgeCheckUnconditional(v: CustomerValidator, isMatch: RegexEngine, c: CustomerDto)
    requires v.Valid() && c.dateOfBirth.Valid()
    ensures Violation(DateOfBirthDate, Custom(AgeMessage(v.config.minimumCustomerAge))) in Validate(v, isMatch, c) <==>
      CalendarBefore(v.dateToCompare, c.dateOfBirth.Date())
  {
  }

  /** "Either Date Of Birth or Email is required" on the email: reported exactly when the date
      of birth is default(DateTime) itself and the email is null or blank. */
  lemma EmailRequiredWhenDateOfBirthDefault(v: CustomerValidator, isMatch: RegexEngine, c: CustomerDto)
    requires v.Valid() && c.dateOfBirth.Valid()
    ensures Violation(Email, Custom(EitherRequired)) in Validate(v, isMatch, c) <==>
      c.dateOfBirth == MinValue && IsNullOrWhiteSpace(c.email)
  {
  }

  /** The email pattern runs whatever the date of birth: a non-null email that does not match
      is refused, "" and white space included. */
  lemma EmailPatternUnconditional(v: CustomerValidator, isMatch: RegexEngine, c: CustomerDto)
    requires v.Valid() && c.dateOfBirth.Valid()
    ensures Violation(Email, FormatMessage) in Validate(v, isMatch, c) <==>
      c.email.Some? && !isMatch(v.config.emailPattern, c.email.value)
  {
  }

  /** Every reported violation names a field the record gets wrong. */
  lemma ViolationMeansUnacceptable(v: CustomerValidator, isMatch: RegexEngine, c: CustomerDto, x: Violation)
    requires v.Valid() && c.dateOfBirth.Valid()
    requires x in Validate(v, isMatch, c)
    ensures !Acceptable(v, isMatch, c)
  {
    FromOwnRule(v, isMatch, c, x);
    match x.property
    case FirstName =>
      var rule := NameRule(FirstName, c.firstName, v.config);
      assert x in rule;
    case LastName =>
      var rule := NameRule(LastName, c.lastName, v.config);
      assert x in rule;
    case PolicyReferenceNumber =>
      var rule := PolicyReferenceRule(c.policyReferenceNumber, v.config, isMatch);
      assert x in rule;
    case DateOfBirthDate =>
      var rule := DateOfBirthRule(v, c);
      assert x in rule;
    case Email =>
      var rule := EmailRule(v, isMatch, c);
      assert x in rule;
      DefaultIsMinValue(c.dateOfBirth);
  }

  /** Every field the record gets wrong is reported. */
  lemma UnacceptableIsReported(v: CustomerValidator, isMatch: RegexEngine, c: CustomerDto)
    requires v.Valid() && c.dateOfBirth.Valid()
    requires !Acceptable(v, isMatch, c)
    ensures Validate(v, isMatch, c) != []
  {
    var age := Custom(AgeMessage(v.config.minimumCustomerAge));
    if NameRejected(v.config, c.firstName) {
      NamesRequiredAndBounded(v, isMatch, c);
    } else if NameRejected(v.config, c.lastName) {
      NamesRequiredAndBounded(v, isMatch, c);
    } else if IsNullOrWhiteSpace(c.policyReferenceNumber) || !isMatch(v.config.policyReferencePattern, c.policyReferenceNumber.value) {
      PolicyReferenceRequiredAndMatched(v, isMatch, c);
    } else if IsNullOrWhiteSpace(c.email) && OnFirstDay(c.dateOfBirth) {
      FromOwnRule(v, isMatch, c, Violation(DateOfBirthDate, Custom(EitherRequired)));
    } else if CalendarBefore(v.dateToCompare, c.dateOfBirth.Date()) {
      FromOwnRule(v, isMatch, c, Violation(DateOfBirthDate, age));
    } else {
      FromOwnRule(v, isMatch, c, Violation(Email, FormatMessage));
    }
  }

  /** A record is valid, with no violation at all, exactly when it is acceptable field by field. */
  lemma ValidExactlyWhenAcceptable(v: CustomerValidator, isMatch: RegexEngine, c: CustomerDto)
    requires v.Valid() && c.dateOfBirth.Valid()
    ensures Validate(v, isMatch, c) == [] <==> Acceptable(v, isMatch, c)
  {
    var r := Validate(v, isMatch, c);
    if r != [] {
      ViolationMeansUnacceptable(v, isMatch, c, r[0]);
    }
    if !Acceptable(v, isMatch, c) {
      UnacceptableIsReported(v, isMatch, c);
    }
  }

  /** `new CustomerDto()` fails five checks: the three required strings, and both
      "Either Date Of Birth or Email is required" checks. */
  lemma EmptyCustomerHasFiveViolations(v: CustomerValidator, isMatch: RegexEngine)
    requires v.Valid()
    ensures Validate(v, isMatch, EmptyCustomer) == [
      Violation(FirstName, NotEmptyMessage),
      Violation(LastName, NotEmptyMessage),
      Violation(PolicyReferenceNumber, NotEmptyMessage),
      Violation(DateOfBirthDate, Custom(EitherRequired)),
      Violation(Email, Custom(EitherRequired))]
  {
    var c := EmptyCustomer;
    NullNameRule(FirstName, v.config);
    NullNameRule(LastName, v.config);
    NullPolicyReferenceRule(v.config, isMatch);
    EmptyCustomerDateOfBirthRule(v);
    EmptyCustomerEmailRule(v, isMatch);
    assert Validate(v, isMatch, c) ==
      [Violation(FirstName, NotEmptyMessage)] + [Violation(LastName, NotEmptyMessage)]
      + [Violation(PolicyReferenceNumber, NotEmptyMessage)]
      + [Violation(DateOfBirthDate, Custom(EitherRequired))] + [Violation(Email, Custom(EitherRequired))];
  }

  lemma NullNameRule(property: Property, config: ValidatorConfig)
    ensures NameRule(property, None, config) == [Violation(property, NotEmptyMessage)]
  {
    RunTwo(NotEmptyMessage, false, LengthMessage(config.minimumNameLength as int, config.maximumNameLength as int, 0), true);
  }

  lemma NullPolicyReferenceRule(config: ValidatorConfig, isMatch: RegexEngine)
    ensures PolicyReferenceRule(None, config, isMatch) == [Violation(PolicyReferenceNumber, NotEmptyMessage)]
  {
    RunTwo(NotEmptyMessage, false, FormatMessage, true);
  }

  lemma EmptyCustomerDateOfBirthRule(v: CustomerValidator)
    requires v.Valid()
    ensures DateOfBirthRule(v, EmptyCustomer) == [Violation(DateOfBirthDate, Custom(EitherRequired))]
  {
    var ageMessage := Custom(AgeMessage(v.config.minimumCustomerAge));
    assert EmptyCustomer.dateOfBirth.Date().Ticks() == 0;
    RunGuarded(Custom(EitherRequired), false, true, ageMessage, true);
  }

  lemma EmptyCustomerEmailRule(v: CustomerValidator, isMatch: RegexEngine)
    ensures EmailRule(v, isMatch, EmptyCustomer) == [Violation(Email, Custom(EitherRequired))]
  {
    RunGuarded(Custom(EitherRequired), false, true, FormatMessage, true);
  }

  /** The two required checks have different triggers: the email one implies the date-of-birth
      one, but a birth date later on 0001-01-01 with no email fires only the date-of-birth one. */
  lemma RequiredTriggersDiffer(v: CustomerValidator, isMatch: RegexEngine, c: CustomerDto)
    requires v.Valid() && c.dateOfBirth.Valid()
    ensures Violation(Email, Custom(EitherRequired)) in Validate(v, isMatch, c) ==>
      Violation(DateOfBirthDate, Custom(EitherRequired)) in Validate(v, isMatch, c)
    ensures c.dateOfBirth == DateTime(1, 1, 1, TicksPerDay / 2) && c.email.None? ==>
      && Violation(DateOfBirthDate, Custom(EitherRequired)) in Validate(v, isMatch, c)
      && Violation(Email, Custom(EitherRequired)) !in Validate(v, isMatch, c)
  {
  }
}
