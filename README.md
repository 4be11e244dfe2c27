# Customer registration validator, modelled in Dafny

This project models the validation rule set of a customer registration service. `CustomerValidator` is built once
from a `ValidatorConfig` and the current time. It then checks each submitted `CustomerDto` and returns the list of
every rule violation, each a property and a message. The record is valid when the list is empty.

The rules are written with the FluentValidation library, whose behaviour the model states explicitly:

- every validator of a rule runs, so failures accumulate;
- a `When(...)` guards the validators declared before it, not those after it;
- `NotEmpty` refuses null, empty and white-space strings, and a `DateTime` equal to `default`;
- `Length` and `Matches` accept null.

As a result, the age check and the email pattern check run unconditionally.

Modules, one per file:

- `Wrappers` (`wrappers.dfy`): `Option` for nullable strings, `Result` for constructor exceptions.
- `DotNetText` (`dotnet_text.dfy`): `char.IsWhiteSpace`, `string.IsNullOrWhiteSpace`, and `String.Length` counted in UTF-16 code units.
- `DotNetDateTime` (`dotnet_datetime.dfy`): `DateTime` as a calendar date plus a time of day. `Ticks` gives .NET's tick count, and comparisons and `== default` go through it. It also has `.Date`, `AddYears` (29 February is clamped) and `AddDays(±1)`.
- `FluentRules` (`fluent_rules.dfy`): rule chains of `Check` and `When` steps, `Run`, and the validators used (`NotEmpty`, `Length`, `Matches`, `LessThanOrEqualTo`).
- `Configuration` (`validator_config.dfy`) and `CustomerModel` (`customer_dto.dfy`): the settings and the record.
- `CustomerValidation` (`customer_validator.dfy`): the constructor, the five rules, `Validate`, and what they promise.
- `PolicyReferencePattern` (`policy_reference_pattern.dfy`): a hand-written matcher for the test pattern `^[A-Z]{2}-\d{6}$`. It follows .NET defaults: `\d` is any decimal digit (category Nd) of the Basic Multilingual Plane, and `$` also matches before a final `\n`.
- `ValidatorScenarios` (`validator_scenarios.dfy`): the unit tests' configuration and cases, stated as lemmas.

The regular-expression engine is a parameter, `isMatch: (pattern, input) -> bool`, and every result holds for any engine.
The scenario lemmas assume only that the engine decides the policy pattern as .NET does and accepts the test email.
`DateTime.Now` is a parameter, `now`, of the constructor.

Three consequences of the code are easy to miss, and the model states each one:

- A blank email with a supplied date of birth is not accepted. The email pattern runs on every non-null email, so `""` or `"   "` fails unless the pattern matches it. Only a null email skips the check (`EmailPatternUnconditional`).
- Only the "required" check of the date-of-birth rule depends on the email. The age check always runs, even when a valid email is present (`AgeCheckUnconditional`). The test at `CustomerValidatorTests.cs:154-160` depends on this.
- The name bounds need not satisfy minimum ≤ maximum. A maximum of -1 means no upper bound. Other unordered bounds make the constructor throw, because FluentValidation's `Length` refuses them (`NewCustomerValidator`).

## Model

| member | source | states |
|---|---|---|
| `CustomerValidation.NewCustomerValidator` | CustomerRegistration.API/Validators/CustomerValidator.cs:20-45 | A null config fails with ConfigNotInitialised and no validator. Construction succeeds iff the name bounds are ordered (or max is -1) and now's year minus the minimum age lies in [1, 9999]. The kept config is the given one. The cutoff is that many years before now, same month, same day except that 29 Feb becomes 28 Feb when the target year is a common year, at midnight. |
| `CustomerValidation.NameRule` | CustomerRegistration.API/Validators/CustomerValidator.cs:26-34 | A name rule reports "must not be empty" iff the name is null, empty or blank. It reports a length message iff the name is present and its UTF-16 length is outside [min, max] (no upper bound when max is -1). It reports nothing else and at most two messages. |
| `CustomerValidation.PolicyReferenceRule` | CustomerRegistration.API/Validators/CustomerValidator.cs:38-40 | Reports "must not be empty" iff the reference is null or blank. Reports the format message iff the reference is non-null and the pattern does not match it. Reports nothing else. |
| `CustomerValidation.DateOfBirthRule` | CustomerRegistration.API/Validators/CustomerValidator.cs:45-53 | Reports "Either Date Of Birth or Email is required" iff the email is null or blank and the birth date falls on 0001-01-01 (at any time of day). Reports the age message iff the birth day is after the cutoff day, whatever the email. Never reports both. |
| `CustomerValidation.EmailRule` | CustomerRegistration.API/Validators/CustomerValidator.cs:58-61 | Reports "Either Date Of Birth or Email is required" iff the birth date equals default(DateTime) exactly and the email is null or blank. Reports the format message iff the email is non-null and does not match, whatever the date of birth. |
| `CustomerValidation.Validate` | CustomerRegistration.API/Validators/CustomerValidator.cs:24-61 | The contract bounds the result at nine violations. The five rules run in declaration order by the body's concatenation; the lemmas below characterize which violations appear. |
| `CustomerValidation.NamesRequiredAndBounded` | CustomerRegistration.API/Validators/CustomerValidator.cs:26-34 | The result holds a first-name (resp. last-name) violation iff that name is null, blank, or of a length outside the configured bounds. |
| `CustomerValidation.PolicyReferenceRequiredAndMatched` | CustomerRegistration.API/Validators/CustomerValidator.cs:38-40 | The result holds a policy-reference violation iff the reference is null or blank, or the configured pattern does not match it. |
| `CustomerValidation.DateOfBirthRequiredWhenEmailBlank` | CustomerRegistration.API/Validators/CustomerValidator.cs:49-51 | The date-of-birth "either ... required" violation is reported iff the email is blank and DateOfBirth.Date is default. |
| `CustomerValidation.AgeCheckUnconditional` | CustomerRegistration.API/Validators/CustomerValidator.cs:45-53 | The age violation is reported iff the birth day is after the cutoff day. The email plays no part. |
| `CustomerValidation.EmailRequiredWhenDateOfBirthDefault` | CustomerRegistration.API/Validators/CustomerValidator.cs:58-60 | The email "either ... required" violation is reported iff the full DateOfBirth equals default and the email is blank. |
| `CustomerValidation.EmailPatternUnconditional` | CustomerRegistration.API/Validators/CustomerValidator.cs:58-61 | The email format violation is reported iff the email is non-null and does not match, including "" and blank emails. |
| `CustomerValidation.ViolationMeansUnacceptable` | CustomerRegistration.API/Validators/CustomerValidator.cs:24-61 | Any reported violation means the record breaks one of the field-by-field conditions. |
| `CustomerValidation.UnacceptableIsReported` | CustomerRegistration.API/Validators/CustomerValidator.cs:24-61 | A record that breaks any field-by-field condition gets at least one violation. |
| `CustomerValidation.ValidExactlyWhenAcceptable` | CustomerRegistration.API/Validators/CustomerValidator.cs:24-61 | A record is valid (empty result) iff all of these hold: names not blank and within bounds; a policy reference that is present and matches; an email or a supplied date of birth; born on or before the cutoff day; and any non-null email matches. |
| `CustomerValidation.EmptyCustomerHasFiveViolations` | CustomerRegistration.Tests/Validator/CustomerValidatorTests.cs:79-86 | `new CustomerDto()` yields exactly five violations, for any configuration and cutoff: "must not be empty" for first name, last name and policy reference, then the two "Either Date Of Birth or Email is required" violations. |
| `CustomerValidation.RequiredTriggersDiffer` | CustomerRegistration.API/Validators/CustomerValidator.cs:49-60 | The email "required" violation implies the date-of-birth one, but not conversely. A birth date at 12:00 on 0001-01-01 with a null email fires only the date-of-birth one. |
| `FluentRules.Run` | CustomerRegistration.API/Validators/CustomerValidator.cs:49-61 | A message is reported iff its validator failed and every `When` declared after it holds. At most one message per step. |
| `FluentRules.RunTwo` | CustomerRegistration.API/Validators/CustomerValidator.cs:26-28 | In a two-validator chain both validators run, and their failures are reported in order. |
| `FluentRules.RunGuarded` | CustomerRegistration.API/Validators/CustomerValidator.cs:49-53 | In `A.When(c).B`, A is reported only when c holds, and B is always evaluated. |
| `FluentRules.NotEmpty` | CustomerRegistration.API/Validators/CustomerValidator.cs:27 | A string passes NotEmpty iff it is non-null and holds at least one non-white-space character. The step carries the given message. |
| `FluentRules.NotEmptyDate` | CustomerRegistration.API/Validators/CustomerValidator.cs:50 | A DateTime passes NotEmpty iff it is not default(DateTime), 0001-01-01 00:00. |
| `FluentRules.Length` | CustomerRegistration.API/Validators/CustomerValidator.cs:28 | Null passes. A string passes iff its UTF-16 length is at least the minimum and, unless the maximum is -1, at most the maximum. The message carries both bounds and the length. |
| `FluentRules.BoundsAcceptedExactlyWhenSatisfiable` | CustomerRegistration.API/Validators/CustomerValidator.cs:28 | `LengthBoundsAccepted` is LengthValidator's constructor guard (max is -1, or min ≤ max). For a maximum of -1 or more, the bounds are accepted iff some string passes `Length`. Below -1, no string passes. |
| `FluentRules.Matches` | CustomerRegistration.API/Validators/CustomerValidator.cs:40 | Null passes. A string passes iff the engine matches the pattern against it. The message is the format message. |
| `FluentRules.LessThanOrEqualTo` | CustomerRegistration.API/Validators/CustomerValidator.cs:52 | A date passes iff it is not later than the bound in calendar order. |
| `DotNetText.IsWhiteSpace` | CustomerRegistration.API/Validators/CustomerValidator.cs:51 | Every white-space character lies in the Basic Multilingual Plane, and none is a visible ASCII character. |
| `DotNetText.TrimStart` | CustomerRegistration.API/Validators/CustomerValidator.cs:51 | A reference characterization used to state the blankness test at :51; the source does not call TrimStart. The result is a suffix of the input, everything removed is white space, and it does not start with white space. |
| `DotNetText.BlankExactlyWhenTrimmedEmpty` | CustomerRegistration.API/Validators/CustomerValidator.cs:51 | `string.IsNullOrWhiteSpace(s)` holds iff s is null or trimming leading white space leaves nothing. |
| `DotNetDateTime.IsDefault` | CustomerRegistration.API/Validators/CustomerValidator.cs:60 | `d == default` holds iff d is DateTime.MinValue, 0001-01-01 00:00. |
| `CustomerValidation.AgeMessage` | CustomerRegistration.API/Validators/CustomerValidator.cs:53 | The age message is the fixed text followed by a numeral (digits with an optional leading '-') whose value is the configured minimum age. |
| `DotNetText.NaturalToDecimalValue` | CustomerRegistration.API/Validators/CustomerValidator.cs:53 | The digits that Int32.ToString writes for a non-negative number denote that number. |
| `DotNetText.IntToDecimal` | CustomerRegistration.API/Validators/CustomerValidator.cs:53 | Int32.ToString writes a '-' iff the value is negative, then digits. The signed numeral denotes the value. |
| `DotNetText.Utf16Length` | CustomerRegistration.API/Validators/CustomerValidator.cs:28 | The length that `Length` checks lies between the character count and twice that count. It equals the character count iff every character is in the Basic Multilingual Plane. |
| `DotNetDateTime.DateTime.Date` | CustomerRegistration.API/Validators/CustomerValidator.cs:45-49 | `.Date` is a valid midnight, the last one at or before the instant, less than a day earlier. |
| `DotNetDateTime.TicksFollowCalendar` | CustomerRegistration.API/Validators/CustomerValidator.cs:52 | Comparing tick counts, as `LessThanOrEqualTo` does, is calendar order. Equal ticks mean the same date and time. |
| `DotNetDateTime.DefaultIsMinValue` | CustomerRegistration.API/Validators/CustomerValidator.cs:49-60 | `d == default` holds iff `d.Date == default` and the time of day is zero. `d.Date == default` holds for every instant of 0001-01-01. |
| `DotNetDateTime.AddYears` | CustomerRegistration.API/Validators/CustomerValidator.cs:45 | Succeeds iff the target year is in [1, 9999]. Keeps month and time of day. Keeps the day, except that 29 Feb becomes 28 Feb in a common year. |
| `DotNetDateTime.NextDay` | CustomerRegistration.Tests/Validator/CustomerValidatorTests.cs:169 | AddDays(1) adds exactly one day of ticks. It fails only on 9999-12-31. |
| `DotNetDateTime.PreviousDay` | CustomerRegistration.Tests/Validator/CustomerValidatorTests.cs:195 | AddDays(-1) subtracts exactly one day of ticks. It fails only on 0001-01-01. |
| `Configuration.NegateInt32` | CustomerRegistration.API/Validators/CustomerValidator.cs:45 | `-MinimumCustomerAge` is the arithmetic negation, except that Int32.MinValue wraps to itself. |
| `PolicyReferencePattern.AsciiReferenceMatches` | CustomerRegistration.Tests/Validator/CustomerValidatorTests.cs:38 | Any two ASCII capitals, a hyphen and six ASCII digits match the policy pattern. |
| `PolicyReferencePattern.TestReferenceMatches` | CustomerRegistration.Tests/Validator/CustomerValidatorTests.cs:26-38 | "AA-000001" matches, and so does "AA-000001\n" because `$` accepts a final newline. |
| `PolicyReferencePattern.ArabicIndicDigitsMatch` | CustomerRegistration.Tests/Validator/CustomerValidatorTests.cs:38 | `\d` also accepts non-ASCII decimal digits. |
| `PolicyReferencePattern.MalformedReferencesDoNotMatch` | CustomerRegistration.Tests/Validator/CustomerValidatorTests.cs:135-140 | The six malformed references of the tests do not match. |
| `ValidatorScenarios.TestValidator` | CustomerRegistration.Tests/Validator/CustomerValidatorTests.cs:32-44 | The test configuration constructs successfully. Its cutoff is 18 years before now, in the same month. |
| `ValidatorScenarios.TestCustomer` | CustomerRegistration.Tests/Validator/CustomerValidatorTests.cs:22-29 | The base record's birth date is a valid DateTime 20 years before now. |
| `ValidatorScenarios.TestFieldsPass` | CustomerRegistration.Tests/Validator/CustomerValidatorTests.cs:22-40 | The base record's names, policy reference and email pass their rules under the test configuration. |
| `ValidatorScenarios.ValidWithEmailAndNoBirthDate` | CustomerRegistration.Tests/Validator/CustomerValidatorTests.cs:52-59 | With DateOfBirth = default and a matching email, the record is valid. |
| `ValidatorScenarios.ValidWithBirthDateAndNoEmail` | CustomerRegistration.Tests/Validator/CustomerValidatorTests.cs:66-72 | With a null email and a birth date 20 years back, the record is valid. |
| `ValidatorScenarios.TestNamesRejected` | CustomerRegistration.Tests/Validator/CustomerValidatorTests.cs:93-98 | Null, "", "    ", "aa" and the two 70+-character names are rejected under bounds 3 to 50. |
| `ValidatorScenarios.InvalidNameRejected` | CustomerRegistration.Tests/Validator/CustomerValidatorTests.cs:99-124 | A rejected name, as first or as last name, makes the record invalid. |
| `ValidatorScenarios.InvalidPolicyReferenceRejected` | CustomerRegistration.Tests/Validator/CustomerValidatorTests.cs:131-147 | Each of the nine bad policy references of the test makes the record invalid. |
| `ValidatorScenarios.UnderageRejectedDespiteEmail` | CustomerRegistration.Tests/Validator/CustomerValidatorTests.cs:154-160 | A birth date 15 years back draws the age violation, even though a matching email is present. |
| `ValidatorScenarios.EighteenthBirthdayBoundary` | CustomerRegistration.Tests/Validator/CustomerValidatorTests.cs:167-198 | Born exactly 18 years back: valid. One day later: invalid. One day earlier: valid. |
| `ValidatorScenarios.LeapDayCutoff` | CustomerRegistration.API/Validators/CustomerValidator.cs:45 | With now = 2024-02-29, an age of 4 gives the cutoff 2020-02-29, and an age of 18 gives 2006-02-28. |
| `ValidatorScenarios.MissingOrMalformedEmailRejected` | CustomerRegistration.Tests/Validator/CustomerValidatorTests.cs:221-235 | Without a date of birth, a null, blank or non-matching email makes the record invalid. |

## Left out

- The .NET regular-expression engine: patterns are kept as text and matching is a parameter. Only the test policy pattern has a concrete matcher. The test email pattern is not matched concretely, because its `\w` is Unicode-aware and its `.` is unescaped.
- A null or malformed pattern, which makes `Regex` throw, is not modelled. The config's patterns are non-null strings here.
- A null `options` object (as opposed to a null `options.Value`) is not modelled.
- `DateTime.Now` is a parameter. The unit tests read the clock three times: in the test class constructor (`CustomerValidatorTests.cs:28`), in the validator's constructor (`CustomerValidator.cs:45`), and in the test body (for example `CustomerValidatorTests.cs:157`). The scenarios use a single instant.
- A null record passed to `Validate` is not modelled. FluentValidation throws on it; here a `CustomerDto` is always a value.
- The `Kind` of a DateTime is not kept, because equality and ordering ignore it. AddDays is modelled only for +1 and -1 days, the steps the tests use.
- Strings are sequences of Unicode scalar values, so a .NET string holding a lone surrogate cannot be represented.
- FluentValidation's default messages are kept as message kinds, not rendered with the property's display name. The two custom messages are kept as text; integer formatting ignores culture settings.
- Determinism needs no lemma: `Validate` is a function.
- HTTP routing, dependency-injection wiring, the problem-details error response, persistence and AutoMapper field copying are plumbing around the validator. The storage shapes' `[StringLength]`/`[Required]` attributes are enforced by other libraries, not by this validator.
