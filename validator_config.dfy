/** ValidatorConfig: the settings the validator reads once, when it is constructed. */
module Configuration {

  /** System.Int32. */
  newtype Int32 = x: int | -0x8000_0000 <= x < 0x8000_0000

  /** Unary minus on Int32 in an unchecked context: -Int32.MinValue wraps to Int32.MinValue. */
  function NegateInt32(x: Int32): (r: Int32)
    ensures x != -0x8000_0000 ==> r as int == -(x as int)
    ensures x == -0x8000_0000 ==> r == x
  {
    if x == -0x8000_0000 then x else -x
  }

  /** The five settings. The patterns are .NET regular expressions, kept as their text. */
  datatype ValidatorConfig = ValidatorConfig(
    minimumCustomerAge: Int32,
    minimumNameLength: Int32,
    maximumNameLength: Int32,
    policyReferencePattern: string,
    emailPattern: string)
}
