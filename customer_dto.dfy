/** CustomerDto: the registration record submitted by a client. */
module CustomerModel {
  import opened Wrappers
  import opened DotNetDateTime

  /** Each string property may be null (`None`), which is distinct from "". A DateTime
      property cannot be null: a date of birth that was not supplied is default(DateTime). */
  datatype CustomerDto = CustomerDto(
    firstName: Option<string>,
    lastName: Option<string>,
    policyReferenceNumber: Option<string>,
    dateOfBirth: DateTime,
    email: Option<string>)

  /** `new CustomerDto()`: every string null and the date of birth default(DateTime). */
  const EmptyCustomer: CustomerDto := CustomerDto(None, None, None, MinValue, None)
}
