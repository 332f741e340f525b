/** The JSON envelope builders `formatResponse` and `formatError`; each
    `x || d` default replaces a falsy `x` (absent, empty string, zero). */
module Helpers {
  import opened Wrappers

  datatype SuccessEnvelope<T> = SuccessEnvelope(success: bool, message: string, data: T)

  datatype ErrorEnvelope = ErrorEnvelope(success: bool, message: string, statusCode: int)

  const DefaultMessage: string := "Operation successful"

  /** `formatResponse(data, message?)`: always a success, data untouched,
      the message defaulted when absent or empty. */
  function FormatResponse<T>(data: T, message: Option<string>): (r: SuccessEnvelope<T>)
    ensures r.success && r.data == data
    ensures message.Some? && message.value != "" ==> r.message == message.value
    ensures message == None || message == Some("") ==> r.message == DefaultMessage
  {
    SuccessEnvelope(true, if message.Some? && message.value != "" then message.value else DefaultMessage, data)
  }

  /** `formatError(message, statusCode?)`: always a failure, the message
      untouched, the status 400 when absent or zero. */
  function FormatError(message: string, statusCode: Option<int>): (r: ErrorEnvelope)
    ensures !r.success && r.message == message
    ensures statusCode.Some? && statusCode.value != 0 ==> r.statusCode == statusCode.value
    ensures statusCode == None || statusCode == Some(0) ==> r.statusCode == 400
  {
    ErrorEnvelope(false, message, if statusCode.Some? && statusCode.value != 0 then statusCode.value else 400)
  }
}
