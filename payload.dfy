/** The request payload that the three programs declare alike. */
module Payload {
  import opened Codec

  /** `RequestPayload`: three Go strings, tagged `transaction_datetime`,
      `customer_name` and `request_id` in JSON. */
  datatype RequestPayload = RequestPayload(
    transactionDatetime: Bytes,
    customerName: Bytes,
    requestID: Bytes)

  /** `RequestPayload{}`: every field the empty string. */
  const EmptyPayload := RequestPayload([], [], [])
}
