/** The library's error type (`KafkaError` in src/error.rs, imported by
    src/utils.rs under the name `LibKafkaError`). */
module Errors {
  import opened Utf8

  datatype KafkaError =
    | /** A payload or key that is not valid UTF-8. */
      Utf8FormatError(cause: Utf8Error)
    | /** A message without a payload. */
      EmptyMsgError
    | /** A failed send; the text is rdkafka's. */
      DeliveryError(reason: string)
    | /** Any other rdkafka failure, passed through; the text is rdkafka's. */
      RDKafkaError(reason: string)
}
