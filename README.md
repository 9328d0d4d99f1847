# libkafka message conversion layer and blocking consumer, in Dafny

This project models the core of libkafka, a thin Rust wrapper over rdkafka. It covers two parts.

The first part is the message conversion layer of `src/utils.rs`:

- `headers_to_map` turns rdkafka's ordered wire header list into a `HashMap<String, String>`. A header without a value is skipped. A header whose value is not valid UTF-8 is logged and skipped. A later header with the same key overwrites an earlier one. The function never fails.
- `map_to_header` folds a map into a header list, one `Some(value)` header per pair, in the map's iteration order.
- `extract_message` builds a `KafkaMessage { payload, key, headers }` from a wire message. The payload is checked first: an absent payload gives `EmptyMsgError`, a malformed one gives `Utf8FormatError`. A malformed key then gives `Utf8FormatError`. Headers never cause an error.

The second part is the blocking consumer of `src/consumer.rs`:

- `KafkaConsumer::new` builds a fixed client configuration whose `group.id` is derived from the topic. It creates the client and subscribes it to the topic. Each failure becomes an error string.
- `KafkaConsumer::consume` maps the three outcomes of one blocking poll to `Result<String, String>`. It decodes the payload leniently: an absent payload is `""`, and a malformed one is reported inside the `Ok` text.

Files and modules:

- `wrappers.dfy` (`Wrappers`): Rust's `Option` and `Result`.
- `utf8.dfy` (`Utf8`): the UTF-8 validity and decoding done by Rust's `str::from_utf8` and `String::from_utf8`. Validity follows the UTF8-octets syntax of section 4 of RFC 3629, so overlong forms, surrogates and code points above U+10FFFF are rejected. On failure `Decode` reports Rust's `valid_up_to` and `error_len`. `Encode` gives the bytes of a string (`str::as_bytes`). Both round trips are proved. A byte is an integer newtype `byte` in 0..255 (Rust's `u8`). Every proof about bytes is linear integer arithmetic, which keeps the solver's work small.
- `errors.dfy` (`Errors`): `KafkaError` of `src/error.rs`. `src/utils.rs` imports the same enum under the name `LibKafkaError`.
- `utils.dfy` (`Utils`): the header codec and `extract_message`. `headers_to_map` is a method with a loop over the header list, like the Rust `for` loop. It is proved equal to the fold `DecodedHeaders`, and the header properties are lemmas about that fold. `KafkaMessage` is not defined in any of the modelled files, so it is defined here from its construction at `src/utils.rs:57-61`.
- `consumer.dfy` (`Consumer`): `new` and `consume` as functions. rdkafka's results (`create`, `subscribe`, `poll`) are inputs. `new` also returns the list of transport requests it made, which states that no subscription is attempted after a creation failure.

Behaviour a reader might not expect, kept as the code has it:

- A poll that yields no message is an `Err` (`"Consumer unexpectedly returned no messages"`), not an `Ok(None)`.
- The consumer configuration is fixed. Callers cannot pass or override options.
- A present but empty header block gives `Some` of an empty map, not `None`.
- The creation-failure text says `"unable to create producer: "` even though a consumer is being created. The model keeps that wording.

## Model

| member | source | states |
|---|---|---|
| `Utf8.Decode` | src/utils.rs:20-26 | `String::from_utf8` succeeds exactly on valid UTF-8 (RFC 3629 section 4), and the decoded text encodes back to the input bytes. On failure, `validUpTo` is the length of a valid prefix, an ill-formed sequence starts right there, and `errorLen` is `ErrorLength` of the bytes from there on. |
| `Utf8.ErrorLength` | src/consumer.rs:47-50 | `error_len` is `None` exactly when the bytes after the valid prefix are the beginning of a well-formed character, so the input ended inside it. Otherwise it is 1 to 3: the longest beginning of a character found there, and at least one byte. |
| `Utf8.PrefixOfCharIsCharPrefix` | src/consumer.rs:47-50 | Every non-empty beginning of a well-formed UTF-8 character is a `CharPrefix`. |
| `Utf8.CharPrefixCompletes` | src/consumer.rs:47-50 | Every `CharPrefix` can be completed to a well-formed UTF-8 character, so `CharPrefix` is exactly "beginning of a character". |
| `Utf8.ScalarValue` | src/utils.rs:20 | The character decoded from a well-formed head is a Unicode scalar value. Its byte length is fixed by the code point (shortest form, no overlongs). |
| `Utf8.EncodeScalar` | src/utils.rs:39-42 | One character encodes to 1 to 4 bytes, which form exactly one well-formed UTF-8 character that decodes back to it. |
| `Utf8.Encode` | src/utils.rs:39-42 | The bytes of any string are valid UTF-8, between 1 and 4 bytes per character. |
| `Utf8.ScalarRoundTrip` | src/utils.rs:20 | Decoding a well-formed head character and encoding it again gives back the same bytes. |
| `Utf8.DecodeEncode` | src/utils.rs:39-42 | Decoding the bytes of a string gives the string back. |
| `Utf8.EncodeInjective` | src/utils.rs:39-42 | Two strings with the same bytes are equal. |
| `Utils.HeadersToMap` | src/utils.rs:14-34 | `headers_to_map` returns `Ok` for every header list, including lists with absent or malformed values. The map it returns is `DecodedHeaders` of the list. |
| `Utils.DecodedHeadersKeys` | src/utils.rs:18-31 | A key is in the result exactly when some header with that key has a present, valid UTF-8 value. |
| `Utils.DecodedHeadersValue` | src/utils.rs:18-31 | A key's value is the decoding of the last header with that key whose value is present and valid. Its bytes are that header's bytes. |
| `Utils.DecodedHeadersSize` | src/utils.rs:15-33 | The result has at most as many entries as there are headers. |
| `Utils.UnusableHeaderIgnored` | src/utils.rs:19-25 | A header with an absent or malformed value, inserted anywhere in the list, leaves the result unchanged. |
| `Utils.DistinctUsableHeadersSize` | src/utils.rs:18-31 | Headers with distinct keys and valid values give one entry per header. |
| `Utils.OneMalformedHeader` | src/utils.rs:20-25 | One malformed header among N valid headers with distinct keys gives a map of N-1 entries and no error. |
| `Utils.EncodedHeaders` | src/utils.rs:38-43 | The fold appends, for each key in iteration order, one header carrying that key and `Some` of its value's bytes. |
| `Utils.IterationOrderExists` | src/utils.rs:38 | Every map has an iteration order that yields each key exactly once. |
| `Utils.MapToHeader` | src/utils.rs:37-44 | `map_to_header` emits exactly as many headers as the map has pairs. Each header carries a key of the map and `Some` of that key's value bytes. Every key of the map appears. |
| `Utils.HeadersRoundTrip` | src/utils.rs:83-103 | For every map and every iteration order, `headers_to_map(map_to_header(m)) == m`. |
| `Utils.ExtractMessage` | src/utils.rs:47-62 | An absent payload gives `EmptyMsgError`. A malformed payload gives `Utf8FormatError`, and both payload errors win over any key error. A malformed key gives `Utf8FormatError` even when payload and headers are fine. The result is `Ok` exactly when the payload is present and valid and the key is absent or valid. On `Ok`, the payload and key are the decodings of the wire bytes, `key` is `None` exactly when the wire key is absent, and `headers` is `None` exactly when the wire header block is absent, otherwise it is `DecodedHeaders` of the block. |
| `Utils.ExtractEncodedMessage` | src/utils.rs:47-62 | A message whose payload, key and header map were put on the wire by this codec is extracted unchanged, whatever order the header map was iterated in. |
| `Consumer.ConsumerConfig` | src/consumer.rs:22-27 | The configuration holds exactly `bootstrap.servers = localhost:9092`, `session.timeout.ms = 6000`, `enable.auto.commit = true`, `auto.offset.reset = earliest` and `group.id = topic + "_ID"`. |
| `Consumer.ConsumerConfigInjective` | src/consumer.rs:27 | Different topics get different consumer group ids, so different configurations. |
| `Consumer.New` | src/consumer.rs:21-40 | A creation failure gives `Err("unable to create producer: " + reason)` after the create request alone, with no subscription attempted. Otherwise `new` subscribes to `[topic]`. A subscription failure gives `Err("unable to create consumer: " + reason)`. The result is `Ok`, holding the created handle, exactly when both steps succeed. |
| `Consumer.Consume` | src/consumer.rs:42-62 | The result is `Ok` exactly when a message arrived. No message gives `Err("Consumer unexpectedly returned no messages")`. A transport error gives `Err` with the prefix `"an error occurred while streaming kafka messages: "`. For a message, an absent payload gives `Ok("")`, a valid payload gives `Ok` of its decoding, and a malformed payload gives `Ok("<invalid utf-8> " + describe(e))`, where `e` is the `Utf8Error` (position and error length) of the payload. |
| `Consumer.ConsumeReturnsSentText` | src/consumer.rs:46-52 | A message whose payload is the bytes of a text is consumed as exactly that text. |
| `Consumer.ConsumeAgreesWithExtract` | src/consumer.rs:47-51 | `consume` returns the same payload as `extract_message` for every message `extract_message` accepts. For an absent payload, `consume` returns `Ok("")` where `extract_message` fails. |

## Left out

- src/producer.rs and src/runtime.rs: sending through rdkafka's future producer and the smol runtime adapter are network I/O and async plumbing.
- src/lib.rs: Python binding stubs that print and return `"ok"`, a foreign-function boundary with no logic.
- src/kafka/consumer.rs is entirely commented out, and tests/lib_kafka_test.rs is too. tests/python_test.py needs a live broker.
- rdkafka's `ClientConfig::create`, `subscribe` and `poll`: their outcomes are inputs (`CreateResult`, `SubscribeResult`, `PollOutcome`), and their behaviour is not modelled.
- `smol::block_on` around the poll in `consume`: an executor detail with no effect on the result.
- Logging (`error!` for a skipped header) and the `HashMap::with_capacity` sizing: they have no observable result.
- Error texts produced by foreign code are not modelled: rdkafka's error texts are strings carried by the transport inputs. The standard library's display text of a `Utf8Error` is the `describe` parameter of `Consume`. It receives the whole error, `valid_up_to` and `error_len`, which is all that text depends on. Only the fixed prefixes written in the library are modelled.
- `KafkaError::DeliveryError` and `KafkaError::RDKafkaError` are declared but cannot arise in the modelled code.
- Utils.MapToHeader: the order in which the `HashMap` is iterated is a parameter, required to list every key exactly once. The round trip is proved for every such order.
- The `?` that `extract_message` applies to the result of `headers_to_map` is not modelled as a separate step: that result is always `Ok`, so the model uses its map (`DecodedHeaders`) directly.
- Header keys are modelled as strings, as rdkafka's `Header` type has them. The C-string form of keys on the wire is not modelled. rdkafka turns each key into a C string when the header is inserted and panics on a key that contains U+0000, so `map_to_header` cannot handle such keys. Utils.HeadersRoundTrip and Utils.MapToHeader are stated for every map, and for a map with such a key they describe a call that the source does not complete.
