/**
  The blocking consumer (src/consumer.rs): its fixed client configuration,
  how creation and subscription failures become error strings, and how the
  three outcomes of one blocking poll become a `Result<String, String>`.

  The rdkafka client is opaque: what `ClientConfig::create`, `subscribe` and
  `poll` report is given as input, and the texts of rdkafka's errors are
  carried as strings.
*/
module Consumer {
  import opened Wrappers
  import opened Utf8
  import opened Utils

  /** An rdkafka `BaseConsumer` handle. */
  datatype BaseConsumer = BaseConsumer(id: nat)

  /** `KafkaConsumer`: its one field is never reassigned. */
  datatype KafkaConsumer = KafkaConsumer(consumer: BaseConsumer)

  /** What `ClientConfig::create` reported. */
  datatype CreateResult = Created(handle: BaseConsumer) | CreateFailed(reason: string)

  /** What `subscribe` reported. */
  datatype SubscribeResult = Subscribed | SubscribeFailed(reason: string)

  /** A request `new` makes of the transport. */
  datatype TransportCall =
    | CreateClient(config: map<string, string>)
    | Subscribe(topics: seq<string>)

  /** The transport requests `new` made, in order, and what it returned. */
  datatype Setup = Setup(calls: seq<TransportCall>, result: Result<KafkaConsumer, string>)

  /** What one blocking `poll(None)` yields: nothing, a transport error, or
      a message. */
  datatype PollOutcome =
    | NoMsg
    | TransportErr(reason: string)
    | Msg(message: WireMessage)

  const CreateErrorPrefix: string := "unable to create producer: "
  const SubscribeErrorPrefix: string := "unable to create consumer: "
  const StreamErrorPrefix: string := "an error occurred while streaming kafka messages: "
  const NoMessageError: string := "Consumer unexpectedly returned no messages"
  const InvalidUtf8Prefix: string := "<invalid utf-8> "
  const GroupIdSuffix: string := "_ID"

  /** `ClientConfig::set`: a later value for a key replaces an earlier one. */
  function Set(config: map<string, string>, key: string, value: string): map<string, string> {
    config[key := value]
  }

  /** The configuration `new` builds for a topic: four fixed settings and a
      consumer group named after the topic. */
  function ConsumerConfig(topicName: string): (config: map<string, string>)
    ensures config.Keys ==
      {"bootstrap.servers", "session.timeout.ms", "enable.auto.commit", "auto.offset.reset", "group.id"}
    ensures config["bootstrap.servers"] == "localhost:9092"
    ensures config["session.timeout.ms"] == "6000"
    ensures config["enable.auto.commit"] == "true"
    ensures config["auto.offset.reset"] == "earliest"
    ensures config["group.id"] == topicName + GroupIdSuffix
  {
    var c := Set(map[], "bootstrap.servers", "localhost:9092");
    var c := Set(c, "session.timeout.ms", "6000");
    var c := Set(c, "enable.auto.commit", "true");
    var c := Set(c, "auto.offset.reset", "earliest");
    Set(c, "group.id", topicName + GroupIdSuffix)
  }

  /** Different topics get different consumer groups, so different
      configurations. */
  lemma ConsumerConfigInjective(a: string, b: string)
    requires ConsumerConfig(a) == ConsumerConfig(b)
    ensures a == b
  {
    var ga, gb := ConsumerConfig(a)["group.id"], ConsumerConfig(b)["group.id"];
    assert |a| == |ga| - 3 == |gb| - 3 == |b|;
    assert a == ga[..|a|] == gb[..|b|] == b;
  }

  /** `KafkaConsumer::new`: create a client from ConsumerConfig, then
      subscribe it to the topic; either failure becomes an error string and
      a creation failure stops before subscribing. */
  function New(topicName: string, created: CreateResult, subscribed: SubscribeResult): (r: Setup)
    ensures 1 <= |r.calls| <= 2 && r.calls[0] == CreateClient(ConsumerConfig(topicName))
    ensures created.CreateFailed? ==>
      r.calls == [CreateClient(ConsumerConfig(topicName))] &&
      r.result == Err(CreateErrorPrefix + created.reason)
    ensures created.Created? ==>
      r.calls == [CreateClient(ConsumerConfig(topicName)), Subscribe([topicName])]
    ensures created.Created? && subscribed.SubscribeFailed? ==>
      r.result == Err(SubscribeErrorPrefix + subscribed.reason)
    ensures r.result.Ok? <==> created.Created? && subscribed.Subscribed?
    ensures r.result.Ok? ==> r.result.value.consumer == created.handle
  {
    var create := CreateClient(ConsumerConfig(topicName));
    match created
    case CreateFailed(e) => Setup([create], Err(CreateErrorPrefix + e))
    case Created(consumer) =>
      var calls := [create, Subscribe([topicName])];
      match subscribed
      case SubscribeFailed(e) => Setup(calls, Err(SubscribeErrorPrefix + e))
      case Subscribed => Setup(calls, Ok(KafkaConsumer(consumer)))
  }

  /** `KafkaConsumer::consume` after the poll: a message always gives `Ok`,
      decoded leniently (an absent payload is the empty string, a malformed
      one is reported inside the `Ok` text); no message and a transport error
      give `Err`.  `describe` stands for the standard library's text of a
      `Utf8Error`, which depends on both its `valid_up_to` and its
      `error_len`. */
  function Consume(polled: PollOutcome, describe: Utf8Error -> string): (r: Result<string, string>)
    ensures r.Ok? <==> polled.Msg?
    ensures polled.NoMsg? ==> r == Err(NoMessageError)
    ensures polled.TransportErr? ==> r == Err(StreamErrorPrefix + polled.reason)
    ensures polled.Msg? && polled.message.payload.None? ==> r == Ok("")
    ensures polled.Msg? && polled.message.payload.Some? ==>
      var p := polled.message.payload.value;
      && (ValidUtf8(p) ==> r.Ok? && Encode(r.value) == p)
      && (!ValidUtf8(p) ==> r == Ok(InvalidUtf8Prefix + describe(Decode(p).error)))
  {
    match polled
    case Msg(message) =>
      var text :=
        match message.payload
        case None => ""
        case Some(p) =>
          match Decode(p)
          case Ok(s) => s
          case Err(e) => InvalidUtf8Prefix + describe(e);
      Ok(text)
    case TransportErr(e) => Err(StreamErrorPrefix + e)
    case NoMsg => Err(NoMessageError)
  }

  /** `consume` returns the text that was put on the wire as the payload. */
  lemma ConsumeReturnsSentText(s: string, key: Option<seq<byte>>, headers: Option<seq<Header>>,
                               describe: Utf8Error -> string)
    ensures Consume(Msg(WireMessage(Some(Encode(s)), key, headers)), describe) == Ok(s)
  {
    var r := Consume(Msg(WireMessage(Some(Encode(s)), key, headers)), describe);
    EncodeInjective(r.value, s);
  }

  /** `consume` and `extract_message` agree on the payload of every message
      `extract_message` accepts; where the payload is absent, `consume` gives
      the empty text while `extract_message` fails. */
  lemma ConsumeAgreesWithExtract(message: WireMessage, describe: Utf8Error -> string)
    ensures ExtractMessage(message).Ok? ==>
      Consume(Msg(message), describe) == Ok(ExtractMessage(message).value.payload)
    ensures message.payload.None? ==>
      Consume(Msg(message), describe) == Ok("") && ExtractMessage(message).Err?
  {
  }
}
