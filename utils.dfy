/**
  The message conversion layer (src/utils.rs): the header codec between
  rdkafka's ordered wire header list and a string map, and the extraction of
  an application message from a wire message.

  Header faults are swallowed one header at a time; payload and key faults
  are reported.
*/
module Utils {
  import opened Wrappers
  import opened Utf8
  import opened Errors

  /** One wire header: a text key and an optional byte value. */
  datatype Header = Header(key: string, value: Option<seq<byte>>)

  /** What extraction reads from an rdkafka message. */
  datatype WireMessage = WireMessage(
    payload: Option<seq<byte>>,
    key: Option<seq<byte>>,
    headers: Option<seq<Header>>)

  /** The application-facing message. */
  datatype KafkaMessage = KafkaMessage(
    payload: string,
    key: Option<string>,
    headers: Option<map<string, string>>)

  /** A header that `headers_to_map` keeps: its value is present and is
      valid UTF-8. */
  predicate Usable(h: Header) {
    h.value.Some? && ValidUtf8(h.value.value)
  }

  /** One step of `headers_to_map`: insert the header's decoded value, or
      skip the header when its value is absent or not valid UTF-8. */
  function InsertHeader(m: map<string, string>, h: Header): map<string, string> {
    match h.value
    case None => m
    case Some(bytes) =>
      match Decode(bytes)
      case Ok(text) => m[h.key := text]
      case Err(_) => m
  }

  /** The map `headers_to_map` has built after the headers `hs`: one step
      per header, in list order, so a later key overwrites an earlier one. */
  function DecodedHeaders(hs: seq<Header>): map<string, string> {
    if hs == [] then map[]
    else InsertHeader(DecodedHeaders(hs[..|hs| - 1]), hs[|hs| - 1])
  }

  lemma DecodedHeadersAppend(hs: seq<Header>, h: Header)
    ensures DecodedHeaders(hs + [h]) == InsertHeader(DecodedHeaders(hs), h)
  {
    assert (hs + [h])[..|hs|] == hs;
  }

  /** `headers_to_map`: never fails, and returns the map described by
      DecodedHeaders. */
  method HeadersToMap(headers: seq<Header>) returns (r: Result<map<string, string>, KafkaError>)
    ensures r == Ok(DecodedHeaders(headers))
  {
    var m: map<string, string> := map[];
    for i := 0 to |headers|
      invariant m == DecodedHeaders(headers[..i])
    {
      assert headers[..i + 1][..i] == headers[..i];
      var header := headers[i];
      if header.value.Some? {
        var value;
        match Decode(header.value.value) {
          case Ok(v) =>
            value := v;
          case Err(_) =>
            continue;
        }
        m := m[header.key := value];
      }
    }
    assert headers[..|headers|] == headers;
    return Ok(m);
  }

  /** A key is in the decoded map exactly when some usable header carries it. */
  lemma {:induction false} DecodedHeadersKeys(hs: seq<Header>, k: string)
    ensures k in DecodedHeaders(hs) <==> exists i :: 0 <= i < |hs| && hs[i].key == k && Usable(hs[i])
  {
    if hs != [] {
      var init := hs[..|hs| - 1];
      DecodedHeadersKeys(init, k);
      if exists i :: 0 <= i < |init| && init[i].key == k && Usable(init[i]) {
        var i :| 0 <= i < |init| && init[i].key == k && Usable(init[i]);
        assert hs[i] == init[i];
      }
      if exists i :: 0 <= i < |hs| && hs[i].key == k && Usable(hs[i]) {
        var i :| 0 <= i < |hs| && hs[i].key == k && Usable(hs[i]);
        if i < |init| {
          assert init[i] == hs[i];
        }
      }
    }
  }

  /** The value of a key is the decoding of the last usable header with that
      key. */
  lemma {:induction false} DecodedHeadersValue(hs: seq<Header>, i: nat)
    requires i < |hs| && Usable(hs[i])
    requires forall j :: i < j < |hs| && hs[j].key == hs[i].key ==> !Usable(hs[j])
    ensures hs[i].key in DecodedHeaders(hs)
    ensures Decode(hs[i].value.value) == Ok(DecodedHeaders(hs)[hs[i].key])
    ensures Encode(DecodedHeaders(hs)[hs[i].key]) == hs[i].value.value
  {
    var init := hs[..|hs| - 1];
    if i < |hs| - 1 {
      forall j | i < j < |init| && init[j].key == init[i].key
        ensures !Usable(init[j])
      {
        assert init[j] == hs[j];
      }
      DecodedHeadersValue(init, i);
      assert init[i] == hs[i];
    }
  }

  /** The decoded map never has more entries than there are headers. */
  lemma {:induction false} DecodedHeadersSize(hs: seq<Header>)
    ensures |DecodedHeaders(hs)| <= |hs|
  {
    if hs != [] {
      DecodedHeadersSize(hs[..|hs| - 1]);
    }
  }

  /** Fault isolation: a header without a value or with a value that is not
      valid UTF-8 changes nothing, wherever it stands in the list. */
  lemma {:induction false} UnusableHeaderIgnored(front: seq<Header>, h: Header, back: seq<Header>)
    requires !Usable(h)
    ensures DecodedHeaders(front + [h] + back) == DecodedHeaders(front + back)
  {
    if back == [] {
      assert front + [h] + back == front + [h];
      assert front + back == front;
      DecodedHeadersAppend(front, h);
      if h.value.Some? {
        DecodeOkIffValid(h.value.value);
      }
    } else {
      var init, last := back[..|back| - 1], back[|back| - 1];
      UnusableHeaderIgnored(front, h, init);
      assert front + [h] + back == (front + [h] + init) + [last];
      assert front + back == (front + init) + [last];
      DecodedHeadersAppend(front + [h] + init, last);
      DecodedHeadersAppend(front + init, last);
    }
  }

  lemma DecodeOkIffValid(b: seq<byte>)
    ensures Decode(b).Ok? <==> ValidUtf8(b)
  {
  }

  /** A list of usable headers with pairwise distinct keys decodes to a map
      with one entry per header. */
  lemma {:induction false} DistinctUsableHeadersSize(hs: seq<Header>)
    requires forall i :: 0 <= i < |hs| ==> Usable(hs[i])
    requires forall i, j :: 0 <= i < j < |hs| ==> hs[i].key != hs[j].key
    ensures |DecodedHeaders(hs)| == |hs|
  {
    if hs != [] {
      var init := hs[..|hs| - 1];
      var h := hs[|hs| - 1];
      DistinctUsableHeadersSize(init);
      DecodeOkIffValid(h.value.value);
      DecodedHeadersKeys(init, h.key);
      forall i | 0 <= i < |init|
        ensures init[i].key != h.key
      {
        assert init[i] == hs[i];
      }
    }
  }

  /** One malformed header among otherwise usable headers with distinct keys
      costs exactly that header's entry, and nothing fails. */
  lemma OneMalformedHeader(front: seq<Header>, bad: Header, back: seq<Header>)
    requires !Usable(bad)
    requires var hs := front + back;
      (forall i :: 0 <= i < |hs| ==> Usable(hs[i])) &&
      (forall i, j :: 0 <= i < j < |hs| ==> hs[i].key != hs[j].key)
    ensures |DecodedHeaders(front + [bad] + back)| == |front| + |back|
  {
    UnusableHeaderIgnored(front, bad, back);
    DistinctUsableHeadersSize(front + back);
  }

  /** `map_to_header` over the keys `ks` in this order: one header per key,
      each carrying `Some` of the UTF-8 bytes of the key's value, appended in
      order (the fold of src/utils.rs). */
  function EncodedHeaders(m: map<string, string>, ks: seq<string>): (hs: seq<Header>)
    requires forall i :: 0 <= i < |ks| ==> ks[i] in m
    ensures |hs| == |ks|
    ensures forall i :: 0 <= i < |ks| ==> hs[i] == Header(ks[i], Some(Encode(m[ks[i]])))
  {
    if ks == [] then []
    else
      var init, k := ks[..|ks| - 1], ks[|ks| - 1];
      assert forall i :: 0 <= i < |init| ==> init[i] == ks[i];
      EncodedHeaders(m, init) + [Header(k, Some(Encode(m[k])))]
  }

  /** What a `HashMap` iterator yields: every key of the map exactly once, in
      some order the map chooses. */
  predicate IsIterationOrder(m: map<string, string>, order: seq<string>) {
    && (forall k :: k in m ==> k in order)
    && (forall i :: 0 <= i < |order| ==> order[i] in m)
    && (forall i, j :: 0 <= i < j < |order| ==> order[i] != order[j])
  }

  /** Every map has an iteration order. */
  lemma {:induction false} IterationOrderExists(m: map<string, string>) returns (order: seq<string>)
    ensures IsIterationOrder(m, order)
    decreases |m|
  {
    if m == map[] {
      order := [];
    } else {
      var k :| k in m;
      var rest := m - {k};
      assert |rest| < |m| by {
        assert rest.Keys == m.Keys - {k};
      }
      var order' := IterationOrderExists(rest);
      order := order' + [k];
    }
  }

  /** `map_to_header`: the headers for `m` when its iterator yields the keys
      in the order `order`. */
  function MapToHeader(m: map<string, string>, order: seq<string>): (hs: seq<Header>)
    requires IsIterationOrder(m, order)
    ensures |hs| == |m|
    ensures forall i :: 0 <= i < |hs| ==> hs[i].key in m && hs[i].value == Some(Encode(m[hs[i].key]))
    ensures forall k :: k in m ==> exists i :: 0 <= i < |hs| && hs[i].key == k
  {
    IterationOrderLength(m, order);
    var hs := EncodedHeaders(m, order);
    assert forall k :: k in m ==> exists i :: 0 <= i < |order| && order[i] == k;
    hs
  }

  /** An iteration order is as long as the map is large. */
  lemma IterationOrderLength(m: map<string, string>, order: seq<string>)
    requires IsIterationOrder(m, order)
    ensures |order| == |m|
  {
    DistinctElements(order);
    assert m.Keys == set k | k in order;
  }

  lemma {:induction false} DistinctElements(s: seq<string>)
    requires forall i, j :: 0 <= i < j < |s| ==> s[i] != s[j]
    ensures |set k | k in s| == |s|
  {
    if s != [] {
      var init := s[..|s| - 1];
      DistinctElements(init);
      assert (set k | k in s) == (set k | k in init) + {s[|s| - 1]};
      assert s[|s| - 1] !in init;
    }
  }

  /** Decoding the headers for the keys `ks` gives back `m` restricted to
      those keys. */
  lemma {:induction false} DecodeEncodedHeaders(m: map<string, string>, ks: seq<string>)
    requires forall i :: 0 <= i < |ks| ==> ks[i] in m
    ensures DecodedHeaders(EncodedHeaders(m, ks)) == map k | k in m && k in ks :: m[k]
  {
    if ks != [] {
      var init, k := ks[..|ks| - 1], ks[|ks| - 1];
      DecodeEncodedHeaders(m, init);
      var before := map x | x in m && x in init :: m[x];
      var h := Header(k, Some(Encode(m[k])));
      assert EncodedHeaders(m, ks) == EncodedHeaders(m, init) + [h];
      DecodedHeadersAppend(EncodedHeaders(m, init), h);
      InsertEncodedHeader(before, k, m[k]);
      assert ks == init + [k];
      RestrictOneMore(m, init, k);
    }
  }

  lemma InsertEncodedHeader(m: map<string, string>, k: string, v: string)
    ensures InsertHeader(m, Header(k, Some(Encode(v)))) == m[k := v]
  {
    DecodeEncode(v);
  }

  lemma RestrictOneMore(m: map<string, string>, ks: seq<string>, k: string)
    requires k in m
    ensures (map x | x in m && x in ks + [k] :: m[x]) == (map x | x in m && x in ks :: m[x])[k := m[k]]
  {
    var after := map x | x in m && x in ks + [k] :: m[x];
    var before := map x | x in m && x in ks :: m[x];
    assert forall x :: x in ks + [k] <==> x in ks || x == k;
    assert after.Keys == before.Keys + {k};
  }

  /** Round trip: whatever order the map is iterated in, decoding the
      headers `map_to_header` builds gives back the map. */
  lemma HeadersRoundTrip(m: map<string, string>, order: seq<string>)
    requires IsIterationOrder(m, order)
    ensures DecodedHeaders(MapToHeader(m, order)) == m
  {
    var hs := MapToHeader(m, order);
    assert hs == EncodedHeaders(m, order);
    DecodeEncodedHeaders(m, order);
    RestrictToAllKeys(m, order);
  }

  lemma RestrictToAllKeys(m: map<string, string>, ks: seq<string>)
    requires forall k :: k in m ==> k in ks
    ensures (map k | k in m && k in ks :: m[k]) == m
  {
  }

  /** `extract_message`: the payload is checked first (absent, then
      malformed), then the key; headers never cause an error. */
  function ExtractMessage(msg: WireMessage): (r: Result<KafkaMessage, KafkaError>)
    ensures msg.payload.None? ==> r == Err(EmptyMsgError)
    ensures msg.payload.Some? && !ValidUtf8(msg.payload.value) ==>
      r == Err(Utf8FormatError(Decode(msg.payload.value).error))
    ensures msg.payload.Some? && ValidUtf8(msg.payload.value) &&
            msg.key.Some? && !ValidUtf8(msg.key.value) ==>
      r == Err(Utf8FormatError(Decode(msg.key.value).error))
    ensures r.Ok? <==>
      msg.payload.Some? && ValidUtf8(msg.payload.value) &&
      (msg.key.Some? ==> ValidUtf8(msg.key.value))
    ensures r.Ok? ==>
      && Encode(r.value.payload) == msg.payload.value
      && (r.value.key.Some? <==> msg.key.Some?)
      && (r.value.key.Some? ==> Encode(r.value.key.value) == msg.key.value)
      && (r.value.headers.Some? <==> msg.headers.Some?)
      && (msg.headers.Some? ==> r.value.headers.value == DecodedHeaders(msg.headers.value))
  {
    match msg.payload
    case None => Err(EmptyMsgError)
    case Some(p) =>
      match Decode(p)
      case Err(e) => Err(Utf8FormatError(e))
      case Ok(payload) =>
        var key: Result<Option<string>, Utf8Error> :=
          match msg.key
          case None => Ok(None)
          case Some(k) =>
            match Decode(k)
            case Ok(text) => Ok(Some(text))
            case Err(e) => Err(e);
        match key
        case Err(e) => Err(Utf8FormatError(e))
        case Ok(key) =>
          var headers :=
            match msg.headers
            case None => None
            case Some(h) => Some(DecodedHeaders(h));
          Ok(KafkaMessage(payload, key, headers))
  }

  /** The wire form of an optional text. */
  function EncodeOption(s: Option<string>): Option<seq<byte>> {
    match s
    case None => None
    case Some(t) => Some(Encode(t))
  }

  /** A message whose payload, key and headers were encoded by this codec
      is extracted unchanged, whatever order its header map was iterated
      in. */
  lemma ExtractEncodedMessage(
    payload: string, key: Option<string>, headers: Option<map<string, string>>, order: seq<string>)
    requires headers.Some? ==> IsIterationOrder(headers.value, order)
    ensures var wire := WireMessage(
              Some(Encode(payload)),
              EncodeOption(key),
              if headers.Some? then Some(MapToHeader(headers.value, order)) else None);
      ExtractMessage(wire) == Ok(KafkaMessage(payload, key, headers))
  {
    DecodeEncode(payload);
    if key.Some? {
      DecodeEncode(key.value);
    }
    if headers.Some? {
      HeadersRoundTrip(headers.value, order);
    }
  }
}
