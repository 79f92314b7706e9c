// Model of the ToValue / Parse pairs of src/Blocxxi/P2P/event_dht.cpp over the
// records of src/Blocxxi/Core/event_record.h.
module EventRecord {
  import opened Wrappers
  import opened Bencode
  import opened Krpc

  datatype Attribute = Attribute(key: string, value: string)

  datatype Envelope = Envelope(
    schema: string, eventType: string, taxonomy: string, source: string, producer: string,
    windowStart: int, windowEnd: int, observedAt: int, publishedAt: int,
    identifiers: seq<string>, attributes: seq<Attribute>, summary: string, payload: seq<Octet>)

  datatype Record = Record(envelope: Envelope, signerName: string, signerPublicKey: string, signature: string)

  // ----- to values -----

  function Strings(values: seq<string>): (v: Value)
    ensures v.List?
  {
    List(seq(|values|, i requires 0 <= i < |values| => String(values[i])))
  }

  function AttributeValue(a: Attribute): Value {
    Dictionary(map["key" := String(a.key), "value" := String(a.value)])
  }

  function Attributes(attributes: seq<Attribute>): (v: Value)
    ensures v.List?
  {
    List(seq(|attributes|, i requires 0 <= i < |attributes| => AttributeValue(attributes[i])))
  }

  function BytesText(payload: seq<Octet>): (s: string)
    ensures |s| == |payload|
  {
    seq(|payload|, i requires 0 <= i < |payload| => payload[i] as char)
  }

  function EnvelopeEntries(e: Envelope): map<string, Value> {
    map[
      "schema" := String(e.schema),
      "event_type" := String(e.eventType),
      "taxonomy" := String(e.taxonomy),
      "source" := String(e.source),
      "producer" := String(e.producer),
      "window_start" := Integer(e.windowStart),
      "window_end" := Integer(e.windowEnd),
      "observed_at" := Integer(e.observedAt),
      "published_at" := Integer(e.publishedAt),
      "identifiers" := Strings(e.identifiers),
      "attributes" := Attributes(e.attributes),
      "summary" := String(e.summary),
      "payload" := String(BytesText(e.payload))
    ]
  }

  function RecordValue(r: Record): Value {
    Dictionary(map[
      "envelope" := Dictionary(EnvelopeEntries(r.envelope)),
      "signer_name" := String(r.signerName),
      "signer_public_key_hex" := String(r.signerPublicKey),
      "signature_hex" := String(r.signature)
    ])
  }

  // ----- from values; None is a nullopt or an exception -----

  function RequireInteger(d: map<string, Value>, key: string): Option<int> {
    if key in d && d[key].Integer? then Some(d[key].integer) else None
  }

  function ParseStrings(items: seq<Value>): (r: Option<seq<string>>) {
    if items == [] then Some([])
    else
      var rest := ParseStrings(items[..|items| - 1]);
      var last := items[|items| - 1];
      if rest.None? || !last.String? then None else Some(rest.value + [last.text])
  }

  function ParseAttribute(v: Value): Option<Attribute> {
    if !v.Dictionary? then None
    else
      var key, value := RequireString(v.entries, "key"), RequireString(v.entries, "value");
      if key.None? || value.None? then None else Some(Attribute(key.value, value.value))
  }

  function ParseAttributes(items: seq<Value>): (r: Option<seq<Attribute>>) {
    if items == [] then Some([])
    else
      var rest := ParseAttributes(items[..|items| - 1]);
      var last := ParseAttribute(items[|items| - 1]);
      if rest.None? || last.None? then None else Some(rest.value + [last.value])
  }

  // `identifiers` and `attributes` may be absent.
  function ParseIdentifierField(d: map<string, Value>): Option<seq<string>> {
    if "identifiers" !in d then Some([])
    else if !d["identifiers"].List? then None
    else ParseStrings(d["identifiers"].items)
  }

  function ParseAttributeField(d: map<string, Value>): Option<seq<Attribute>> {
    if "attributes" !in d then Some([])
    else if !d["attributes"].List? then None
    else ParseAttributes(d["attributes"].items)
  }

  function TextBytes(s: string): seq<Octet> {
    seq(|s|, i requires 0 <= i < |s| => ByteOf(s[i]))
  }

  function ParseEnvelope(d: map<string, Value>): Option<Envelope> {
    var schema := RequireString(d, "schema");
    var eventType := RequireString(d, "event_type");
    var taxonomy := RequireString(d, "taxonomy");
    var source := RequireString(d, "source");
    var producer := RequireString(d, "producer");
    var windowStart := RequireInteger(d, "window_start");
    var windowEnd := RequireInteger(d, "window_end");
    var observedAt := RequireInteger(d, "observed_at");
    var publishedAt := RequireInteger(d, "published_at");
    var summary := RequireString(d, "summary");
    var payload := RequireString(d, "payload");
    if schema.None? || eventType.None? || taxonomy.None? || source.None? || producer.None? || windowStart.None?
       || windowEnd.None? || observedAt.None? || publishedAt.None? || summary.None? || payload.None?
    then None
    else
      var identifiers := ParseIdentifierField(d);
      var attributes := ParseAttributeField(d);
      if identifiers.None? || attributes.None? then None
      else Some(Envelope(schema.value, eventType.value, taxonomy.value, source.value, producer.value,
                         windowStart.value, windowEnd.value, observedAt.value, publishedAt.value,
                         identifiers.value, attributes.value, summary.value, TextBytes(payload.value)))
  }

  function ParseRecord(v: Value): Option<Record> {
    if !v.Dictionary? then None
    else
      var d := v.entries;
      var name, key, signature :=
        RequireString(d, "signer_name"), RequireString(d, "signer_public_key_hex"), RequireString(d, "signature_hex");
      if "envelope" !in d || name.None? || key.None? || signature.None? then None
      else if !d["envelope"].Dictionary? then None
      else
        match ParseEnvelope(d["envelope"].entries)
        case None => None
        case Some(envelope) => Some(Record(envelope, name.value, key.value, signature.value))
  }

  // ----- round trip -----

  lemma {:induction false} StringsInverse(values: seq<string>)
    ensures ParseStrings(Strings(values).items) == Some(values)
  {
    if values != [] {
      var n := |values| - 1;
      StringsInverse(values[..n]);
      assert Strings(values).items[..n] == Strings(values[..n]).items;
      assert values == values[..n] + [values[n]];
    }
  }

  lemma AttributeInverse(a: Attribute)
    ensures ParseAttribute(AttributeValue(a)) == Some(a)
  {
  }

  lemma {:induction false} AttributesInverse(attributes: seq<Attribute>)
    ensures ParseAttributes(Attributes(attributes).items) == Some(attributes)
  {
    hide ParseAttribute, AttributeValue;
    if attributes != [] {
      var n := |attributes| - 1;
      AttributesInverse(attributes[..n]);
      AttributeInverse(attributes[n]);
      assert Attributes(attributes).items[..n] == Attributes(attributes[..n]).items;
      assert attributes == attributes[..n] + [attributes[n]];
    }
  }

  lemma BytesInverse(payload: seq<Octet>)
    ensures TextBytes(BytesText(payload)) == payload
  {
  }

  lemma EnvelopeInverse(e: Envelope)
    ensures ParseEnvelope(EnvelopeEntries(e)) == Some(e)
  {
    hide ParseStrings, ParseAttributes, Strings, Attributes, TextBytes, BytesText;
    StringsInverse(e.identifiers);
    AttributesInverse(e.attributes);
    BytesInverse(e.payload);
  }

  lemma RecordInverse(r: Record)
    ensures ParseRecord(RecordValue(r)) == Some(r)
  {
    hide ParseEnvelope, EnvelopeEntries;
    EnvelopeInverse(r.envelope);
  }

  // ----- over the wire -----

  // What fits in a C++ record: 64-bit times, size_t string lengths.
  ghost predicate EnvelopeFits(e: Envelope) {
    && |e.schema| <= SIZE_MAX && |e.eventType| <= SIZE_MAX && |e.taxonomy| <= SIZE_MAX && |e.source| <= SIZE_MAX
    && |e.producer| <= SIZE_MAX && |e.summary| <= SIZE_MAX && |e.payload| <= SIZE_MAX
    && INT64_MIN <= e.windowStart <= INT64_MAX && INT64_MIN <= e.windowEnd <= INT64_MAX
    && INT64_MIN <= e.observedAt <= INT64_MAX && INT64_MIN <= e.publishedAt <= INT64_MAX
    && (forall i :: 0 <= i < |e.identifiers| ==> |e.identifiers[i]| <= SIZE_MAX)
    && (forall i :: 0 <= i < |e.attributes| ==> |e.attributes[i].key| <= SIZE_MAX && |e.attributes[i].value| <= SIZE_MAX)
  }

  ghost predicate Fits(r: Record) {
    && EnvelopeFits(r.envelope)
    && |r.signerName| <= SIZE_MAX && |r.signerPublicKey| <= SIZE_MAX && |r.signature| <= SIZE_MAX
  }

  lemma ListsRepresentable(e: Envelope)
    requires EnvelopeFits(e)
    ensures Representable(Strings(e.identifiers)) && Representable(Attributes(e.attributes))
  {
    forall i | 0 <= i < |e.attributes| ensures Representable(Attributes(e.attributes).items[i]) {
      var d := AttributeValue(e.attributes[i]);
      assert forall k :: k in d.entries ==> |k| <= SIZE_MAX && d.entries[k].String?;
    }
  }

  lemma EnvelopeRepresentable(e: Envelope)
    requires EnvelopeFits(e)
    ensures Representable(Dictionary(EnvelopeEntries(e)))
  {
    hide Strings, Attributes, Representable, BytesText;
    ListsRepresentable(e);
    Text(e.schema); Text(e.eventType); Text(e.taxonomy); Text(e.source); Text(e.producer); Text(e.summary);
    Text(BytesText(e.payload));
    Time(e.windowStart); Time(e.windowEnd); Time(e.observedAt); Time(e.publishedAt);
    Empty();
    var d := map[];
    Adds(d, "schema", String(e.schema)); d := d["schema" := String(e.schema)];
    Adds(d, "event_type", String(e.eventType)); d := d["event_type" := String(e.eventType)];
    Adds(d, "taxonomy", String(e.taxonomy)); d := d["taxonomy" := String(e.taxonomy)];
    Adds(d, "source", String(e.source)); d := d["source" := String(e.source)];
    Adds(d, "producer", String(e.producer)); d := d["producer" := String(e.producer)];
    Adds(d, "window_start", Integer(e.windowStart)); d := d["window_start" := Integer(e.windowStart)];
    Adds(d, "window_end", Integer(e.windowEnd)); d := d["window_end" := Integer(e.windowEnd)];
    Adds(d, "observed_at", Integer(e.observedAt)); d := d["observed_at" := Integer(e.observedAt)];
    Adds(d, "published_at", Integer(e.publishedAt)); d := d["published_at" := Integer(e.publishedAt)];
    Adds(d, "identifiers", Strings(e.identifiers)); d := d["identifiers" := Strings(e.identifiers)];
    Adds(d, "attributes", Attributes(e.attributes)); d := d["attributes" := Attributes(e.attributes)];
    Adds(d, "summary", String(e.summary)); d := d["summary" := String(e.summary)];
    Adds(d, "payload", String(BytesText(e.payload))); d := d["payload" := String(BytesText(e.payload))];
  }

  lemma RecordRepresentable(r: Record)
    requires Fits(r)
    ensures Representable(RecordValue(r))
  {
    hide EnvelopeEntries, EnvelopeFits, Representable;
    EnvelopeRepresentable(r.envelope);
    Text(r.signerName); Text(r.signerPublicKey); Text(r.signature);
    Empty();
    var d := map[];
    Adds(d, "envelope", Dictionary(EnvelopeEntries(r.envelope)));
    d := d["envelope" := Dictionary(EnvelopeEntries(r.envelope))];
    Adds(d, "signer_name", String(r.signerName)); d := d["signer_name" := String(r.signerName)];
    Adds(d, "signer_public_key_hex", String(r.signerPublicKey)); d := d["signer_public_key_hex" := String(r.signerPublicKey)];
    Adds(d, "signature_hex", String(r.signature)); d := d["signature_hex" := String(r.signature)];
  }

  // A signed record sent as a bencode value comes back equal.
  lemma RecordRoundTrip(r: Record)
    requires Fits(r)
    ensures Decode(Encode(RecordValue(r))) == Some(RecordValue(r))
    ensures ParseRecord(Decode(Encode(RecordValue(r))).value) == Some(r)
  {
    hide RecordValue, ParseRecord, Fits;
    RecordRepresentable(r);
    DecodeEncode(RecordValue(r));
    RecordInverse(r);
  }

  // ----- what is accepted -----

  const TEXT_FIELDS: set<string> := {"schema", "event_type", "taxonomy", "source", "producer", "summary", "payload"}

  const TIME_FIELDS: set<string> := {"window_start", "window_end", "observed_at", "published_at"}

  lemma {:induction false} ParseStringsIff(items: seq<Value>)
    ensures ParseStrings(items).Some? <==> forall i :: 0 <= i < |items| ==> items[i].String?
    ensures ParseStrings(items).Some? ==> Strings(ParseStrings(items).value) == List(items)
  {
    if items != [] {
      var n := |items| - 1;
      ParseStringsIff(items[..n]);
      assert forall i :: 0 <= i < n ==> items[..n][i] == items[i];
    }
  }

  // An envelope is accepted exactly when its text fields are strings, its times
  // integers, and its two lists, if present, well formed; each field is read from
  // the entry of its name, an absent list as empty.
  lemma EnvelopeAccepted(d: map<string, Value>)
    ensures ParseEnvelope(d).Some? <==>
              && (forall k :: k in TEXT_FIELDS ==> k in d && d[k].String?)
              && (forall k :: k in TIME_FIELDS ==> k in d && d[k].Integer?)
              && ("identifiers" in d ==> d["identifiers"].List? && ParseStrings(d["identifiers"].items).Some?)
              && ("attributes" in d ==> d["attributes"].List? && ParseAttributes(d["attributes"].items).Some?)
    ensures ParseEnvelope(d).Some? ==>
              var e := ParseEnvelope(d).value;
              && d["schema"] == String(e.schema) && d["event_type"] == String(e.eventType)
              && d["taxonomy"] == String(e.taxonomy) && d["source"] == String(e.source)
              && d["producer"] == String(e.producer) && d["summary"] == String(e.summary)
              && d["window_start"] == Integer(e.windowStart) && d["window_end"] == Integer(e.windowEnd)
              && d["observed_at"] == Integer(e.observedAt) && d["published_at"] == Integer(e.publishedAt)
              && d["payload"].String? && e.payload == TextBytes(d["payload"].text)
              && ("identifiers" !in d ==> e.identifiers == []) && ("attributes" !in d ==> e.attributes == [])
  {
    hide ParseStrings, ParseAttributes, TextBytes;
  }

  // A record likewise.
  lemma RecordAccepted(v: Value)
    ensures ParseRecord(v).Some? <==>
              && v.Dictionary? && "envelope" in v.entries && v.entries["envelope"].Dictionary?
              && ParseEnvelope(v.entries["envelope"].entries).Some?
              && (forall k :: k in {"signer_name", "signer_public_key_hex", "signature_hex"} ==>
                    k in v.entries && v.entries[k].String?)
    ensures ParseRecord(v).Some? ==>
              var r := ParseRecord(v).value;
              && v.entries["signer_name"] == String(r.signerName) && v.entries["signature_hex"] == String(r.signature)
              && v.entries["signer_public_key_hex"] == String(r.signerPublicKey)
              && ParseEnvelope(v.entries["envelope"].entries) == Some(r.envelope)
  {
    hide ParseEnvelope;
  }
}
