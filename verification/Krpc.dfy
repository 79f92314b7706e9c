// Model of src/Blocxxi/P2P/kademlia/krpc.cpp: KRPC messages on top of bencode,
// and the compact peer and node encodings (BEP 5, "Contact Encoding").
module Krpc {
  import opened Wrappers
  import opened Bencode

  type Octet = x: nat | x < 256
  type Port = x: nat | x < 65536

  datatype Address = V4(a: Octet, b: Octet, c: Octet, d: Octet) | V6(text: string)

  datatype Endpoint = Endpoint(address: Address, port: Port)

  const ID_SIZE: nat := 20

  // Node: a 160-bit id as its 20 bytes, and an endpoint.
  datatype Node = Node(id: string, endpoint: Endpoint)

  datatype Payload =
    | Query(name: string, arguments: map<string, Value>)
    | Response(values: map<string, Value>)
    | Error(code: int, message: string)

  datatype Message = Message(transactionId: string, version: Option<string>, payload: Payload)

  // ----- messages -----

  ghost predicate Sendable(m: Message) {
    && |m.transactionId| <= SIZE_MAX
    && (m.version.Some? ==> |m.version.value| <= SIZE_MAX)
    && match m.payload
       case Query(name, arguments) => |name| <= SIZE_MAX && Representable(Dictionary(arguments))
       case Response(values) => Representable(Dictionary(values))
       case Error(code, message) => INT64_MIN <= code <= INT64_MAX && |message| <= SIZE_MAX
  }

  // The root dictionary, filled in the order of the source.
  function Root(m: Message): map<string, Value> {
    var root := map["t" := String(m.transactionId)];
    var root := if m.version.Some? then Emplace(root, "v", String(m.version.value)) else root;
    match m.payload
    case Query(name, arguments) =>
      Emplace(Emplace(Emplace(root, "y", String("q")), "q", String(name)), "a", Dictionary(arguments))
    case Response(values) =>
      Emplace(Emplace(root, "y", String("r")), "r", Dictionary(values))
    case Error(code, message) =>
      Emplace(Emplace(root, "y", String("e")), "e", List([Integer(code), String(message)]))
  }

  ghost function EncodeMessage(m: Message): string { Encode(Dictionary(Root(m))) }

  // A string field; None stands for the exceptions of a missing or mistyped field.
  function RequireString(d: map<string, Value>, key: string): Option<string> {
    if key in d && d[key].String? then Some(d[key].text) else None
  }

  function RequireDictionary(d: map<string, Value>, key: string): Option<map<string, Value>> {
    if key in d && d[key].Dictionary? then Some(d[key].entries) else None
  }

  function Parse(root: map<string, Value>): Option<Message> {
    var kind := RequireString(root, "y");
    var id := RequireString(root, "t");
    if kind.None? || id.None? then None
    else if "v" in root && !root["v"].String? then None
    else
      var version := if "v" in root then Some(root["v"].text) else None;
      if kind.value == "q" then
        var name := RequireString(root, "q");
        var arguments := RequireDictionary(root, "a");
        if name.None? || arguments.None? then None
        else Some(Message(id.value, version, Query(name.value, arguments.value)))
      else if kind.value == "r" then
        var values := RequireDictionary(root, "r");
        if values.None? then None else Some(Message(id.value, version, Response(values.value)))
      else if kind.value == "e" then
        if "e" !in root || !root["e"].List? then None
        else
          var error := root["e"].items;
          if |error| != 2 || !error[0].Integer? || !error[1].String? then None
          else Some(Message(id.value, version, Error(error[0].integer, error[1].text)))
      else None
  }

  function DecodeKrpc(s: string): Option<Message> {
    match Decode(s)
    case None => None
    case Some(root) => if root.Dictionary? then Parse(root.entries) else None
  }

  lemma ParseRoot(m: Message)
    ensures Parse(Root(m)) == Some(m)
  {
    hide Parse, Root;
    match m.payload
    case Query(_, _) => ParseQuery(m);
    case Response(_) => ParseResponse(m);
    case Error(_, _) => ParseError(m);
  }

  lemma ParseQuery(m: Message)
    requires m.payload.Query?
    ensures Parse(Root(m)) == Some(m)
  {
  }

  lemma ParseResponse(m: Message)
    requires m.payload.Response?
    ensures Parse(Root(m)) == Some(m)
  {
  }

  lemma ParseError(m: Message)
    requires m.payload.Error?
    ensures Parse(Root(m)) == Some(m)
  {
  }

  lemma RootRepresentable(m: Message)
    requires Sendable(m)
    ensures Representable(Dictionary(Root(m)))
  {
    hide Emplace, Representable;
    Empty();
    Text(m.transactionId);
    Text(if m.payload.Query? then "q" else if m.payload.Response? then "r" else "e");
    Adds(map[], "t", String(m.transactionId));
    var root := map["t" := String(m.transactionId)];
    if m.version.Some? {
      Text(m.version.value);
      Adds(root, "v", String(m.version.value));
      root := Emplace(root, "v", String(m.version.value));
    }
    match m.payload
    case Query(name, arguments) =>
      Adds(root, "y", String("q"));
      root := Emplace(root, "y", String("q"));
      Text(name);
      Adds(root, "q", String(name));
      root := Emplace(root, "q", String(name));
      Adds(root, "a", Dictionary(arguments));
    case Response(values) =>
      Adds(root, "y", String("r"));
      root := Emplace(root, "y", String("r"));
      Adds(root, "r", Dictionary(values));
    case Error(code, message) =>
      Adds(root, "y", String("e"));
      root := Emplace(root, "y", String("e"));
      ErrorRepresentable(code, message);
      Adds(root, "e", List([Integer(code), String(message)]));
  }

  lemma ErrorRepresentable(code: int, message: string)
    requires INT64_MIN <= code <= INT64_MAX && |message| <= SIZE_MAX
    ensures Representable(List([Integer(code), String(message)]))
  {
  }

  // What is sent is what is received: for every query, response and error, with
  // or without a version.
  lemma DecodeEncodeMessage(m: Message)
    requires Sendable(m)
    ensures DecodeKrpc(EncodeMessage(m)) == Some(m)
  {
    RootRepresentable(m);
    DecodeEncode(Dictionary(Root(m)));
    ParseRoot(m);
  }

  // ----- compact encodings -----

  // None: the exception for an address that is not IPv4.
  function EncodeCompactPeer(e: Endpoint): (r: Option<string>)
    ensures r.Some? ==> |r.value| == 6
  {
    match e.address
    case V4(a, b, c, d) =>
      Some([a as char, b as char, c as char, d as char, (e.port / 256) as char, (e.port % 256) as char])
    case V6(_) => None
  }

  function ByteOf(c: char): Octet { c as int % 256 }

  function DecodeCompactPeer(s: string): (r: Option<Endpoint>)
  {
    if |s| != 6 then None
    else Some(Endpoint(V4(ByteOf(s[0]), ByteOf(s[1]), ByteOf(s[2]), ByteOf(s[3])), ByteOf(s[4]) * 256 + ByteOf(s[5])))
  }

  function EncodeCompactNode(n: Node): (r: Option<string>) {
    match EncodeCompactPeer(n.endpoint)
    case None => None
    case Some(peer) => Some(n.id + peer)
  }

  function DecodeCompactNode(s: string): (r: Option<Node>) {
    if |s| != ID_SIZE + 6 then None
    else
      match DecodeCompactPeer(s[ID_SIZE..])
      case None => None
      case Some(endpoint) => Some(Node(s[..ID_SIZE], endpoint))
  }

  // The std::string bytes.
  ghost predicate Bytes(s: string) {
    forall i :: 0 <= i < |s| ==> s[i] as int < 256
  }

  lemma CompactPeerInverse(e: Endpoint)
    requires e.address.V4?
    ensures EncodeCompactPeer(e).Some? && DecodeCompactPeer(EncodeCompactPeer(e).value) == Some(e)
  {
  }

  lemma CompactPeerOnto(s: string)
    requires |s| == 6 && Bytes(s)
    ensures DecodeCompactPeer(s).Some? && EncodeCompactPeer(DecodeCompactPeer(s).value) == Some(s)
  {
    forall i | 0 <= i < 6 ensures ByteOf(s[i]) as char == s[i] { }
    hide ByteOf;
    var e := DecodeCompactPeer(s).value;
    TwoDigits(ByteOf(s[4]), ByteOf(s[5]));
    assert EncodeCompactPeer(e).value == s;
  }

  lemma TwoDigits(high: Octet, low: Octet)
    ensures (high * 256 + low) / 256 == high && (high * 256 + low) % 256 == low
  {
  }

  lemma CompactNodeInverse(n: Node)
    requires |n.id| == ID_SIZE && n.endpoint.address.V4?
    ensures EncodeCompactNode(n).Some? && DecodeCompactNode(EncodeCompactNode(n).value) == Some(n)
  {
    CompactPeerInverse(n.endpoint);
    var peer := EncodeCompactPeer(n.endpoint).value;
    assert (n.id + peer)[..ID_SIZE] == n.id && (n.id + peer)[ID_SIZE..] == peer;
  }

  lemma CompactNodeOnto(s: string)
    requires |s| == ID_SIZE + 6 && Bytes(s)
    ensures DecodeCompactNode(s).Some? && EncodeCompactNode(DecodeCompactNode(s).value) == Some(s)
  {
    CompactPeerOnto(s[ID_SIZE..]);
    assert s == s[..ID_SIZE] + s[ID_SIZE..];
  }
}
