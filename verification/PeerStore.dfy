// The answering side of src/Blocxxi/P2P/kademlia/mainline_node.cpp: tokens
// issued to get_peers senders and peers recorded by announce_peer (BEP 5).
module PeerStore {
  import opened Wrappers
  import opened Bencode
  import opened Krpc

  // ----- endpoints as text -----

  function AddressText(a: Address): string {
    match a
    case V4(a, b, c, d) => Decimal(a) + "." + (Decimal(b) + "." + (Decimal(c) + "." + Decimal(d)))
    case V6(text) => text
  }

  // IpEndpoint::ToString, which is also the token.
  function Render(e: Endpoint): string { AddressText(e.address) + ":" + Decimal(e.port) }

  // The text of an IPv6 address contains a colon and identifies the address.
  ghost predicate Proper(e: Endpoint) { e.address.V6? ==> ':' in e.address.text }

  // ----- state -----

  datatype Peers = Peers(tokens: map<string, string>, announced: map<string, seq<Endpoint>>)

  const NONE: Peers := Peers(map[], map[])

  datatype Received = Received(sender: Endpoint, name: string, arguments: map<string, Value>)

  function FindInteger(d: map<string, Value>, key: string): Option<int> {
    if key in d && d[key].Integer? then Some(d[key].integer) else None
  }

  // The endpoint RecordAnnouncedPeer stores; None when it throws. The port is
  // cut to 16 bits.
  function AnnouncedEndpoint(sender: Endpoint, arguments: map<string, Value>): Option<Endpoint> {
    if "implied_port" in arguments && !arguments["implied_port"].Integer? then None
    else
      var implied := if "implied_port" in arguments then arguments["implied_port"].integer else 0;
      if implied != 0 then Some(sender)
      else
        match FindInteger(arguments, "port")
        case None => None
        case Some(port) => Some(sender.(port := port % 65536))
  }

  function Record(announced: map<string, seq<Endpoint>>, infoHash: string, e: Endpoint): map<string, seq<Endpoint>> {
    var peers := if infoHash in announced then announced[infoHash] else [];
    announced[infoHash := if e in peers then peers else peers + [e]]
  }

  predicate Tokened(p: Peers, sender: Endpoint, arguments: map<string, Value>) {
    var token := RequireString(arguments, "token");
    token.Some? && Render(sender) in p.tokens && p.tokens[Render(sender)] == token.value
  }

  // What a query leaves behind.
  function Remember(p: Peers, r: Received): Peers {
    if r.name == "get_peers" then
      if RequireString(r.arguments, "info_hash").None? then p
      else p.(tokens := p.tokens[Render(r.sender) := Render(r.sender)])
    else if r.name == "announce_peer" then
      if !Tokened(p, r.sender, r.arguments) then p
      else
        var infoHash := RequireString(r.arguments, "info_hash");
        var endpoint := AnnouncedEndpoint(r.sender, r.arguments);
        if infoHash.None? || endpoint.None? then p
        else p.(announced := Record(p.announced, infoHash.value, endpoint.value))
    else p
  }

  function Run(p: Peers, queries: seq<Received>): Peers
    decreases |queries|
  {
    if queries == [] then p else Remember(Run(p, queries[..|queries| - 1]), queries[|queries| - 1])
  }

  // ----- what every run keeps -----

  ghost predicate Distinct(peers: seq<Endpoint>) {
    forall i, j :: 0 <= i < j < |peers| ==> peers[i] != peers[j]
  }

  ghost predicate Tidy(p: Peers) {
    forall h :: h in p.announced ==> p.announced[h] != [] && Distinct(p.announced[h])
  }

  ghost predicate IsGetPeers(r: Received) { r.name == "get_peers" && RequireString(r.arguments, "info_hash").Some? }

  // An announcement of e under h that carries the token issued to its sender.
  ghost predicate IsAnnouncement(r: Received, h: string, e: Endpoint) {
    && r.name == "announce_peer" && RequireString(r.arguments, "info_hash") == Some(h)
    && RequireString(r.arguments, "token") == Some(Render(r.sender))
    && Announces(r, e)
  }

  // The implied port, when an announcement gives one; zero and absent mean none.
  ghost predicate PortIsImplied(r: Received) {
    "implied_port" in r.arguments && r.arguments["implied_port"].Integer? && r.arguments["implied_port"].integer != 0
  }

  ghost predicate PortIsExplicit(r: Received, port: int) {
    && ("implied_port" in r.arguments ==> r.arguments["implied_port"] == Integer(0))
    && "port" in r.arguments && r.arguments["port"] == Integer(port)
  }

  // The sender announces itself, or its address with the port it names, cut to 16 bits.
  ghost predicate Announces(r: Received, e: Endpoint) {
    || (PortIsImplied(r) && e == r.sender)
    || exists port :: PortIsExplicit(r, port) && e == Endpoint(r.sender.address, port % 65536)
  }

  lemma AnnouncesIff(r: Received, e: Endpoint)
    ensures Announces(r, e) <==> AnnouncedEndpoint(r.sender, r.arguments) == Some(e)
  {
    if AnnouncedEndpoint(r.sender, r.arguments) == Some(e) && !PortIsImplied(r) {
      assert PortIsExplicit(r, r.arguments["port"].integer);
    }
  }

  // Somewhere in the history, e was announced under h by a sender whose
  // get_peers query had come before.
  ghost predicate Earned(queries: seq<Received>, h: string, e: Endpoint) {
    exists i, j :: 0 <= i < j < |queries| && IsGetPeers(queries[i]) && IsAnnouncement(queries[j], h, e)
                   && Render(queries[i].sender) == Render(queries[j].sender)
  }

  ghost predicate Issued(queries: seq<Received>, key: string) {
    exists i :: 0 <= i < |queries| && IsGetPeers(queries[i]) && Render(queries[i].sender) == key
  }

  lemma RememberTidy(p: Peers, r: Received)
    requires Tidy(p)
    ensures Tidy(Remember(p, r))
  {
  }

  ghost predicate AllIssued(tokens: map<string, string>, queries: seq<Received>) {
    forall key :: key in tokens ==> tokens[key] == key && Issued(queries, key)
  }

  lemma IssuedLater(before: seq<Received>, r: Received, key: string)
    requires Issued(before, key)
    ensures Issued(before + [r], key)
  {
    hide Render, IsGetPeers;
    var i :| 0 <= i < |before| && IsGetPeers(before[i]) && Render(before[i].sender) == key;
    assert (before + [r])[i] == before[i];
  }

  lemma {:induction false} TokensIssued(queries: seq<Received>)
    ensures AllIssued(Run(NONE, queries).tokens, queries)
    decreases |queries|
  {
    hide Render, Issued;
    if queries != [] {
      var n := |queries| - 1;
      var before, r := queries[..n], queries[n];
      assert queries == before + [r];
      TokensIssued(before);
      var p, q := Run(NONE, before), Run(NONE, queries);
      assert q == Remember(p, r);
      forall key | key in q.tokens ensures q.tokens[key] == key && Issued(queries, key) {
        if key in p.tokens {
          IssuedLater(before, r, key);
        } else {
          IssuedNow(before, r);
        }
      }
    }
  }

  lemma IssuedNow(before: seq<Received>, r: Received)
    requires IsGetPeers(r)
    ensures Issued(before + [r], Render(r.sender))
  {
    assert (before + [r])[|before|] == r;
  }

  lemma EarnedLater(before: seq<Received>, r: Received, h: string, e: Endpoint)
    requires Earned(before, h, e)
    ensures Earned(before + [r], h, e)
  {
    hide Render, IsAnnouncement, IsGetPeers;
    var i, j :| 0 <= i < j < |before| && IsGetPeers(before[i]) && IsAnnouncement(before[j], h, e)
                && Render(before[i].sender) == Render(before[j].sender);
    var all := before + [r];
    assert all[i] == before[i] && all[j] == before[j];
  }

  // A token check that passes was preceded by the sender's get_peers.
  lemma TokenedIsIssued(queries: seq<Received>, r: Received)
    requires Tokened(Run(NONE, queries), r.sender, r.arguments)
    ensures RequireString(r.arguments, "token") == Some(Render(r.sender)) && Issued(queries, Render(r.sender))
  {
    hide Render, Run, Issued;
    TokensIssued(queries);
  }

  lemma EarnedNow(before: seq<Received>, r: Received, h: string, e: Endpoint)
    requires Issued(before, Render(r.sender)) && IsAnnouncement(r, h, e)
    ensures Earned(before + [r], h, e)
  {
    hide Render, IsAnnouncement, IsGetPeers;
    var i :| 0 <= i < |before| && IsGetPeers(before[i]) && Render(before[i].sender) == Render(r.sender);
    var all := before + [r];
    assert all[i] == before[i] && all[|before|] == r;
  }

  // Over every run: every recorded peer was announced with the token its sender
  // had been issued, and the peer lists are non-empty and free of duplicates.
  lemma {:induction false} RecordedPeersEarned(queries: seq<Received>)
    ensures var p := Run(NONE, queries);
            Tidy(p) && forall h, e :: h in p.announced && e in p.announced[h] ==> Earned(queries, h, e)
    decreases |queries|
  {
    hide Render, Earned, Issued, IsAnnouncement, Tokened, AnnouncedEndpoint;
    if queries != [] {
      var n := |queries| - 1;
      var before, r := queries[..n], queries[n];
      assert queries == before + [r];
      RecordedPeersEarned(before);
      RememberTidy(Run(NONE, before), r);
      var p, q := Run(NONE, before), Run(NONE, queries);
      forall h, e | h in q.announced && e in q.announced[h] ensures Earned(queries, h, e) {
        if h in p.announced && e in p.announced[h] {
          EarnedLater(before, r, h, e);
        } else {
          AddedBy(p, r, h, e);
          TokenedIsIssued(before, r);
          MakesAnnouncement(r, h, e);
          EarnedNow(before, r, h, e);
        }
      }
    }
  }

  lemma MakesAnnouncement(r: Received, h: string, e: Endpoint)
    requires r.name == "announce_peer" && RequireString(r.arguments, "info_hash") == Some(h)
    requires RequireString(r.arguments, "token") == Some(Render(r.sender))
    requires AnnouncedEndpoint(r.sender, r.arguments) == Some(e)
    ensures IsAnnouncement(r, h, e)
  {
    hide Announces, AnnouncedEndpoint, Render;
    AnnouncesIff(r, e);
  }

  // The only way a peer gets onto a list.
  lemma AddedBy(p: Peers, r: Received, h: string, e: Endpoint)
    requires var q := Remember(p, r); h in q.announced && e in q.announced[h]
    requires !(h in p.announced && e in p.announced[h])
    ensures r.name == "announce_peer" && Tokened(p, r.sender, r.arguments)
    ensures RequireString(r.arguments, "info_hash") == Some(h)
    ensures AnnouncedEndpoint(r.sender, r.arguments) == Some(e)
  {
    hide Render, Tokened, AnnouncedEndpoint;
  }

  lemma KnownToken()
    ensures Render(Endpoint(V4(127, 0, 0, 1), 6881)) == "127" + "." + ("0" + "." + ("0" + "." + "1")) + ":" + "6881"
  {
    assert Decimal(127) == Decimal(12) + ['7'] && Decimal(12) == Decimal(1) + ['2'];
    assert Decimal(6881) == Decimal(688) + ['1'] && Decimal(688) == Decimal(68) + ['8'] && Decimal(68) == Decimal(6) + ['8'];
  }

  // ----- what an announcement does -----

  lemma {:induction false} IssuedIsStored(queries: seq<Received>, key: string)
    requires Issued(queries, key)
    ensures key in Run(NONE, queries).tokens && Run(NONE, queries).tokens[key] == key
    decreases |queries|
  {
    hide Render, IsGetPeers, Tokened, AnnouncedEndpoint;
    var n := |queries| - 1;
    var i :| 0 <= i < |queries| && IsGetPeers(queries[i]) && Render(queries[i].sender) == key;
    if i < n {
      assert queries[..n][i] == queries[i];
      IssuedIsStored(queries[..n], key);
      TokenStays(Run(NONE, queries[..n]), queries[n], key);
    } else {
      TokenGiven(Run(NONE, queries[..n]), queries[n]);
    }
  }

  lemma TokenStays(p: Peers, r: Received, key: string)
    requires key in p.tokens && p.tokens[key] == key
    ensures key in Remember(p, r).tokens && Remember(p, r).tokens[key] == key
  {
    hide Render, Tokened, AnnouncedEndpoint;
  }

  lemma TokenGiven(p: Peers, r: Received)
    requires IsGetPeers(r)
    ensures Render(r.sender) in Remember(p, r).tokens && Remember(p, r).tokens[Render(r.sender)] == Render(r.sender)
  {
    hide Render;
  }

  // The gate: a token passes exactly when it is the one issued to the sender.
  lemma TokenedIff(queries: seq<Received>, r: Received)
    ensures Tokened(Run(NONE, queries), r.sender, r.arguments)
       <==> RequireString(r.arguments, "token") == Some(Render(r.sender)) && Issued(queries, Render(r.sender))
  {
    hide Render, Run, Issued;
    TokensIssued(queries);
    if Issued(queries, Render(r.sender)) { IssuedIsStored(queries, Render(r.sender)); }
  }

  lemma RunNext(queries: seq<Received>, r: Received)
    ensures Run(NONE, queries + [r]) == Remember(Run(NONE, queries), r)
  {
    assert (queries + [r])[..|queries|] == queries;
  }

  // After any run, an announcement of an info hash with the token issued to its
  // sender records the sender, or its address with the port named; the list
  // grows by that peer unless it is there already, and nothing else changes. Any
  // other announcement changes nothing.
  lemma AnnouncementRecords(queries: seq<Received>, r: Received, h: string, e: Endpoint)
    requires r.name == "announce_peer" && RequireString(r.arguments, "info_hash") == Some(h)
    ensures
      var p, q := Run(NONE, queries), Run(NONE, queries + [r]);
      var peers := if h in p.announced then p.announced[h] else [];
      var passes := RequireString(r.arguments, "token") == Some(Render(r.sender)) && Issued(queries, Render(r.sender));
      && (passes && Announces(r, e) ==>
            q == p.(announced := p.announced[h := if e in peers then peers else peers + [e]]))
      && (!passes || (forall x :: !Announces(r, x)) ==> q == p)
  {
    hide Render, Run, Issued, Tokened, Announces, AnnouncedEndpoint;
    RunNext(queries, r);
    TokenedIff(queries, r);
    AnnouncesIff(r, e);
    var x := AnnouncedEndpoint(r.sender, r.arguments);
    if x.Some? { AnnouncesIff(r, x.value); }
  }

  // In particular an implied port is the one the sender sent from, and an
  // explicit one replaces it.
  lemma AnnouncedPort(queries: seq<Received>, r: Received, h: string, port: int)
    requires r.name == "announce_peer" && RequireString(r.arguments, "info_hash") == Some(h)
    requires RequireString(r.arguments, "token") == Some(Render(r.sender)) && Issued(queries, Render(r.sender))
    ensures PortIsImplied(r) ==> Recorded(Run(NONE, queries + [r]), h, r.sender)
    ensures PortIsExplicit(r, port) ==> Recorded(Run(NONE, queries + [r]), h, Endpoint(r.sender.address, port % 65536))
  {
    hide Render, Run, Issued;
    AnnouncementRecords(queries, r, h, r.sender);
    AnnouncementRecords(queries, r, h, Endpoint(r.sender.address, port % 65536));
  }

  // ----- the sender is who it says -----

  ghost function LastIndex(s: string, c: char): int {
    if s == [] then -1 else if s[|s| - 1] == c then |s| - 1 else LastIndex(s[..|s| - 1], c)
  }

  lemma {:induction false} LastIndexIs(x: string, a: string)
    requires ':' !in a
    ensures LastIndex(x + ":" + a, ':') == |x|
    decreases |a|
  {
    var s := x + ":" + a;
    if a == [] {
      assert s[|s| - 1] == ':';
    } else {
      var n := |a| - 1;
      assert s[..|s| - 1] == x + ":" + a[..n];
      assert s[|s| - 1] == a[n];
      LastIndexIs(x, a[..n]);
    }
  }

  lemma {:induction false} LastColon(x: string, a: string, y: string, b: string)
    requires x + ":" + a == y + ":" + b && ':' !in a && ':' !in b
    ensures x == y && a == b
  {
    LastIndexIs(x, a);
    LastIndexIs(y, b);
    var s, t := x + ":" + a, y + ":" + b;
    assert s[..|x|] == x && t[..|y|] == y && s[|x| + 1..] == a && t[|y| + 1..] == b;
  }

  lemma {:induction false} FirstDot(a: string, x: string, b: string, y: string)
    requires a + "." + x == b + "." + y && '.' !in a && '.' !in b
    ensures a == b && x == y
  {
    var s, t := a + "." + x, b + "." + y;
    assert forall i :: 0 <= i < |a| ==> s[i] == a[i];
    assert forall i :: 0 <= i < |b| ==> t[i] == b[i];
    FindAfter(s, '.', 0, |a|);
    FindAfter(t, '.', 0, |b|);
    assert s[..|a|] == a && t[..|b|] == b && s[|a| + 1..] == x && t[|b| + 1..] == y;
  }

  lemma DecimalHasOnlyDigits(n: nat)
    ensures ':' !in Decimal(n) && '.' !in Decimal(n)
  {
  }

  lemma DottedInjective(x: Address, y: Address)
    requires x.V4? && y.V4? && AddressText(x) == AddressText(y)
    ensures x == y
  {
    hide Decimal;
    DecimalHasOnlyDigits(x.a); DecimalHasOnlyDigits(x.b); DecimalHasOnlyDigits(x.c);
    DecimalHasOnlyDigits(y.a); DecimalHasOnlyDigits(y.b); DecimalHasOnlyDigits(y.c);
    FirstDot(Decimal(x.a), Decimal(x.b) + "." + (Decimal(x.c) + "." + Decimal(x.d)),
             Decimal(y.a), Decimal(y.b) + "." + (Decimal(y.c) + "." + Decimal(y.d)));
    FirstDot(Decimal(x.b), Decimal(x.c) + "." + Decimal(x.d), Decimal(y.b), Decimal(y.c) + "." + Decimal(y.d));
    FirstDot(Decimal(x.c), Decimal(x.d), Decimal(y.c), Decimal(y.d));
    DecimalInjective(x.a, y.a); DecimalInjective(x.b, y.b); DecimalInjective(x.c, y.c); DecimalInjective(x.d, y.d);
  }

  lemma NoColonInV4(a: Address)
    requires a.V4?
    ensures ':' !in AddressText(a)
  {
    hide Decimal;
    DecimalHasOnlyDigits(a.a); DecimalHasOnlyDigits(a.b); DecimalHasOnlyDigits(a.c); DecimalHasOnlyDigits(a.d);
  }

  // Different endpoints have different texts, hence different tokens.
  lemma RenderInjective(x: Endpoint, y: Endpoint)
    requires Proper(x) && Proper(y) && Render(x) == Render(y)
    ensures x == y
  {
    hide Decimal, AddressText;
    DecimalHasOnlyDigits(x.port);
    DecimalHasOnlyDigits(y.port);
    LastColon(AddressText(x.address), Decimal(x.port), AddressText(y.address), Decimal(y.port));
    DecimalInjective(x.port, y.port);
    if x.address.V4? { NoColonInV4(x.address); }
    if y.address.V4? { NoColonInV4(y.address); }
    V6Text(x.address);
    V6Text(y.address);
    if x.address.V4? && y.address.V4? { DottedInjective(x.address, y.address); }
  }

  lemma V6Text(a: Address)
    ensures a.V6? ==> AddressText(a) == a.text
  {
  }

  ghost predicate AllProper(queries: seq<Received>) {
    forall k :: 0 <= k < |queries| ==> Proper(queries[k].sender)
  }

  ghost predicate Recorded(p: Peers, h: string, e: Endpoint) { h in p.announced && e in p.announced[h] }

  // e was announced under h by a sender that had itself asked before, and has
  // that sender's address (and, with implied_port, its port).
  ghost predicate AnnouncedByAsker(queries: seq<Received>, h: string, e: Endpoint) {
    exists i, j :: 0 <= i < j < |queries| && IsGetPeers(queries[i]) && IsAnnouncement(queries[j], h, e)
                   && queries[i].sender == queries[j].sender && e.address == queries[j].sender.address
  }

  lemma {:induction false} RecordedPeersAreTheirSenders(queries: seq<Received>)
    requires AllProper(queries)
    ensures forall h, e :: Recorded(Run(NONE, queries), h, e) ==> AnnouncedByAsker(queries, h, e)
  {
    hide Render, Run, Proper;
    RecordedPeersEarned(queries);
    forall h, e | Recorded(Run(NONE, queries), h, e) ensures AnnouncedByAsker(queries, h, e) {
      var i, j :| 0 <= i < j < |queries| && IsGetPeers(queries[i]) && IsAnnouncement(queries[j], h, e)
                  && Render(queries[i].sender) == Render(queries[j].sender);
      RenderInjective(queries[i].sender, queries[j].sender);
    }
  }

  // ----- answers -----

  // The `values` list of a get_peers answer; None when a peer is not IPv4.
  function CompactPeers(peers: seq<Endpoint>): (r: Option<seq<Value>>)
    ensures r.Some? ==> |r.value| == |peers|
  {
    if peers == [] then Some([])
    else
      var n := |peers| - 1;
      var before, last := CompactPeers(peers[..n]), EncodeCompactPeer(peers[n]);
      if before.None? || last.None? then None else Some(before.value + [String(last.value)])
  }

  function WithNodes(self: Node, values: map<string, Value>): Option<Payload> {
    match EncodeCompactNode(self)
    case None => None
    case Some(nodes) => Some(Response(Emplace(values, "nodes", String(nodes))))
  }

  function AnswerGetPeers(self: Node, announced: map<string, seq<Endpoint>>, sender: Endpoint, infoHash: string): Option<Payload> {
    var values := map["id" := String(self.id)]["token" := String(Render(sender))];
    if infoHash in announced && announced[infoHash] != [] then
      match CompactPeers(announced[infoHash])
      case None => None
      case Some(items) => Some(Response(Emplace(values, "values", List(items))))
    else WithNodes(self, values)
  }

  // Info hashes with peers, in map order, one after the other.
  ghost function Samples(announced: map<string, seq<Endpoint>>, keys: seq<string>): string
    requires forall k :: k in keys ==> k in announced
  {
    if keys == [] then []
    else
      var n := |keys| - 1;
      Samples(announced, keys[..n]) + (if announced[keys[n]] == [] then [] else keys[n])
  }

  ghost function AnswerSamples(self: Node, announced: map<string, seq<Endpoint>>): Option<Payload> {
    match EncodeCompactNode(self)
    case None => None
    case Some(nodes) =>
      Some(Response(map["id" := String(self.id), "interval" := Integer(21600), "nodes" := String(nodes),
                        "num" := Integer(|announced|), "samples" := String(Samples(announced, SortedKeys(announced.Keys)))]))
  }

  // MakeResponse: the payload sent back, or None when nothing is sent.
  // `custom` is what the application's responder answers to other queries.
  ghost function Respond(self: Node, p: Peers, r: Received, custom: Option<map<string, Value>>): Option<Payload> {
    var values := map["id" := String(self.id)];
    if r.name == "find_node" then WithNodes(self, values)
    else if r.name == "get_peers" then
      match RequireString(r.arguments, "info_hash")
      case None => None
      case Some(infoHash) => AnswerGetPeers(self, p.announced, r.sender, infoHash)
    else if r.name == "sample_infohashes" then AnswerSamples(self, p.announced)
    else if r.name == "announce_peer" then
      if RequireString(r.arguments, "token").None? then None
      else if !Tokened(p, r.sender, r.arguments) then Some(Error(203, "invalid announce_peer token"))
      else if RequireString(r.arguments, "info_hash").None? || AnnouncedEndpoint(r.sender, r.arguments).None? then None
      else Some(Response(values))
    else if r.name == "ping" then Some(Response(values))
    else
      match custom
      case None => None
      case Some(extra) => Some(Response(values + extra))
  }

  ghost predicate AllV4(peers: seq<Endpoint>) {
    forall i :: 0 <= i < |peers| ==> peers[i].address.V4?
  }

  // A `values` list that decodes to exactly these peers, in order.
  ghost predicate DecodesTo(v: Value, peers: seq<Endpoint>) {
    && v.List? && |v.items| == |peers|
    && forall i :: 0 <= i < |peers| ==> v.items[i].String? && DecodeCompactPeer(v.items[i].text) == Some(peers[i])
  }

  lemma {:induction false} CompactPeersDecode(peers: seq<Endpoint>)
    requires AllV4(peers)
    ensures CompactPeers(peers).Some? && DecodesTo(List(CompactPeers(peers).value), peers)
  {
    hide EncodeCompactPeer, DecodeCompactPeer;
    if peers != [] {
      var n := |peers| - 1;
      CompactPeersDecode(peers[..n]);
      CompactPeerInverse(peers[n]);
    }
  }

  lemma {:induction false} CompactPeersNeedV4(peers: seq<Endpoint>)
    ensures CompactPeers(peers).Some? <==> AllV4(peers)
  {
    if peers != [] {
      var n := |peers| - 1;
      CompactPeersNeedV4(peers[..n]);
      assert peers == peers[..n] + [peers[n]];
    }
  }

  // ----- what a response says -----

  // `nodes` stands for the node itself.
  ghost predicate NamesSelf(self: Node, values: map<string, Value>) {
    && "nodes" in values && values["nodes"].String? && DecodeCompactNode(values["nodes"].text) == Some(self)
  }

  // ping is answered with the id alone, find_node and get_peers about an unknown
  // info hash with the node itself.
  lemma NodeAnswers(self: Node, p: Peers, r: Received, infoHash: string)
    requires |self.id| == ID_SIZE && self.endpoint.address.V4?
    ensures r.name == "ping" ==> Respond(self, p, r, None) == Some(Response(map["id" := String(self.id)]))
    ensures r.name == "find_node" ==>
              var answer := Respond(self, p, r, None);
              && answer.Some? && answer.value.Response? && answer.value.values.Keys == {"id", "nodes"}
              && answer.value.values["id"] == String(self.id) && NamesSelf(self, answer.value.values)
    ensures r.name == "get_peers" && RequireString(r.arguments, "info_hash") == Some(infoHash) && infoHash !in p.announced ==>
              var answer := Respond(self, p, r, None);
              && answer.Some? && answer.value.Response? && answer.value.values.Keys == {"id", "token", "nodes"}
              && answer.value.values["token"] == String(Render(r.sender)) && NamesSelf(self, answer.value.values)
  {
    hide Render, EncodeCompactNode, DecodeCompactNode;
    CompactNodeInverse(self);
  }

  // sample_infohashes is answered with the node, the interval, the number of
  // info hashes and the samples.
  lemma SampleAnswers(self: Node, p: Peers, r: Received)
    requires |self.id| == ID_SIZE && self.endpoint.address.V4? && r.name == "sample_infohashes"
    ensures
      var answer := Respond(self, p, r, None);
      && answer.Some? && answer.value.Response? && NamesSelf(self, answer.value.values)
      && answer.value.values.Keys == {"id", "interval", "nodes", "num", "samples"}
      && answer.value.values["id"] == String(self.id) && answer.value.values["interval"] == Integer(21600)
      && answer.value.values["num"] == Integer(|p.announced|)
      && answer.value.values["samples"] == String(Samples(p.announced, SortedKeys(p.announced.Keys)))
  {
    hide EncodeCompactNode, DecodeCompactNode, Samples, SortedKeys;
    CompactNodeInverse(self);
  }

  // Over every run, an announcement with a token is refused with error 203
  // exactly when the token is not the one issued to the sender, and a recorded
  // one is acknowledged.
  lemma AnnouncementAnswers(self: Node, queries: seq<Received>, r: Received, h: string, e: Endpoint)
    requires r.name == "announce_peer" && RequireString(r.arguments, "token").Some?
    ensures
      var answer := Respond(self, Run(NONE, queries), r, None);
      var passes := RequireString(r.arguments, "token") == Some(Render(r.sender)) && Issued(queries, Render(r.sender));
      && (answer == Some(Error(203, "invalid announce_peer token")) <==> !passes)
      && (passes && RequireString(r.arguments, "info_hash") == Some(h) && Announces(r, e) ==>
            answer == Some(Response(map["id" := String(self.id)])))
  {
    hide Render, Run, Issued, Tokened, Announces, AnnouncedEndpoint;
    TokenedIff(queries, r);
    AnnouncesIff(r, e);
  }

  // Any other query is answered by the application or not at all; its values
  // come with the id and take precedence over it.
  lemma CustomAnswers(self: Node, p: Peers, r: Received, custom: Option<map<string, Value>>)
    requires r.name !in {"ping", "find_node", "get_peers", "sample_infohashes", "announce_peer"}
    ensures custom.None? ==> Respond(self, p, r, custom) == None && Remember(p, r) == p
    ensures custom.Some? ==>
              var answer := Respond(self, p, r, custom);
              && answer.Some? && answer.value.Response? && "id" in answer.value.values
              && (forall k :: k in custom.value ==> k in answer.value.values && answer.value.values[k] == custom.value[k])
              && (forall k :: k in answer.value.values && k !in custom.value ==>
                    k == "id" && answer.value.values[k] == String(self.id))
  {
  }

  // ----- the size of an answer -----

  // The channel sends nothing above this size, and the answering side ignores
  // the error.
  const SAFE_PAYLOAD_SIZE: nat := 1452

  // The datagram that leaves the node in answer to a query, if one does.
  ghost function Answered(self: Node, p: Peers, r: Received, custom: Option<map<string, Value>>, transactionId: string): Option<string> {
    match Respond(self, p, r, custom)
    case None => None
    case Some(payload) =>
      var encoded := EncodeMessage(Message(transactionId, Some("BX01"), payload));
      if |encoded| > SAFE_PAYLOAD_SIZE then None else Some(encoded)
  }

  // The size of an encoded string.
  function StringSize(n: nat): nat { |Decimal(n)| + 1 + n }

  function AnswerSize(id: string, token: string, transactionId: string, peers: nat): nat {
    46 + StringSize(|id|) + StringSize(|token|) + StringSize(|transactionId|) + 8 * peers
  }

  lemma SmallDecimals()
    ensures forall n :: 0 <= n < 10 ==> |Decimal(n)| == 1
  {
  }

  lemma {:induction false} PeerItemsSize(v: Value, n: nat)
    requires v.List? && n <= |v.items| && forall i :: 0 <= i < |v.items| ==> v.items[i].String? && |v.items[i].text| == 6
    ensures |EncodeItems(v, n)| == 8 * n
    decreases n
  {
    hide Decimal;
    SmallDecimals();
    if n > 0 { PeerItemsSize(v, n - 1); }
  }

  lemma {:induction false} CompactPeersSize(peers: seq<Endpoint>)
    requires CompactPeers(peers).Some?
    ensures forall i :: 0 <= i < |peers| ==> CompactPeers(peers).value[i].String? && |CompactPeers(peers).value[i].text| == 6
  {
    hide EncodeCompactPeer;
    if peers != [] { CompactPeersSize(peers[..|peers| - 1]); }
  }

  lemma PeerListSize(peers: seq<Endpoint>)
    requires CompactPeers(peers).Some?
    ensures |Encode(List(CompactPeers(peers).value))| == 8 * |peers| + 2
  {
    hide CompactPeers, EncodeItems;
    CompactPeersSize(peers);
    var v := List(CompactPeers(peers).value);
    PeerItemsSize(v, |peers|);
    EncodeCases(v);
  }

  // The encoding of a dictionary whose keys are known in order.
  lemma DictionarySize(v: Value, keys: seq<string>)
    requires v.Dictionary? && Ascending(keys) && forall k :: k in keys <==> k in v.entries
    ensures |Encode(v)| == 2 + |EncodeEntries(v, keys)|
  {
    hide Encode, EncodeEntries, SortedKeys;
    SortedUnique(keys, v.entries.Keys);
    EncodeCases(v);
  }

  lemma EntrySize(v: Value, keys: seq<string>, key: string)
    requires v.Dictionary? && (forall k :: k in keys ==> k in v.entries) && key in v.entries
    ensures |EncodeEntries(v, keys + [key])| == |EncodeEntries(v, keys)| + StringSize(|key|) + |Encode(v.entries[key])|
  {
    hide Encode, EncodeEntries, Decimal;
    EntriesNext(v, keys, key);
  }

  lemma StringEncodedSize(s: string)
    ensures |Encode(String(s))| == StringSize(|s|)
  {
    hide Decimal;
  }

  lemma ValuesSize(id: string, token: string, list: Value)
    ensures |Encode(Dictionary(map["id" := String(id), "token" := String(token), "values" := list]))|
         == 21 + StringSize(|id|) + StringSize(|token|) + |Encode(list)|
  {
    hide Encode, EncodeEntries, Decimal;
    var v := Dictionary(map["id" := String(id), "token" := String(token), "values" := list]);
    var keys := ["id", "token", "values"];
    assert keys == [] + ["id"] + ["token"] + ["values"];
    DictionarySize(v, keys);
    EntriesNone(v);
    EntrySize(v, [], "id");
    EntrySize(v, [] + ["id"], "token");
    EntrySize(v, [] + ["id"] + ["token"], "values");
    StringEncodedSize(id);
    StringEncodedSize(token);
    SmallDecimals();
  }

  lemma ResponseSize(transactionId: string, values: map<string, Value>)
    ensures |EncodeMessage(Message(transactionId, Some("BX01"), Response(values)))|
         == 23 + StringSize(|transactionId|) + |Encode(Dictionary(values))|
  {
    hide Encode, EncodeEntries, Decimal;
    var root := map["t" := String(transactionId), "v" := String("BX01"), "y" := String("r"), "r" := Dictionary(values)];
    assert Root(Message(transactionId, Some("BX01"), Response(values))) == root;
    hide Root;
    var v, keys := Dictionary(root), ["r", "t", "v", "y"];
    assert keys == [] + ["r"] + ["t"] + ["v"] + ["y"];
    DictionarySize(v, keys);
    EntriesNone(v);
    EntrySize(v, [], "r");
    EntrySize(v, [] + ["r"], "t");
    EntrySize(v, [] + ["r"] + ["t"], "v");
    EntrySize(v, [] + ["r"] + ["t"] + ["v"], "y");
    StringEncodedSize(transactionId);
    StringEncodedSize("BX01");
    StringEncodedSize("r");
    SmallDecimals();
  }

  // What get_peers answers about a recorded info hash, and how long that is.
  lemma {:induction false} GetPeersSize(self: Node, p: Peers, r: Received, infoHash: string, transactionId: string)
    requires Tidy(p) && r.name == "get_peers" && RequireString(r.arguments, "info_hash") == Some(infoHash)
    requires infoHash in p.announced
    ensures Respond(self, p, r, None).Some? <==> AllV4(p.announced[infoHash])
    ensures AllV4(p.announced[infoHash]) ==>
              |EncodeMessage(Message(transactionId, Some("BX01"), Respond(self, p, r, None).value))|
              == AnswerSize(self.id, Render(r.sender), transactionId, |p.announced[infoHash]|)
  {
    hide Render, CompactPeers, Encode, EncodeMessage, StringSize;
    var peers := p.announced[infoHash];
    CompactPeersNeedV4(peers);
    if AllV4(peers) {
      var list := List(CompactPeers(peers).value);
      var values := map["id" := String(self.id), "token" := String(Render(r.sender)), "values" := list];
      assert Respond(self, p, r, None) == Some(Response(values));
      hide Respond;
      ValuesSize(self.id, Render(r.sender), list);
      ResponseSize(transactionId, values);
      PeerListSize(peers);
    }
  }

  // A get_peers query about a recorded info hash is answered if and only if all
  // the recorded peers are IPv4 and the answer fits a datagram. One peer that is
  // not IPv4 makes the encoder throw; too many peers make the channel refuse.
  lemma {:induction false} GetPeersAnsweredIff(self: Node, p: Peers, r: Received, infoHash: string, transactionId: string)
    requires Tidy(p) && r.name == "get_peers" && RequireString(r.arguments, "info_hash") == Some(infoHash)
    requires infoHash in p.announced
    ensures Respond(self, p, r, None).Some? <==> AllV4(p.announced[infoHash])
    ensures Answered(self, p, r, None, transactionId).Some? <==>
              && AllV4(p.announced[infoHash])
              && AnswerSize(self.id, Render(r.sender), transactionId, |p.announced[infoHash]|) <= SAFE_PAYLOAD_SIZE
  {
    hide Render, Respond, EncodeMessage, AnswerSize;
    GetPeersSize(self, p, r, infoHash, transactionId);
  }

  // A get_peers query for an info hash with recorded IPv4 peers is answered with
  // exactly those peers.
  lemma {:induction false} GetPeersReturnsRecorded(self: Node, p: Peers, r: Received, infoHash: string)
    requires Tidy(p) && r.name == "get_peers" && RequireString(r.arguments, "info_hash") == Some(infoHash)
    requires infoHash in p.announced && AllV4(p.announced[infoHash])
    ensures
      var answer := Respond(self, p, r, None);
      && answer.Some? && answer.value.Response? && "values" in answer.value.values
      && DecodesTo(answer.value.values["values"], p.announced[infoHash])
  {
    hide Render, CompactPeers, DecodeCompactPeer;
    CompactPeersDecode(p.announced[infoHash]);
  }

  // The same, all the way over the wire: whoever decodes the answer reads
  // exactly the recorded peers. That answer leaves the node exactly when it fits
  // a datagram.
  lemma {:induction false} GetPeersOverTheWire(self: Node, p: Peers, r: Received, infoHash: string, transactionId: string)
    requires Tidy(p) && r.name == "get_peers" && RequireString(r.arguments, "info_hash") == Some(infoHash)
    requires infoHash in p.announced && AllV4(p.announced[infoHash])
    requires |transactionId| <= SIZE_MAX && |self.id| <= SIZE_MAX && |Render(r.sender)| <= SIZE_MAX
    ensures
      var answer := Respond(self, p, r, None);
      var fits := AnswerSize(self.id, Render(r.sender), transactionId, |p.announced[infoHash]|) <= SAFE_PAYLOAD_SIZE;
      answer.Some? &&
      Answered(self, p, r, None, transactionId)
      == (if fits then Some(EncodeMessage(Message(transactionId, Some("BX01"), answer.value))) else None)
    ensures
      var answer := Respond(self, p, r, None);
      answer.Some? &&
      var received := DecodeKrpc(EncodeMessage(Message(transactionId, Some("BX01"), answer.value)));
      && received.Some? && received.value.transactionId == transactionId
      && received.value.payload.Response? && "values" in received.value.payload.values
      && DecodesTo(received.value.payload.values["values"], p.announced[infoHash])
  {
    hide Render, CompactPeers, DecodeCompactPeer, EncodeMessage, DecodeKrpc, Representable, AnswerSize;
    GetPeersSize(self, p, r, infoHash, transactionId);
    GetPeersReturnsRecorded(self, p, r, infoHash);
    CompactPeersDecode(p.announced[infoHash]);
    var items := CompactPeers(p.announced[infoHash]).value;
    PeerListRepresentable(items, p.announced[infoHash]);
    Empty();
    Text(self.id);
    Text(Render(r.sender));
    Adds(map[], "id", String(self.id));
    Adds(map["id" := String(self.id)], "token", String(Render(r.sender)));
    Adds(map["id" := String(self.id)]["token" := String(Render(r.sender))], "values", List(items));
    DecodeEncodeMessage(Message(transactionId, Some("BX01"), Respond(self, p, r, None).value));
  }

  lemma {:induction false} PeerListRepresentable(items: seq<Value>, peers: seq<Endpoint>)
    requires DecodesTo(List(items), peers)
    ensures Representable(List(items))
  {
    forall i | 0 <= i < |items| ensures Representable(items[i]) {
      assert |items[i].text| == 6;
    }
  }

  // ----- what one announcement can do -----

  function Asks(e: Endpoint, infoHash: string): Received {
    Received(e, "get_peers", map["info_hash" := String(infoHash)])
  }

  function Announcement(e: Endpoint, infoHash: string): Received {
    Received(e, "announce_peer",
             map["info_hash" := String(infoHash), "token" := String(Render(e)), "implied_port" := Integer(1)])
  }

  lemma AskedAndAnnounced(e: Endpoint, infoHash: string)
    ensures Run(NONE, [Asks(e, infoHash), Announcement(e, infoHash)])
         == Peers(map[Render(e) := Render(e)], map[infoHash := [e]])
  {
    hide Render;
    var queries := [Asks(e, infoHash), Announcement(e, infoHash)];
    assert queries[..1] == [Asks(e, infoHash)] && [Asks(e, infoHash)][..0] == [];
    assert Run(NONE, [Asks(e, infoHash)]) == Peers(map[Render(e) := Render(e)], map[]);
    assert [] + [e] == [e];
  }

  // It happens: after any IPv6 sender has asked and announced, nobody gets an
  // answer about that info hash.
  lemma V6PeerSilences(self: Node, e: Endpoint, asker: Endpoint, infoHash: string)
    requires e.address.V6?
    ensures
      var p := Run(NONE, [Asks(e, infoHash), Announcement(e, infoHash)]);
      Respond(self, p, Asks(asker, infoHash), None) == None
  {
    hide Render, Run;
    AskedAndAnnounced(e, infoHash);
    var p := Run(NONE, [Asks(e, infoHash), Announcement(e, infoHash)]);
    GetPeersAnsweredIff(self, p, Asks(asker, infoHash), infoHash, "");
    assert !p.announced[infoHash][0].address.V4?;
  }

  // ----- what many announcements can do -----

  function Member(i: nat): Endpoint
    requires i < 65536
  {
    Endpoint(V4(10, 0, 0, 1), i)
  }

  function Members(n: nat): (r: seq<Endpoint>)
    requires n <= 65536
    ensures |r| == n && forall i :: 0 <= i < n ==> r[i] == Member(i)
  {
    if n == 0 then [] else Members(n - 1) + [Member(n - 1)]
  }

  // One host asks and announces from n ports.
  function Crowd(infoHash: string, n: nat): seq<Received>
    requires n <= 65536
  {
    if n == 0 then []
    else Crowd(infoHash, n - 1) + [Asks(Member(n - 1), infoHash)] + [Announcement(Member(n - 1), infoHash)]
  }

  lemma AnnouncedNext(queries: seq<Received>, e: Endpoint, infoHash: string)
    ensures Run(NONE, queries + [Asks(e, infoHash)] + [Announcement(e, infoHash)]).announced
         == Record(Run(NONE, queries).announced, infoHash, e)
  {
    hide Render, Run, Record;
    RunNext(queries, Asks(e, infoHash));
    RunNext(queries + [Asks(e, infoHash)], Announcement(e, infoHash));
  }

  lemma {:induction false} CrowdRecorded(infoHash: string, n: nat)
    requires n <= 65536
    ensures Run(NONE, Crowd(infoHash, n)).announced == if n == 0 then map[] else map[infoHash := Members(n)]
  {
    hide Render, Run, Asks, Announces;
    if n == 0 {
      RunNothing();
    } else {
      CrowdRecorded(infoHash, n - 1);
      var e := Member(n - 1);
      AnnouncedNext(Crowd(infoHash, n - 1), e, infoHash);
      assert e !in Members(n - 1);
      assert [] + [e] == [e];
    }
  }

  lemma RunNothing() ensures Run(NONE, []) == NONE {
  }

  // It happens with IPv4 peers too: after 176 announcements nobody gets an answer.
  lemma CrowdSilences(self: Node, asker: Endpoint, infoHash: string, transactionId: string)
    ensures
      var p := Run(NONE, Crowd(infoHash, 176));
      && p.announced == map[infoHash := Members(176)] && AllV4(Members(176))
      && Answered(self, p, Asks(asker, infoHash), None, transactionId) == None
  {
    hide Render, Run, Crowd, Answered, Decimal;
    CrowdRecorded(infoHash, 176);
    var p := Run(NONE, Crowd(infoHash, 176));
    assert Tidy(p);
    GetPeersAnsweredIff(self, p, Asks(asker, infoHash), infoHash, transactionId);
  }

  // ----- samples -----

  // The reader's side: pieces of 20 bytes, or None when bytes are left over.
  function Pieces(s: string): Option<seq<string>> {
    if s == [] then Some([])
    else if |s| < ID_SIZE then None
    else
      var n := |s| - ID_SIZE;
      match Pieces(s[..n])
      case None => None
      case Some(front) => Some(front + [s[n..]])
  }

  ghost predicate AllIdSized(keys: seq<string>) {
    forall i :: 0 <= i < |keys| ==> |keys[i]| == ID_SIZE
  }

  lemma {:induction false} PiecesAreIdSized(s: string)
    ensures Pieces(s).Some? ==> AllIdSized(Pieces(s).value)
  {
    if |s| >= ID_SIZE { PiecesAreIdSized(s[..|s| - ID_SIZE]); }
  }

  lemma {:induction false} SamplesSplit(announced: map<string, seq<Endpoint>>, keys: seq<string>)
    requires (forall k :: k in keys ==> k in announced && announced[k] != []) && AllIdSized(keys)
    ensures Pieces(Samples(announced, keys)) == Some(keys)
  {
    if keys != [] {
      var n := |keys| - 1;
      SamplesSplit(announced, keys[..n]);
      var front := Samples(announced, keys[..n]);
      assert (front + keys[n])[..|front|] == front && (front + keys[n])[|front|..] == keys[n];
      assert keys == keys[..n] + [keys[n]];
    }
  }

  // The samples split into exactly the announced info hashes if and only if all
  // of those have 20 bytes.
  lemma SamplesSplitIff(p: Peers)
    requires Tidy(p)
    ensures Pieces(Samples(p.announced, SortedKeys(p.announced.Keys))) == Some(SortedKeys(p.announced.Keys))
       <==> forall h :: h in p.announced ==> |h| == ID_SIZE
  {
    hide Pieces, Samples;
    var keys := SortedKeys(p.announced.Keys);
    PiecesAreIdSized(Samples(p.announced, keys));
    assert forall i :: 0 <= i < |keys| ==> keys[i] in keys;
    if forall h :: h in p.announced ==> |h| == ID_SIZE { SamplesSplit(p.announced, keys); }
  }

  // The answer with the samples, and when it leaves the node.
  lemma SamplesAnsweredIff(self: Node, p: Peers, r: Received, transactionId: string)
    requires r.name == "sample_infohashes"
    ensures
      var samples := Samples(p.announced, SortedKeys(p.announced.Keys));
      var nodes := EncodeCompactNode(self);
      Answered(self, p, r, None, transactionId).Some? <==>
        && nodes.Some?
        && 69 + StringSize(|self.id|) + StringSize(|nodes.value|) + |Decimal(|p.announced|)| + StringSize(|samples|)
           + StringSize(|transactionId|) <= SAFE_PAYLOAD_SIZE
  {
    hide Samples, SortedKeys, Encode, EncodeMessage, EncodeCompactNode, Decimal;
    if EncodeCompactNode(self).Some? {
      var samples := Samples(p.announced, SortedKeys(p.announced.Keys));
      var nodes := EncodeCompactNode(self).value;
      var values := map["id" := String(self.id), "interval" := Integer(21600), "nodes" := String(nodes),
                        "num" := Integer(|p.announced|), "samples" := String(samples)];
      assert Respond(self, p, r, None) == Some(Response(values));
      hide Respond;
      ResponseSize(transactionId, values);
      SampleValuesSize(self.id, nodes, |p.announced|, samples);
    }
  }

  lemma SampleValuesSize(id: string, nodes: string, num: nat, samples: string)
    ensures |Encode(Dictionary(map["id" := String(id), "interval" := Integer(21600), "nodes" := String(nodes),
                                   "num" := Integer(num), "samples" := String(samples)]))|
         == 46 + StringSize(|id|) + StringSize(|nodes|) + |Decimal(num)| + StringSize(|samples|)
  {
    hide Encode, EncodeEntries, Decimal;
    var v := Dictionary(map["id" := String(id), "interval" := Integer(21600), "nodes" := String(nodes),
                            "num" := Integer(num), "samples" := String(samples)]);
    var keys := ["id", "interval", "nodes", "num", "samples"];
    assert keys == [] + ["id"] + ["interval"] + ["nodes"] + ["num"] + ["samples"];
    assert Ascending(keys) by { SampleKeysAscend(keys); }
    DictionarySize(v, keys);
    EntriesNone(v);
    EntrySize(v, [], "id");
    EntrySize(v, [] + ["id"], "interval");
    EntrySize(v, [] + ["id"] + ["interval"], "nodes");
    EntrySize(v, [] + ["id"] + ["interval"] + ["nodes"], "num");
    EntrySize(v, [] + ["id"] + ["interval"] + ["nodes"] + ["num"], "samples");
    StringEncodedSize(id);
    StringEncodedSize(nodes);
    StringEncodedSize(samples);
    IntegerSize(num);
    IntegerSize(21600);
    FiveDigits();
    SmallDecimals();
  }

  lemma IntegerSize(n: nat)
    ensures |Encode(Integer(n))| == |Decimal(n)| + 2
  {
    hide Decimal;
  }

  lemma FiveDigits()
    ensures |Decimal(21600)| == 5
  {
    assert Decimal(21) == Decimal(2) + ['1'];
    assert Decimal(2160) == Decimal(216) + ['0'] && Decimal(216) == Decimal(21) + ['6'];
  }

  lemma SampleKeysAscend(keys: seq<string>)
    requires keys == ["id", "interval", "nodes", "num", "samples"]
    ensures Ascending(keys)
  {
    assert "id"[1..] == "d" && "interval"[1..] == "nterval";
    assert "nodes"[1..] == "odes" && "num"[1..] == "um";
  }

  // It happens: announce_peer does not look at the length of an info hash.
  lemma ShortInfoHash(e: Endpoint)
    ensures
      var p := Run(NONE, [Asks(e, "abc"), Announcement(e, "abc")]);
      && p.announced == map["abc" := [e]]
      && Pieces(Samples(p.announced, SortedKeys(p.announced.Keys))) != Some(SortedKeys(p.announced.Keys))
  {
    hide Render, Run, Samples, Pieces;
    AskedAndAnnounced(e, "abc");
    var p := Run(NONE, [Asks(e, "abc"), Announcement(e, "abc")]);
    assert "abc" in p.announced && |"abc"| != ID_SIZE;
    SamplesSplitIff(p);
  }
}
