// Model of the class MainlineDhtNode in src/Blocxxi/P2P/kademlia/mainline_node.cpp.
//
// Its state is at every moment the outcome of some run of Requests and of
// PeerStore, so what is proved there of all runs holds of every object. Sockets
// and timers are outside: their completions are calls of the On... methods.
module MainlineNode {
  import opened Wrappers
  import opened Bencode
  import opened Krpc
  import R = Requests
  import P = PeerStore

  // The endpoints up to the first that does not resolve.
  function Resolved(endpoints: seq<string>, resolves: string -> bool): (r: seq<string>)
    ensures r <= endpoints && (forall e :: e in r ==> resolves(e))
    ensures r == endpoints || !resolves(endpoints[|r|])
  {
    if endpoints == [] || !resolves(endpoints[0]) then [] else [endpoints[0]] + Resolved(endpoints[1..], resolves)
  }

  class MainlineDhtNode {
    const self: Node
    var bootstrapNodes: seq<string>
    var pendingBootstraps: map<string, string>
    var pendingRequests: map<string, nat>
    var pendingRequestTimers: set<string>
    var issuedTokens: map<string, string>
    var announcedPeers: map<string, seq<Endpoint>>
    var nextRequestId: nat
    var started: bool

    // callbacks invoked and discarded, and the history
    ghost var fired: seq<R.Firing>
    ghost var dropped: set<nat>
    ghost var events: seq<R.Event>
    ghost var queries: seq<P.Received>

    ghost function RequestState(): R.State
      reads this
    {
      R.State(pendingRequests, pendingRequestTimers, pendingBootstraps, nextRequestId, started, fired, dropped)
    }

    ghost function PeerState(): P.Peers
      reads this
    {
      P.Peers(issuedTokens, announcedPeers)
    }

    ghost predicate Valid()
      reads this
    {
      RequestState() == R.Run(R.INITIAL, events) && PeerState() == P.Run(P.NONE, queries)
    }

    constructor (self: Node)
      ensures Valid() && this.self == self && events == [] && queries == []
    {
      this.self := self;
      bootstrapNodes, pendingBootstraps, pendingRequests, pendingRequestTimers := [], map[], map[], {};
      issuedTokens, announcedPeers, nextRequestId, started := map[], map[], 0, false;
      fired, dropped, events, queries := [], {}, [], [];
    }

    method AddBootstrapNode(endpoint: string)
      requires Valid()
      modifies `bootstrapNodes
      ensures Valid() && bootstrapNodes == old(bootstrapNodes) + [endpoint]
    {
      bootstrapNodes := bootstrapNodes + [endpoint];
    }

    // ----- requests -----

    // SendQuery: the transaction id of the new request, whose callback is
    // `old(nextRequestId)`.
    method SendQuery() returns (id: string)
      requires Valid()
      modifies `pendingRequests, `pendingRequestTimers, `nextRequestId, `events
      ensures Valid() && events == old(events) + [R.Send]
      ensures id == R.RequestId(old(nextRequestId)) && id !in old(pendingRequests) && id !in old(pendingBootstraps)
      ensures pendingRequests == old(pendingRequests)[id := old(nextRequestId)]
    {
      hide R.Run, P.Run;
      R.RunHolds(events);
      R.SendHolds(RequestState());
      id := R.RequestId(nextRequestId);
      Extended(R.Send);
      pendingRequests := pendingRequests[id := nextRequestId];
      pendingRequestTimers := pendingRequestTimers + {id};
      nextRequestId := nextRequestId + 1;
      events := events + [R.Send];
    }

    // The run one event longer.
    lemma Extended(e: R.Event)
      requires Valid()
      ensures R.Run(R.INITIAL, events + [e]) == R.Step(RequestState(), e)
    {
      assert (events + [e])[..|events|] == events;
    }

    // The callback waiting under an id, if there is one; it is then invoked.
    method TakePendingRequest(id: string, outcome: R.Outcome) returns (callback: Option<nat>)
      modifies `pendingRequests, `pendingRequestTimers, `fired
      ensures RequestState() == R.Take(old(RequestState()), id, outcome)
      ensures callback == if id in old(pendingRequests) then Some(old(pendingRequests)[id]) else None
    {
      if id !in pendingRequests {
        pendingRequestTimers := pendingRequestTimers - {id};
        return None;
      }
      callback := Some(pendingRequests[id]);
      fired := fired + [R.Firing(pendingRequests[id], outcome)];
      pendingRequests := pendingRequests - {id};
      pendingRequestTimers := pendingRequestTimers - {id};
    }

    method OnSendCompleted(id: string, failed: bool) returns (callback: Option<nat>)
      requires Valid()
      modifies `pendingRequests, `pendingRequestTimers, `fired, `events
      ensures Valid() && events == old(events) + [R.SendCompleted(id, failed)]
      ensures callback == if failed && id in old(pendingRequests) then Some(old(pendingRequests)[id]) else None
      ensures pendingRequests == if failed then old(pendingRequests) - {id} else old(pendingRequests)
      ensures callback.Some? ==> failed && fired == old(fired) + [R.Firing(callback.value, R.SendFailed)]
      ensures callback.None? ==> fired == old(fired)
    {
      hide R.Run, P.Run;
      Extended(R.SendCompleted(id, failed));
      events := events + [R.SendCompleted(id, failed)];
      if !failed {
        return None;
      }
      callback := TakePendingRequest(id, R.SendFailed);
    }

    method OnTimer(id: string, aborted: bool) returns (callback: Option<nat>)
      requires Valid()
      modifies `pendingRequests, `pendingRequestTimers, `fired, `events
      ensures Valid() && events == old(events) + [R.TimerExpired(id, aborted)]
      ensures callback == if !aborted && id in old(pendingRequests) then Some(old(pendingRequests)[id]) else None
      ensures pendingRequests == if aborted then old(pendingRequests) else old(pendingRequests) - {id}
      ensures callback.Some? ==> !aborted && fired == old(fired) + [R.Firing(callback.value, R.TimedOut)]
      ensures callback.None? ==> fired == old(fired)
    {
      hide R.Run, P.Run;
      Extended(R.TimerExpired(id, aborted));
      events := events + [R.TimerExpired(id, aborted)];
      if aborted {
        return None;
      }
      callback := TakePendingRequest(id, R.TimedOut);
    }

    // A response or an error: for a bootstrap query, or for a request.
    method OnReply(id: string) returns (bootstrap: Option<string>, callback: Option<nat>)
      requires Valid()
      modifies `pendingRequests, `pendingRequestTimers, `pendingBootstraps, `fired, `events
      ensures Valid() && events == old(events) + [R.Reply(id)]
      ensures bootstrap == if id in old(pendingBootstraps) then Some(old(pendingBootstraps)[id]) else None
      ensures pendingBootstraps == old(pendingBootstraps) - {id}
      ensures callback == if bootstrap.None? && id in old(pendingRequests) then Some(old(pendingRequests)[id]) else None
      ensures pendingRequests == if bootstrap.None? then old(pendingRequests) - {id} else old(pendingRequests)
      ensures callback.Some? ==> bootstrap.None? && fired == old(fired) + [R.Firing(callback.value, R.Answered)]
      ensures callback.None? ==> fired == old(fired)
      ensures bootstrap.Some? <==> id in old(pendingBootstraps)
    {
      hide R.Run, P.Run;
      Extended(R.Reply(id));
      events := events + [R.Reply(id)];
      bootstrap, callback := None, None;
      if id in pendingBootstraps {
        bootstrap := Some(pendingBootstraps[id]);
        pendingBootstraps := pendingBootstraps - {id};
      } else {
        callback := TakePendingRequest(id, R.Answered);
      }
    }

    // `resolves` is whether a bootstrap endpoint is well formed and resolves. At
    // the first one that does not the source throws, with the node started and
    // the endpoints before it queried.
    method Start(resolves: string -> bool) returns (thrown: bool)
      requires Valid()
      modifies `started, `pendingBootstraps, `events
      ensures Valid() && started && events == old(events) + [R.Start(Resolved(bootstrapNodes, resolves))]
      ensures thrown <==> !old(started) && exists e :: e in bootstrapNodes && !resolves(e)
    {
      hide R.Run, P.Run;
      ghost var queried := Resolved(bootstrapNodes, resolves);
      Extended(R.Start(queried));
      events := events + [R.Start(queried)];
      if started {
        return false;
      }
      started := true;
      thrown := SendBootstrapQueries(resolves);
    }

    method SendBootstrapQueries(resolves: string -> bool) returns (thrown: bool)
      modifies `pendingBootstraps
      ensures pendingBootstraps == R.AddBootstraps(old(pendingBootstraps), Resolved(bootstrapNodes, resolves), 0)
      ensures thrown <==> exists e :: e in bootstrapNodes && !resolves(e)
    {
      hide R.BootstrapId;
      var index := 0;
      while index < |bootstrapNodes|
        invariant index <= |bootstrapNodes|
        invariant forall i :: 0 <= i < index ==> resolves(bootstrapNodes[i])
        invariant R.AddBootstraps(old(pendingBootstraps), Resolved(bootstrapNodes, resolves), 0)
               == R.AddBootstraps(pendingBootstraps, Resolved(bootstrapNodes[index..], resolves), index)
      {
        assert bootstrapNodes[index..][1..] == bootstrapNodes[index + 1..];
        if !resolves(bootstrapNodes[index]) {
          return true;
        }
        var id := R.BootstrapId(index);
        if id !in pendingBootstraps {
          pendingBootstraps := pendingBootstraps[id := bootstrapNodes[index]];
        }
        index := index + 1;
      }
      return false;
    }

    method Stop()
      requires Valid()
      modifies `started, `pendingRequests, `pendingRequestTimers, `dropped, `events
      ensures Valid() && events == old(events) + [R.Stop]
      ensures pendingRequests == map[] && pendingRequestTimers == {} && !started
    {
      hide R.Run, P.Run;
      Extended(R.Stop);
      events := events + [R.Stop];
      started := false;
      dropped := dropped + pendingRequests.Values;
      pendingRequestTimers := {};
      pendingRequests := map[];
    }

    // ----- queries received -----

    ghost function Sent(payload: Option<Payload>, transactionId: string): Option<Message> {
      if payload.None? then None else Some(Message(transactionId, Some("BX01"), payload.value))
    }

    // MakeResponse
    method OnQuery(sender: Endpoint, name: string, arguments: map<string, Value>, transactionId: string,
                   custom: Option<map<string, Value>>) returns (reply: Option<Message>)
      requires Valid()
      modifies `issuedTokens, `announcedPeers, `queries
      ensures Valid() && queries == old(queries) + [P.Received(sender, name, arguments)]
      ensures reply == Sent(P.Respond(self, old(PeerState()), P.Received(sender, name, arguments), custom), transactionId)
    {
      hide P.Render, P.Tokened, P.AnnouncedEndpoint, P.CompactPeers, P.AnswerSamples, P.Run, R.Run;
      ghost var r := P.Received(sender, name, arguments);
      Asked(r);
      queries := queries + [r];
      var payload: Option<Payload>;
      var values := map["id" := String(self.id)];
      if name == "find_node" {
        payload := P.WithNodes(self, values);
      } else if name == "get_peers" {
        payload := AnswerGetPeers(sender, arguments);
      } else if name == "sample_infohashes" {
        payload := AnswerSamples();
      } else if name == "announce_peer" {
        payload := AnswerAnnouncePeer(sender, arguments);
      } else if name == "ping" {
        payload := Some(Response(values));
      } else {
        payload := if custom.None? then None else Some(Response(values + custom.value));
      }
      reply := if payload.None? then None else Some(Message(transactionId, Some("BX01"), payload.value));
    }

    // The receive path for a query: make the response, encode it, and hand it to
    // the channel, which sends nothing above the safe size.
    method AnswerQuery(sender: Endpoint, name: string, arguments: map<string, Value>, transactionId: string,
                       custom: Option<map<string, Value>>) returns (datagram: Option<string>)
      requires Valid()
      modifies `issuedTokens, `announcedPeers, `queries
      ensures Valid() && queries == old(queries) + [P.Received(sender, name, arguments)]
      ensures datagram == P.Answered(self, old(PeerState()), P.Received(sender, name, arguments), custom, transactionId)
    {
      hide P.Respond, P.Run, R.Run;
      var reply := OnQuery(sender, name, arguments, transactionId, custom);
      if reply.None? {
        return None;
      }
      var encoded := AppendEncoded(Dictionary(Root(reply.value)), "");
      assert encoded == EncodeMessage(reply.value);
      if |encoded| > P.SAFE_PAYLOAD_SIZE {
        return None;
      }
      return Some(encoded);
    }

    lemma Asked(r: P.Received)
      requires Valid()
      ensures P.Run(P.NONE, queries + [r]) == P.Remember(PeerState(), r)
    {
      assert (queries + [r])[..|queries|] == queries;
    }

    method AnswerGetPeers(sender: Endpoint, arguments: map<string, Value>) returns (payload: Option<Payload>)
      modifies `issuedTokens
      ensures PeerState() == P.Remember(old(PeerState()), P.Received(sender, "get_peers", arguments))
      ensures payload == P.Respond(self, old(PeerState()), P.Received(sender, "get_peers", arguments), None)
    {
      hide P.Render, P.CompactPeers;
      var infoHash := RequireString(arguments, "info_hash");
      if infoHash.None? {
        return None;
      }
      var token := P.Render(sender);
      issuedTokens := issuedTokens[P.Render(sender) := token];
      var values := map["id" := String(self.id)]["token" := String(token)];
      if infoHash.value in announcedPeers && announcedPeers[infoHash.value] != [] {
        var items := EncodePeers(announcedPeers[infoHash.value]);
        payload := if items.None? then None else Some(Response(Emplace(values, "values", List(items.value))));
      } else {
        payload := P.WithNodes(self, values);
      }
    }

    method EncodePeers(peers: seq<Endpoint>) returns (items: Option<seq<Value>>)
      ensures items == P.CompactPeers(peers)
    {
      hide EncodeCompactPeer;
      var list: seq<Value> := [];
      for n := 0 to |peers|
        invariant P.CompactPeers(peers[..n]) == Some(list)
      {
        assert peers[..n + 1][..n] == peers[..n];
        var peer := EncodeCompactPeer(peers[n]);
        if peer.None? {
          NoneStays(peers, n + 1);
          return None;
        }
        list := list + [String(peer.value)];
      }
      assert peers[..|peers|] == peers;
      items := Some(list);
    }

    lemma {:induction false} NoneStays(peers: seq<Endpoint>, n: nat)
      requires n <= |peers| && P.CompactPeers(peers[..n]) == None
      ensures P.CompactPeers(peers) == None
      decreases |peers| - n
    {
      if n < |peers| {
        assert peers[..n + 1][..n] == peers[..n];
        NoneStays(peers, n + 1);
      } else {
        assert peers[..n] == peers;
      }
    }

    method AnswerSamples() returns (payload: Option<Payload>)
      ensures payload == P.AnswerSamples(self, announcedPeers)
    {
      hide SortedKeys;
      var keys := InOrder(announcedPeers.Keys);
      var samples: string := [];
      for n := 0 to |keys|
        invariant samples == P.Samples(announcedPeers, keys[..n])
      {
        assert keys[..n + 1][..n] == keys[..n];
        if announcedPeers[keys[n]] != [] {
          samples := samples + keys[n];
        }
      }
      assert keys[..|keys|] == keys;
      var nodes := EncodeCompactNode(self);
      if nodes.None? {
        return None;
      }
      payload := Some(Response(map["id" := String(self.id), "interval" := Integer(21600), "nodes" := String(nodes.value),
                                   "num" := Integer(|announcedPeers|), "samples" := String(samples)]));
    }

    method AnswerAnnouncePeer(sender: Endpoint, arguments: map<string, Value>) returns (payload: Option<Payload>)
      modifies `announcedPeers
      ensures PeerState() == P.Remember(old(PeerState()), P.Received(sender, "announce_peer", arguments))
      ensures payload == P.Respond(self, old(PeerState()), P.Received(sender, "announce_peer", arguments), None)
    {
      hide P.Render, P.AnnouncedEndpoint;
      var token := RequireString(arguments, "token");
      if token.None? {
        return None;
      }
      if P.Render(sender) !in issuedTokens || issuedTokens[P.Render(sender)] != token.value {
        return Some(Error(203, "invalid announce_peer token"));
      }
      var infoHash := RequireString(arguments, "info_hash");
      if infoHash.None? {
        return None;
      }
      var endpoint := P.AnnouncedEndpoint(sender, arguments);
      if endpoint.None? {
        return None;
      }
      var peers := if infoHash.value in announcedPeers then announcedPeers[infoHash.value] else [];
      if endpoint.value !in peers {
        peers := peers + [endpoint.value];
      }
      announcedPeers := announcedPeers[infoHash.value := peers];
      payload := Some(Response(map["id" := String(self.id)]));
    }

    // What holds of the object at every moment.
    lemma RequestsAccountedFor()
      requires Valid()
      ensures R.Invariant(RequestState())
    {
      R.RunHolds(events);
    }

    lemma PeersEarned()
      requires Valid()
      ensures P.Tidy(PeerState())
      ensures forall h, e :: P.Recorded(PeerState(), h, e) ==> P.Earned(queries, h, e)
    {
      P.RecordedPeersEarned(queries);
    }
  }
}
