// Model of MemoryEventDht in src/Blocxxi/P2P/event_dht.cpp.
//
// Signature verification, the deterministic key and the info hash are foreign
// functions of the record, given to the constructor; the clock is a parameter.
module EventStore {
  import opened Wrappers
  import opened EventRecord

  const COUNTER: nat := 0x1_0000_0000

  datatype Published = Published(dhtKey: string, infoHash: string, record: Record, publishedAt: int, publishCount: nat)

  datatype PublishResult = PublishResult(dhtKey: string, infoHash: string, inserted: bool, duplicate: bool)

  datatype EventQuery = EventQuery(
    deterministicKey: Option<string>, eventType: Option<string>, taxonomy: Option<string>,
    windowStart: Option<int>, windowEnd: Option<int>, identifiers: seq<string>, limit: nat)

  predicate MatchesIdentifiers(record: Record, identifiers: seq<string>) {
    forall i :: 0 <= i < |identifiers| ==> identifiers[i] in record.envelope.identifiers
  }

  predicate Matches(e: Published, q: EventQuery) {
    var envelope := e.record.envelope;
    if q.deterministicKey.Some? && e.dhtKey != q.deterministicKey.value then false
    else if q.eventType.Some? && envelope.eventType != q.eventType.value then false
    else if q.taxonomy.Some? && envelope.taxonomy != q.taxonomy.value then false
    else if q.windowStart.Some? && envelope.windowEnd < q.windowStart.value then false
    else if q.windowEnd.Some? && envelope.windowStart > q.windowEnd.value then false
    else MatchesIdentifiers(e.record, q.identifiers)
  }

  predicate SameSigning(a: Record, b: Record) {
    a.signature == b.signature && a.signerPublicKey == b.signerPublicKey
  }

  // publish_count is 32 bits wide.
  function Again(e: Published, now: int): Published {
    e.(publishCount := (e.publishCount + 1) % COUNTER, publishedAt := now)
  }

  function Wraps(e: Published): nat { if e.publishCount + 1 == COUNTER then 1 else 0 }

  // ----- sums over the store -----

  ghost function Count(bucket: seq<Published>, weight: Published -> nat): nat {
    if bucket == [] then 0 else Count(bucket[..|bucket| - 1], weight) + weight(bucket[|bucket| - 1])
  }

  ghost const PublishCount: Published -> nat := (e: Published) => e.publishCount

  ghost function Pick(m: map<string, seq<Published>>): (k: string)
    requires m != map[]
    ensures k in m
  {
    var k :| k in m; k
  }

  ghost function Total(m: map<string, seq<Published>>, weight: Published -> nat): nat
    decreases |m|
  {
    if m == map[] then 0 else Count(m[Pick(m)], weight) + Total(m - {Pick(m)}, weight)
  }

  lemma {:induction false} TotalSplit(m: map<string, seq<Published>>, weight: Published -> nat, k: string)
    requires k in m
    ensures Total(m, weight) == Count(m[k], weight) + Total(m - {k}, weight)
    decreases |m|
  {
    var p := Pick(m);
    if p != k {
      TotalSplit(m - {p}, weight, k);
      TotalSplit(m - {k}, weight, p);
      assert m - {p} - {k} == m - {k} - {p};
    }
  }

  lemma TotalUpdate(m: map<string, seq<Published>>, weight: Published -> nat, k: string, bucket: seq<Published>)
    ensures Total(m[k := bucket], weight) == Total(m, weight) - (if k in m then Count(m[k], weight) else 0) + Count(bucket, weight)
  {
    var n := m[k := bucket];
    TotalSplit(n, weight, k);
    if k in m { TotalSplit(m, weight, k); }
    assert n - {k} == m - {k};
    if k !in m { assert m - {k} == m; }
  }

  lemma {:induction false} CountUpdate(bucket: seq<Published>, weight: Published -> nat, i: nat, e: Published)
    requires i < |bucket|
    ensures Count(bucket[i := e], weight) == Count(bucket, weight) - weight(bucket[i]) + weight(e)
  {
    var n := |bucket| - 1;
    if i == n {
      assert bucket[i := e][..n] == bucket[..n];
    } else {
      assert bucket[i := e][..n] == bucket[..n][i := e];
      CountUpdate(bucket[..n], weight, i, e);
    }
  }

  lemma CountAppend(bucket: seq<Published>, weight: Published -> nat, e: Published)
    ensures Count(bucket + [e], weight) == Count(bucket, weight) + weight(e)
  {
    assert (bucket + [e])[..|bucket|] == bucket;
  }

  lemma NothingCounts(weight: Published -> nat)
    ensures Total(map[], weight) == 0
  {
  }

  // ----- what a query asks for -----

  ghost predicate Within(t: int, from: int, to: int) { from <= t <= to }

  // Each filter that is set excludes by its own field; the time filters of a
  // proper window leave the events whose own window meets it; every identifier
  // asked for must be among those of the event.
  lemma MatchesMeaning(e: Published, q: EventQuery)
    ensures
      var envelope := e.record.envelope;
      var timeless := q.(windowStart := None, windowEnd := None);
      && (q.deterministicKey.Some? && Matches(e, q) ==> e.dhtKey == q.deterministicKey.value)
      && (q.eventType.Some? && Matches(e, q) ==> envelope.eventType == q.eventType.value)
      && (q.taxonomy.Some? && Matches(e, q) ==> envelope.taxonomy == q.taxonomy.value)
      && (Matches(e, EventQuery(Some(e.dhtKey), Some(envelope.eventType), Some(envelope.taxonomy), None, None, q.identifiers, q.limit))
          <==> forall x :: x in q.identifiers ==> x in envelope.identifiers)
      && (q.windowStart.Some? && q.windowEnd.Some? && q.windowStart.value <= q.windowEnd.value
          && envelope.windowStart <= envelope.windowEnd ==>
            (Matches(e, q) <==>
               && Matches(e, timeless)
               && exists t :: Within(t, envelope.windowStart, envelope.windowEnd) && Within(t, q.windowStart.value, q.windowEnd.value)))
  {
    var envelope := e.record.envelope;
    assert forall i :: 0 <= i < |q.identifiers| ==> q.identifiers[i] in q.identifiers;
    if q.windowStart.Some? && q.windowEnd.Some? && q.windowStart.value <= q.windowEnd.value
       && envelope.windowStart <= envelope.windowEnd
       && envelope.windowEnd >= q.windowStart.value && envelope.windowStart <= q.windowEnd.value {
      var t := if envelope.windowStart >= q.windowStart.value then envelope.windowStart else q.windowStart.value;
      assert Within(t, envelope.windowStart, envelope.windowEnd) && Within(t, q.windowStart.value, q.windowEnd.value);
    }
  }

  // Half-open windows bound one side only.
  lemma MatchesOneSide(e: Published, q: EventQuery, t: int)
    ensures Matches(e, q.(windowStart := Some(t), windowEnd := None))
       <==> Matches(e, q.(windowStart := None, windowEnd := None)) && e.record.envelope.windowEnd >= t
    ensures Matches(e, q.(windowStart := None, windowEnd := Some(t)))
       <==> Matches(e, q.(windowStart := None, windowEnd := None)) && e.record.envelope.windowStart <= t
  {
  }

  // ----- newest first -----

  ghost predicate NewestFirst(s: seq<Published>) {
    forall i, j :: 0 <= i < j < |s| ==> s[i].publishedAt >= s[j].publishedAt
  }

  ghost predicate NoRepeats(s: seq<Published>) {
    forall i, j :: 0 <= i < j < |s| ==> s[i] != s[j]
  }

  function InsertNewest(e: Published, s: seq<Published>): (r: seq<Published>) {
    if s == [] then [e]
    else if e.publishedAt > s[|s| - 1].publishedAt then InsertNewest(e, s[..|s| - 1]) + [s[|s| - 1]]
    else s + [e]
  }

  lemma {:induction false} InsertNewestKeeps(e: Published, s: seq<Published>)
    requires NewestFirst(s) && NoRepeats(s) && e !in s
    ensures var r := InsertNewest(e, s);
            NewestFirst(r) && NoRepeats(r) && |r| == |s| + 1 && (forall x :: x in r <==> x == e || x in s)
  {
    hide NewestFirst, NoRepeats;
    if s == [] {
      Single(e);
    } else {
      var n := |s| - 1;
      Split(s, n);
      if e.publishedAt > s[n].publishedAt {
        InsertNewestKeeps(e, s[..n]);
        AppendKeeps(InsertNewest(e, s[..n]), s[n]);
      } else {
        AppendKeeps(s, e);
      }
    }
  }

  lemma Single(e: Published)
    ensures NewestFirst([e]) && NoRepeats([e])
  {
  }

  // The last entry is the oldest, and not among the others.
  lemma Split(s: seq<Published>, n: nat)
    requires NewestFirst(s) && NoRepeats(s) && |s| == n + 1
    ensures NewestFirst(s[..n]) && NoRepeats(s[..n]) && s == s[..n] + [s[n]]
    ensures forall x :: x in s[..n] ==> x.publishedAt >= s[n].publishedAt && x != s[n]
  {
  }

  lemma AppendKeeps(s: seq<Published>, e: Published)
    requires NewestFirst(s) && NoRepeats(s)
    requires forall x :: x in s ==> x.publishedAt >= e.publishedAt && x != e
    ensures NewestFirst(s + [e]) && NoRepeats(s + [e])
  {
    assert forall i :: 0 <= i < |s| ==> s[i] in s;
  }

  method SortNewest(s: seq<Published>) returns (r: seq<Published>)
    requires NoRepeats(s)
    ensures NewestFirst(r) && NoRepeats(r) && |r| == |s| && (forall x :: x in r <==> x in s)
  {
    r := [];
    for n := 0 to |s|
      invariant NewestFirst(r) && NoRepeats(r) && |r| == n && (forall x :: x in r <==> x in s[..n])
    {
      InsertNewestKeeps(s[n], r);
      r := InsertNewest(s[n], r);
      assert s[..n + 1] == s[..n] + [s[n]];
    }
    assert s[..|s|] == s;
  }

  // ----- the store -----

  class MemoryEventDht {
    const verify: Record -> bool
    const keyOf: Record -> string
    const infoHashOf: string -> string
    var entries: map<string, seq<Published>>
    var lastPublish: Option<PublishResult>

    // publishes accepted and entries republished so far, and counter wraps
    ghost var accepted: nat
    ghost var wraps: nat

    ghost predicate Own(key: string, e: Published) {
      && verify(e.record) && keyOf(e.record) == key && e.dhtKey == key && e.infoHash == infoHashOf(key)
      && e.publishCount < COUNTER
    }

    ghost predicate ValidBucket(key: string, bucket: seq<Published>) {
      && (forall i :: 0 <= i < |bucket| ==> Own(key, bucket[i]))
      && (forall i, j :: 0 <= i < j < |bucket| ==> !SameSigning(bucket[i].record, bucket[j].record))
    }

    ghost predicate Valid()
      reads this
    {
      && (forall k :: k in entries ==> ValidBucket(k, entries[k]))
      && Total(entries, PublishCount) + COUNTER * wraps == accepted
    }

    // As long as fewer than 2^32 publishes were accepted, no counter has
    // wrapped and the counters add up exactly.
    lemma CountsAddUp()
      requires Valid() && accepted < COUNTER
      ensures wraps == 0 && Total(entries, PublishCount) == accepted
    {
      assert wraps > 0 ==> COUNTER * wraps >= COUNTER;
    }

    constructor (verify: Record -> bool, keyOf: Record -> string, infoHashOf: string -> string)
      ensures Valid() && entries == map[] && accepted == 0 && lastPublish == None
      ensures this.verify == verify && this.keyOf == keyOf && this.infoHashOf == infoHashOf
    {
      this.verify, this.keyOf, this.infoHashOf := verify, keyOf, infoHashOf;
      entries, lastPublish, accepted, wraps := map[], None, 0, 0;
    }

    // The place of a record with the same signature and signer, or the bucket size.
    method FindDuplicate(bucket: seq<Published>, record: Record) returns (i: nat)
      ensures i <= |bucket|
      ensures forall j :: 0 <= j < i ==> !SameSigning(bucket[j].record, record)
      ensures i < |bucket| ==> SameSigning(bucket[i].record, record)
    {
      i := 0;
      while i < |bucket| && !SameSigning(bucket[i].record, record)
        invariant i <= |bucket| && forall j :: 0 <= j < i ==> !SameSigning(bucket[j].record, record)
      {
        i := i + 1;
      }
    }

    // What publishing leaves in a bucket.
    ghost predicate Merged(bucket: seq<Published>, record: Record, now: int, after: seq<Published>, inserted: bool) {
      var key := keyOf(record);
      if inserted then
        && (forall i :: 0 <= i < |bucket| ==> !SameSigning(bucket[i].record, record))
        && after == bucket + [Published(key, infoHashOf(key), record, now, 1)]
      else
        exists i :: 0 <= i < |bucket| && SameSigning(bucket[i].record, record) && after == bucket[i := Again(bucket[i], now)]
    }

    lemma DuplicateKeeps(key: string, bucket: seq<Published>, i: nat, now: int)
      requires ValidBucket(key, bucket) && i < |bucket|
      ensures ValidBucket(key, bucket[i := Again(bucket[i], now)])
      ensures Count(bucket[i := Again(bucket[i], now)], PublishCount) + COUNTER * Wraps(bucket[i])
           == Count(bucket, PublishCount) + 1
    {
      CountUpdate(bucket, PublishCount, i, Again(bucket[i], now));
    }

    lemma InsertKeeps(key: string, bucket: seq<Published>, e: Published)
      requires ValidBucket(key, bucket) && Own(key, e) && e.publishCount == 1
      requires forall i :: 0 <= i < |bucket| ==> !SameSigning(bucket[i].record, e.record)
      ensures ValidBucket(key, bucket + [e])
      ensures Count(bucket + [e], PublishCount) == Count(bucket, PublishCount) + 1
    {
      CountAppend(bucket, PublishCount, e);
    }

    method Publish(record: Record, now: int) returns (ok: bool)
      requires Valid()
      modifies this
      ensures Valid() && ok == verify(record)
      ensures !ok ==> entries == old(entries) && accepted == old(accepted) && lastPublish == old(lastPublish)
      ensures ok ==>
                var key := keyOf(record);
                && accepted == old(accepted) + 1
                && key in entries && entries == old(entries)[key := entries[key]]
                && lastPublish.Some?
                && lastPublish == Some(PublishResult(key, infoHashOf(key), lastPublish.value.inserted, !lastPublish.value.inserted))
                && (lastPublish.value.inserted <==>
                      forall x :: key in old(entries) && x in old(entries)[key] ==>
                        x.record.signature != record.signature || x.record.signerPublicKey != record.signerPublicKey)
                && Merged(if key in old(entries) then old(entries)[key] else [], record, now, entries[key], lastPublish.value.inserted)
    {
      hide ValidBucket, Count, Total;
      if !verify(record) {
        return false;
      }
      ok := true;
      var key := keyOf(record);
      var infoHash := infoHashOf(key);
      var bucket := if key in entries then entries[key] else [];
      if key !in entries { EmptyBucket(key); }
      var i := FindDuplicate(bucket, record);
      accepted := accepted + 1;
      if i < |bucket| {
        var after := bucket[i := Again(bucket[i], now)];
        DuplicateKeeps(key, bucket, i, now);
        TotalUpdate(entries, PublishCount, key, after);
        wraps := wraps + Wraps(bucket[i]);
        entries := entries[key := after];
        lastPublish := Some(PublishResult(key, infoHash, false, true));
      } else {
        var e := Published(key, infoHash, record, now, 1);
        InsertKeeps(key, bucket, e);
        TotalUpdate(entries, PublishCount, key, bucket + [e]);
        entries := entries[key := bucket + [e]];
        lastPublish := Some(PublishResult(key, infoHash, true, false));
      }
    }

    lemma EmptyBucket(key: string)
      ensures ValidBucket(key, []) && Count([], PublishCount) == 0
    {
    }

    // ----- republishing -----

    predicate Fresh(e: Published, now: int, window: int) { now - e.publishedAt <= window }

    function Refreshed(e: Published, now: int, window: int): Published {
      if Fresh(e, now, window) then Again(e, now) else e
    }

    ghost function RefreshedBucket(bucket: seq<Published>, now: int, window: int): seq<Published> {
      seq(|bucket|, i requires 0 <= i < |bucket| => Refreshed(bucket[i], now, window))
    }

    // 1 for an entry inside the freshness window.
    ghost function FreshWeight(now: int, window: int): Published -> nat {
      (e: Published) => if Fresh(e, now, window) then 1 else 0
    }

    // What a republish does to an entry: inside the window it is published once
    // more, now, and keeps everything else; outside it stays. Repeated at the same
    // moment it refreshes the same entries.
    lemma RefreshedMeaning(bucket: seq<Published>, now: int, window: int, i: nat)
      requires i < |bucket| && window >= 0
      ensures
        var before, after := bucket[i], RefreshedBucket(bucket, now, window)[i];
        && after.record == before.record && after.dhtKey == before.dhtKey && after.infoHash == before.infoHash
        && (now - before.publishedAt <= window ==>
              after.publishedAt == now && after.publishCount == (before.publishCount + 1) % COUNTER)
        && (now - before.publishedAt > window ==> after == before)
        && (now - after.publishedAt <= window <==> now - before.publishedAt <= window)
    {
    }

    // The inner loop of RepublishRecent.
    method RefreshBucket(ghost key: string, bucket: seq<Published>, now: int, window: int)
      returns (after: seq<Published>, count: nat, ghost wrapped: nat)
      requires ValidBucket(key, bucket)
      ensures after == RefreshedBucket(bucket, now, window) && ValidBucket(key, after)
      ensures count == Count(bucket, FreshWeight(now, window))
      ensures Count(after, PublishCount) + COUNTER * wrapped == Count(bucket, PublishCount) + count
    {
      hide *;
      NoneCounted(FreshWeight(now, window));
      assert bucket[..0] == [];
      after, count, wrapped := bucket, 0, 0;
      for i := 0 to |bucket|
        invariant ValidBucket(key, after) && |after| == |bucket|
        invariant forall j :: 0 <= j < i ==> after[j] == Refreshed(bucket[j], now, window)
        invariant forall j :: i <= j < |bucket| ==> after[j] == bucket[j]
        invariant Count(after, PublishCount) + COUNTER * wrapped == Count(bucket, PublishCount) + count
        invariant count == Count(bucket[..i], FreshWeight(now, window))
      {
        FreshCases(bucket[i], now, window);
        CountAppend(bucket[..i], FreshWeight(now, window), bucket[i]);
        assert bucket[..i] + [bucket[i]] == bucket[..i + 1];
        if now - after[i].publishedAt <= window {
          DuplicateKeeps(key, after, i, now);
          wrapped := wrapped + Wraps(after[i]);
          after := after[i := Again(after[i], now)];
          count := count + 1;
        }
      }
      assert bucket[..|bucket|] == bucket;
      AllRefreshed(bucket, after, now, window);
    }

    lemma NoneCounted(weight: Published -> nat) ensures Count([], weight) == 0 {
    }

    lemma FreshCases(e: Published, now: int, window: int)
      ensures now - e.publishedAt <= window ==> FreshWeight(now, window)(e) == 1 && Refreshed(e, now, window) == Again(e, now)
      ensures now - e.publishedAt > window ==> FreshWeight(now, window)(e) == 0 && Refreshed(e, now, window) == e
    {
    }

    lemma AllRefreshed(bucket: seq<Published>, after: seq<Published>, now: int, window: int)
      requires |after| == |bucket| && forall j :: 0 <= j < |bucket| ==> after[j] == Refreshed(bucket[j], now, window)
      ensures after == RefreshedBucket(bucket, now, window)
    {
    }

    method RepublishRecent(window: int, now: int) returns (count: nat)
      requires Valid()
      modifies this
      ensures Valid() && accepted == old(accepted) + count && lastPublish == old(lastPublish)
      ensures count == Total(old(entries), FreshWeight(now, window))
      ensures entries.Keys == old(entries).Keys
      ensures forall k :: k in entries ==> entries[k] == RefreshedBucket(old(entries)[k], now, window)
    {
      hide ValidBucket, Count, Total, RefreshedBucket, FreshWeight;
      count := 0;
      var keys := entries.Keys;
      ghost var was, weight := entries, FreshWeight(now, window);
      assert was - keys == map[];
      NothingCounts(weight);
      while keys != {}
        invariant Valid() && accepted == old(accepted) + count && lastPublish == old(lastPublish)
        invariant count == Total(was - keys, weight)
        invariant entries.Keys == old(entries).Keys && keys <= entries.Keys
        invariant forall k :: k in keys ==> entries[k] == old(entries)[k]
        invariant forall k :: k in entries && k !in keys ==> entries[k] == RefreshedBucket(old(entries)[k], now, window)
        decreases keys
      {
        var key :| key in keys;
        var after, refreshed;
        ghost var wrapped;
        after, refreshed, wrapped := RefreshBucket(key, entries[key], now, window);
        TotalUpdate(entries, PublishCount, key, after);
        TotalUpdate(was - keys, weight, key, was[key]);
        assert was - (keys - {key}) == (was - keys)[key := was[key]];
        entries := entries[key := after];
        count := count + refreshed;
        accepted := accepted + refreshed;
        wraps := wraps + wrapped;
        keys := keys - {key};
      }
      assert was - {} == was;
    }

    // ----- queries -----

    ghost function Stored(): set<Published>
      reads this
    {
      set k, e | k in entries && e in entries[k] :: e
    }

    ghost function Matching(q: EventQuery): set<Published>
      reads this
    {
      set e | e in Stored() && Matches(e, q)
    }

    // At most `limit` entries, all of them matching, newest first, and nothing
    // left out that is newer than something returned.
    method Query(q: EventQuery) returns (r: seq<Published>)
      requires Valid()
      ensures forall e :: e in r ==> e in Matching(q)
      ensures NoRepeats(r) && NewestFirst(r)
      ensures |r| == if q.limit < |Matching(q)| then q.limit else |Matching(q)|
      ensures forall e, x :: e in Matching(q) && e !in r && x in r ==> x.publishedAt >= e.publishedAt
    {
      var matches := CollectMatches(q);
      ghost var all := matches;
      NoRepeatsSize(matches, Matching(q));
      matches := SortNewest(matches);
      r := if |matches| > q.limit then matches[..q.limit] else matches;
      forall e, x | e in Matching(q) && e !in r && x in r ensures x.publishedAt >= e.publishedAt {
        assert e in all && e in matches;
        var i :| 0 <= i < |matches| && matches[i] == e;
        var j :| 0 <= j < |r| && r[j] == x;
        assert i >= |r| && matches[j] == x;
      }
    }

    method CollectMatches(q: EventQuery) returns (matches: seq<Published>)
      requires Valid()
      ensures NoRepeats(matches) && forall e :: e in matches <==> e in Matching(q)
    {
      matches := [];
      var keys := entries.Keys;
      while keys != {}
        invariant keys <= entries.Keys && NoRepeats(matches)
        invariant forall e :: e in matches <==> e in Matching(q) && e.dhtKey !in keys
        decreases keys
      {
        var key :| key in keys;
        var found := BucketMatches(key, q);
        assert forall e :: e in Matching(q) && e.dhtKey == key <==> e in entries[key] && Matches(e, q);
        matches := matches + found;
        keys := keys - {key};
      }
    }

    method BucketMatches(key: string, q: EventQuery) returns (found: seq<Published>)
      requires Valid() && key in entries
      ensures NoRepeats(found) && forall e :: e in found <==> e in entries[key] && Matches(e, q)
    {
      found := [];
      var bucket := entries[key];
      for i := 0 to |bucket|
        invariant NoRepeats(found) && forall e :: e in found <==> e in bucket[..i] && Matches(e, q)
      {
        assert bucket[..i + 1] == bucket[..i] + [bucket[i]];
        assert bucket[i] !in bucket[..i];
        if Matches(bucket[i], q) {
          found := found + [bucket[i]];
        }
      }
      assert bucket[..|bucket|] == bucket;
    }
  }

  lemma {:induction false} NoRepeatsSize(s: seq<Published>, elements: set<Published>)
    requires NoRepeats(s) && forall e :: e in s <==> e in elements
    ensures |elements| == |s|
  {
    if s == [] {
      assert elements == {};
    } else {
      var n := |s| - 1;
      assert s == s[..n] + [s[n]];
      NoRepeatsSize(s[..n], elements - {s[n]});
    }
  }
}
