// Which advertisement stands for a peer in an answer: the first hit of its identity, which need
// not be the freshest (crates/broadwebd/src/peer_discovery.rs).
module AnswerFreshness {
  import opened Text
  import opened PeerDiscovery
  import opened CompositeDiscovery

  // ---------- answers are first hits ----------

  /** Position i is the first of its identity. */
  predicate IsFirstHit(hits: seq<Peer>, i: nat) {
    i < |hits| && forall j :: 0 <= j < i ==> Id(hits[j]) != Id(hits[i])
  }

  /** Position i is the first of its identity, and fewer than n identities come before it. */
  predicate IsWithin(hits: seq<Peer>, n: nat, i: nat) {
    IsFirstHit(hits, i) && |Ids(hits[..i])| < n
  }

  ghost predicate IsTaken(hits: seq<Peer>, n: nat, p: Peer) {
    exists i: nat :: IsWithin(hits, n, i) && hits[i] == p
  }

  lemma FirstWinsLast(front: seq<Peer>, last: Peer)
    ensures FirstWins([], front + [last]) == Admit1(FirstWins([], front), last)
  {
    FirstWinsAppend([], front, [last]);
    var kept := FirstWins([], front);
    assert [last][1..] == [];
    assert FirstWins(Admit1(kept, last), []) == Admit1(kept, last);
  }

  /** De-duplicated, a list has one peer per identity. */
  lemma FirstWinsCount(hits: seq<Peer>)
    ensures Ids(FirstWins([], hits)) == Ids(hits)
    ensures |FirstWins([], hits)| == |Ids(hits)|
  {
    FirstWinsShape([], hits);
    DistinctIds(FirstWins([], hits));
  }

  lemma TakenEarlier(front: seq<Peer>, last: Peer, n: nat, i: nat)
    requires i < |front|
    ensures IsWithin(front + [last], n, i) <==> IsWithin(front, n, i)
  {
    assert (front + [last])[..i] == front[..i];
    assert forall j :: 0 <= j <= i ==> (front + [last])[j] == front[j];
  }

  lemma TakenLast(front: seq<Peer>, last: Peer, n: nat)
    ensures IsWithin(front + [last], n, |front|) <==> Id(last) !in Ids(front) && |Ids(front)| < n
  {
    var all := front + [last];
    assert all[..|front|] == front && all[|front|] == last;
    if Id(last) in Ids(front) {
      var p :| p in front && Id(p) == Id(last);
      var j :| 0 <= j < |front| && front[j] == p;
      assert Id(all[j]) == Id(all[|front|]);
    } else {
      forall j | 0 <= j < |front| ensures Id(all[j]) != Id(last) {
        assert front[j] in front;
      }
    }
  }

  lemma TakenStep(front: seq<Peer>, last: Peer, n: nat, p: Peer)
    ensures IsTaken(front + [last], n, p) <==>
            IsTaken(front, n, p) || (p == last && Id(last) !in Ids(front) && |Ids(front)| < n)
  {
    var all := front + [last];
    TakenLast(front, last, n);
    if IsTaken(front, n, p) {
      var i: nat :| IsWithin(front, n, i) && front[i] == p;
      TakenEarlier(front, last, n, i);
      assert all[i] == p;
    }
    if IsTaken(all, n, p) {
      var i: nat :| IsWithin(all, n, i) && all[i] == p;
      if i < |front| {
        TakenEarlier(front, last, n, i);
      }
    }
  }

  lemma TakeOneMore(kept: seq<Peer>, last: Peer, n: nat, p: Peer)
    ensures p in Take(Admit1(kept, last), n) <==>
            p in Take(kept, n) || (p == last && Id(last) !in Ids(kept) && |kept| < n)
  {
    if Id(last) !in Ids(kept) && |kept| >= n {
      assert (kept + [last])[..n] == kept[..n];
    }
  }

  /** The first n peers of a de-duplicated list are the first hits of its first n identities. */
  lemma {:induction false} TakenIff(hits: seq<Peer>, n: nat, p: Peer)
    ensures p in Take(FirstWins([], hits), n) <==> IsTaken(hits, n, p)
    decreases |hits|
  {
    if hits != [] {
      var front, last := hits[..|hits| - 1], hits[|hits| - 1];
      assert hits == front + [last];
      TakenIff(front, n, p);
      TakenStep(front, last, n, p);
      FirstWinsLast(front, last);
      FirstWinsCount(front);
      TakeOneMore(FirstWins([], front), last, n, p);
    }
  }

  /** The hits a query is answered from. */
  function HitsOf(s: Source, q: Query): seq<Peer> {
    AllHits(Leaves(s), q, q.protocols)
  }

  /** The answers are exactly the first hits of the first `maxPeers` identities. */
  lemma AnswersIff(s: Source, q: Query, p: Peer)
    ensures p in Search(s, q) <==> IsTaken(HitsOf(s, q), q.maxPeers, p)
  {
    SearchIsTruncatedUnlimited(s, q);
    TakenIff(HitsOf(s, q), q.maxPeers, p);
  }

  // ---------- when the freshest advertisement answers ----------

  predicate IsFreshestOf(hits: seq<Peer>, p: Peer) {
    forall j :: 0 <= j < |hits| && Id(hits[j]) == Id(p) ==> hits[j].advertisement.sequence <= p.advertisement.sequence
  }

  /** The first hit of each identity within the limit is a freshest one. */
  predicate FirstHitsFreshest(hits: seq<Peer>, n: nat) {
    forall i :: 0 <= i < |hits| && IsWithin(hits, n, i) ==> IsFreshestOf(hits, hits[i])
  }

  /** For any limit, the freshest advertisements answer exactly when they come first. */
  lemma AnswersFreshestIff(s: Source, q: Query)
    ensures (forall p :: p in Search(s, q) ==> IsFreshestOf(HitsOf(s, q), p))
            <==> FirstHitsFreshest(HitsOf(s, q), q.maxPeers)
  {
    var hits := HitsOf(s, q);
    forall p ensures p in Search(s, q) <==> IsTaken(hits, q.maxPeers, p) {
      AnswersIff(s, q, p);
    }
    if FirstHitsFreshest(hits, q.maxPeers) {
      forall p | p in Search(s, q) ensures IsFreshestOf(hits, p) {
        var i: nat :| IsWithin(hits, q.maxPeers, i) && hits[i] == p;
      }
    }
    if forall p :: p in Search(s, q) ==> IsFreshestOf(hits, p) {
      forall i | 0 <= i < |hits| && IsWithin(hits, q.maxPeers, i) ensures IsFreshestOf(hits, hits[i]) {
        assert IsTaken(hits, q.maxPeers, hits[i]);
      }
    }
  }

  // ---------- an older advertisement can answer ----------

  lemma InOrderOfOne(k: RecordKey)
    ensures InOrder({k}) == [k]
  {
    var keys := InOrder({k});
    assert k in keys;
    forall i | 0 <= i < |keys| ensures keys[i] == k {
      assert keys[i] in keys;
    }
    if |keys| > 1 {
      assert KeyBefore(keys[0], keys[1]);
      KeyBeforeTotal(k, k);
    }
  }

  lemma OneRecord(k: RecordKey, a: Advertisement, q: Query)
    requires Matches(q, k.protocol, k, a)
    ensures Hits(map[k := a], q, k.protocol) == [Peer(k.protocol, k.namespace, a)]
  {
    var records := map[k := a];
    assert records.Keys == {k};
    InOrderOfOne(k);
    assert Select(records, [k][1..], q, k.protocol) == [];
  }

  /** A composite of two networks that hold one advertisement each. */
  function TwoNetworks(k: RecordKey, first: Advertisement, second: Advertisement): Source {
    Node([Leaf(map[k := first]), Leaf(map[k := second])])
  }

  lemma TwoNetworksHits(k: RecordKey, first: Advertisement, second: Advertisement, q: Query)
    requires q.protocols == [k.protocol]
    requires Matches(q, k.protocol, k, first) && Matches(q, k.protocol, k, second)
    ensures HitsOf(TwoNetworks(k, first, second), q)
         == [Peer(k.protocol, k.namespace, first), Peer(k.protocol, k.namespace, second)]
  {
    var stores := [map[k := first], map[k := second]];
    TwoLeaves(map[k := first], map[k := second]);
    AllHitsOfOne(stores, q, k.protocol);
    OneRecord(k, first, q);
    OneRecord(k, second, q);
    assert stores == [map[k := first]] + [map[k := second]];
    ProtocolHitsAppend([map[k := first]], [map[k := second]], q, k.protocol);
    OneStore(map[k := first], q, k.protocol);
    OneStore(map[k := second], q, k.protocol);
  }

  lemma OneStore(records: Records, q: Query, protocol: Protocol)
    ensures ProtocolHits([records], q, protocol) == Hits(records, q, protocol)
  {
    assert ProtocolHits([records][1..], q, protocol) == [];
  }

  lemma TwoLeaves(first: Records, second: Records)
    ensures Leaves(Node([Leaf(first), Leaf(second)])) == [first, second]
  {
    var children := [Leaf(first), Leaf(second)];
    assert children[1..] == [Leaf(second)] && [Leaf(second)][1..] == [];
    assert LeavesOf([Leaf(second)]) == Leaves(Leaf(second)) + LeavesOf([]) == [second];
    assert LeavesOf(children) == Leaves(Leaf(first)) + LeavesOf([Leaf(second)]) == [first, second];
  }

  /** Both networks hold one peer's advertisement; whatever their sequences, the first network's answers. */
  lemma FirstNetworkAnswers(k: RecordKey, first: Advertisement, second: Advertisement, q: Query)
    requires q.protocols == [k.protocol] && q.maxPeers > 0
    requires Matches(q, k.protocol, k, first) && Matches(q, k.protocol, k, second)
    requires Id(Peer(k.protocol, k.namespace, first)) == Id(Peer(k.protocol, k.namespace, second))
    ensures Search(TwoNetworks(k, first, second), q) == [Peer(k.protocol, k.namespace, first)]
  {
    var p, r := Peer(k.protocol, k.namespace, first), Peer(k.protocol, k.namespace, second);
    SearchIsTruncatedUnlimited(TwoNetworks(k, first, second), q);
    TwoNetworksHits(k, first, second, q);
    assert [p, r] == [p] + [r] && [p] == [] + [p];
    FirstWinsLast([p], r);
    FirstWinsLast([], p);
    assert p in [p];
  }

  /** So an older advertisement can answer while a fresher one of the same peer is stored. */
  lemma OlderAnswers(k: RecordKey, older: Advertisement, fresher: Advertisement, q: Query)
    requires q.protocols == [k.protocol] && q.maxPeers > 0
    requires Matches(q, k.protocol, k, older) && Matches(q, k.protocol, k, fresher)
    requires Id(Peer(k.protocol, k.namespace, older)) == Id(Peer(k.protocol, k.namespace, fresher))
    requires older.sequence < fresher.sequence
    ensures var s, p := TwoNetworks(k, older, fresher), Peer(k.protocol, k.namespace, older);
            p in Search(s, q) && !IsFreshestOf(HitsOf(s, q), p)
  {
    FirstNetworkAnswers(k, older, fresher, q);
    TwoNetworksHits(k, older, fresher, q);
    var hits := HitsOf(TwoNetworks(k, older, fresher), q);
    assert hits[1] == Peer(k.protocol, k.namespace, fresher);
  }

  // ---------- networks in step ----------

  predicate AllHold(stores: seq<Records>, records: Records) {
    forall j :: 0 <= j < |stores| ==> stores[j] == records
  }

  lemma {:induction false} ProtocolHitsInStep(stores: seq<Records>, records: Records, q: Query, protocol: Protocol, p: Peer)
    requires AllHold(stores, records) && p in ProtocolHits(stores, q, protocol)
    ensures p in Hits(records, q, protocol)
  {
    assert stores[0] == records;
    if p !in Hits(records, q, protocol) {
      ProtocolHitsInStep(stores[1..], records, q, protocol, p);
    }
  }

  /** Under one protocol a store has one record of an identity. */
  lemma OneHitPerIdentity(records: Records, q: Query, protocol: Protocol, p: Peer, r: Peer)
    requires WellKeyed(records) && p in Hits(records, q, protocol) && r in Hits(records, q, protocol)
    requires Id(p) == Id(r)
    ensures p == r
  {
    HitsMembers(records, q, protocol, p);
    HitsMembers(records, q, protocol, r);
    var k :| k in records && Matches(q, protocol, k, records[k]) && p == PeerAt(records, k);
    var j :| j in records && Matches(q, protocol, j, records[j]) && r == PeerAt(records, j);
    assert Publication(k.protocol, k.namespace, records[k]).Key() == k;
    assert Publication(j.protocol, j.namespace, records[j]).Key() == j;
  }

  lemma OneProtocolHits(s: Source, q: Query, protocol: Protocol, records: Records, p: Peer)
    requires q.protocols == [protocol] && AllHold(Leaves(s), records) && p in HitsOf(s, q)
    ensures p in Hits(records, q, protocol)
  {
    AllHitsOfOne(Leaves(s), q, protocol);
    ProtocolHitsInStep(Leaves(s), records, q, protocol, p);
  }

  /** One protocol, and networks that hold the same: the freshest advertisement always answers. */
  lemma InStepFreshest(s: Source, q: Query, protocol: Protocol, records: Records, p: Peer)
    requires q.protocols == [protocol] && AllHold(Leaves(s), records) && WellKeyed(records)
    requires p in Search(s, q)
    ensures IsFreshestOf(HitsOf(s, q), p)
  {
    var hits := HitsOf(s, q);
    AnswersIff(s, q, p);
    assert p in hits;
    OneProtocolHits(s, q, protocol, records, p);
    forall j | 0 <= j < |hits| && Id(hits[j]) == Id(p)
      ensures hits[j].advertisement.sequence <= p.advertisement.sequence
    {
      OneProtocolHits(s, q, protocol, records, hits[j]);
      OneHitPerIdentity(records, q, protocol, hits[j], p);
    }
  }

  /** Every store holds this advertisement under this key, whatever else it holds. */
  ghost predicate HeldByAll(stores: seq<Records>, k: RecordKey, a: Advertisement) {
    forall j :: 0 <= j < |stores| ==> WellKeyed(stores[j]) && k in stores[j] && stores[j][k] == a
  }

  lemma HeadOrRest(stores: seq<Records>, q: Query, protocol: Protocol, p: Peer)
    requires p in ProtocolHits(stores, q, protocol)
    ensures stores != []
    ensures p in Hits(stores[0], q, protocol) || p in ProtocolHits(stores[1..], q, protocol)
  {
  }

  lemma HeldHitAt(records: Records, q: Query, k: RecordKey, p: Peer)
    requires WellKeyed(records) && k in records && Matches(q, k.protocol, k, records[k])
    requires p in Hits(records, q, k.protocol) && Id(p) == Id(PeerAt(records, k))
    ensures p == PeerAt(records, k)
  {
    HitsMembers(records, q, k.protocol, PeerAt(records, k));
    OneHitPerIdentity(records, q, k.protocol, p, PeerAt(records, k));
  }

  lemma {:induction false} HeldHit(stores: seq<Records>, q: Query, k: RecordKey, a: Advertisement, p: Peer)
    requires HeldByAll(stores, k, a) && Matches(q, k.protocol, k, a)
    requires p in ProtocolHits(stores, q, k.protocol) && Id(p) == Id(Peer(k.protocol, k.namespace, a))
    ensures p == Peer(k.protocol, k.namespace, a)
    decreases |stores|
  {
    HeadOrRest(stores, q, k.protocol, p);
    if p in Hits(stores[0], q, k.protocol) {
      HeldHitAt(stores[0], q, k, p);
    } else {
      assert forall j :: 0 <= j < |stores[1..]| ==> stores[1..][j] == stores[j + 1];
      HeldHit(stores[1..], q, k, a, p);
    }
  }

  /** What all stores hold under a matching key is its identity's only answer, if there is room. */
  lemma HeldAnswers(s: Source, q: Query, k: RecordKey, a: Advertisement)
    requires q.protocols == [k.protocol] && Leaves(s) != []
    requires HeldByAll(Leaves(s), k, a) && Matches(q, k.protocol, k, a)
    requires |Search(s, q)| < q.maxPeers
    ensures Peer(k.protocol, k.namespace, a) in Search(s, q)
  {
    var p := Peer(k.protocol, k.namespace, a);
    assert Leaves(s)[0][k] == a && PeerAt(Leaves(s)[0], k) == p;
    SearchIsComplete(s, q, 0, k);
    var r :| r in Search(s, q) && Id(r) == Id(p);
    AnswersIff(s, q, r);
    assert r in HitsOf(s, q);
    AllHitsOfOne(Leaves(s), q, k.protocol);
    HeldHit(Leaves(s), q, k, a, r);
  }

  lemma {:induction false} StoreWellKeyed(run: seq<Publication>)
    ensures WellKeyed(Store(run))
  {
    if run != [] {
      StoreWellKeyed(run[..|run| - 1]);
    }
  }

  /** So after any run of publications made to all networks alike, an answer is the earliest freshest publication of its key. */
  lemma PublishedFreshest(s: Source, q: Query, protocol: Protocol, run: seq<Publication>, p: Peer)
    requires q.protocols == [protocol] && AllHold(Leaves(s), Store(run)) && p in Search(s, q)
    ensures IsFreshestOf(HitsOf(s, q), p)
    ensures exists i: nat ::
              IsEarliestPublication(run, Publication(p.protocol, p.namespace, p.advertisement).Key(), i)
              && run[i].advertisement == p.advertisement
  {
    StoreWellKeyed(run);
    InStepFreshest(s, q, protocol, Store(run), p);
    AnswersIff(s, q, p);
    assert p in HitsOf(s, q);
    OneProtocolHits(s, q, protocol, Store(run), p);
    HitsMembers(Store(run), q, protocol, p);
    var k :| k in Store(run) && Matches(q, protocol, k, Store(run)[k]) && p == PeerAt(Store(run), k);
    StoreHoldsEarliestFreshest(run, k);
  }
}
