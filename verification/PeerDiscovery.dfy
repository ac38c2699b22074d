// Peer advertisements, the keyed advertisement store, its answers to a query, and first-wins
// de-duplication (crates/broadwebd/src/peer_discovery.rs).
module PeerDiscovery {
  import opened Text
  import opened MultiaddrText
  import opened SocketText

  // ---------- advertisements ----------

  datatype Protocol = Libp2pRendezvous | Libp2pKademlia | Ipns | IrohRendezvous | LocalSimulation

  type U64 = n: int | 0 <= n < 0x1_0000_0000_0000_0000

  datatype Signature = Signature(
    version: Byte, algorithm: string, deviceId: string, publicKey: seq<Byte>, bytes: seq<Byte>)

  datatype Advertisement = Advertisement(
    networkId: string,
    nodeId: string,
    providerId: string,
    serviceAddr: string,
    capabilities: seq<string>,
    membershipEpoch: int,
    sequence: U64,
    identitySignature: Option<Signature>)

  datatype DiscoveryError = BadRequest | Unsupported

  const SCHEMA_VERSION: Byte := 1
  const ED25519 := "ed25519"
  const SERVICE_FRAME_CAPABILITY := "profile-sync/service-frame-tcp"

  predicate IsTokenChar(c: char) {
    IsAsciiAlphanumeric(c) || c == '-' || c == '_'
  }

  predicate IsToken(s: string) {
    s != "" && |s| <= 128 && forall i :: 0 <= i < |s| ==> IsTokenChar(s[i])
  }

  predicate IsCapability(s: string) {
    s != "" && |s| <= 128 && forall i :: 0 <= i < |s| ==> IsTokenChar(s[i]) || s[i] == '/'
  }

  predicate IsNamespace(s: string) {
    s != "" && |s| <= 256 && forall i :: 0 <= i < |s| ==> IsTokenChar(s[i]) || s[i] == '.' || s[i] == '/'
  }

  predicate IsServiceAddr(text: AddressText, s: string) {
    text.parseSocket(s).Some? || ParseMultiaddr(s).Ok?
  }

  predicate IsValidSignature(signature: Signature) {
    && IsToken(signature.deviceId)
    && signature.version == SCHEMA_VERSION
    && signature.algorithm == ED25519
    && |signature.publicKey| == 32
    && |signature.bytes| == 64
  }

  predicate IsValidAdvertisement(text: AddressText, a: Advertisement) {
    && IsToken(a.networkId) && IsToken(a.nodeId) && IsToken(a.providerId)
    && IsServiceAddr(text, a.serviceAddr)
    && a.capabilities != []
    && (forall i :: 0 <= i < |a.capabilities| ==> IsCapability(a.capabilities[i]))
    && a.membershipEpoch >= 1
    && a.sequence != 0
    && (a.identitySignature.Some? ==>
          IsValidSignature(a.identitySignature.value) && a.identitySignature.value.deviceId == a.nodeId)
  }

  predicate SupportsServiceFrames(a: Advertisement) {
    SERVICE_FRAME_CAPABILITY in a.capabilities
  }

  // ---------- the keyed store ----------

  datatype RecordKey = RecordKey(protocol: Protocol, networkId: string, namespace: string, nodeId: string, providerId: string)

  datatype Publication = Publication(protocol: Protocol, namespace: string, advertisement: Advertisement) {
    function Key(): RecordKey {
      RecordKey(protocol, advertisement.networkId, namespace, advertisement.nodeId, advertisement.providerId)
    }
  }

  type Records = map<RecordKey, Advertisement>

  predicate IsValidPublication(text: AddressText, p: Publication) {
    IsNamespace(p.namespace) && IsValidAdvertisement(text, p.advertisement)
  }

  /** Every record sits under the key its own advertisement spells. */
  ghost predicate WellKeyed(records: Records) {
    forall k :: k in records ==> Publication(k.protocol, k.namespace, records[k]).Key() == k
  }

  /** Every record's node id is a well-formed token. */
  predicate TokenIds(records: Records) {
    forall k :: k in records ==> IsToken(records[k].nodeId)
  }

  function Upsert(records: Records, p: Publication): (r: Records)
    ensures WellKeyed(records) ==> WellKeyed(r)
    ensures TokenIds(records) && IsToken(p.advertisement.nodeId) ==> TokenIds(r)
  {
    if p.Key() !in records || p.advertisement.sequence > records[p.Key()].sequence
    then records[p.Key() := p.advertisement]
    else records
  }

  lemma UpsertTwice(records: Records, p: Publication)
    ensures Upsert(Upsert(records, p), p) == Upsert(records, p)
  {
  }

  /** What the store holds after a run of accepted publications. */
  function Store(run: seq<Publication>): Records {
    if run == [] then map[] else Upsert(Store(run[..|run| - 1]), run[|run| - 1])
  }

  /** Position i of the run is the earliest publication of k with k's largest sequence. */
  predicate IsEarliestPublication(run: seq<Publication>, k: RecordKey, i: nat) {
    && i < |run|
    && run[i].Key() == k
    && (forall j :: 0 <= j < |run| && run[j].Key() == k ==>
          run[j].advertisement.sequence <= run[i].advertisement.sequence)
    && (forall j :: 0 <= j < i && run[j].Key() == k ==>
          run[j].advertisement.sequence < run[i].advertisement.sequence)
  }

  predicate Mentions(run: seq<Publication>, k: RecordKey) {
    exists i :: 0 <= i < |run| && run[i].Key() == k
  }

  lemma EarliestStep(run: seq<Publication>, last: Publication, k: RecordKey, i: nat)
    requires IsEarliestPublication(run, k, i)
    ensures last.Key() == k && last.advertisement.sequence > run[i].advertisement.sequence
            ==> IsEarliestPublication(run + [last], k, |run|)
    ensures !(last.Key() == k && last.advertisement.sequence > run[i].advertisement.sequence)
            ==> IsEarliestPublication(run + [last], k, i)
  {
  }

  lemma MentionsLast(run: seq<Publication>, last: Publication, k: RecordKey)
    ensures Mentions(run + [last], k) <==> Mentions(run, k) || last.Key() == k
  {
    if Mentions(run, k) {
      var i :| 0 <= i < |run| && run[i].Key() == k;
      assert (run + [last])[i].Key() == k;
    }
    if last.Key() == k {
      assert (run + [last])[|run|].Key() == k;
    }
  }

  lemma FirstMention(run: seq<Publication>, last: Publication)
    requires !Mentions(run, last.Key())
    ensures IsEarliestPublication(run + [last], last.Key(), |run|)
  {
    assert forall j :: 0 <= j < |run| ==> run[j].Key() != last.Key();
  }

  /** These records hold, under k, the earliest of the run's publications of k with the largest sequence. */
  ghost predicate HoldsEarliest(run: seq<Publication>, records: Records, k: RecordKey) {
    && (k in records <==> Mentions(run, k))
    && (k in records ==> exists i: nat :: IsEarliestPublication(run, k, i) && records[k] == run[i].advertisement)
  }

  lemma UpsertHolds(run: seq<Publication>, records: Records, last: Publication, k: RecordKey)
    requires HoldsEarliest(run, records, k)
    ensures HoldsEarliest(run + [last], Upsert(records, last), k)
  {
    MentionsLast(run, last, k);
    if k in records {
      var i: nat :| IsEarliestPublication(run, k, i) && records[k] == run[i].advertisement;
      EarliestStep(run, last, k, i);
    } else if last.Key() == k {
      FirstMention(run, last);
    }
  }

  lemma {:induction false} StoreHolds(run: seq<Publication>, k: RecordKey)
    ensures HoldsEarliest(run, Store(run), k)
  {
    if run != [] {
      var n := |run| - 1;
      StoreHolds(run[..n], k);
      UpsertHolds(run[..n], Store(run[..n]), run[n], k);
      assert run == run[..n] + [run[n]];
    }
  }

  lemma StoreHoldsEarliestFreshest(run: seq<Publication>, k: RecordKey)
    ensures k in Store(run) <==> Mentions(run, k)
    ensures k in Store(run) ==>
              exists i: nat :: IsEarliestPublication(run, k, i) && Store(run)[k] == run[i].advertisement
  {
    StoreHolds(run, k);
  }

  // ---------- convergence ----------

  ghost predicate SamePublications(run: seq<Publication>, other: seq<Publication>) {
    forall p :: p in run <==> p in other
  }

  /** p carries the largest sequence of its key. */
  predicate IsTop(run: seq<Publication>, p: Publication) {
    p in run && forall r :: r in run && r.Key() == p.Key() ==> r.advertisement.sequence <= p.advertisement.sequence
  }

  /** Two publications of one key that both carry its largest sequence are the same. */
  ghost predicate TopsAgree(run: seq<Publication>) {
    forall p, q :: IsTop(run, p) && IsTop(run, q) && p.Key() == q.Key() ==> p.advertisement == q.advertisement
  }

  /** What a store holds under a key is one of the key's top publications. */
  lemma StoreHoldsTop(run: seq<Publication>, k: RecordKey) returns (p: Publication)
    requires k in Store(run)
    ensures IsTop(run, p) && p.Key() == k && Store(run)[k] == p.advertisement
  {
    StoreHoldsEarliestFreshest(run, k);
    var i: nat :| IsEarliestPublication(run, k, i) && Store(run)[k] == run[i].advertisement;
    p := run[i];
  }

  lemma SameKeys(run: seq<Publication>, other: seq<Publication>)
    requires SamePublications(run, other)
    ensures Store(run).Keys == Store(other).Keys
  {
    forall k ensures k in Store(run) <==> k in Store(other) {
      StoreHoldsEarliestFreshest(run, k);
      StoreHoldsEarliestFreshest(other, k);
      MentionedAlike(run, other, k);
      MentionedAlike(other, run, k);
    }
  }

  lemma MentionedAlike(run: seq<Publication>, other: seq<Publication>, k: RecordKey)
    requires SamePublications(run, other)
    ensures Mentions(run, k) ==> Mentions(other, k)
  {
    if i :| 0 <= i < |run| && run[i].Key() == k {
      assert run[i] in other;
      var j :| 0 <= j < |other| && other[j] == run[i];
    }
  }

  lemma SameTops(run: seq<Publication>, other: seq<Publication>, p: Publication)
    requires SamePublications(run, other) && IsTop(run, p)
    ensures IsTop(other, p)
  {
  }

  lemma StoreAgreesOn(run: seq<Publication>, other: seq<Publication>, k: RecordKey)
    requires SamePublications(run, other) && k in Store(run) && k in Store(other)
    ensures Store(run)[k].sequence == Store(other)[k].sequence
    ensures TopsAgree(run) ==> Store(run)[k] == Store(other)[k]
  {
    var p := StoreHoldsTop(run, k);
    var q := StoreHoldsTop(other, k);
    SameTops(other, run, q);
  }

  /** The same publications in any order, however often each, give the same keys at the same sequences. */
  lemma StoresConverge(run: seq<Publication>, other: seq<Publication>)
    requires SamePublications(run, other)
    ensures Store(run).Keys == Store(other).Keys
    ensures forall k :: k in Store(run) ==> Store(run)[k].sequence == Store(other)[k].sequence
    ensures TopsAgree(run) ==> Store(run) == Store(other)
  {
    SameKeys(run, other);
    forall k | k in Store(run)
      ensures Store(run)[k].sequence == Store(other)[k].sequence
      ensures TopsAgree(run) ==> Store(run)[k] == Store(other)[k]
    {
      assert k in Store(run).Keys;
      StoreAgreesOn(run, other, k);
    }
  }

  /** A top publication made first is the one that is held. */
  lemma FrontTopHeld(run: seq<Publication>, p: Publication)
    requires IsTop(run, p)
    ensures p.Key() in Store([p] + run) && Store([p] + run)[p.Key()] == p.advertisement
  {
    var all, k := [p] + run, p.Key();
    assert all[0] == p && Mentions(all, k);
    StoreHoldsEarliestFreshest(all, k);
    var i: nat :| IsEarliestPublication(all, k, i) && Store(all)[k] == all[i].advertisement;
  }

  /** Some order of the run's publications holds any given top publication. */
  lemma TopCanBeHeld(run: seq<Publication>, p: Publication) returns (other: seq<Publication>)
    requires IsTop(run, p)
    ensures SamePublications(run, other)
    ensures p.Key() in Store(other) && Store(other)[p.Key()] == p.advertisement
  {
    FrontTopHeld(run, p);
    other := [p] + run;
  }

  /** Every order of the run's publications leads to the same store. */
  ghost predicate OrderIrrelevant(run: seq<Publication>) {
    forall other: seq<Publication> :: SamePublications(run, other) ==> Store(other) == Store(run)
  }

  lemma TopFixed(run: seq<Publication>, p: Publication)
    requires OrderIrrelevant(run) && IsTop(run, p)
    ensures p.Key() in Store(run) && Store(run)[p.Key()] == p.advertisement
  {
    var other := TopCanBeHeld(run, p);
  }

  /**
   * Whole records converge exactly when no two different publications of a key share its largest
   * sequence; below the largest they may conflict.
   */
  lemma StoresConvergeIff(run: seq<Publication>)
    ensures OrderIrrelevant(run) <==> TopsAgree(run)
  {
    if TopsAgree(run) {
      forall other: seq<Publication> | SamePublications(run, other) ensures Store(other) == Store(run) {
        StoresConverge(run, other);
      }
    }
    if OrderIrrelevant(run) {
      forall p, q | IsTop(run, p) && IsTop(run, q) && p.Key() == q.Key() ensures p.advertisement == q.advertisement {
        TopFixed(run, p);
        TopFixed(run, q);
      }
    }
  }

  /** Any valid publication has a rival: valid, of the same key and sequence, but of another epoch. */
  function Rival(p: Publication): Publication {
    p.(advertisement := p.advertisement.(membershipEpoch := if p.advertisement.membershipEpoch == 1 then 2 else 1))
  }

  /** The two, accepted in the two orders, leave different records. */
  lemma RivalsDiverge(text: AddressText, p: Publication)
    requires IsValidPublication(text, p)
    ensures IsValidPublication(text, Rival(p)) && SamePublications([p, Rival(p)], [Rival(p), p])
    ensures Store([p, Rival(p)]) != Store([Rival(p), p])
  {
    var r := Rival(p);
    assert forall i :: 0 <= i < |r.advertisement.capabilities| ==> IsCapability(r.advertisement.capabilities[i]);
    HeldFirst(p, r);
    HeldFirst(r, p);
  }

  lemma HeldFirst(p: Publication, r: Publication)
    requires p.Key() == r.Key() && p.advertisement.sequence == r.advertisement.sequence
    ensures p.Key() in Store([p, r]) && Store([p, r])[p.Key()] == p.advertisement
  {
    assert [p] + [r] == [p, r];
    StoreHoldsEarliestFreshest([p, r], p.Key());
    assert [p, r][0].Key() == p.Key();
  }

  // ---------- key order ----------

  function Rank(p: Protocol): nat {
    match p
    case Libp2pRendezvous => 0
    case Libp2pKademlia => 1
    case Ipns => 2
    case IrohRendezvous => 3
    case LocalSimulation => 4
  }

  predicate TextsBefore(a: seq<string>, b: seq<string>)
    requires |a| == |b|
  {
    a != [] && (if a[0] == b[0] then TextsBefore(a[1..], b[1..]) else Before(a[0], b[0]))
  }

  function Texts(k: RecordKey): seq<string> {
    [k.networkId, k.namespace, k.nodeId, k.providerId]
  }

  /** The store's derived key order: field by field. */
  predicate KeyBefore(a: RecordKey, b: RecordKey) {
    if a.protocol != b.protocol then Rank(a.protocol) < Rank(b.protocol)
    else TextsBefore(Texts(a), Texts(b))
  }

  lemma {:induction false} TextsBeforeTotal(a: seq<string>, b: seq<string>)
    requires |a| == |b|
    ensures a == b || TextsBefore(a, b) || TextsBefore(b, a)
    ensures !(TextsBefore(a, b) && (a == b || TextsBefore(b, a)))
  {
    if a != [] {
      BeforeTotal(a[0], b[0]);
      TextsBeforeTotal(a[1..], b[1..]);
      assert a == [a[0]] + a[1..] && b == [b[0]] + b[1..];
    }
  }

  lemma {:induction false} TextsBeforeTransitive(a: seq<string>, b: seq<string>, c: seq<string>)
    requires |a| == |b| == |c| && TextsBefore(a, b) && TextsBefore(b, c)
    ensures TextsBefore(a, c)
  {
    BeforeTotal(a[0], b[0]);
    if a[0] == b[0] && b[0] == c[0] {
      TextsBeforeTransitive(a[1..], b[1..], c[1..]);
    } else if a[0] != b[0] && b[0] != c[0] {
      BeforeTransitive(a[0], b[0], c[0]);
      BeforeTotal(a[0], c[0]);
    }
  }

  lemma KeyBeforeTotal(a: RecordKey, b: RecordKey)
    ensures a == b || KeyBefore(a, b) || KeyBefore(b, a)
    ensures !(KeyBefore(a, b) && (a == b || KeyBefore(b, a)))
  {
    TextsBeforeTotal(Texts(a), Texts(b));
    if Texts(a) == Texts(b) && a.protocol == b.protocol {
      assert a.networkId == Texts(a)[0] && a.namespace == Texts(a)[1];
      assert a.nodeId == Texts(a)[2] && a.providerId == Texts(a)[3];
    }
  }

  lemma KeyBeforeTransitive(a: RecordKey, b: RecordKey, c: RecordKey)
    requires KeyBefore(a, b) && KeyBefore(b, c)
    ensures KeyBefore(a, c)
  {
    if a.protocol == b.protocol && b.protocol == c.protocol {
      TextsBeforeTransitive(Texts(a), Texts(b), Texts(c));
    }
  }

  predicate IsFirst(keys: set<RecordKey>, k: RecordKey) {
    k in keys && forall j :: j in keys ==> j == k || KeyBefore(k, j)
  }

  lemma {:induction false} FirstExists(keys: set<RecordKey>)
    requires keys != {}
    ensures exists k :: IsFirst(keys, k)
  {
    var k :| k in keys;
    var rest := keys - {k};
    if rest == {} {
      assert keys == {k};
      assert IsFirst(keys, k);
    } else {
      FirstExists(rest);
      var m :| IsFirst(rest, m);
      KeyBeforeTotal(k, m);
      if KeyBefore(k, m) {
        forall j | j in keys ensures j == k || KeyBefore(k, j) {
          if j != k && j != m { KeyBeforeTransitive(k, m, j); }
        }
        assert IsFirst(keys, k);
      } else {
        assert IsFirst(keys, m);
      }
    }
  }

  lemma FirstUnique(keys: set<RecordKey>)
    ensures forall a, b :: IsFirst(keys, a) && IsFirst(keys, b) ==> a == b
  {
    forall a, b | IsFirst(keys, a) && IsFirst(keys, b) ensures a == b {
      KeyBeforeTotal(a, b);
    }
  }

  predicate Ascending(keys: seq<RecordKey>) {
    forall i, j :: 0 <= i < j < |keys| ==> KeyBefore(keys[i], keys[j])
  }

  /** The store's iteration order. */
  function InOrder(keys: set<RecordKey>): (r: seq<RecordKey>)
    ensures Ascending(r)
    ensures forall k :: k in r <==> k in keys
  {
    if keys == {} then []
    else
      FirstExists(keys); FirstUnique(keys);
      var k :| IsFirst(keys, k);
      [k] + InOrder(keys - {k})
  }

  // ---------- queries ----------

  datatype Query = Query(
    networkId: string, requesterNodeId: string, namespace: string, protocols: seq<Protocol>, maxPeers: nat)

  datatype Peer = Peer(protocol: Protocol, namespace: string, advertisement: Advertisement)

  datatype PeerId = PeerId(namespace: string, networkId: string, nodeId: string, providerId: string)

  predicate IsValidQuery(q: Query) {
    && IsToken(q.networkId) && IsToken(q.requesterNodeId) && IsNamespace(q.namespace)
    && q.protocols != []
    && q.maxPeers != 0
  }

  function Id(p: Peer): PeerId {
    PeerId(p.namespace, p.advertisement.networkId, p.advertisement.nodeId, p.advertisement.providerId)
  }

  function Ids(peers: seq<Peer>): set<PeerId> {
    set p | p in peers :: Id(p)
  }

  predicate Matches(q: Query, protocol: Protocol, k: RecordKey, a: Advertisement) {
    && k.protocol == protocol
    && k.networkId == q.networkId
    && k.namespace == q.namespace
    && a.nodeId != q.requesterNodeId
    && SupportsServiceFrames(a)
  }

  function PeerAt(records: Records, k: RecordKey): Peer
    requires k in records
  {
    Peer(k.protocol, k.namespace, records[k])
  }

  function Select(records: Records, keys: seq<RecordKey>, q: Query, protocol: Protocol): seq<Peer>
    requires forall i :: 0 <= i < |keys| ==> keys[i] in records
  {
    if keys == [] then []
    else
      var rest := Select(records, keys[1..], q, protocol);
      if Matches(q, protocol, keys[0], records[keys[0]]) then [PeerAt(records, keys[0])] + rest else rest
  }

  /** All of one store's answers under one protocol, unlimited, in store order. */
  function Hits(records: Records, q: Query, protocol: Protocol): seq<Peer> {
    Select(records, InOrder(records.Keys), q, protocol)
  }

  function ProtocolHits(stores: seq<Records>, q: Query, protocol: Protocol): seq<Peer> {
    if stores == [] then [] else Hits(stores[0], q, protocol) + ProtocolHits(stores[1..], q, protocol)
  }

  /** Every answer of every store: protocols in query order, stores in provider order. */
  function AllHits(stores: seq<Records>, q: Query, protocols: seq<Protocol>): seq<Peer> {
    if protocols == [] then []
    else ProtocolHits(stores, q, protocols[0]) + AllHits(stores, q, protocols[1..])
  }

  function Take<T>(s: seq<T>, n: nat): seq<T> {
    if |s| <= n then s else s[..n]
  }

  function Admit1(kept: seq<Peer>, p: Peer): seq<Peer> {
    if Id(p) in Ids(kept) then kept else kept + [p]
  }

  /** First-wins de-duplication of `peers` after `kept`. */
  function FirstWins(kept: seq<Peer>, peers: seq<Peer>): seq<Peer>
    decreases |peers|
  {
    if peers == [] then kept else FirstWins(Admit1(kept, peers[0]), peers[1..])
  }

  predicate Distinct(peers: seq<Peer>) {
    forall i, j :: 0 <= i < j < |peers| ==> Id(peers[i]) != Id(peers[j])
  }

  // ---------- first-wins laws ----------

  lemma IdsOfAppend(a: seq<Peer>, b: seq<Peer>)
    ensures Ids(a + b) == Ids(a) + Ids(b)
  {
    forall id | id in Ids(a) + Ids(b) ensures id in Ids(a + b) {
      var p :| (p in a || p in b) && Id(p) == id;
      assert p in a + b;
    }
  }

  lemma IdsOfAdmit1(kept: seq<Peer>, p: Peer)
    ensures Ids(Admit1(kept, p)) == Ids(kept) + {Id(p)}
    ensures Distinct(kept) ==> Distinct(Admit1(kept, p))
  {
    IdsOfAppend(kept, [p]);
    assert Ids([p]) == {Id(p)};
    assert forall i :: 0 <= i < |kept| ==> Id(kept[i]) in Ids(kept);
  }

  lemma IdsOfCons(peers: seq<Peer>)
    requires peers != []
    ensures Ids(peers) == {Id(peers[0])} + Ids(peers[1..])
  {
    IdsOfAppend([peers[0]], peers[1..]);
    assert [peers[0]] + peers[1..] == peers;
    assert Ids([peers[0]]) == {Id(peers[0])};
  }

  lemma {:induction false} FirstWinsShape(kept: seq<Peer>, peers: seq<Peer>)
    ensures kept <= FirstWins(kept, peers)
    ensures Ids(FirstWins(kept, peers)) == Ids(kept) + Ids(peers)
    ensures Distinct(kept) ==> Distinct(FirstWins(kept, peers))
    decreases |peers|
  {
    if peers != [] {
      var next := Admit1(kept, peers[0]);
      assert kept <= next;
      FirstWinsShape(next, peers[1..]);
      IdsOfAdmit1(kept, peers[0]);
      IdsOfCons(peers);
    }
  }

  lemma {:induction false} FirstWinsAppend(kept: seq<Peer>, a: seq<Peer>, b: seq<Peer>)
    ensures FirstWins(kept, a + b) == FirstWins(FirstWins(kept, a), b)
    decreases |a|
  {
    if a == [] {
      assert a + b == b;
    } else {
      FirstWinsAppend(Admit1(kept, a[0]), a[1..], b);
      assert (a + b)[1..] == a[1..] + b;
    }
  }

  /** Peers already kept add nothing. */
  lemma {:induction false} FirstWinsAbsorbs(kept: seq<Peer>, peers: seq<Peer>)
    requires Ids(peers) <= Ids(kept)
    ensures FirstWins(kept, peers) == kept
  {
    if peers != [] {
      assert Id(peers[0]) in Ids(peers);
      assert Ids(peers[1..]) <= Ids(peers);
      FirstWinsAbsorbs(kept, peers[1..]);
    }
  }

  /** De-duplicating a list before merging it is the same as merging it whole. */
  lemma {:induction false} FirstWinsNested(kept: seq<Peer>, peers: seq<Peer>)
    ensures FirstWins(kept, FirstWins([], peers)) == FirstWins(kept, peers)
    decreases |peers|
  {
    if peers != [] {
      var n := |peers| - 1;
      var front, last := peers[..n], peers[n];
      assert peers == front + [last];
      FirstWinsAppend([], front, [last]);
      FirstWinsAppend(kept, front, [last]);
      FirstWinsNested(kept, front);
      var inner := FirstWins([], front);
      assert FirstWins([], peers) == Admit1(inner, last) by {
        assert FirstWins(inner, [last]) == FirstWins(Admit1(inner, last), []);
      }
      if Id(last) in Ids(inner) {
        FirstWinsShape(kept, inner);
        FirstWinsAbsorbs(FirstWins(kept, front), [last]);
      } else {
        FirstWinsAppend(kept, inner, [last]);
      }
    }
  }

  lemma {:induction false} DistinctIds(peers: seq<Peer>)
    requires Distinct(peers)
    ensures |Ids(peers)| == |peers|
  {
    if peers == [] {
      assert Ids(peers) == {};
    } else {
      var n := |peers| - 1;
      DistinctIds(peers[..n]);
      IdsOfAppend(peers[..n], [peers[n]]);
      assert peers[..n] + [peers[n]] == peers;
      assert Ids([peers[n]]) == {Id(peers[n])};
      assert Id(peers[n]) !in Ids(peers[..n]);
    }
  }

  lemma SubsetSize<T>(a: set<T>, b: set<T>)
    requires a <= b
    ensures |a| <= |b|
  {
    assert b == a + (b - a);
  }

  /** Truncating what is already kept does not change the truncated answer. */
  lemma TakeKept(kept: seq<Peer>, peers: seq<Peer>, n: nat)
    ensures Take(FirstWins(Take(kept, n), peers), n) == Take(FirstWins(kept, peers), n)
  {
    FirstWinsShape(kept, peers);
    FirstWinsShape(Take(kept, n), peers);
  }

  /** Truncating a duplicate-free list before merging it does not change the truncated answer. */
  lemma TakeIncoming(kept: seq<Peer>, peers: seq<Peer>, n: nat)
    requires Distinct(kept) && Distinct(peers)
    ensures Take(FirstWins(kept, Take(peers, n)), n) == Take(FirstWins(kept, peers), n)
  {
    if |peers| > n {
      var head, tail := peers[..n], peers[n..];
      var merged := FirstWins(kept, head);
      assert FirstWins(kept, peers) == FirstWins(merged, tail) by {
        assert peers == head + tail;
        FirstWinsAppend(kept, head, tail);
      }
      assert merged <= FirstWins(merged, tail) by { FirstWinsShape(merged, tail); }
      assert |merged| >= n by {
        FirstWinsShape(kept, head);
        DistinctIds(head);
        DistinctIds(merged);
        SubsetSize(Ids(head), Ids(merged));
      }
    }
  }
}
