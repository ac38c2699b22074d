// Discovery over trees of providers: the store's scan, the composite's nested loops, and what an
// answer is in terms of the stores at the leaves (crates/broadwebd/src/peer_discovery.rs).
module CompositeDiscovery {
  import opened Text
  import opened PeerDiscovery

  // ---------- what a provider tree answers ----------

  /** A provider tree at one moment: stores at the leaves, composites above them. */
  datatype Source = Leaf(records: Records) | Node(children: seq<Source>)

  /** The composite's inner loop: same protocol, not yet seen, and only while there is room. */
  function Admit(kept: seq<Peer>, found: seq<Peer>, protocol: Protocol, room: nat): seq<Peer>
    decreases |found|
  {
    if found == [] || |kept| >= room then kept
    else Admit(if found[0].protocol == protocol then Admit1(kept, found[0]) else kept, found[1..], protocol, room)
  }

  /** The composite's middle loop: every provider's answer, in order. */
  function MergeAll(answers: seq<seq<Peer>>, protocol: Protocol, room: nat, kept: seq<Peer>): seq<Peer>
    decreases |answers|
  {
    if answers == [] then kept
    else MergeAll(answers[1..], protocol, room, Admit(kept, answers[0], protocol, room))
  }

  /** The answer to a query: a leaf scans its store, a composite asks each child under each protocol. */
  function Search(s: Source, q: Query): seq<Peer>
    decreases s, 2, 0
  {
    match s
    case Leaf(records) => Take(FirstWins([], AllHits([records], q, q.protocols)), q.maxPeers)
    case Node(children) => OverProtocols(children, q, q.protocols, [])
  }

  /** The composite's outer loop: each protocol is asked on its own, with the full limit. */
  function OverProtocols(children: seq<Source>, q: Query, protocols: seq<Protocol>, kept: seq<Peer>): seq<Peer>
    decreases children, 1, |protocols|
  {
    if protocols == [] then kept
    else
      var answers := Answers(children, q.(protocols := [protocols[0]]));
      OverProtocols(children, q, protocols[1..], MergeAll(answers, protocols[0], q.maxPeers, kept))
  }

  function Answers(children: seq<Source>, q: Query): (r: seq<seq<Peer>>)
    ensures |r| == |children|
    decreases children, 0, 0
  {
    if children == [] then [] else [Search(children[0], q)] + Answers(children[1..], q)
  }

  /** The stores of a tree, in provider order. */
  function Leaves(s: Source): seq<Records> {
    match s
    case Leaf(records) => [records]
    case Node(children) => LeavesOf(children)
  }

  function LeavesOf(children: seq<Source>): seq<Records> {
    if children == [] then [] else Leaves(children[0]) + LeavesOf(children[1..])
  }

  /** The unlimited answer: every hit of every store, first one wins. */
  function Unlimited(s: Source, q: Query): seq<Peer> {
    FirstWins([], AllHits(Leaves(s), q, q.protocols))
  }

  // ---------- limit pushdown ----------

  lemma {:induction false} AdmitIsTruncatedFirstWins(kept: seq<Peer>, found: seq<Peer>, protocol: Protocol, n: nat)
    requires |kept| <= n
    requires forall i :: 0 <= i < |found| ==> found[i].protocol == protocol
    ensures Admit(kept, found, protocol, n) == Take(FirstWins(kept, found), n)
    decreases |found|
  {
    FirstWinsShape(kept, found);
    if found != [] && |kept| < n {
      AdmitIsTruncatedFirstWins(Admit1(kept, found[0]), found[1..], protocol, n);
    }
  }

  lemma {:induction false} SelectProtocol(records: Records, keys: seq<RecordKey>, q: Query, protocol: Protocol)
    requires forall i :: 0 <= i < |keys| ==> keys[i] in records
    ensures forall i :: 0 <= i < |Select(records, keys, q, protocol)| ==> Select(records, keys, q, protocol)[i].protocol == protocol
  {
    if keys != [] {
      SelectProtocol(records, keys[1..], q, protocol);
    }
  }

  lemma {:induction false} ProtocolHitsProtocol(stores: seq<Records>, q: Query, protocol: Protocol)
    ensures forall i :: 0 <= i < |ProtocolHits(stores, q, protocol)| ==> ProtocolHits(stores, q, protocol)[i].protocol == protocol
  {
    if stores != [] {
      SelectProtocol(stores[0], InOrder(stores[0].Keys), q, protocol);
      ProtocolHitsProtocol(stores[1..], q, protocol);
    }
  }

  lemma {:induction false} FirstWinsSubset(kept: seq<Peer>, peers: seq<Peer>)
    ensures forall p :: p in FirstWins(kept, peers) ==> p in kept || p in peers
    decreases |peers|
  {
    if peers != [] {
      FirstWinsSubset(Admit1(kept, peers[0]), peers[1..]);
    }
  }

  lemma {:induction false} ProtocolHitsAppend(a: seq<Records>, b: seq<Records>, q: Query, protocol: Protocol)
    ensures ProtocolHits(a + b, q, protocol) == ProtocolHits(a, q, protocol) + ProtocolHits(b, q, protocol)
  {
    if a == [] {
      assert a + b == b;
    } else {
      var head, joined := a[0], a[1..] + b;
      assert a + b == [head] + joined;
      ProtocolHitsAppend(a[1..], b, q, protocol);
      ProtocolHitsCons(head, joined, q, protocol);
      assert a == [head] + a[1..];
      ProtocolHitsCons(head, a[1..], q, protocol);
      AppendAssociative(Hits(head, q, protocol), ProtocolHits(a[1..], q, protocol), ProtocolHits(b, q, protocol));
    }
  }

  lemma ProtocolHitsCons(head: Records, tail: seq<Records>, q: Query, protocol: Protocol)
    ensures ProtocolHits([head] + tail, q, protocol) == Hits(head, q, protocol) + ProtocolHits(tail, q, protocol)
  {
    assert ([head] + tail)[1..] == tail;
  }

  /** Hits do not depend on the query's protocol list or limit. */
  lemma {:induction false} SelectIgnoresLimit(records: Records, keys: seq<RecordKey>, q: Query, other: Query, protocol: Protocol)
    requires forall i :: 0 <= i < |keys| ==> keys[i] in records
    requires q.(protocols := other.protocols, maxPeers := other.maxPeers) == other
    ensures Select(records, keys, q, protocol) == Select(records, keys, other, protocol)
  {
    if keys != [] {
      SelectIgnoresLimit(records, keys[1..], q, other, protocol);
    }
  }

  lemma {:induction false} ProtocolHitsIgnoreLimit(stores: seq<Records>, q: Query, other: Query, protocol: Protocol)
    requires q.(protocols := other.protocols, maxPeers := other.maxPeers) == other
    ensures ProtocolHits(stores, q, protocol) == ProtocolHits(stores, other, protocol)
  {
    if stores != [] {
      SelectIgnoresLimit(stores[0], InOrder(stores[0].Keys), q, other, protocol);
      ProtocolHitsIgnoreLimit(stores[1..], q, other, protocol);
    }
  }

  lemma {:induction false} AllHitsIgnoreLimit(stores: seq<Records>, q: Query, other: Query, protocols: seq<Protocol>)
    requires q.(protocols := other.protocols, maxPeers := other.maxPeers) == other
    ensures AllHits(stores, q, protocols) == AllHits(stores, other, protocols)
  {
    if protocols != [] {
      ProtocolHitsIgnoreLimit(stores, q, other, protocols[0]);
      AllHitsIgnoreLimit(stores, q, other, protocols[1..]);
    }
  }

  lemma AllHitsOfOne(stores: seq<Records>, q: Query, protocol: Protocol)
    ensures AllHits(stores, q, [protocol]) == ProtocolHits(stores, q, protocol)
  {
    assert AllHits(stores, q, [protocol][1..]) == [];
  }

  /** Merging a child's truncated, de-duplicated answer is as good as merging all its hits. */
  lemma MergeChild(kept: seq<Peer>, hits: seq<Peer>, n: nat)
    requires Distinct(kept)
    ensures Take(FirstWins(Take(kept, n), Take(FirstWins([], hits), n)), n) == Take(FirstWins(kept, hits), n)
  {
    FirstWinsShape([], hits);
    TakeKept(kept, Take(FirstWins([], hits), n), n);
    TakeIncoming(kept, FirstWins([], hits), n);
    FirstWinsNested(kept, hits);
  }

  /** One child's answer, merged into a truncated list, is all of its hits merged and truncated. */
  lemma ChildMerge(child: Source, q: Query, protocol: Protocol, kept: seq<Peer>)
    requires Distinct(kept)
    requires Search(child, q) == Take(FirstWins([], ProtocolHits(Leaves(child), q, protocol)), q.maxPeers)
    ensures Admit(Take(kept, q.maxPeers), Search(child, q), protocol, q.maxPeers)
         == Take(FirstWins(kept, ProtocolHits(Leaves(child), q, protocol)), q.maxPeers)
  {
    var hits, found := ProtocolHits(Leaves(child), q, protocol), Search(child, q);
    forall i | 0 <= i < |found| ensures found[i].protocol == protocol {
      ProtocolHitsProtocol(Leaves(child), q, protocol);
      FirstWinsSubset([], hits);
      assert found[i] in FirstWins([], hits);
    }
    AdmitIsTruncatedFirstWins(Take(kept, q.maxPeers), found, protocol, q.maxPeers);
    MergeChild(kept, hits, q.maxPeers);
  }

  lemma {:induction false} ChildrenMerge(children: seq<Source>, q: Query, protocol: Protocol, kept: seq<Peer>)
    requires q.protocols == [protocol] && Distinct(kept)
    ensures MergeAll(Answers(children, q), protocol, q.maxPeers, Take(kept, q.maxPeers))
         == Take(FirstWins(kept, ProtocolHits(LeavesOf(children), q, protocol)), q.maxPeers)
    decreases children, 0, 0
  {
    if children != [] {
      var child, rest := children[0], children[1..];
      var hits, later := ProtocolHits(Leaves(child), q, protocol), ProtocolHits(LeavesOf(rest), q, protocol);
      SearchIsTruncatedUnlimited(child, q);
      AllHitsOfOne(Leaves(child), q, protocol);
      ChildMerge(child, q, protocol, kept);
      FirstWinsShape(kept, hits);
      ChildrenMerge(rest, q, protocol, FirstWins(kept, hits));
      ProtocolHitsAppend(Leaves(child), LeavesOf(rest), q, protocol);
      FirstWinsAppend(kept, hits, later);
      assert Answers(children, q)[0] == Search(child, q) && Answers(children, q)[1..] == Answers(rest, q);
    }
  }

  lemma {:induction false} ProtocolsMerge(children: seq<Source>, q: Query, protocols: seq<Protocol>, kept: seq<Peer>)
    requires Distinct(kept)
    ensures OverProtocols(children, q, protocols, Take(kept, q.maxPeers))
         == Take(FirstWins(kept, AllHits(LeavesOf(children), q, protocols)), q.maxPeers)
    decreases children, 1, |protocols|
  {
    if protocols != [] {
      var q1 := q.(protocols := [protocols[0]]);
      var hits := ProtocolHits(LeavesOf(children), q, protocols[0]);
      ChildrenMerge(children, q1, protocols[0], kept);
      ProtocolHitsIgnoreLimit(LeavesOf(children), q, q1, protocols[0]);
      FirstWinsShape(kept, hits);
      ProtocolsMerge(children, q, protocols[1..], FirstWins(kept, hits));
      FirstWinsAppend(kept, hits, AllHits(LeavesOf(children), q, protocols[1..]));
    }
  }

  /**
   * The whole nested search, with its per-provider limit and early exits, returns exactly the
   * first `maxPeers` entries of the unlimited answer over the stores at the leaves.
   */
  lemma {:induction false} SearchIsTruncatedUnlimited(s: Source, q: Query)
    ensures Search(s, q) == Take(Unlimited(s, q), q.maxPeers)
    decreases s, 2, 0
  {
    if s.Node? {
      ProtocolsMerge(s.children, q, q.protocols, []);
    }
  }

  /** A smaller limit returns a prefix of what a larger one returns. */
  lemma LimitIsPrefix(s: Source, q: Query, larger: nat)
    requires q.maxPeers <= larger
    ensures Search(s, q) == Take(Search(s, q.(maxPeers := larger)), q.maxPeers)
  {
    var wide := q.(maxPeers := larger);
    SearchIsTruncatedUnlimited(s, q);
    SearchIsTruncatedUnlimited(s, wide);
    AllHitsIgnoreLimit(Leaves(s), q, wide, q.protocols);
  }

  /** Nesting does not matter: two trees with the same stores in the same order answer alike. */
  lemma NestingIrrelevant(s: Source, t: Source, q: Query)
    requires Leaves(s) == Leaves(t)
    ensures Search(s, q) == Search(t, q)
  {
    SearchIsTruncatedUnlimited(s, q);
    SearchIsTruncatedUnlimited(t, q);
  }

  /** A composite of one provider answers as that provider does. */
  lemma SingletonComposite(s: Source, q: Query)
    ensures Search(Node([s]), q) == Search(s, q)
  {
    assert LeavesOf([s]) == Leaves(s) + LeavesOf([s][1..]);
    NestingIrrelevant(Node([s]), s, q);
  }

  // ---------- soundness, priority, completeness ----------

  lemma {:induction false} SelectMembers(records: Records, keys: seq<RecordKey>, q: Query, protocol: Protocol, p: Peer)
    requires forall i :: 0 <= i < |keys| ==> keys[i] in records
    ensures p in Select(records, keys, q, protocol) <==>
            exists k :: k in keys && Matches(q, protocol, k, records[k]) && p == PeerAt(records, k)
  {
    if keys != [] {
      SelectMembers(records, keys[1..], q, protocol, p);
      assert forall k :: k in keys <==> k == keys[0] || k in keys[1..];
    }
  }

  /** A store's answers under a protocol are its matching records, each the one its key holds. */
  lemma HitsMembers(records: Records, q: Query, protocol: Protocol, p: Peer)
    ensures p in Hits(records, q, protocol) <==>
            exists k :: k in records && Matches(q, protocol, k, records[k]) && p == PeerAt(records, k)
  {
    SelectMembers(records, InOrder(records.Keys), q, protocol, p);
  }

  /** Store j holds a peer of this identity under the i-th query protocol. */
  predicate Offers(stores: seq<Records>, q: Query, protocol: Protocol, j: nat, id: PeerId)
    requires j < |stores|
  {
    id in Ids(Hits(stores[j], q, protocol))
  }

  /** p is store j's answer, and no store before j offers its identity under that protocol. */
  ghost predicate FirstAtStore(stores: seq<Records>, q: Query, protocol: Protocol, p: Peer, j: nat) {
    && j < |stores|
    && p in Hits(stores[j], q, protocol)
    && forall j' :: 0 <= j' < j ==> !Offers(stores, q, protocol, j', Id(p))
  }

  lemma {:induction false} FirstWinsNewcomer(kept: seq<Peer>, peers: seq<Peer>, p: Peer)
    requires p in FirstWins(kept, peers) && p !in kept
    ensures Id(p) !in Ids(kept) && p in peers
    decreases |peers|
  {
    var next := Admit1(kept, peers[0]);
    if p in next {
      assert p == peers[0] && Id(p) !in Ids(kept);
    } else {
      FirstWinsNewcomer(next, peers[1..], p);
      IdsOfAppend(kept, [peers[0]]);
    }
  }

  /** A newcomer of two merges came with the first, or with the second under an identity the first left open. */
  lemma MergedNewcomer(kept: seq<Peer>, a: seq<Peer>, b: seq<Peer>, p: Peer)
    requires p in FirstWins(kept, a + b) && p !in kept
    ensures Id(p) !in Ids(kept)
    ensures Id(p) !in Ids(FirstWins(kept, a)) ==> Id(p) !in Ids(a)
    ensures p in FirstWins(kept, a) ==> p in a
    ensures p !in FirstWins(kept, a) ==> p in FirstWins(FirstWins(kept, a), b)
  {
    FirstWinsNewcomer(kept, a + b, p);
    FirstWinsAppend(kept, a, b);
    FirstWinsShape(kept, a);
    if p in FirstWins(kept, a) {
      FirstWinsNewcomer(kept, a, p);
    }
  }

  lemma ShiftStore(stores: seq<Records>, q: Query, protocol: Protocol, p: Peer, j: nat)
    requires stores != [] && !Offers(stores, q, protocol, 0, Id(p)) && FirstAtStore(stores[1..], q, protocol, p, j)
    ensures FirstAtStore(stores, q, protocol, p, j + 1)
  {
    forall j' | 0 <= j' < j + 1 ensures !Offers(stores, q, protocol, j', Id(p)) {
      if j' > 0 {
        assert !Offers(stores[1..], q, protocol, j' - 1, Id(p));
      }
    }
  }

  /** A newcomer came from the first store, or from the rest with an identity the first left open. */
  lemma FirstOrLaterStore(kept: seq<Peer>, stores: seq<Records>, q: Query, protocol: Protocol, p: Peer)
    requires p in FirstWins(kept, ProtocolHits(stores, q, protocol)) && p !in kept
    ensures stores != [] && Id(p) !in Ids(kept)
    ensures var hits := Hits(stores[0], q, protocol);
            && (p in FirstWins(kept, hits) ==> p in hits)
            && (p !in FirstWins(kept, hits) ==>
                  && p in FirstWins(FirstWins(kept, hits), ProtocolHits(stores[1..], q, protocol))
                  && (Id(p) !in Ids(FirstWins(kept, hits)) ==> Id(p) !in Ids(hits)))
  {
    assert stores != [];
    ProtocolHitsSplit(stores, q, protocol);
    MergedNewcomer(kept, Hits(stores[0], q, protocol), ProtocolHits(stores[1..], q, protocol), p);
  }

  lemma ProtocolHitsSplit(stores: seq<Records>, q: Query, protocol: Protocol)
    requires stores != []
    ensures ProtocolHits(stores, q, protocol) == Hits(stores[0], q, protocol) + ProtocolHits(stores[1..], q, protocol)
  {
  }

  lemma {:induction false} NewcomerStore(kept: seq<Peer>, stores: seq<Records>, q: Query, protocol: Protocol, p: Peer)
    returns (j: nat)
    requires p in FirstWins(kept, ProtocolHits(stores, q, protocol)) && p !in kept
    ensures Id(p) !in Ids(kept)
    ensures FirstAtStore(stores, q, protocol, p, j)
    decreases |stores|
  {
    FirstOrLaterStore(kept, stores, q, protocol, p);
    var next := FirstWins(kept, Hits(stores[0], q, protocol));
    if p in next {
      j := 0;
    } else {
      j := NewcomerStore(next, stores[1..], q, protocol, p);
      ShiftStore(stores, q, protocol, p, j);
      j := j + 1;
    }
  }

  /** No store offers the identity under any of the first i protocols. */
  ghost predicate UnseenBefore(stores: seq<Records>, q: Query, protocols: seq<Protocol>, i: nat, id: PeerId)
    requires i <= |protocols|
  {
    forall i', j :: 0 <= i' < i && 0 <= j < |stores| ==> !Offers(stores, q, protocols[i'], j, id)
  }

  /** p is what store j answers under the i-th protocol, and nothing before offers its identity. */
  ghost predicate FirstAt(stores: seq<Records>, q: Query, protocols: seq<Protocol>, p: Peer, i: nat, j: nat) {
    && i < |protocols|
    && UnseenBefore(stores, q, protocols, i, Id(p))
    && FirstAtStore(stores, q, protocols[i], p, j)
  }

  lemma {:induction false} OfferedIds(stores: seq<Records>, q: Query, protocol: Protocol, j: nat, id: PeerId)
    requires j < |stores| && Offers(stores, q, protocol, j, id)
    ensures id in Ids(ProtocolHits(stores, q, protocol))
  {
    var hits, rest := Hits(stores[0], q, protocol), ProtocolHits(stores[1..], q, protocol);
    if j > 0 {
      assert Offers(stores[1..], q, protocol, j - 1, id);
      OfferedIds(stores[1..], q, protocol, j - 1, id);
    }
    IdInAppend(hits, rest, id);
  }

  lemma ShiftUnseen(stores: seq<Records>, q: Query, protocols: seq<Protocol>, i: nat, id: PeerId)
    requires protocols != [] && i < |protocols| && UnseenBefore(stores, q, protocols[1..], i, id)
    requires id !in Ids(ProtocolHits(stores, q, protocols[0]))
    ensures UnseenBefore(stores, q, protocols, i + 1, id)
  {
    forall i', j | 0 <= i' < i + 1 && 0 <= j < |stores| ensures !Offers(stores, q, protocols[i'], j, id) {
      if i' > 0 {
        assert !Offers(stores, q, protocols[1..][i' - 1], j, id);
      } else if Offers(stores, q, protocols[0], j, id) {
        OfferedIds(stores, q, protocols[0], j, id);
      }
    }
  }

  lemma ShiftProtocol(stores: seq<Records>, q: Query, protocols: seq<Protocol>, p: Peer, i: nat, j: nat)
    requires protocols != [] && FirstAt(stores, q, protocols[1..], p, i, j)
    requires Id(p) !in Ids(ProtocolHits(stores, q, protocols[0]))
    ensures FirstAt(stores, q, protocols, p, i + 1, j)
  {
    ShiftUnseen(stores, q, protocols, i, Id(p));
  }

  /** A newcomer came under the first protocol, or under the rest with an identity the first left open. */
  lemma FirstOrLaterProtocol(kept: seq<Peer>, stores: seq<Records>, q: Query, protocols: seq<Protocol>, p: Peer)
    requires p in FirstWins(kept, AllHits(stores, q, protocols)) && p !in kept
    ensures protocols != [] && Id(p) !in Ids(kept)
    ensures var hits := ProtocolHits(stores, q, protocols[0]);
            p !in FirstWins(kept, hits) ==>
              && p in FirstWins(FirstWins(kept, hits), AllHits(stores, q, protocols[1..]))
              && (Id(p) !in Ids(FirstWins(kept, hits)) ==> Id(p) !in Ids(hits))
  {
    assert protocols != [];
    AllHitsCons(stores, q, protocols);
    MergedNewcomer(kept, ProtocolHits(stores, q, protocols[0]), AllHits(stores, q, protocols[1..]), p);
  }

  lemma AllHitsCons(stores: seq<Records>, q: Query, protocols: seq<Protocol>)
    requires protocols != []
    ensures AllHits(stores, q, protocols) == ProtocolHits(stores, q, protocols[0]) + AllHits(stores, q, protocols[1..])
  {
  }

  lemma {:induction false} NewcomerProtocol(kept: seq<Peer>, stores: seq<Records>, q: Query, protocols: seq<Protocol>, p: Peer)
    returns (i: nat, j: nat)
    requires p in FirstWins(kept, AllHits(stores, q, protocols)) && p !in kept
    ensures Id(p) !in Ids(kept)
    ensures FirstAt(stores, q, protocols, p, i, j)
    decreases |protocols|
  {
    FirstOrLaterProtocol(kept, stores, q, protocols, p);
    var next := FirstWins(kept, ProtocolHits(stores, q, protocols[0]));
    if p in next {
      j := NewcomerStore(kept, stores, q, protocols[0], p);
      i := 0;
    } else {
      i, j := NewcomerProtocol(next, stores, q, protocols[1..], p);
      ShiftProtocol(stores, q, protocols, p, i, j);
      i := i + 1;
    }
  }

  /** p is a matching record of one of the stores, read as an answer to q. */
  ghost predicate IsAnswer(stores: seq<Records>, q: Query, p: Peer) {
    exists j, k :: 0 <= j < |stores| && k in stores[j]
                && Matches(q, p.protocol, k, stores[j][k]) && p == PeerAt(stores[j], k)
  }

  lemma UnlimitedAnswer(stores: seq<Records>, q: Query, p: Peer)
    requires p in FirstWins([], AllHits(stores, q, q.protocols))
    ensures IsAnswer(stores, q, p) && p.protocol in q.protocols
    ensures exists i: nat, j: nat :: FirstAt(stores, q, q.protocols, p, i, j)
  {
    var i, j := NewcomerProtocol([], stores, q, q.protocols, p);
    HitsMembers(stores[j], q, q.protocols[i], p);
  }

  /**
   * Every answer is a matching record, answers have distinct identities, and each stands for the
   * first query protocol, and under it the first provider, that offers its identity.
   */
  lemma SearchIsSound(s: Source, q: Query)
    ensures Distinct(Search(s, q)) && |Search(s, q)| <= q.maxPeers
    ensures forall p :: p in Search(s, q) ==> IsAnswer(Leaves(s), q, p) && p.protocol in q.protocols
    ensures forall p :: p in Search(s, q) ==>
              exists i: nat, j: nat :: FirstAt(Leaves(s), q, q.protocols, p, i, j)
  {
    var stores := Leaves(s);
    SearchIsTruncatedUnlimited(s, q);
    FirstWinsShape([], AllHits(stores, q, q.protocols));
    forall p | p in Search(s, q)
      ensures IsAnswer(stores, q, p) && p.protocol in q.protocols
      ensures exists i: nat, j: nat :: FirstAt(stores, q, q.protocols, p, i, j)
    {
      UnlimitedAnswer(stores, q, p);
    }
  }

  lemma IdInAppend(a: seq<Peer>, b: seq<Peer>, id: PeerId)
    requires id in Ids(a) || id in Ids(b)
    ensures id in Ids(a + b)
  {
    IdsOfAppend(a, b);
  }

  lemma {:induction false} AllHitsOffered(stores: seq<Records>, q: Query, protocols: seq<Protocol>, i: nat, j: nat, id: PeerId)
    requires i < |protocols| && j < |stores| && Offers(stores, q, protocols[i], j, id)
    ensures id in Ids(AllHits(stores, q, protocols))
  {
    var head, tail := protocols[0], protocols[1..];
    if i == 0 {
      OfferedIds(stores, q, head, j, id);
    } else {
      assert tail[i - 1] == protocols[i];
      AllHitsOffered(stores, q, tail, i - 1, j, id);
    }
    IdInAppend(ProtocolHits(stores, q, head), AllHits(stores, q, tail), id);
    AllHitsCons(stores, q, protocols);
  }

  /** An answer shorter than the limit misses no matching record's identity. */
  lemma SearchIsComplete(s: Source, q: Query, j: nat, k: RecordKey)
    requires |Search(s, q)| < q.maxPeers
    requires j < |Leaves(s)| && k in Leaves(s)[j]
    requires k.protocol in q.protocols && Matches(q, k.protocol, k, Leaves(s)[j][k])
    ensures Id(PeerAt(Leaves(s)[j], k)) in Ids(Search(s, q))
  {
    SearchIsTruncatedUnlimited(s, q);
    FirstWinsShape([], AllHits(Leaves(s), q, q.protocols));
    var stores := Leaves(s);
    var p := PeerAt(stores[j], k);
    HitsMembers(stores[j], q, k.protocol, p);
    var i :| 0 <= i < |q.protocols| && q.protocols[i] == k.protocol;
    assert Offers(stores, q, q.protocols[i], j, Id(p));
    AllHitsOffered(stores, q, q.protocols, i, j, Id(p));
  }
}
