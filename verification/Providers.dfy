// The mutable side of peer discovery: a shared in-memory network, and providers that publish to
// and query one or several of them (crates/broadwebd/src/peer_discovery.rs).
module Providers {
  import opened Text
  import opened SocketText
  import opened PeerDiscovery
  import opened CompositeDiscovery

  class SimulatedNetwork {
    var records: Records

    ghost predicate Valid()
      reads this
    {
      WellKeyed(records) && TokenIds(records)
    }

    constructor ()
      ensures Valid() && records == map[]
    {
      records := map[];
    }

    method Publish(text: AddressText, protocol: Protocol, namespace: string, advertisement: Advertisement)
      returns (r: Result<Publication, DiscoveryError>)
      requires Valid()
      modifies this
      ensures Valid()
      ensures r == if IsValidPublication(text, Publication(protocol, namespace, advertisement))
                   then Ok(Publication(protocol, namespace, advertisement)) else Err(BadRequest)
      ensures records == if r.Ok? then Upsert(old(records), r.value) else old(records)
    {
      if !IsNamespace(namespace) || !IsValidAdvertisement(text, advertisement) {
        return Err(BadRequest);
      }
      var key := RecordKey(protocol, advertisement.networkId, namespace, advertisement.nodeId, advertisement.providerId);
      if key !in records || advertisement.sequence > records[key].sequence {
        records := records[key := advertisement];
      }
      return Ok(Publication(protocol, namespace, advertisement));
    }

    /** The scan of the records under one protocol; `full` is its early exit. */
    method ScanProtocol(
      keys: seq<RecordKey>, q: Query, protocol: Protocol, kept: seq<Peer>, keptPairs: set<(string, string)>)
      returns (results: seq<Peer>, seen: set<(string, string)>, full: bool)
      requires forall i :: 0 <= i < |keys| ==> keys[i] in records
      requires Valid() && Scanned(q, kept, keptPairs)
      ensures results == Admit(kept, Select(records, keys, q, protocol), protocol, q.maxPeers)
      ensures Scanned(q, results, seen)
      ensures full ==> |results| >= q.maxPeers
    {
      results, seen := kept, keptPairs;
      ghost var scanned := Admit(kept, Select(records, keys, q, protocol), protocol, q.maxPeers);
      assert keys[0..] == keys;
      for k := 0 to |keys|
        invariant Scanned(q, results, seen)
        invariant scanned == Admit(results, Select(records, keys[k..], q, protocol), protocol, q.maxPeers)
      {
        if |results| >= q.maxPeers {
          return results, seen, true;
        }
        var key := keys[k];
        var advertisement := records[key];
        ScanStep(records, keys, k, q, protocol, results, seen);
        if !Matches(q, protocol, key, advertisement) {
          continue;
        }
        var seenKey := (advertisement.nodeId, advertisement.providerId);
        if seenKey !in seen {
          seen := seen + {seenKey};
          results := results + [Peer(protocol, key.namespace, advertisement)];
        }
      }
      return results, seen, false;
    }

    /** A query: protocols in query order, first identity wins, at most `maxPeers` results. */
    method Discover(q: Query) returns (r: Result<seq<Peer>, DiscoveryError>)
      requires Valid()
      ensures r == if IsValidQuery(q) then Ok(Search(Leaf(records), q)) else Err(BadRequest)
    {
      if !IsValidQuery(q) {
        return Err(BadRequest);
      }
      var results: seq<Peer> := [];
      var seen: set<(string, string)> := {};
      ghost var answer := Search(Leaf(records), q);
      assert q.protocols[0..] == q.protocols;
      for i := 0 to |q.protocols|
        invariant |results| <= q.maxPeers && Scanned(q, results, seen)
        invariant answer == Take(FirstWins(results, AllHits([records], q, q.protocols[i..])), q.maxPeers)
      {
        ghost var hits, later := Hits(records, q, q.protocols[i]), AllHits([records], q, q.protocols[i + 1..]);
        OneStoreHits(records, q, q.protocols[i..]);
        assert q.protocols[i..][1..] == q.protocols[i + 1..];
        SelectProtocol(records, InOrder(records.Keys), q, q.protocols[i]);
        TakeEarly(results, hits, later, q.protocols[i], q.maxPeers);
        var full;
        results, seen, full := ScanProtocol(InOrder(records.Keys), q, q.protocols[i], results, seen);
        if full {
          TakeFull(results, later, q.maxPeers);
          return Ok(results);
        }
      }
      return Ok(results);
    }
  }

  lemma TakeFull(results: seq<Peer>, more: seq<Peer>, n: nat)
    requires |results| == n
    ensures Take(FirstWins(results, more), n) == results
  {
    FirstWinsShape(results, more);
  }

  lemma TakeEarly(results: seq<Peer>, hits: seq<Peer>, later: seq<Peer>, protocol: Protocol, n: nat)
    requires |results| <= n
    requires forall i :: 0 <= i < |hits| ==> hits[i].protocol == protocol
    ensures |Admit(results, hits, protocol, n)| <= n
    ensures Take(FirstWins(results, hits + later), n) == Take(FirstWins(Admit(results, hits, protocol, n), later), n)
  {
    AdmitIsTruncatedFirstWins(results, hits, protocol, n);
    FirstWinsAppend(results, hits, later);
    TakeKept(FirstWins(results, hits), later, n);
  }

  lemma ScanAdvances(
    records: Records, keys: seq<RecordKey>, k: nat, q: Query, protocol: Protocol, results: seq<Peer>)
    requires k < |keys| && forall i :: 0 <= i < |keys| ==> keys[i] in records
    requires |results| < q.maxPeers
    ensures Admit(results, Select(records, keys[k..], q, protocol), protocol, q.maxPeers)
         == Admit(
              if Matches(q, protocol, keys[k], records[keys[k]])
              then Admit1(results, PeerAt(records, keys[k])) else results,
              Select(records, keys[k + 1..], q, protocol), protocol, q.maxPeers)
  {
    assert keys[k..][1..] == keys[k + 1..];
    var rest := Select(records, keys[k + 1..], q, protocol);
    if Matches(q, protocol, keys[k], records[keys[k]]) {
      assert ([PeerAt(records, keys[k])] + rest)[1..] == rest;
    }
  }

  lemma OneStoreHits(records: Records, q: Query, protocols: seq<Protocol>)
    requires protocols != []
    ensures AllHits([records], q, protocols)
         == Hits(records, q, protocols[0]) + AllHits([records], q, protocols[1..])
  {
    assert ProtocolHits([records][1..], q, protocols[0]) == [];
    assert ProtocolHits([records], q, protocols[0]) == Hits(records, q, protocols[0]);
  }

  /** `seen` holds exactly the (node, provider) pairs of the results, all of the query's network. */
  ghost predicate Scanned(q: Query, results: seq<Peer>, seen: set<(string, string)>) {
    && (forall p :: p in results ==> p.namespace == q.namespace && p.advertisement.networkId == q.networkId)
    && seen == set p | p in results :: (p.advertisement.nodeId, p.advertisement.providerId)
  }

  lemma SeenStep(q: Query, results: seq<Peer>, seen: set<(string, string)>, peer: Peer)
    requires Scanned(q, results, seen)
    requires peer.namespace == q.namespace && peer.advertisement.networkId == q.networkId
    ensures var pair := (peer.advertisement.nodeId, peer.advertisement.providerId);
            && (pair in seen <==> Id(peer) in Ids(results))
            && Scanned(q, results + [peer], seen + {pair})
  {
    var pair := (peer.advertisement.nodeId, peer.advertisement.providerId);
    if pair in seen {
      var p :| p in results && (p.advertisement.nodeId, p.advertisement.providerId) == pair;
      assert Id(p) == Id(peer);
    }
    if Id(peer) in Ids(results) {
      var p :| p in results && Id(p) == Id(peer);
      assert (p.advertisement.nodeId, p.advertisement.providerId) == pair;
    }
    forall x | x in seen + {pair}
      ensures x in set p | p in results + [peer] :: (p.advertisement.nodeId, p.advertisement.providerId)
    {
      if x in seen {
        var p :| p in results && (p.advertisement.nodeId, p.advertisement.providerId) == x;
        assert p in results + [peer];
      } else {
        assert peer in results + [peer];
      }
    }
  }

  /** One record of the scan: what is still to come, and what has been seen, after keeping or skipping it. */
  lemma ScanStep(
    records: Records, keys: seq<RecordKey>, k: nat, q: Query, protocol: Protocol,
    results: seq<Peer>, seen: set<(string, string)>)
    requires WellKeyed(records) && k < |keys| && forall i :: 0 <= i < |keys| ==> keys[i] in records
    requires Scanned(q, results, seen) && |results| < q.maxPeers
    ensures var peer := PeerAt(records, keys[k]);
            var pair := (peer.advertisement.nodeId, peer.advertisement.providerId);
            var kept := Matches(q, protocol, keys[k], records[keys[k]]) && pair !in seen;
            && (kept ==> Scanned(q, results + [peer], seen + {pair}))
            && Admit(results, Select(records, keys[k..], q, protocol), protocol, q.maxPeers)
            == Admit(if kept then results + [peer] else results,
                     Select(records, keys[k + 1..], q, protocol), protocol, q.maxPeers)
  {
    ScanAdvances(records, keys, k, q, protocol, results);
    if Matches(q, protocol, keys[k], records[keys[k]]) {
      SeenStep(q, results, seen, PeerAt(records, keys[k]));
    }
  }

  // ---------- provider trees ----------

  /** A discovery provider: one network, or a composite of providers. */
  datatype Provider = Simulated(network: SimulatedNetwork) | Composite(providers: seq<Provider>)

  function Networks(p: Provider): set<SimulatedNetwork>
    decreases p, 1
  {
    match p
    case Simulated(network) => {network}
    case Composite(providers) => NetworksOf(providers)
  }

  function NetworksOf(providers: seq<Provider>): set<SimulatedNetwork>
    decreases providers, 0
  {
    if providers == [] then {} else Networks(providers[0]) + NetworksOf(providers[1..])
  }

  /** What each network of a set holds at one moment. */
  type View = map<SimulatedNetwork, Records>

  ghost predicate Shows(view: View, networks: set<SimulatedNetwork>)
    reads networks
  {
    forall n :: n in networks ==> n in view && n.records == view[n] && n.Valid()
  }

  /** What the tree's stores hold in a view. */
  ghost function Snapshot(p: Provider, view: View): Source
    requires Networks(p) <= view.Keys
    decreases p, 1
  {
    match p
    case Simulated(network) => Leaf(view[network])
    case Composite(providers) => Node(Snapshots(providers, view))
  }

  ghost function Snapshots(providers: seq<Provider>, view: View): (r: seq<Source>)
    requires NetworksOf(providers) <= view.Keys
    ensures |r| == |providers|
    decreases providers, 0
  {
    if providers == [] then [] else [Snapshot(providers[0], view)] + Snapshots(providers[1..], view)
  }

  lemma {:induction false} MemberNetworks(providers: seq<Provider>, j: nat)
    requires j < |providers|
    ensures Networks(providers[j]) <= NetworksOf(providers)
  {
    if j > 0 {
      MemberNetworks(providers[1..], j - 1);
    }
  }

  lemma {:induction false} SnapshotsAt(providers: seq<Provider>, view: View, j: nat)
    requires j < |providers| && NetworksOf(providers) <= view.Keys
    ensures Networks(providers[j]) <= view.Keys
    ensures Snapshots(providers, view)[j] == Snapshot(providers[j], view)
  {
    if j > 0 {
      SnapshotsAt(providers[1..], view, j - 1);
    }
  }

  lemma {:induction false} NetworksAppend(a: seq<Provider>, b: seq<Provider>)
    ensures NetworksOf(a + b) == NetworksOf(a) + NetworksOf(b)
  {
    if a == [] {
      assert a + b == b;
    } else {
      assert (a + b)[0] == a[0] && (a + b)[1..] == a[1..] + b;
      NetworksAppend(a[1..], b);
    }
  }

  lemma NetworksOfPrefix(providers: seq<Provider>, j: nat)
    requires j < |providers|
    ensures NetworksOf(providers[..j + 1]) == NetworksOf(providers[..j]) + Networks(providers[j])
  {
    assert providers[..j + 1] == providers[..j] + [providers[j]];
    NetworksAppend(providers[..j], [providers[j]]);
    assert NetworksOf([providers[j]]) == Networks(providers[j]) + NetworksOf([providers[j]][1..]);
  }

  lemma {:induction false} AnswersAt(children: seq<Source>, q: Query, j: nat)
    requires j < |children|
    ensures Answers(children, q)[j] == Search(children[j], q)
  {
    if j > 0 {
      AnswersAt(children[1..], q, j - 1);
    }
  }

  lemma {:induction false} FullIsMerged(answers: seq<seq<Peer>>, protocol: Protocol, room: nat, kept: seq<Peer>)
    requires |kept| >= room
    ensures MergeAll(answers, protocol, room, kept) == kept
  {
    if answers != [] {
      FullIsMerged(answers[1..], protocol, room, kept);
    }
  }

  lemma {:induction false} FullIsFinal(children: seq<Source>, q: Query, protocols: seq<Protocol>, kept: seq<Peer>)
    requires |kept| >= q.maxPeers
    ensures OverProtocols(children, q, protocols, kept) == kept
    decreases |protocols|
  {
    if protocols != [] {
      FullIsMerged(Answers(children, q.(protocols := [protocols[0]])), protocols[0], q.maxPeers, kept);
      FullIsFinal(children, q, protocols[1..], kept);
    }
  }

  /** The composite's inner loop over one provider's answer; `full` is its early exit. */
  method Merge(kept: seq<Peer>, keptIds: set<PeerId>, found: seq<Peer>, protocol: Protocol, room: nat)
    returns (results: seq<Peer>, seen: set<PeerId>, full: bool)
    requires keptIds == Ids(kept)
    ensures results == Admit(kept, found, protocol, room) && seen == Ids(results)
    ensures full ==> |results| >= room
  {
    results, seen := kept, keptIds;
    assert found[0..] == found;
    for k := 0 to |found|
      invariant seen == Ids(results)
      invariant Admit(kept, found, protocol, room) == Admit(results, found[k..], protocol, room)
    {
      if |results| >= room {
        return results, seen, true;
      }
      assert found[k..][1..] == found[k + 1..];
      var result := found[k];
      if result.protocol != protocol {
        continue;
      }
      var seenKey := PeerId(
        result.namespace, result.advertisement.networkId,
        result.advertisement.nodeId, result.advertisement.providerId);
      if seenKey !in seen {
        IdsOfAppend(results, [result]);
        assert Ids([result]) == {Id(result)};
        seen := seen + {seenKey};
        results := results + [result];
      }
    }
    return results, seen, false;
  }

  /** The composite's middle loop: every provider is asked under one protocol. */
  method AskEach(
    providers: seq<Provider>, q: Query, kept: seq<Peer>, keptIds: set<PeerId>, ghost view: View)
    returns (results: seq<Peer>, seen: set<PeerId>, full: bool)
    requires NetworksOf(providers) <= view.Keys && Shows(view, view.Keys)
    requires IsValidQuery(q) && |q.protocols| == 1 && keptIds == Ids(kept)
    ensures results == MergeAll(Answers(Snapshots(providers, view), q), q.protocols[0], q.maxPeers, kept)
    ensures seen == Ids(results) && (full ==> |results| >= q.maxPeers)
    decreases providers, 0
  {
    results, seen := kept, keptIds;
    ghost var answers := Answers(Snapshots(providers, view), q);
    ghost var merged := MergeAll(answers, q.protocols[0], q.maxPeers, kept);
    assert answers[0..] == answers;
    for j := 0 to |providers|
      invariant seen == Ids(results)
      invariant merged == MergeAll(answers[j..], q.protocols[0], q.maxPeers, results)
    {
      SnapshotsAt(providers, view, j);
      AnswersAt(Snapshots(providers, view), q, j);
      assert answers[j..][1..] == answers[j + 1..];
      var answer := Discover(providers[j], q, view);
      results, seen, full := Merge(results, seen, answer.value, q.protocols[0], q.maxPeers);
      if full {
        FullIsMerged(answers[j + 1..], q.protocols[0], q.maxPeers, results);
        return;
      }
    }
    return results, seen, false;
  }

  method Discover(p: Provider, q: Query, ghost view: View) returns (r: Result<seq<Peer>, DiscoveryError>)
    requires Networks(p) <= view.Keys && Shows(view, view.Keys)
    ensures r == if IsValidQuery(q) then Ok(Search(Snapshot(p, view), q)) else Err(BadRequest)
    decreases p, 1
  {
    match p
    case Simulated(network) =>
      r := network.Discover(q);
    case Composite(providers) =>
      if !IsValidQuery(q) {
        return Err(BadRequest);
      }
      var results: seq<Peer> := [];
      var seen: set<PeerId> := {};
      ghost var children := Snapshots(providers, view);
      ghost var whole := OverProtocols(children, q, q.protocols, []);
      assert q.protocols[0..] == q.protocols;
      for i := 0 to |q.protocols|
        invariant seen == Ids(results)
        invariant whole == OverProtocols(children, q, q.protocols[i..], results)
      {
        assert q.protocols[i..][1..] == q.protocols[i + 1..];
        var full;
        results, seen, full := AskEach(providers, q.(protocols := [q.protocols[i]]), results, seen, view);
        if full {
          FullIsFinal(children, q, q.protocols[i + 1..], results);
          return Ok(results);
        }
      }
      return Ok(results);
  }

  /**
   * Publishing through a tree: accepted exactly when the publication is valid and some network is
   * reached; then every network of the tree, however often it occurs, takes it once, and a refused
   * publication changes nothing.
   */
  method Publish(text: AddressText, p: Provider, protocol: Protocol, namespace: string, advertisement: Advertisement, ghost view: View)
    returns (r: Result<Publication, DiscoveryError>)
    requires Networks(p) <= view.Keys && Shows(view, Networks(p))
    modifies Networks(p)
    ensures forall n :: n in Networks(p) ==> n.Valid()
    ensures r == if !IsValidPublication(text, Publication(protocol, namespace, advertisement)) then Err(BadRequest)
                 else if Networks(p) == {} then Err(Unsupported)
                 else Ok(Publication(protocol, namespace, advertisement))
    ensures forall n :: n in Networks(p) ==>
              n.records == if r.Ok? then Upsert(view[n], r.value) else view[n]
    decreases p
  {
    match p
    case Simulated(network) =>
      r := network.Publish(text, protocol, namespace, advertisement);
    case Composite(providers) =>
      ghost var publication := Publication(protocol, namespace, advertisement);
      if !IsNamespace(namespace) || !IsValidAdvertisement(text, advertisement) {
        return Err(BadRequest);
      }
      if providers == [] {
        return Err(Unsupported);
      }
      var firstPublication: Option<Publication> := None;
      ghost var all, done: set<SimulatedNetwork> := Networks(p), {};
      assert providers[..0] == [];
      for j := 0 to |providers|
        invariant done == NetworksOf(providers[..j]) && done <= all
        invariant firstPublication == if done == {} then None else Some(publication)
        invariant forall n :: n in all ==> n.Valid()
        invariant forall n :: n in all ==> n.records == if n in done then Upsert(view[n], publication) else view[n]
      {
        NetworksOfPrefix(providers, j);
        MemberNetworks(providers, j);
        ghost var reached := Networks(providers[j]);
        assert reached <= all;
        ghost var now: View := map n | n in all :: n.records;
        var outcome := Publish(text, providers[j], protocol, namespace, advertisement, now);
        forall n | n in all
          ensures n.records == if n in done + reached then Upsert(view[n], publication) else view[n]
        {
          UpsertTwice(view[n], publication);
        }
        done := done + reached;
        match outcome {
          case Ok(published) =>
            if firstPublication.None? {
              firstPublication := Some(published);
            }
          case Err(error) =>
            if error != Unsupported {
              return Err(error);
            }
        }
      }
      assert providers[..|providers|] == providers;
      match firstPublication {
        case Some(published) => return Ok(published);
        case None => return Err(Unsupported);
      }
  }
}
