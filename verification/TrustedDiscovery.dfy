// Discovery followed by the trust filter (crates/profile-sync/src/discovery_trust.rs).
module TrustedDiscovery {
  import opened Text
  import opened PeerDiscovery
  import opened CompositeDiscovery
  import opened AnswerFreshness
  import opened Freshness
  import opened TrustFilter
  import opened DeviceTrust
  import opened Providers

  datatype TrustedDiscoveryError = Broadwebd(error: DiscoveryError) | Storage(storage: StorageError)

  /** Identities that differ within one namespace and network differ as filter identities. */
  lemma DistinctAnswers(peers: seq<Peer>)
    requires Distinct(peers)
    ensures DistinctIdentities(peers)
  {
    forall i, j | 0 <= i < j < |peers| ensures IdentityOf(peers[i]) != IdentityOf(peers[j]) {
      assert Id(peers[i]) != Id(peers[j]);
    }
  }

  lemma {:induction false} PassingKeepsDistinct(check: Check, peers: seq<Peer>)
    requires DistinctIdentities(peers)
    ensures DistinctIdentities(Passing(check, peers))
  {
    if peers != [] {
      PassingKeepsDistinct(check, peers[1..]);
      var rest := Passing(check, peers[1..]);
      forall i | 0 <= i < |rest| ensures IdentityOf(rest[i]) != IdentityOf(peers[0]) {
        PassingMembers(check, peers[1..], rest[i]);
        var j :| 0 <= j < |peers[1..]| && peers[1..][j] == rest[i];
        assert IdentityOf(peers[0]) != IdentityOf(peers[j + 1]);
      }
    }
  }

  lemma DistinctNeverStale(check: Check, required: seq<string>, peers: seq<Peer>)
    requires Distinct(peers)
    ensures FreshRejects(Passing(check, peers)) == []
    ensures Trusted(check, required, peers) == Capable(required, Passing(check, peers))
  {
    DistinctAnswers(peers);
    PassingKeepsDistinct(check, peers);
    DistinctPassThrough(Passing(check, peers));
  }

  /** After discovery the freshness stage has nothing to do: de-duplication already ran, first one wins. */
  lemma DiscoveredNeverStale(check: Check, required: seq<string>, s: Source, q: Query)
    ensures FreshRejects(Passing(check, Search(s, q))) == []
    ensures Trusted(check, required, Search(s, q)) == Capable(required, Passing(check, Search(s, q)))
  {
    SearchIsSound(s, q);
    DistinctNeverStale(check, required, Search(s, q));
  }

  lemma MoreCandidatesExtend(check: Check, required: seq<string>, peers: seq<Peer>, more: seq<Peer>)
    ensures Capable(required, Passing(check, peers)) <= Capable(required, Passing(check, peers + more))
  {
    PassingAppend(check, peers, more);
    CapableAppend(required, Passing(check, peers), Passing(check, more));
  }

  lemma PrefixTrusted(check: Check, required: seq<string>, narrow: seq<Peer>, wide: seq<Peer>)
    requires Distinct(narrow) && Distinct(wide) && narrow <= wide
    ensures Trusted(check, required, narrow) <= Trusted(check, required, wide)
  {
    DistinctNeverStale(check, required, narrow);
    DistinctNeverStale(check, required, wide);
    assert wide == narrow + wide[|narrow|..];
    MoreCandidatesExtend(check, required, narrow, wide[|narrow|..]);
  }

  /** Asking for more peers only extends the trusted list: it never drops or reorders a trusted peer. */
  lemma LargerLimitExtendsTrusted(check: Check, required: seq<string>, s: Source, q: Query, larger: nat)
    requires q.maxPeers <= larger
    ensures Trusted(check, required, Search(s, q)) <= Trusted(check, required, Search(s, q.(maxPeers := larger)))
  {
    LimitIsPrefix(s, q, larger);
    SearchIsSound(s, q);
    SearchIsSound(s, q.(maxPeers := larger));
    PrefixTrusted(check, required, Search(s, q), Search(s, q.(maxPeers := larger)));
  }

  // ---------- who is trusted ----------

  lemma PassingCapable(check: Check, required: seq<string>, peers: seq<Peer>, p: Peer)
    ensures p in Capable(required, Passing(check, peers)) <==> p in peers && Passes(check, p) && HasAll(required, p)
  {
    CapableMembers(required, Passing(check, peers), p);
    PassingMembers(check, peers, p);
  }

  /** Trusted are exactly the first hits, within the limit, that pass the check and have all capabilities. */
  lemma TrustedAnswersIff(check: Check, required: seq<string>, s: Source, q: Query, p: Peer)
    ensures p in Trusted(check, required, Search(s, q)) <==>
            IsTaken(HitsOf(s, q), q.maxPeers, p) && Passes(check, p) && HasAll(required, p)
  {
    DiscoveredNeverStale(check, required, s, q);
    PassingCapable(check, required, Search(s, q), p);
    AnswersIff(s, q, p);
  }

  ghost predicate FirstHitAccepted(check: Check, required: seq<string>, hits: seq<Peer>, n: nat, id: PeerId) {
    exists i: nat :: IsWithin(hits, n, i) && Id(hits[i]) == id && Passes(check, hits[i]) && HasAll(required, hits[i])
  }

  /**
   * An identity is trusted exactly when its first hit is within the limit, passes and has all
   * capabilities: what its later hits carry is never looked at.
   */
  lemma TrustedIdentityIff(check: Check, required: seq<string>, s: Source, q: Query, id: PeerId)
    ensures id in Ids(Trusted(check, required, Search(s, q))) <==>
            FirstHitAccepted(check, required, HitsOf(s, q), q.maxPeers, id)
  {
    var hits, trusted := HitsOf(s, q), Trusted(check, required, Search(s, q));
    if id in Ids(trusted) {
      var p :| p in trusted && Id(p) == id;
      TrustedAnswersIff(check, required, s, q, p);
      var i: nat :| IsWithin(hits, q.maxPeers, i) && hits[i] == p;
    }
    if FirstHitAccepted(check, required, hits, q.maxPeers, id) {
      var i: nat :| IsWithin(hits, q.maxPeers, i) && Id(hits[i]) == id
                 && Passes(check, hits[i]) && HasAll(required, hits[i]);
      TrustedAnswersIff(check, required, s, q, hits[i]);
    }
  }

  lemma NothingTrusted(check: Check, required: seq<string>, p: Peer)
    requires !Passes(check, p)
    ensures Trusted(check, required, [p]) == []
  {
    assert Passing(check, [p]) == Passing(check, [p][1..]) == [];
  }

  lemma OneTrusted(check: Check, required: seq<string>, p: Peer, r: Peer)
    requires !Passes(check, p) && Passes(check, r) && HasAll(required, r)
    ensures Trusted(check, required, [p, r]) == [r]
  {
    assert [p, r][1..] == [r] && [r][1..] == [];
    assert Passing(check, [r]) == [r] + Passing(check, []);
    assert Passing(check, [p, r]) == [r];
    DistinctPassThrough([r]);
    assert Capable(required, [r]) == [r] + Capable(required, []);
  }

  /**
   * So the filter alone is not disturbed by candidates that fail the check, but discovery before it
   * is: one that comes first suppresses a passing advertisement of the same peer.
   */
  lemma SuppressedByFirst(
    check: Check, required: seq<string>, k: RecordKey, failing: Advertisement, passing: Advertisement, q: Query)
    requires q.protocols == [k.protocol] && q.maxPeers > 0
    requires Matches(q, k.protocol, k, failing) && Matches(q, k.protocol, k, passing)
    requires Id(Peer(k.protocol, k.namespace, failing)) == Id(Peer(k.protocol, k.namespace, passing))
    requires !Passes(check, Peer(k.protocol, k.namespace, failing))
    requires Passes(check, Peer(k.protocol, k.namespace, passing))
    requires HasAll(required, Peer(k.protocol, k.namespace, passing))
    ensures var s := TwoNetworks(k, failing, passing);
            && Trusted(check, required, Search(s, q)) == []
            && Trusted(check, required, HitsOf(s, q)) == [Peer(k.protocol, k.namespace, passing)]
  {
    FirstNetworkAnswers(k, failing, passing, q);
    TwoNetworksHits(k, failing, passing, q);
    NothingTrusted(check, required, Peer(k.protocol, k.namespace, failing));
    OneTrusted(check, required, Peer(k.protocol, k.namespace, failing), Peer(k.protocol, k.namespace, passing));
  }

  /** Everything the stores hold. */
  ghost function Held(stores: seq<Records>): set<Advertisement> {
    set j, k | 0 <= j < |stores| && k in stores[j] :: stores[j][k]
  }

  /** If nothing the stores hold is forged, every trusted peer is a record its own device signed. */
  lemma TrustedAnswersAuthentic(
    codec: Codec, database: Database, profile: string, history: seq<Signing>, required: seq<string>, s: Source, q: Query, p: Peer)
    requires EncodesApart(codec) && Unforged(codec, database, profile, history, Held(Leaves(s)))
    requires p in Trusted(TrustCheck(codec, database, profile, q.networkId), required, Search(s, q))
    ensures IsAuthentic(database, profile, history, p.advertisement) && IsAnswer(Leaves(s), q, p)
  {
    TrustedAnswersIff(TrustCheck(codec, database, profile, q.networkId), required, s, q, p);
    AnswersIff(s, q, p);
    SearchIsSound(s, q);
    var j, k :| 0 <= j < |Leaves(s)| && k in Leaves(s)[j] && p == PeerAt(Leaves(s)[j], k);
    assert p.advertisement in Held(Leaves(s));
    AcceptedIsAuthentic(codec, database, profile, q.networkId, history, Held(Leaves(s)), p);
  }

  /**
   * From the signer to the trusted list: an advertisement that its device signed, that all networks
   * hold, and whose key the profile trusts, is discovered and trusted, if there is room.
   */
  lemma SignedRecordTrusted(
    codec: Codec, signer: Signer, a: Advertisement, signed: Advertisement, database: Database, profile: string,
    required: seq<string>, s: Source, q: Query, k: RecordKey)
    requires IsKeyPair(codec, signer) && Sign(codec, signer, a) == Ok(signed)
    requires Registered(database, profile, signer, a.membershipEpoch) && a.nodeId != database.localDeviceId
    requires HasAll(required, Peer(k.protocol, k.namespace, signed))
    requires q.protocols == [k.protocol] && Leaves(s) != [] && HeldByAll(Leaves(s), k, signed)
    requires Matches(q, k.protocol, k, signed) && |Search(s, q)| < q.maxPeers
    ensures Peer(k.protocol, k.namespace, signed) in Trusted(TrustCheck(codec, database, profile, q.networkId), required, Search(s, q))
  {
    var p, check := Peer(k.protocol, k.namespace, signed), TrustCheck(codec, database, profile, q.networkId);
    SignsOwnAdvertisements(codec, signer, a);
    var records := Leaves(s)[0];
    assert records[k] == signed && Publication(k.protocol, k.namespace, records[k]).Key() == k;
    SignedAcceptedIff(codec, signer, a, database, profile, q.networkId, p);
    assert Passes(check, p);
    HeldAnswers(s, q, k, signed);
    AnswersIff(s, q, p);
    TrustedAnswersIff(check, required, s, q, p);
  }

  /**
   * A signed advertisement that would be trusted is not, when an earlier network still holds its
   * unsigned copy.
   */
  lemma UnsignedCopySuppresses(
    codec: Codec, signer: Signer, a: Advertisement, signed: Advertisement, database: Database, profile: string,
    required: seq<string>, q: Query, k: RecordKey)
    requires IsKeyPair(codec, signer) && Sign(codec, signer, a) == Ok(signed) && a.identitySignature.None?
    requires Registered(database, profile, signer, a.membershipEpoch) && a.nodeId != database.localDeviceId
    requires HasAll(required, Peer(k.protocol, k.namespace, signed))
    requires q.protocols == [k.protocol] && q.maxPeers > 0 && a.networkId == q.networkId
    requires Matches(q, k.protocol, k, a)
    ensures var check, s := TrustCheck(codec, database, profile, q.networkId), TwoNetworks(k, a, signed);
            && Trusted(check, required, Search(s, q)) == []
            && Trusted(check, required, HitsOf(s, q)) == [Peer(k.protocol, k.namespace, signed)]
  {
    var p := Peer(k.protocol, k.namespace, signed);
    SignsOwnAdvertisements(codec, signer, a);
    SignedAcceptedIff(codec, signer, a, database, profile, q.networkId, p);
    AcceptedIff(codec, database, profile, q.networkId, Peer(k.protocol, k.namespace, a));
    SuppressedByFirst(TrustCheck(codec, database, profile, q.networkId), required, k, a, signed, q);
  }

  // ---------- reports ----------

  /** All node ids in the stores are well formed, as publishing guarantees. */
  predicate WellFormedIds(stores: seq<Records>) {
    forall j :: 0 <= j < |stores| ==> TokenIds(stores[j])
  }

  lemma {:induction false} StoreIdsWellFormed(run: seq<Publication>)
    requires forall i :: 0 <= i < |run| ==> IsToken(run[i].advertisement.nodeId)
    ensures TokenIds(Store(run))
  {
    if run != [] {
      StoreIdsWellFormed(run[..|run| - 1]);
    }
  }

  /** The networks of a live tree hold well-formed ids. */
  lemma {:induction false} LiveIdsWellFormed(p: Provider, view: View)
    requires Networks(p) <= view.Keys && Shows(view, view.Keys)
    ensures WellFormedIds(Leaves(Snapshot(p, view)))
    decreases p, 1
  {
    match p
    case Simulated(network) =>
      assert network in Networks(p);
    case Composite(providers) =>
      LiveIdsWellFormedAll(providers, view);
  }

  lemma {:induction false} LiveIdsWellFormedAll(providers: seq<Provider>, view: View)
    requires NetworksOf(providers) <= view.Keys && Shows(view, view.Keys)
    ensures WellFormedIds(LeavesOf(Snapshots(providers, view)))
    decreases providers, 0
  {
    if providers != [] {
      LiveIdsWellFormed(providers[0], view);
      LiveIdsWellFormedAll(providers[1..], view);
      assert Snapshots(providers, view)[1..] == Snapshots(providers[1..], view);
    }
  }

  lemma {:induction false} NoError(check: Check, peers: seq<Peer>)
    requires forall p :: p in peers ==> check(p).Ok?
    ensures FirstError(check, peers).None?
  {
    if peers != [] {
      assert peers[0] in peers;
      NoError(check, peers[1..]);
    }
  }

  /** Filtering what discovery returned always yields a report. */
  lemma DiscoveredAlwaysReported(
    codec: Codec, database: Database, profile: string, required: seq<string>, s: Source, q: Query)
    requires WellFormedIds(Leaves(s))
    ensures Filter(TrustCheck(codec, database, profile, q.networkId), required, Search(s, q)).Ok?
  {
    var check := TrustCheck(codec, database, profile, q.networkId);
    SearchIsSound(s, q);
    forall p | p in Search(s, q) ensures check(p).Ok? {
      assert IsAnswer(Leaves(s), q, p);
      assert IsToken(p.advertisement.nodeId);
      ErrorIsMalformedId(codec, database, profile, q.networkId, p);
    }
    NoError(check, Search(s, q));
  }

  /** A provider tree is queried, then every answer goes through the filter; a valid query always yields a report. */
  method DiscoverTrusted(
    codec: Codec, database: Database, profile: string, provider: Provider, q: Query, required: seq<string>,
    ghost view: View)
    returns (r: Result<Report, TrustedDiscoveryError>)
    requires Networks(provider) <= view.Keys && Shows(view, view.Keys)
    ensures !IsValidQuery(q) ==> r == Err(Broadwebd(BadRequest))
    ensures IsValidQuery(q) ==>
              && r.Ok?
              && Filter(TrustCheck(codec, database, profile, q.networkId), required, Search(Snapshot(provider, view), q)) == Ok(r.value)
  {
    var discovered := Discover(provider, q, view);
    if discovered.Err? {
      return Err(Broadwebd(discovered.error));
    }
    LiveIdsWellFormed(provider, view);
    DiscoveredAlwaysReported(codec, database, profile, required, Snapshot(provider, view), q);
    var filtered := FilterTrusted(TrustCheck(codec, database, profile, q.networkId), required, discovered.value);
    match filtered {
      case Ok(report) => return Ok(report);
      case Err(error) => return Err(Storage(error));
    }
  }

  // ---------- the whole path ----------

  /** This is what some network of the set holds. */
  ghost predicate IsLive(records: Records, networks: set<SimulatedNetwork>, view: View)
    requires networks <= view.Keys
  {
    exists n :: n in networks && records == view[n]
  }

  ghost predicate AreLive(stores: seq<Records>, networks: set<SimulatedNetwork>, view: View)
    requires networks <= view.Keys
  {
    forall j :: 0 <= j < |stores| ==> IsLive(stores[j], networks, view)
  }

  lemma LiveAppend(a: seq<Records>, b: seq<Records>, m: set<SimulatedNetwork>, n: set<SimulatedNetwork>, view: View)
    requires m <= view.Keys && n <= view.Keys && AreLive(a, m, view) && AreLive(b, n, view)
    ensures AreLive(a + b, m + n, view)
  {
    forall j | 0 <= j < |a + b| ensures IsLive((a + b)[j], m + n, view) {
      if j < |a| {
        assert IsLive(a[j], m, view);
      } else {
        assert IsLive(b[j - |a|], n, view);
      }
    }
  }

  lemma {:induction false} LeavesAreLive(p: Provider, view: View)
    requires Networks(p) <= view.Keys
    ensures AreLive(Leaves(Snapshot(p, view)), Networks(p), view)
    ensures Networks(p) != {} ==> Leaves(Snapshot(p, view)) != []
    decreases p, 1
  {
    match p
    case Simulated(network) =>
      assert network in Networks(p);
    case Composite(providers) =>
      LeavesAreLiveAll(providers, view);
  }

  lemma {:induction false} LeavesAreLiveAll(providers: seq<Provider>, view: View)
    requires NetworksOf(providers) <= view.Keys
    ensures AreLive(LeavesOf(Snapshots(providers, view)), NetworksOf(providers), view)
    ensures NetworksOf(providers) != {} ==> LeavesOf(Snapshots(providers, view)) != []
    decreases providers, 0
  {
    if providers != [] {
      LeavesAreLive(providers[0], view);
      LeavesAreLiveAll(providers[1..], view);
      var sources := Snapshots(providers, view);
      assert sources[1..] == Snapshots(providers[1..], view);
      assert sources[0] == Snapshot(providers[0], view);
      LiveAppend(Leaves(sources[0]), LeavesOf(sources[1..]), Networks(providers[0]), NetworksOf(providers[1..]), view);
    }
  }

  /** No network of the set holds anything as fresh under the publication's key. */
  ghost predicate NothingAsFresh(networks: set<SimulatedNetwork>, view: View, p: Publication)
    requires networks <= view.Keys
  {
    forall n :: n in networks && p.Key() in view[n] ==> view[n][p.Key()].sequence < p.advertisement.sequence
  }

  /** What was published to all networks of a tree is what all of them hold. */
  lemma PublishedIsHeld(provider: Provider, view: View, after: View, p: Publication)
    requires Networks(provider) <= view.Keys && after.Keys == Networks(provider)
    requires NothingAsFresh(Networks(provider), view, p)
    requires forall n :: n in Networks(provider) ==> after[n] == Upsert(view[n], p) && WellKeyed(after[n])
    ensures HeldByAll(Leaves(Snapshot(provider, after)), p.Key(), p.advertisement)
  {
    LeavesAreLive(provider, after);
    var stores := Leaves(Snapshot(provider, after));
    forall j | 0 <= j < |stores|
      ensures WellKeyed(stores[j]) && p.Key() in stores[j] && stores[j][p.Key()] == p.advertisement
    {
      assert IsLive(stores[j], Networks(provider), after);
      var n :| n in Networks(provider) && stores[j] == after[n];
    }
  }

  /** A report accounts for every answer. */
  lemma ReportSize(check: Check, required: seq<string>, candidates: seq<Peer>)
    requires Filter(check, required, candidates).Ok?
    ensures var report := Filter(check, required, candidates).value;
            |report.trusted| + |report.rejected| == |candidates|
  {
    FilterConserves(check, required, candidates);
    var report := Filter(check, required, candidates).value;
    assert |multiset(Identities(candidates))| == |Identities(candidates)|;
    assert |multiset(Identities(report.trusted))| == |Identities(report.trusted)|;
    assert |multiset(RejectedIdentities(report.rejected))| == |RejectedIdentities(report.rejected)|;
  }

  /**
   * One device signs and publishes, another discovers: unless the report is full, the first is among
   * the trusted peers, with exactly the advertisement it signed.
   */
  method SignPublishDiscover(
    codec: Codec, signer: Signer, a: Advertisement, provider: Provider, protocol: Protocol, database: Database,
    profile: string, q: Query, required: seq<string>, ghost view: View)
    returns (r: Result<Report, TrustedDiscoveryError>)
    requires Networks(provider) <= view.Keys && Shows(view, Networks(provider)) && Networks(provider) != {}
    requires IsKeyPair(codec, signer) && Sign(codec, signer, a).Ok?
    requires NothingAsFresh(Networks(provider), view, Publication(protocol, q.namespace, a))
    requires IsValidQuery(q) && q.protocols == [protocol] && q.networkId == a.networkId && q.requesterNodeId != a.nodeId
    requires Registered(database, profile, signer, a.membershipEpoch) && a.nodeId != database.localDeviceId
    requires SupportsServiceFrames(a) && HasAll(required, Peer(protocol, q.namespace, a))
    modifies Networks(provider)
    ensures r.Ok?
    ensures Peer(protocol, q.namespace, Sign(codec, signer, a).value) in r.value.trusted
            || |r.value.trusted| + |r.value.rejected| >= q.maxPeers
  {
    SignsOwnAdvertisements(codec, signer, a);
    var signed := Sign(codec, signer, a).value;
    ghost var publication := Publication(protocol, q.namespace, signed);
    var published := Publish(codec.text, provider, protocol, q.namespace, signed, view);
    ghost var after: View := map n | n in Networks(provider) :: n.records;
    PublishedIsHeld(provider, view, after, publication);
    LeavesAreLive(provider, after);
    r := DiscoverTrusted(codec, database, profile, provider, q, required, after);
    ghost var s := Snapshot(provider, after);
    ReportSize(TrustCheck(codec, database, profile, q.networkId), required, Search(s, q));
    if |Search(s, q)| < q.maxPeers {
      SignedRecordTrusted(codec, signer, a, signed, database, profile, required, s, q, publication.Key());
    }
  }
}
