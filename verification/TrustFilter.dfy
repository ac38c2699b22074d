// The three-stage trust filter over discovered peers: trust checks, freshness, required
// capabilities (crates/profile-sync/src/discovery_trust.rs). The trust check is a parameter here;
// `DeviceTrust` supplies the real one.
module TrustFilter {
  import opened Text
  import opened PeerDiscovery
  import opened Freshness

  datatype StorageError = InvalidSyncDeviceId(deviceId: string)

  /** The verdict on one candidate: a storage error, a rejection, or no objection. */
  type Check = Peer -> Result<Option<Rejection>, StorageError>

  datatype Report = Report(trusted: seq<Peer>, rejected: seq<Rejected>)

  predicate Passes(check: Check, p: Peer) {
    check(p) == Ok(None)
  }

  /** The first storage error met, if any. */
  function FirstError(check: Check, candidates: seq<Peer>): Option<StorageError> {
    if candidates == [] then None
    else match check(candidates[0])
      case Err(error) => Some(error)
      case Ok(_) => FirstError(check, candidates[1..])
  }

  function Passing(check: Check, candidates: seq<Peer>): seq<Peer> {
    if candidates == [] then []
    else (if Passes(check, candidates[0]) then [candidates[0]] else []) + Passing(check, candidates[1..])
  }

  function TrustRejects(check: Check, candidates: seq<Peer>): seq<Rejected> {
    if candidates == [] then []
    else
      (match check(candidates[0])
       case Ok(Some(reason)) => [Reject(candidates[0], reason)]
       case _ => [])
      + TrustRejects(check, candidates[1..])
  }

  predicate HasAll(required: seq<string>, p: Peer) {
    forall i :: 0 <= i < |required| ==> required[i] in p.advertisement.capabilities
  }

  function Capable(required: seq<string>, peers: seq<Peer>): seq<Peer> {
    if peers == [] then []
    else (if HasAll(required, peers[0]) then [peers[0]] else []) + Capable(required, peers[1..])
  }

  function CapabilityRejects(required: seq<string>, peers: seq<Peer>): seq<Rejected> {
    if peers == [] then []
    else
      (if HasAll(required, peers[0]) then [] else [Reject(peers[0], MissingRequiredCapability)])
      + CapabilityRejects(required, peers[1..])
  }

  /** The peers the filter reports as trusted, and the rejections it reports, stage by stage. */
  function Trusted(check: Check, required: seq<string>, candidates: seq<Peer>): seq<Peer> {
    Capable(required, Fresh(Passing(check, candidates)))
  }

  function AllRejects(check: Check, required: seq<string>, candidates: seq<Peer>): seq<Rejected> {
    var passing := Passing(check, candidates);
    TrustRejects(check, candidates) + FreshRejects(passing) + CapabilityRejects(required, Fresh(passing))
  }

  function Filter(check: Check, required: seq<string>, candidates: seq<Peer>): Result<Report, StorageError> {
    match FirstError(check, candidates)
    case Some(error) => Err(error)
    case None => Ok(Report(Trusted(check, required, candidates), AllRejects(check, required, candidates)))
  }

  // ---------- the loops ----------

  /** The freshness loop: a map from identity to slot, and the slots. */
  method FreshestTrusted(candidates: seq<Peer>, rejected: seq<Rejected>)
    returns (trusted: seq<Peer>, allRejected: seq<Rejected>)
    ensures trusted == Fresh(candidates)
    ensures allRejected == rejected + FreshRejects(candidates)
  {
    var freshestByKey: map<Identity, nat> := map[];
    var freshest: seq<Option<Peer>> := [];
    allRejected := rejected;
    ghost var kept: seq<Peer> := [];
    assert candidates[0..] == candidates;
    for i := 0 to |candidates|
      invariant Indexes(freshestByKey, kept) && HoldsAll(freshest, kept)
      invariant Fresh(candidates) == FreshFrom(kept, candidates[i..])
      invariant rejected + FreshRejects(candidates) == allRejected + RejectsFrom(kept, candidates[i..])
    {
      var candidate := candidates[i];
      var key := IdentityOf(candidate);
      LoopStep(kept, candidates, i);
      IndexStep(freshestByKey, kept, candidate);
      HoldStep(freshest, kept, candidate);
      RejectStep(allRejected, kept, candidate, RejectsFrom(Freshen(kept, candidate), candidates[i + 1..]));
      if key in freshestByKey {
        var existingIndex := freshestByKey[key];
        var existing := freshest[existingIndex].value;
        if candidate.advertisement.sequence > existing.advertisement.sequence {
          freshest := freshest[existingIndex := Some(candidate)];
          allRejected := allRejected + [Reject(existing, StaleDiscoverySequence)];
        } else if candidate.advertisement.sequence == existing.advertisement.sequence {
          allRejected := allRejected + [Reject(candidate, ReplayedDiscoverySequence)];
        } else {
          allRejected := allRejected + [Reject(candidate, StaleDiscoverySequence)];
        }
      } else {
        freshestByKey := freshestByKey[key := |freshest|];
        freshest := freshest + [Some(candidate)];
      }
      kept := Freshen(kept, candidate);
    }
    FlattenAll(freshest, kept);
    trusted := Flatten(freshest);
  }

  ghost predicate Indexes(index: map<Identity, nat>, kept: seq<Peer>) {
    forall id :: (id in index <==> Slot(kept, id) < |kept|) && (id in index ==> index[id] == Slot(kept, id))
  }

  ghost predicate HoldsAll(slots: seq<Option<Peer>>, kept: seq<Peer>) {
    |slots| == |kept| && forall i :: 0 <= i < |kept| ==> slots[i] == Some(kept[i])
  }

  function Flatten(slots: seq<Option<Peer>>): seq<Peer> {
    if slots == [] then []
    else (match slots[0] case Some(p) => [p] case None => []) + Flatten(slots[1..])
  }

  lemma {:induction false} FlattenAll(slots: seq<Option<Peer>>, kept: seq<Peer>)
    requires HoldsAll(slots, kept)
    ensures Flatten(slots) == kept
  {
    if kept != [] {
      FlattenAll(slots[1..], kept[1..]);
    }
  }

  lemma LoopStep(kept: seq<Peer>, candidates: seq<Peer>, i: nat)
    requires i < |candidates|
    ensures FreshFrom(kept, candidates[i..]) == FreshFrom(Freshen(kept, candidates[i]), candidates[i + 1..])
    ensures RejectsFrom(kept, candidates[i..])
         == FreshenReject(kept, candidates[i]) + RejectsFrom(Freshen(kept, candidates[i]), candidates[i + 1..])
  {
    assert candidates[i..][1..] == candidates[i + 1..];
  }

  lemma IndexStep(index: map<Identity, nat>, kept: seq<Peer>, c: Peer)
    requires Indexes(index, kept)
    ensures Indexes(if IdentityOf(c) in index then index else index[IdentityOf(c) := |kept|], Freshen(kept, c))
  {
    var next := Freshen(kept, c);
    if IdentityOf(c) in index {
      FreshenKeepsIdentities(kept, c);
    } else {
      forall id ensures Slot(next, id) == if Slot(kept, id) < |kept| then Slot(kept, id) else |kept| + Slot([c], id) {
        SlotOfAppend(kept, [c], id);
      }
    }
  }

  lemma HoldStep(slots: seq<Option<Peer>>, kept: seq<Peer>, c: Peer)
    requires HoldsAll(slots, kept)
    ensures var i := Slot(kept, IdentityOf(c));
            if i == |kept| then HoldsAll(slots + [Some(c)], Freshen(kept, c))
            else
              && slots[i] == Some(kept[i]) && IdentityOf(kept[i]) == IdentityOf(c)
              && HoldsAll(if Sequence(c) > Sequence(kept[i]) then slots[i := Some(c)] else slots, Freshen(kept, c))
  {
  }

  lemma RejectStep(rejected: seq<Rejected>, kept: seq<Peer>, c: Peer, later: seq<Rejected>)
    ensures rejected + (FreshenReject(kept, c) + later) == (rejected + FreshenReject(kept, c)) + later
    ensures FreshenReject(kept, c) == [] ==> rejected + (FreshenReject(kept, c) + later) == rejected + later
  {
  }

  /** One peer of the last stage. */
  lemma CapableStep(required: seq<string>, peers: seq<Peer>, i: nat, trusted: seq<Peer>, rejected: seq<Rejected>)
    requires i < |peers|
    ensures var capable, rest := HasAll(required, peers[i]), peers[i + 1..];
            && trusted + Capable(required, peers[i..])
            == trusted + (if capable then [peers[i]] else []) + Capable(required, rest)
            && rejected + CapabilityRejects(required, peers[i..])
            == rejected + (if capable then [] else [Reject(peers[i], MissingRequiredCapability)]) + CapabilityRejects(required, rest)
    ensures trusted + [] == trusted && rejected + [] == rejected
  {
    var p, rest := peers[i], peers[i + 1..];
    assert peers[i..] == [p] + rest;
    CapableCons(required, p, rest);
    CapabilityRejectsCons(required, p, rest);
    var kept, refused := if HasAll(required, p) then [p] else [],
      if HasAll(required, p) then [] else [Reject(p, MissingRequiredCapability)];
    AppendAssociative(trusted, kept, Capable(required, rest));
    AppendAssociative(rejected, refused, CapabilityRejects(required, rest));
  }

  method RequireCapabilities(report: Report, required: seq<string>) returns (filtered: Report)
    ensures filtered == Report(Capable(required, report.trusted), report.rejected + CapabilityRejects(required, report.trusted))
  {
    if required == [] {
      NothingRequired(report.trusted);
      return report;
    }
    var trusted: seq<Peer> := [];
    var rejected := report.rejected;
    assert report.trusted[0..] == report.trusted;
    for i := 0 to |report.trusted|
      invariant Capable(required, report.trusted) == trusted + Capable(required, report.trusted[i..])
      invariant report.rejected + CapabilityRejects(required, report.trusted)
             == rejected + CapabilityRejects(required, report.trusted[i..])
    {
      var peer := report.trusted[i];
      CapableStep(required, report.trusted, i, trusted, rejected);
      if forall k :: 0 <= k < |required| ==> required[k] in peer.advertisement.capabilities {
        trusted := trusted + [peer];
      } else {
        rejected := rejected + [Reject(peer, MissingRequiredCapability)];
      }
    }
    return Report(trusted, rejected);
  }

  lemma {:induction false} NothingRequired(peers: seq<Peer>)
    ensures Capable([], peers) == peers && CapabilityRejects([], peers) == []
  {
    if peers != [] {
      NothingRequired(peers[1..]);
    }
  }

  function PassingOne(check: Check, p: Peer): seq<Peer> {
    if Passes(check, p) then [p] else []
  }

  function RejectedOne(check: Check, p: Peer): seq<Rejected> {
    match check(p)
    case Ok(Some(reason)) => [Reject(p, reason)]
    case _ => []
  }

  /** One candidate of the first stage. */
  lemma FilterStep(check: Check, candidates: seq<Peer>, i: nat, passing: seq<Peer>, rejected: seq<Rejected>)
    requires i < |candidates|
    ensures passing + Passing(check, candidates[i..])
         == passing + PassingOne(check, candidates[i]) + Passing(check, candidates[i + 1..])
    ensures rejected + TrustRejects(check, candidates[i..])
         == rejected + RejectedOne(check, candidates[i]) + TrustRejects(check, candidates[i + 1..])
    ensures FirstError(check, candidates[i..])
         == match check(candidates[i]) case Err(error) => Some(error) case Ok(_) => FirstError(check, candidates[i + 1..])
    ensures passing + [] == passing && rejected + [] == rejected
  {
    assert candidates[i..][1..] == candidates[i + 1..];
    AppendAssociative(passing, PassingOne(check, candidates[i]), Passing(check, candidates[i + 1..]));
    AppendAssociative(rejected, RejectedOne(check, candidates[i]), TrustRejects(check, candidates[i + 1..]));
  }

  method FilterTrusted(check: Check, required: seq<string>, candidates: seq<Peer>)
    returns (r: Result<Report, StorageError>)
    ensures r == Filter(check, required, candidates)
  {
    var rejected: seq<Rejected> := [];
    var passing: seq<Peer> := [];
    assert candidates[0..] == candidates;
    for i := 0 to |candidates|
      invariant FirstError(check, candidates) == FirstError(check, candidates[i..])
      invariant Passing(check, candidates) == passing + Passing(check, candidates[i..])
      invariant TrustRejects(check, candidates) == rejected + TrustRejects(check, candidates[i..])
    {
      var candidate := candidates[i];
      FilterStep(check, candidates, i, passing, rejected);
      match check(candidate) {
        case Err(error) =>
          return Err(error);
        case Ok(Some(reason)) =>
          rejected := rejected + [Reject(candidate, reason)];
        case Ok(None) =>
          passing := passing + [candidate];
      }
    }
    assert passing == Passing(check, candidates) && rejected == TrustRejects(check, candidates);
    var trusted;
    trusted, rejected := FreshestTrusted(passing, rejected);
    var report := RequireCapabilities(Report(trusted, rejected), required);
    return Ok(report);
  }

  // ---------- laws of the whole filter ----------

  lemma {:induction false} CapableMembers(required: seq<string>, peers: seq<Peer>, p: Peer)
    ensures p in Capable(required, peers) <==> p in peers && HasAll(required, p)
  {
    if peers != [] {
      CapableMembers(required, peers[1..], p);
      assert p in peers <==> p == peers[0] || p in peers[1..];
    }
  }

  /**
   * A peer is trusted exactly when it passes the trust check, is the earliest freshest of the
   * passing candidates of its identity, and has every required capability. In particular an older
   * advertisement never stands in for a freshest one that lacks a capability.
   */
  lemma TrustedIff(check: Check, required: seq<string>, candidates: seq<Peer>, p: Peer)
    ensures p in Trusted(check, required, candidates) <==>
            IsWinner(Passing(check, candidates), p) && HasAll(required, p)
  {
    var passing := Passing(check, candidates);
    CapableMembers(required, Fresh(passing), p);
    FreshIsFreshest(passing);
    if IsWinner(passing, p) {
      WinnerIsCandidate(passing, p);
      var kept := Fresh(passing);
      var q := kept[Slot(kept, IdentityOf(p))];
      WinnerUnique(passing, p, q);
    }
  }

  lemma {:induction false} CapableKeepsDistinct(required: seq<string>, peers: seq<Peer>)
    requires DistinctIdentities(peers)
    ensures DistinctIdentities(Capable(required, peers))
  {
    if peers != [] {
      CapableKeepsDistinct(required, peers[1..]);
      var rest := Capable(required, peers[1..]);
      forall i | 0 <= i < |rest| ensures IdentityOf(rest[i]) != IdentityOf(peers[0]) {
        CapableMembers(required, peers[1..], rest[i]);
        var j :| 0 <= j < |peers[1..]| && peers[1..][j] == rest[i];
        assert IdentityOf(peers[0]) != IdentityOf(peers[j + 1]);
      }
    }
  }

  lemma {:induction false} CapableAll(required: seq<string>, peers: seq<Peer>)
    requires forall p :: p in peers ==> HasAll(required, p)
    ensures Capable(required, peers) == peers && CapabilityRejects(required, peers) == []
  {
    if peers != [] {
      CapableAll(required, peers[1..]);
    }
  }

  lemma {:induction false} PassingMembers(check: Check, candidates: seq<Peer>, p: Peer)
    ensures p in Passing(check, candidates) <==> p in candidates && Passes(check, p)
  {
    if candidates != [] {
      PassingMembers(check, candidates[1..], p);
      assert p in candidates <==> p == candidates[0] || p in candidates[1..];
    }
  }

  lemma {:induction false} AllPass(check: Check, candidates: seq<Peer>)
    requires forall p :: p in candidates ==> Passes(check, p)
    ensures Passing(check, candidates) == candidates
    ensures TrustRejects(check, candidates) == [] && FirstError(check, candidates) == None
  {
    if candidates != [] {
      assert candidates[0] in candidates;
      AllPass(check, candidates[1..]);
    }
  }

  /** Only the passing candidates decide who is trusted, whatever the others claim. */
  lemma OnlyPassingMatter(check: Check, required: seq<string>, candidates: seq<Peer>)
    ensures Filter(check, required, Passing(check, candidates)).Ok?
    ensures Trusted(check, required, Passing(check, candidates)) == Trusted(check, required, candidates)
  {
    var passing := Passing(check, candidates);
    forall p | p in passing ensures Passes(check, p) {
      PassingMembers(check, candidates, p);
    }
    AllPass(check, passing);
  }

  lemma TrustedPassDistinct(check: Check, required: seq<string>, candidates: seq<Peer>)
    ensures var trusted := Trusted(check, required, candidates);
            && DistinctIdentities(trusted)
            && forall p :: p in trusted ==> Passes(check, p) && HasAll(required, p)
  {
    var passing := Passing(check, candidates);
    FreshIsFreshest(passing);
    CapableKeepsDistinct(required, Fresh(passing));
    forall p | p in Trusted(check, required, candidates) ensures Passes(check, p) && HasAll(required, p) {
      TrustedIff(check, required, candidates, p);
      WinnerIsCandidate(passing, p);
      PassingMembers(check, candidates, p);
    }
  }

  /** Filtering the trusted peers again returns them unchanged, with nothing rejected. */
  lemma FilterTwice(check: Check, required: seq<string>, candidates: seq<Peer>)
    ensures var trusted := Trusted(check, required, candidates);
            Filter(check, required, trusted) == Ok(Report(trusted, []))
  {
    var trusted := Trusted(check, required, candidates);
    TrustedPassDistinct(check, required, candidates);
    AllPass(check, trusted);
    DistinctPassThrough(trusted);
    CapableAll(required, trusted);
    assert AllRejects(check, required, trusted) == [];
  }

  ghost predicate TrustConserved(check: Check, candidates: seq<Peer>) {
    multiset(Identities(candidates))
    == multiset(Identities(Passing(check, candidates))) + multiset(RejectedIdentities(TrustRejects(check, candidates)))
  }

  lemma RejectsCons(check: Check, head: Peer, tail: seq<Peer>)
    requires check(head).Ok?
    ensures TrustRejects(check, [head] + tail)
         == (if check(head).value.Some? then [Reject(head, check(head).value.value)] else []) + TrustRejects(check, tail)
  {
    assert ([head] + tail)[1..] == tail;
  }

  /** One more of a bag, kept or refused. */
  lemma OneMoreKept<T>(all: multiset<T>, kept: multiset<T>, refused: multiset<T>, x: T)
    requires all == kept + refused
    ensures multiset{x} + all == (multiset{x} + kept) + refused
    ensures multiset{x} + all == kept + (multiset{x} + refused)
  {
  }

  lemma ConservedPassing(check: Check, head: Peer, tail: seq<Peer>)
    requires Passes(check, head) && TrustConserved(check, tail)
    ensures TrustConserved(check, [head] + tail)
  {
    var kept, refused := Passing(check, tail), TrustRejects(check, tail);
    ConsIdentities(head, tail);
    ConsIdentities(head, kept);
    PassingCons(check, head, tail);
    RejectsCons(check, head, tail);
    assert [] + refused == refused;
    OneMoreKept(multiset(Identities(tail)), multiset(Identities(kept)), multiset(RejectedIdentities(refused)), IdentityOf(head));
  }

  lemma ConservedRejected(check: Check, head: Peer, tail: seq<Peer>)
    requires check(head).Ok? && check(head).value.Some? && TrustConserved(check, tail)
    ensures TrustConserved(check, [head] + tail)
  {
    var kept, refused := Passing(check, tail), TrustRejects(check, tail);
    var rejected := Reject(head, check(head).value.value);
    ConsIdentities(head, tail);
    HeadRejects(rejected, refused);
    PassingCons(check, head, tail);
    RejectsCons(check, head, tail);
    assert [] + kept == kept;
    OneMoreKept(multiset(Identities(tail)), multiset(Identities(kept)), multiset(RejectedIdentities(refused)), IdentityOf(head));
  }

  lemma {:induction false} TrustConserves(check: Check, candidates: seq<Peer>)
    requires FirstError(check, candidates).None?
    ensures TrustConserved(check, candidates)
  {
    if candidates != [] {
      var head, tail := candidates[0], candidates[1..];
      assert candidates == [head] + tail;
      TrustConserves(check, tail);
      if Passes(check, head) {
        ConservedPassing(check, head, tail);
      } else {
        ConservedRejected(check, head, tail);
      }
    }
  }

  lemma ConsIdentities(head: Peer, tail: seq<Peer>)
    ensures multiset(Identities([head] + tail)) == multiset{IdentityOf(head)} + multiset(Identities(tail))
  {
    assert Identities([head] + tail) == [IdentityOf(head)] + Identities(tail);
  }

  lemma HeadRejects(r: Rejected, rest: seq<Rejected>)
    ensures multiset(RejectedIdentities([r] + rest)) == multiset{r.identity} + multiset(RejectedIdentities(rest))
  {
    assert RejectedIdentities([r] + rest) == [r.identity] + RejectedIdentities(rest);
  }

  ghost predicate CapabilityConserved(required: seq<string>, peers: seq<Peer>) {
    multiset(Identities(peers))
    == multiset(Identities(Capable(required, peers))) + multiset(RejectedIdentities(CapabilityRejects(required, peers)))
  }

  lemma CapabilityRejectsCons(required: seq<string>, head: Peer, tail: seq<Peer>)
    ensures CapabilityRejects(required, [head] + tail)
         == (if HasAll(required, head) then [] else [Reject(head, MissingRequiredCapability)]) + CapabilityRejects(required, tail)
  {
    assert ([head] + tail)[1..] == tail;
  }

  lemma ConservedCapable(required: seq<string>, head: Peer, tail: seq<Peer>)
    requires HasAll(required, head) && CapabilityConserved(required, tail)
    ensures CapabilityConserved(required, [head] + tail)
  {
    var kept, refused := Capable(required, tail), CapabilityRejects(required, tail);
    ConsIdentities(head, tail);
    ConsIdentities(head, kept);
    CapableCons(required, head, tail);
    CapabilityRejectsCons(required, head, tail);
    assert [] + refused == refused;
    OneMoreKept(multiset(Identities(tail)), multiset(Identities(kept)), multiset(RejectedIdentities(refused)), IdentityOf(head));
  }

  lemma ConservedIncapable(required: seq<string>, head: Peer, tail: seq<Peer>)
    requires !HasAll(required, head) && CapabilityConserved(required, tail)
    ensures CapabilityConserved(required, [head] + tail)
  {
    var kept, refused := Capable(required, tail), CapabilityRejects(required, tail);
    ConsIdentities(head, tail);
    HeadRejects(Reject(head, MissingRequiredCapability), refused);
    CapableCons(required, head, tail);
    CapabilityRejectsCons(required, head, tail);
    assert [] + kept == kept;
    OneMoreKept(multiset(Identities(tail)), multiset(Identities(kept)), multiset(RejectedIdentities(refused)), IdentityOf(head));
  }

  lemma {:induction false} CapabilityConserves(required: seq<string>, peers: seq<Peer>)
    ensures CapabilityConserved(required, peers)
  {
    if peers != [] {
      CapabilityConserves(required, peers[1..]);
      if HasAll(required, peers[0]) {
        ConservedCapable(required, peers[0], peers[1..]);
      } else {
        ConservedIncapable(required, peers[0], peers[1..]);
      }
      assert peers == [peers[0]] + peers[1..];
    }
  }

  /** Every candidate is reported exactly once, as trusted or as rejected. */
  lemma FilterConserves(check: Check, required: seq<string>, candidates: seq<Peer>)
    requires Filter(check, required, candidates).Ok?
    ensures var report := Filter(check, required, candidates).value;
            multiset(Identities(candidates)) ==
            multiset(Identities(report.trusted)) + multiset(RejectedIdentities(report.rejected))
  {
    var passing := Passing(check, candidates);
    var first, second, third :=
      TrustRejects(check, candidates), FreshRejects(passing), CapabilityRejects(required, Fresh(passing));
    TrustConserves(check, candidates);
    FreshConserves(passing);
    CapabilityConserves(required, Fresh(passing));
    RejectedAppend(first, second);
    RejectedAppend(first + second, third);
  }

  /** Candidates may arrive in batches: keeping only the first batch's fresh peers changes nothing. */
  lemma FilterStreams(check: Check, required: seq<string>, earlier: seq<Peer>, later: seq<Peer>)
    ensures Trusted(check, required, earlier + later)
         == Trusted(check, required, Fresh(Passing(check, earlier)) + later)
  {
    var fresh1 := Fresh(Passing(check, earlier));
    PassingAppend(check, earlier, later);
    PassingAppend(check, fresh1, later);
    FreshIsFreshest(Passing(check, earlier));
    forall p | p in fresh1 ensures Passes(check, p) {
      WinnerIsCandidate(Passing(check, earlier), p);
      PassingMembers(check, earlier, p);
    }
    AllPass(check, fresh1);
    FreshStreams(Passing(check, earlier), Passing(check, later));
  }

  lemma PassingCons(check: Check, head: Peer, tail: seq<Peer>)
    ensures Passing(check, [head] + tail) == (if Passes(check, head) then [head] else []) + Passing(check, tail)
  {
    assert ([head] + tail)[1..] == tail;
  }

  lemma {:induction false} PassingAppend(check: Check, a: seq<Peer>, b: seq<Peer>)
    ensures Passing(check, a + b) == Passing(check, a) + Passing(check, b)
  {
    if a == [] {
      assert a + b == b;
    } else {
      var head, tail := a[0], a[1..];
      PassingAppend(check, tail, b);
      PassingCons(check, head, tail);
      PassingCons(check, head, tail + b);
      AppendAssociative([head], tail, b);
      assert a == [head] + tail;
      AppendAssociative(if Passes(check, head) then [head] else [], Passing(check, tail), Passing(check, b));
    }
  }

  lemma CapableCons(required: seq<string>, head: Peer, tail: seq<Peer>)
    ensures Capable(required, [head] + tail) == (if HasAll(required, head) then [head] else []) + Capable(required, tail)
  {
    assert ([head] + tail)[1..] == tail;
  }

  lemma {:induction false} CapableAppend(required: seq<string>, a: seq<Peer>, b: seq<Peer>)
    ensures Capable(required, a + b) == Capable(required, a) + Capable(required, b)
  {
    if a == [] {
      assert a + b == b;
    } else {
      var head, tail := a[0], a[1..];
      CapableAppend(required, tail, b);
      CapableCons(required, head, tail);
      CapableCons(required, head, tail + b);
      AppendAssociative([head], tail, b);
      assert a == [head] + tail;
      AppendAssociative(if HasAll(required, head) then [head] else [], Capable(required, tail), Capable(required, b));
    }
  }
}
