// The trust filter's second stage: one peer per key, the earliest candidate with the largest
// sequence (crates/profile-sync/src/discovery_trust.rs).
module Freshness {
  import opened Text
  import opened PeerDiscovery

  datatype Rejection =
    | WrongNetwork
    | LocalDevice
    | MissingProfileSyncServiceFrameCapability
    | StaleDiscoverySequence
    | ReplayedDiscoverySequence
    | UnknownDevicePublicKey
    | UntrustedDevicePublicKey
    | MissingSignedIdentity
    | MissingRequiredCapability
    | SignatureDeviceMismatch
    | SignaturePublicKeyMismatch
    | SignerMembershipEpochTooNew
    | InvalidSignature

  /** What a rejection reports of its candidate; also the key freshness is decided by. */
  datatype Identity = Identity(
    protocol: Protocol, namespace: string, networkId: string, nodeId: string, providerId: string)

  datatype Rejected = Rejected(identity: Identity, reason: Rejection)

  function IdentityOf(p: Peer): Identity {
    Identity(p.protocol, p.namespace, p.advertisement.networkId, p.advertisement.nodeId, p.advertisement.providerId)
  }

  function Sequence(p: Peer): nat {
    p.advertisement.sequence
  }

  function Reject(p: Peer, reason: Rejection): Rejected {
    Rejected(IdentityOf(p), reason)
  }

  /** Position of the first peer of an identity, or the length when there is none. */
  function Slot(peers: seq<Peer>, id: Identity): (i: nat)
    ensures i <= |peers|
    ensures i < |peers| ==> IdentityOf(peers[i]) == id
    ensures forall j :: 0 <= j < i ==> IdentityOf(peers[j]) != id
  {
    if peers == [] || IdentityOf(peers[0]) == id then 0 else 1 + Slot(peers[1..], id)
  }

  /** One candidate against the peers kept so far. */
  function Freshen(kept: seq<Peer>, c: Peer): seq<Peer> {
    var i := Slot(kept, IdentityOf(c));
    if i == |kept| then kept + [c]
    else if Sequence(c) > Sequence(kept[i]) then kept[i := c]
    else kept
  }

  function FreshenReject(kept: seq<Peer>, c: Peer): seq<Rejected> {
    var i := Slot(kept, IdentityOf(c));
    if i == |kept| then []
    else if Sequence(c) == Sequence(kept[i]) then [Reject(c, ReplayedDiscoverySequence)]
    else [Reject(c, StaleDiscoverySequence)]
  }

  function FreshFrom(kept: seq<Peer>, candidates: seq<Peer>): seq<Peer>
    decreases |candidates|
  {
    if candidates == [] then kept else FreshFrom(Freshen(kept, candidates[0]), candidates[1..])
  }

  function RejectsFrom(kept: seq<Peer>, candidates: seq<Peer>): seq<Rejected>
    decreases |candidates|
  {
    if candidates == [] then []
    else FreshenReject(kept, candidates[0]) + RejectsFrom(Freshen(kept, candidates[0]), candidates[1..])
  }

  function Fresh(candidates: seq<Peer>): seq<Peer> {
    FreshFrom([], candidates)
  }

  function FreshRejects(candidates: seq<Peer>): seq<Rejected> {
    RejectsFrom([], candidates)
  }

  // ---------- what the stage is for ----------

  predicate DistinctIdentities(peers: seq<Peer>) {
    forall i, j :: 0 <= i < j < |peers| ==> IdentityOf(peers[i]) != IdentityOf(peers[j])
  }

  /** Position j holds the earliest of its identity's candidates with the largest sequence. */
  predicate IsEarliestFreshest(candidates: seq<Peer>, j: nat) {
    && j < |candidates|
    && (forall k :: 0 <= k < |candidates| && IdentityOf(candidates[k]) == IdentityOf(candidates[j]) ==>
          Sequence(candidates[k]) <= Sequence(candidates[j]))
    && (forall k :: 0 <= k < j && IdentityOf(candidates[k]) == IdentityOf(candidates[j]) ==>
          Sequence(candidates[k]) < Sequence(candidates[j]))
  }

  ghost predicate IsWinner(candidates: seq<Peer>, p: Peer) {
    exists j: nat :: IsEarliestFreshest(candidates, j) && candidates[j] == p
  }

  ghost predicate AreWinners(candidates: seq<Peer>, kept: seq<Peer>) {
    forall i :: 0 <= i < |kept| ==> IsWinner(candidates, kept[i])
  }

  predicate CoversAll(candidates: seq<Peer>, kept: seq<Peer>) {
    forall j :: 0 <= j < |candidates| ==> Slot(kept, IdentityOf(candidates[j])) < |kept|
  }

  predicate InFirstOrder(candidates: seq<Peer>, kept: seq<Peer>) {
    forall i, i' :: 0 <= i < i' < |kept| ==>
      Slot(candidates, IdentityOf(kept[i])) < Slot(candidates, IdentityOf(kept[i']))
  }

  /** One winner per identity, in the order the identities first appear. */
  ghost predicate IsFreshest(candidates: seq<Peer>, kept: seq<Peer>) {
    AreWinners(candidates, kept) && CoversAll(candidates, kept) && InFirstOrder(candidates, kept)
  }

  lemma {:induction false} SlotOfAppend(a: seq<Peer>, b: seq<Peer>, id: Identity)
    ensures Slot(a + b, id) == if Slot(a, id) < |a| then Slot(a, id) else |a| + Slot(b, id)
  {
    if a == [] {
      assert a + b == b;
    } else {
      assert (a + b)[0] == a[0] && (a + b)[1..] == a[1..] + b;
      SlotOfAppend(a[1..], b, id);
    }
  }

  lemma {:induction false} FreshFromAppend(kept: seq<Peer>, a: seq<Peer>, b: seq<Peer>)
    ensures FreshFrom(kept, a + b) == FreshFrom(FreshFrom(kept, a), b)
    ensures RejectsFrom(kept, a + b) == RejectsFrom(kept, a) + RejectsFrom(FreshFrom(kept, a), b)
    decreases |a|
  {
    if a == [] {
      assert a + b == b;
    } else {
      assert (a + b)[0] == a[0] && (a + b)[1..] == a[1..] + b;
      FreshFromAppend(Freshen(kept, a[0]), a[1..], b);
    }
  }

  lemma FreshLast(candidates: seq<Peer>, c: Peer)
    ensures Fresh(candidates + [c]) == Freshen(Fresh(candidates), c)
    ensures FreshRejects(candidates + [c]) == FreshRejects(candidates) + FreshenReject(Fresh(candidates), c)
  {
    FreshFromAppend([], candidates, [c]);
    var kept := Fresh(candidates);
    assert [c][1..] == [];
    assert FreshFrom(Freshen(kept, c), []) == Freshen(kept, c) && RejectsFrom(Freshen(kept, c), []) == [];
  }

  lemma WinnerUnique(candidates: seq<Peer>, p: Peer, q: Peer)
    requires IsWinner(candidates, p) && IsWinner(candidates, q) && IdentityOf(p) == IdentityOf(q)
    ensures p == q
  {
    var i: nat :| IsEarliestFreshest(candidates, i) && candidates[i] == p;
    var j: nat :| IsEarliestFreshest(candidates, j) && candidates[j] == q;
    assert Sequence(candidates[i]) == Sequence(candidates[j]);
    assert i == j;
  }

  /** A winner stays one when a candidate of another identity, or no fresher one, is added. */
  lemma WinnerStays(candidates: seq<Peer>, c: Peer, p: Peer)
    requires IsWinner(candidates, p)
    requires IdentityOf(c) != IdentityOf(p) || Sequence(c) <= Sequence(p)
    ensures IsWinner(candidates + [c], p)
  {
    var j: nat :| IsEarliestFreshest(candidates, j) && candidates[j] == p;
    assert IsEarliestFreshest(candidates + [c], j);
  }

  lemma WinnerIsCandidate(candidates: seq<Peer>, p: Peer)
    requires IsWinner(candidates, p)
    ensures p in candidates && Slot(candidates, IdentityOf(p)) < |candidates|
  {
  }

  lemma NewWinner(candidates: seq<Peer>, c: Peer)
    requires forall k :: 0 <= k < |candidates| && IdentityOf(candidates[k]) == IdentityOf(c) ==> Sequence(candidates[k]) < Sequence(c)
    ensures IsWinner(candidates + [c], c)
  {
    assert IsEarliestFreshest(candidates + [c], |candidates|);
  }

  lemma WinnersStay(candidates: seq<Peer>, kept: seq<Peer>, c: Peer)
    requires IsFreshest(candidates, kept)
    ensures var i := Slot(kept, IdentityOf(c));
            forall k :: 0 <= k < |kept| && (k != i || Sequence(c) <= Sequence(kept[k])) ==> IsWinner(candidates + [c], kept[k])
  {
    var i := Slot(kept, IdentityOf(c));
    FreshestDistinct(candidates, kept);
    forall k | 0 <= k < |kept| && (k != i || Sequence(c) <= Sequence(kept[k])) ensures IsWinner(candidates + [c], kept[k]) {
      WinnerStays(candidates, c, kept[k]);
    }
  }

  lemma {:induction false} SlotOfUpdate(kept: seq<Peer>, i: nat, c: Peer, id: Identity)
    requires i < |kept| && IdentityOf(kept[i]) == IdentityOf(c)
    ensures Slot(kept[i := c], id) == Slot(kept, id)
  {
    if i > 0 && IdentityOf(kept[0]) != id {
      assert kept[i := c][1..] == kept[1..][i - 1 := c];
      SlotOfUpdate(kept[1..], i - 1, c, id);
    } else if i == 0 {
      assert kept[i := c][1..] == kept[1..];
    }
  }

  lemma AppendCovers(candidates: seq<Peer>, kept: seq<Peer>, c: Peer)
    requires CoversAll(candidates, kept)
    ensures CoversAll(candidates + [c], kept + [c])
  {
    var all := candidates + [c];
    forall j | 0 <= j < |all| ensures Slot(kept + [c], IdentityOf(all[j])) < |kept| + 1 {
      SlotOfAppend(kept, [c], IdentityOf(all[j]));
      assert j < |candidates| ==> all[j] == candidates[j];
    }
  }

  lemma RankStays(candidates: seq<Peer>, kept: seq<Peer>, c: Peer, k: nat)
    requires IsFreshest(candidates, kept) && k < |kept|
    ensures Slot(candidates + [c], IdentityOf(kept[k])) == Slot(candidates, IdentityOf(kept[k])) < |candidates|
  {
    WinnerIsCandidate(candidates, kept[k]);
    SlotOfAppend(candidates, [c], IdentityOf(kept[k]));
  }

  lemma NewcomerRank(candidates: seq<Peer>, kept: seq<Peer>, c: Peer)
    requires IsFreshest(candidates, kept) && Slot(kept, IdentityOf(c)) == |kept|
    ensures Slot(candidates + [c], IdentityOf(c)) == |candidates|
    ensures forall k :: 0 <= k < |candidates| ==> IdentityOf(candidates[k]) != IdentityOf(c)
  {
    forall k | 0 <= k < |candidates| ensures IdentityOf(candidates[k]) != IdentityOf(c) {
      assert Slot(kept, IdentityOf(candidates[k])) < |kept|;
    }
    SlotOfAppend(candidates, [c], IdentityOf(c));
  }

  lemma AppendRanks(candidates: seq<Peer>, kept: seq<Peer>, c: Peer, i: nat, i': nat)
    requires IsFreshest(candidates, kept) && Slot(kept, IdentityOf(c)) == |kept| && i < i' <= |kept|
    ensures Slot(candidates + [c], IdentityOf((kept + [c])[i])) < Slot(candidates + [c], IdentityOf((kept + [c])[i']))
  {
    RankStays(candidates, kept, c, i);
    if i' < |kept| {
      RankStays(candidates, kept, c, i');
    } else {
      NewcomerRank(candidates, kept, c);
    }
  }

  lemma AppendWinners(candidates: seq<Peer>, kept: seq<Peer>, c: Peer)
    requires IsFreshest(candidates, kept) && Slot(kept, IdentityOf(c)) == |kept|
    ensures AreWinners(candidates + [c], kept + [c])
  {
    NewcomerRank(candidates, kept, c);
    WinnersStay(candidates, kept, c);
    NewWinner(candidates, c);
  }

  lemma AppendOrder(candidates: seq<Peer>, kept: seq<Peer>, c: Peer)
    requires IsFreshest(candidates, kept) && Slot(kept, IdentityOf(c)) == |kept|
    ensures InFirstOrder(candidates + [c], kept + [c])
  {
    var all, next := candidates + [c], kept + [c];
    forall i, i' | 0 <= i < i' < |next|
      ensures Slot(all, IdentityOf(next[i])) < Slot(all, IdentityOf(next[i']))
    {
      AppendRanks(candidates, kept, c, i, i');
    }
  }

  lemma FreshestAppend(candidates: seq<Peer>, kept: seq<Peer>, c: Peer)
    requires IsFreshest(candidates, kept) && Slot(kept, IdentityOf(c)) == |kept|
    ensures IsFreshest(candidates + [c], kept + [c])
  {
    AppendWinners(candidates, kept, c);
    AppendCovers(candidates, kept, c);
    AppendOrder(candidates, kept, c);
  }

  lemma FresherWins(candidates: seq<Peer>, p: Peer, c: Peer)
    requires IsWinner(candidates, p) && IdentityOf(p) == IdentityOf(c) && Sequence(c) > Sequence(p)
    ensures IsWinner(candidates + [c], c)
  {
    var j: nat :| IsEarliestFreshest(candidates, j) && candidates[j] == p;
    NewWinner(candidates, c);
  }

  lemma ReplaceWinner(candidates: seq<Peer>, kept: seq<Peer>, c: Peer, k: nat)
    requires IsFreshest(candidates, kept) && Slot(kept, IdentityOf(c)) < |kept| && k < |kept|
    ensures IsWinner(candidates + [c], Freshen(kept, c)[k])
  {
    var i := Slot(kept, IdentityOf(c));
    if k == i && Sequence(c) > Sequence(kept[i]) {
      FresherWins(candidates, kept[i], c);
    } else {
      WinnersStay(candidates, kept, c);
    }
  }

  lemma ReplaceWinners(candidates: seq<Peer>, kept: seq<Peer>, c: Peer)
    requires IsFreshest(candidates, kept) && Slot(kept, IdentityOf(c)) < |kept|
    ensures AreWinners(candidates + [c], Freshen(kept, c))
  {
    forall k | 0 <= k < |kept| ensures IsWinner(candidates + [c], Freshen(kept, c)[k]) {
      ReplaceWinner(candidates, kept, c, k);
    }
  }

  lemma FreshenKeepsIdentities(kept: seq<Peer>, c: Peer)
    requires Slot(kept, IdentityOf(c)) < |kept|
    ensures |Freshen(kept, c)| == |kept|
    ensures forall k :: 0 <= k < |kept| ==> IdentityOf(Freshen(kept, c)[k]) == IdentityOf(kept[k])
  {
  }

  lemma FreshenKeepsSlot(kept: seq<Peer>, c: Peer, id: Identity)
    requires Slot(kept, IdentityOf(c)) < |kept|
    ensures Slot(Freshen(kept, c), id) == Slot(kept, id)
  {
    SlotOfUpdate(kept, Slot(kept, IdentityOf(c)), c, id);
  }

  lemma ReplaceCovers(candidates: seq<Peer>, kept: seq<Peer>, c: Peer)
    requires IsFreshest(candidates, kept) && Slot(kept, IdentityOf(c)) < |kept|
    ensures CoversAll(candidates + [c], Freshen(kept, c))
  {
    var all, next := candidates + [c], Freshen(kept, c);
    FreshenKeepsIdentities(kept, c);
    forall j | 0 <= j < |all| ensures Slot(next, IdentityOf(all[j])) < |next| {
      FreshenKeepsSlot(kept, c, IdentityOf(all[j]));
      if j < |candidates| {
        assert all[j] == candidates[j];
      }
    }
  }

  lemma FreshenKeepsIdentity(kept: seq<Peer>, c: Peer, k: nat)
    requires Slot(kept, IdentityOf(c)) < |kept| && k < |kept|
    ensures |Freshen(kept, c)| == |kept| && IdentityOf(Freshen(kept, c)[k]) == IdentityOf(kept[k])
  {
  }

  /** A position's identity, and so its rank, is the same after freshening. */
  lemma RankAfter(candidates: seq<Peer>, kept: seq<Peer>, c: Peer, k: nat)
    requires IsFreshest(candidates, kept) && Slot(kept, IdentityOf(c)) < |kept| && k < |kept|
    ensures |Freshen(kept, c)| == |kept|
    ensures Slot(candidates + [c], IdentityOf(Freshen(kept, c)[k])) == Slot(candidates, IdentityOf(kept[k]))
  {
    FreshenKeepsIdentity(kept, c, k);
    RankStays(candidates, kept, c, k);
  }

  lemma ReplaceRanks(candidates: seq<Peer>, kept: seq<Peer>, c: Peer, k: nat, k': nat)
    requires IsFreshest(candidates, kept) && Slot(kept, IdentityOf(c)) < |kept| && k < k' < |kept|
    ensures |Freshen(kept, c)| == |kept|
    ensures Slot(candidates + [c], IdentityOf(Freshen(kept, c)[k])) < Slot(candidates + [c], IdentityOf(Freshen(kept, c)[k']))
  {
    RankAfter(candidates, kept, c, k);
    RankAfter(candidates, kept, c, k');
  }

  lemma ReplaceOrder(candidates: seq<Peer>, kept: seq<Peer>, c: Peer)
    requires IsFreshest(candidates, kept) && Slot(kept, IdentityOf(c)) < |kept|
    ensures InFirstOrder(candidates + [c], Freshen(kept, c))
  {
    var next := Freshen(kept, c);
    forall k, k' | 0 <= k < k' < |next|
      ensures Slot(candidates + [c], IdentityOf(next[k])) < Slot(candidates + [c], IdentityOf(next[k']))
    {
      ReplaceRanks(candidates, kept, c, k, k');
    }
  }

  lemma FreshestReplace(candidates: seq<Peer>, kept: seq<Peer>, c: Peer)
    requires IsFreshest(candidates, kept) && Slot(kept, IdentityOf(c)) < |kept|
    ensures IsFreshest(candidates + [c], Freshen(kept, c))
  {
    ReplaceWinners(candidates, kept, c);
    ReplaceCovers(candidates, kept, c);
    ReplaceOrder(candidates, kept, c);
  }

  /** The stage returns one winner per identity, in order of first appearance. */
  lemma {:induction false} FreshIsFreshest(candidates: seq<Peer>)
    ensures IsFreshest(candidates, Fresh(candidates))
    decreases |candidates|
  {
    if candidates != [] {
      var n := |candidates| - 1;
      assert candidates == candidates[..n] + [candidates[n]];
      FreshIsFreshest(candidates[..n]);
      FreshLast(candidates[..n], candidates[n]);
      if Slot(Fresh(candidates[..n]), IdentityOf(candidates[n])) == |Fresh(candidates[..n])| {
        FreshestAppend(candidates[..n], Fresh(candidates[..n]), candidates[n]);
      } else {
        FreshestReplace(candidates[..n], Fresh(candidates[..n]), candidates[n]);
      }
    }
  }

  lemma FreshestDistinct(candidates: seq<Peer>, kept: seq<Peer>)
    requires IsFreshest(candidates, kept)
    ensures DistinctIdentities(kept)
  {
  }

  /** The specification leaves no choice: only one list is one winner per identity in that order. */
  lemma FreshestUnique(candidates: seq<Peer>, a: seq<Peer>, b: seq<Peer>)
    requires IsFreshest(candidates, a) && IsFreshest(candidates, b)
    ensures a == b
  {
    SameMembers(candidates, a, b);
    SameMembers(candidates, b, a);
    RankedUnique((p: Peer) => Slot(candidates, IdentityOf(p)), a, b);
  }

  lemma SameMembers(candidates: seq<Peer>, a: seq<Peer>, b: seq<Peer>)
    requires IsFreshest(candidates, a) && IsFreshest(candidates, b)
    ensures forall p :: p in a ==> p in b
  {
    forall p | p in a ensures p in b {
      WinnerIsCandidate(candidates, p);
      var j := Slot(candidates, IdentityOf(p));
      var q := b[Slot(b, IdentityOf(candidates[j]))];
      WinnerUnique(candidates, p, q);
    }
  }

  lemma HeadIsMember<T>(s: seq<T>)
    ensures s == [] || s[0] in s
  {
  }

  predicate Ranked<T>(rank: T -> nat, s: seq<T>) {
    forall i, j :: 0 <= i < j < |s| ==> rank(s[i]) < rank(s[j])
  }

  /** The front of a ranked list is everything ranked below its last. */
  lemma RankedFront<T>(rank: T -> nat, s: seq<T>, p: T)
    requires s != [] && Ranked(rank, s)
    ensures p in s[..|s| - 1] <==> p in s && rank(p) < rank(s[|s| - 1])
    ensures p in s ==> p == s[|s| - 1] || rank(p) < rank(s[|s| - 1])
  {
    var n := |s| - 1;
    if p in s {
      var i :| 0 <= i < |s| && s[i] == p;
      assert i < n ==> s[..n][i] == p;
    }
  }

  lemma LastsAgree<T>(rank: T -> nat, a: seq<T>, b: seq<T>)
    requires Ranked(rank, a) && Ranked(rank, b) && a != [] && b != []
    requires a[|a| - 1] in b && b[|b| - 1] in a
    ensures a[|a| - 1] == b[|b| - 1]
  {
    RankedFront(rank, a, b[|b| - 1]);
    RankedFront(rank, b, a[|a| - 1]);
  }

  ghost predicate SameMembership<T(!new)>(a: seq<T>, b: seq<T>) {
    forall p :: p in a <==> p in b
  }

  lemma FrontsAgree<T(!new)>(rank: T -> nat, a: seq<T>, b: seq<T>)
    requires Ranked(rank, a) && Ranked(rank, b) && a != [] && b != []
    requires SameMembership(a, b) && a[|a| - 1] == b[|b| - 1]
    ensures SameMembership(a[..|a| - 1], b[..|b| - 1])
  {
    var front, back := a[..|a| - 1], b[..|b| - 1];
    forall p ensures p in front <==> p in back {
      RankedFront(rank, a, p);
      RankedFront(rank, b, p);
    }
  }

  /** Two lists ranked by one ranking, with the same members, are the same list. */
  lemma {:induction false} RankedUnique<T(!new)>(rank: T -> nat, a: seq<T>, b: seq<T>)
    requires Ranked(rank, a) && Ranked(rank, b) && SameMembership(a, b)
    ensures a == b
    decreases |a|
  {
    HeadIsMember(a);
    HeadIsMember(b);
    if a != [] {
      var m, n := |a| - 1, |b| - 1;
      assert a[m] in a && b[n] in b;
      LastsAgree(rank, a, b);
      FrontsAgree(rank, a, b);
      RankedUnique(rank, a[..m], b[..n]);
      assert a == a[..m] + [a[m]] && b == b[..n] + [b[n]];
    }
  }

  // ---------- streaming and idempotence ----------

  lemma {:induction false} DistinctKept(kept: seq<Peer>, more: seq<Peer>)
    requires DistinctIdentities(kept + more)
    ensures FreshFrom(kept, more) == kept + more && RejectsFrom(kept, more) == []
    decreases |more|
  {
    if more != [] {
      var c := more[0];
      assert forall i :: 0 <= i < |kept| ==> (kept + more)[i] == kept[i];
      assert (kept + more)[|kept|] == c;
      assert Slot(kept, IdentityOf(c)) == |kept|;
      assert (kept + [c]) + more[1..] == kept + more;
      DistinctKept(kept + [c], more[1..]);
    }
  }

  /** Candidates that already have distinct identities all pass, with nothing rejected. */
  lemma DistinctPassThrough(candidates: seq<Peer>)
    requires DistinctIdentities(candidates)
    ensures Fresh(candidates) == candidates && FreshRejects(candidates) == []
  {
    assert [] + candidates == candidates;
    DistinctKept([], candidates);
  }

  lemma FreshTwice(candidates: seq<Peer>)
    ensures Fresh(Fresh(candidates)) == Fresh(candidates)
    ensures FreshRejects(Fresh(candidates)) == []
  {
    FreshIsFreshest(candidates);
    DistinctPassThrough(Fresh(candidates));
  }

  /** Batches may be filtered as they arrive: only the survivors need to be kept. */
  lemma FreshStreams(earlier: seq<Peer>, later: seq<Peer>)
    ensures Fresh(earlier + later) == Fresh(Fresh(earlier) + later)
  {
    FreshFromAppend([], earlier, later);
    FreshFromAppend([], Fresh(earlier), later);
    FreshTwice(earlier);
  }

  // ---------- conservation and reasons ----------

  function Identities(peers: seq<Peer>): (r: seq<Identity>)
    ensures |r| == |peers| && forall i :: 0 <= i < |r| ==> r[i] == IdentityOf(peers[i])
  {
    seq(|peers|, i requires 0 <= i < |peers| => IdentityOf(peers[i]))
  }

  function RejectedIdentities(rejected: seq<Rejected>): (r: seq<Identity>)
    ensures |r| == |rejected| && forall i :: 0 <= i < |r| ==> r[i] == rejected[i].identity
  {
    seq(|rejected|, i requires 0 <= i < |rejected| => rejected[i].identity)
  }

  lemma IdentitiesAppend(a: seq<Peer>, b: seq<Peer>)
    ensures Identities(a + b) == Identities(a) + Identities(b)
  {
  }

  lemma RejectedAppend(a: seq<Rejected>, b: seq<Rejected>)
    ensures RejectedIdentities(a + b) == RejectedIdentities(a) + RejectedIdentities(b)
  {
  }

  lemma FreshenConserves(kept: seq<Peer>, c: Peer)
    ensures multiset(Identities(kept)) + multiset{IdentityOf(c)}
         == multiset(Identities(Freshen(kept, c))) + multiset(RejectedIdentities(FreshenReject(kept, c)))
  {
    var i := Slot(kept, IdentityOf(c));
    if i == |kept| {
      IdentitiesAppend(kept, [c]);
      assert Identities([c]) == [IdentityOf(c)];
    } else {
      assert Identities(Freshen(kept, c)) == Identities(kept);
      assert RejectedIdentities(FreshenReject(kept, c)) == [IdentityOf(c)];
    }
  }

  lemma LastIdentities(before: seq<Peer>, c: Peer)
    ensures multiset(Identities(before + [c])) == multiset(Identities(before)) + multiset{IdentityOf(c)}
  {
    IdentitiesAppend(before, [c]);
    assert Identities([c]) == [IdentityOf(c)];
  }

  lemma LastRejects(before: seq<Peer>, c: Peer)
    ensures multiset(RejectedIdentities(FreshRejects(before + [c])))
         == multiset(RejectedIdentities(FreshRejects(before)))
          + multiset(RejectedIdentities(FreshenReject(Fresh(before), c)))
  {
    FreshLast(before, c);
    RejectedAppend(FreshRejects(before), FreshenReject(Fresh(before), c));
  }

  lemma BagAlgebra<T>(before: multiset<T>, one: multiset<T>, kept: multiset<T>, rejected: multiset<T>, next: multiset<T>, refused: multiset<T>)
    requires before == kept + rejected && kept + one == next + refused
    ensures before + one == next + (rejected + refused)
  {
    assert before + one == rejected + (kept + one);
  }

  lemma ConserveStep(before: seq<Peer>, c: Peer)
    requires multiset(Identities(before))
          == multiset(Identities(Fresh(before))) + multiset(RejectedIdentities(FreshRejects(before)))
    ensures multiset(Identities(before + [c]))
         == multiset(Identities(Fresh(before + [c]))) + multiset(RejectedIdentities(FreshRejects(before + [c])))
  {
    LastIdentities(before, c);
    LastRejects(before, c);
    FreshenConserves(Fresh(before), c);
    assert Fresh(before + [c]) == Freshen(Fresh(before), c) by { FreshLast(before, c); }
    BagAlgebra(
      multiset(Identities(before)), multiset{IdentityOf(c)},
      multiset(Identities(Fresh(before))), multiset(RejectedIdentities(FreshRejects(before))),
      multiset(Identities(Freshen(Fresh(before), c))), multiset(RejectedIdentities(FreshenReject(Fresh(before), c))));
  }

  /** Every candidate is either kept or rejected, once. */
  lemma {:induction false} FreshConserves(candidates: seq<Peer>)
    ensures multiset(Identities(candidates))
         == multiset(Identities(Fresh(candidates))) + multiset(RejectedIdentities(FreshRejects(candidates)))
    decreases |candidates|
  {
    if candidates == [] {
      assert Identities([]) == [] && RejectedIdentities([]) == [];
    } else {
      var n := |candidates| - 1;
      assert candidates == candidates[..n] + [candidates[n]];
      FreshConserves(candidates[..n]);
      ConserveStep(candidates[..n], candidates[n]);
    }
  }

  /** Two candidates of one identity carry different sequences. */
  predicate HasOlder(candidates: seq<Peer>, id: Identity) {
    exists i, j :: 0 <= i < |candidates| && 0 <= j < |candidates|
                && IdentityOf(candidates[i]) == id && IdentityOf(candidates[j]) == id
                && Sequence(candidates[i]) < Sequence(candidates[j])
  }

  /** Position j repeats the largest sequence its identity has shown so far. */
  predicate IsReplay(candidates: seq<Peer>, id: Identity, j: nat) {
    && j < |candidates| && IdentityOf(candidates[j]) == id
    && (exists i :: 0 <= i < j && IdentityOf(candidates[i]) == id && Sequence(candidates[i]) == Sequence(candidates[j]))
    && (forall k :: 0 <= k < j && IdentityOf(candidates[k]) == id ==> Sequence(candidates[k]) <= Sequence(candidates[j]))
  }

  ghost predicate HasReplay(candidates: seq<Peer>, id: Identity) {
    exists j: nat :: IsReplay(candidates, id, j)
  }

  /** The kept peer of an identity is the one the next candidate of it is compared with. */
  lemma KeptWinner(candidates: seq<Peer>, id: Identity)
    ensures var kept := Fresh(candidates);
            var i := Slot(kept, id);
            && (i < |kept| <==> Slot(candidates, id) < |candidates|)
            && (i < |kept| ==> IsWinner(candidates, kept[i]))
  {
    FreshIsFreshest(candidates);
    var kept := Fresh(candidates);
    if Slot(kept, id) < |kept| {
      WinnerIsCandidate(candidates, kept[Slot(kept, id)]);
    }
  }

  /** With a winner at w, an older candidate is one whose sequence differs from the winner's. */
  lemma OlderThanWinner(candidates: seq<Peer>, id: Identity, w: nat)
    requires IsEarliestFreshest(candidates, w) && IdentityOf(candidates[w]) == id
    ensures HasOlder(candidates, id) <==>
            exists i :: 0 <= i < |candidates| && IdentityOf(candidates[i]) == id && Sequence(candidates[i]) != Sequence(candidates[w])
  {
    if i :| 0 <= i < |candidates| && IdentityOf(candidates[i]) == id && Sequence(candidates[i]) != Sequence(candidates[w]) {
      assert Sequence(candidates[i]) < Sequence(candidates[w]);
    }
  }

  lemma OlderAfterWinner(candidates: seq<Peer>, c: Peer, w: nat)
    requires IsEarliestFreshest(candidates, w)
    ensures var id := IdentityOf(candidates[w]);
            HasOlder(candidates + [c], id) <==>
            HasOlder(candidates, id) || (IdentityOf(c) == id && Sequence(c) != Sequence(candidates[w]))
  {
    var all, id, n := candidates + [c], IdentityOf(candidates[w]), |candidates|;
    assert forall k :: 0 <= k < n ==> all[k] == candidates[k];
    assert all[n] == c;
    OlderThanWinner(candidates, id, w);
    if IdentityOf(c) == id && Sequence(c) > Sequence(candidates[w]) {
      assert Sequence(all[w]) < Sequence(all[n]);
    } else {
      assert IsEarliestFreshest(all, w);
      OlderThanWinner(all, id, w);
    }
  }

  lemma OlderStep(candidates: seq<Peer>, c: Peer, id: Identity)
    ensures HasOlder(candidates + [c], id) <==>
            HasOlder(candidates, id) || Rejected(id, StaleDiscoverySequence) in FreshenReject(Fresh(candidates), c)
  {
    var kept := Fresh(candidates);
    KeptWinner(candidates, id);
    if Slot(kept, id) < |kept| {
      var w: nat :| IsEarliestFreshest(candidates, w) && candidates[w] == kept[Slot(kept, id)];
      OlderAfterWinner(candidates, c, w);
    } else {
      assert forall k :: 0 <= k < |candidates| ==> IdentityOf(candidates[k]) != id;
    }
  }

  /** A Stale rejection is reported for an identity exactly when its candidates disagree on the sequence. */
  lemma {:induction false} StaleIffOlder(candidates: seq<Peer>, id: Identity)
    ensures Rejected(id, StaleDiscoverySequence) in FreshRejects(candidates) <==> HasOlder(candidates, id)
    decreases |candidates|
  {
    if candidates != [] {
      var n := |candidates| - 1;
      assert candidates == candidates[..n] + [candidates[n]];
      StaleIffOlder(candidates[..n], id);
      FreshLast(candidates[..n], candidates[n]);
      OlderStep(candidates[..n], candidates[n], id);
    }
  }

  // ---------- the whole rejection list ----------

  /** The positions that repeat their identity's largest sequence so far. */
  ghost function Replays(candidates: seq<Peer>, id: Identity): set<nat> {
    set j: nat | j < |candidates| && IsReplay(candidates, id, j)
  }

  /** How many candidates an identity has. */
  function Count(candidates: seq<Peer>, id: Identity): nat {
    multiset(Identities(candidates))[id]
  }

  /** All of an identity's candidates but the winner. */
  function Losers(candidates: seq<Peer>, id: Identity): nat {
    if Count(candidates, id) == 0 then 0 else Count(candidates, id) - 1
  }

  lemma CountStep(before: seq<Peer>, c: Peer, id: Identity)
    ensures Count(before + [c], id) == Count(before, id) + if IdentityOf(c) == id then 1 else 0
  {
    LastIdentities(before, c);
  }

  lemma CountsCandidates(candidates: seq<Peer>, id: Identity)
    ensures Count(candidates, id) > 0 <==> Slot(candidates, id) < |candidates|
  {
    var ids := Identities(candidates);
    if Count(candidates, id) > 0 {
      var j :| 0 <= j < |ids| && ids[j] == id;
      assert IdentityOf(candidates[j]) == id;
    }
    if Slot(candidates, id) < |candidates| {
      assert ids[Slot(candidates, id)] == id;
    }
  }

  /** The last candidate repeats its identity's largest sequence exactly when it is rejected as a replay. */
  lemma LastIsReplayIff(before: seq<Peer>, c: Peer, id: Identity)
    ensures IsReplay(before + [c], id, |before|) <==> Rejected(id, ReplayedDiscoverySequence) in FreshenReject(Fresh(before), c)
  {
    var all, kept := before + [c], Fresh(before);
    var s := Slot(kept, id);
    KeptWinner(before, id);
    assert all[|before|] == c && forall k :: 0 <= k < |before| ==> all[k] == before[k];
    if s < |kept| {
      var w: nat :| IsEarliestFreshest(before, w) && before[w] == kept[s];
      assert all[w] == before[w];
    } else {
      assert forall k :: 0 <= k < |before| ==> IdentityOf(before[k]) != id;
    }
  }

  lemma EarlierReplays(before: seq<Peer>, c: Peer, id: Identity, j: nat)
    requires j < |before|
    ensures IsReplay(before + [c], id, j) <==> IsReplay(before, id, j)
  {
    assert forall k :: 0 <= k <= j ==> (before + [c])[k] == before[k];
  }

  lemma ReplaysStep(before: seq<Peer>, c: Peer, id: Identity)
    ensures Replays(before + [c], id) == Replays(before, id)
            + if Rejected(id, ReplayedDiscoverySequence) in FreshenReject(Fresh(before), c) then {|before|} else {}
  {
    LastIsReplayIff(before, c, id);
    forall j: nat | j < |before| ensures IsReplay(before + [c], id, j) <==> IsReplay(before, id, j) {
      EarlierReplays(before, c, id, j);
    }
  }

  /** One candidate's rejections: none for an identity's first, one for each later one. */
  lemma FreshenRejectCounts(before: seq<Peer>, c: Peer, id: Identity)
    ensures var more := multiset(FreshenReject(Fresh(before), c));
            && more[Rejected(id, ReplayedDiscoverySequence)] + more[Rejected(id, StaleDiscoverySequence)]
            == (if IdentityOf(c) == id && Count(before, id) > 0 then 1 else 0)
            && more[Rejected(id, ReplayedDiscoverySequence)]
            == (if Rejected(id, ReplayedDiscoverySequence) in FreshenReject(Fresh(before), c) then 1 else 0)
  {
    KeptWinner(before, IdentityOf(c));
    CountsCandidates(before, IdentityOf(c));
    OneReject(Fresh(before), c);
  }

  /** At most one rejection, of the candidate's identity. */
  lemma OneReject(kept: seq<Peer>, c: Peer)
    ensures FreshenReject(kept, c) ==
            if Slot(kept, IdentityOf(c)) == |kept| then []
            else [Rejected(IdentityOf(c),
                    if Sequence(c) == Sequence(kept[Slot(kept, IdentityOf(c))]) then ReplayedDiscoverySequence
                    else StaleDiscoverySequence)]
  {
  }

  /** Only these two reasons are ever given here. */
  predicate IsFreshnessReason(reason: Rejection) {
    reason == StaleDiscoverySequence || reason == ReplayedDiscoverySequence
  }

  /** So many replays, and all other losers stale. */
  ghost predicate CountsAre(rejects: seq<Rejected>, candidates: seq<Peer>, id: Identity) {
    && multiset(rejects)[Rejected(id, ReplayedDiscoverySequence)] == |Replays(candidates, id)|
    && multiset(rejects)[Rejected(id, ReplayedDiscoverySequence)] + multiset(rejects)[Rejected(id, StaleDiscoverySequence)]
    == Losers(candidates, id)
  }

  lemma CountsAreStep(before: seq<Peer>, c: Peer, id: Identity)
    requires CountsAre(FreshRejects(before), before, id)
    ensures CountsAre(FreshRejects(before + [c]), before + [c], id)
  {
    FreshLast(before, c);
    ReplaysStep(before, c, id);
    CountStep(before, c, id);
    FreshenRejectCounts(before, c, id);
  }

  lemma {:induction false} CountsAlways(candidates: seq<Peer>, id: Identity)
    ensures CountsAre(FreshRejects(candidates), candidates, id)
    decreases |candidates|
  {
    if candidates == [] {
      assert Replays(candidates, id) == {};
    } else {
      var n := |candidates| - 1;
      assert candidates == candidates[..n] + [candidates[n]];
      CountsAlways(candidates[..n], id);
      CountsAreStep(candidates[..n], candidates[n], id);
    }
  }

  lemma {:induction false} OnlyFreshnessReasons(kept: seq<Peer>, candidates: seq<Peer>)
    ensures forall r :: r in RejectsFrom(kept, candidates) ==> IsFreshnessReason(r.reason)
    decreases |candidates|
  {
    if candidates != [] {
      OnlyFreshnessReasons(Freshen(kept, candidates[0]), candidates[1..]);
    }
  }

  /**
   * The whole rejection list, up to order: an identity has one Replayed rejection for each position
   * that repeats its largest sequence so far, all its other losers are Stale, and no other reason
   * occurs.
   */
  lemma RejectsExactly(candidates: seq<Peer>, id: Identity)
    ensures CountsAre(FreshRejects(candidates), candidates, id)
    ensures forall r :: r in FreshRejects(candidates) ==> IsFreshnessReason(r.reason)
  {
    CountsAlways(candidates, id);
    OnlyFreshnessReasons([], candidates);
  }

  /** A Replayed rejection is reported exactly when a candidate repeats the largest sequence so far. */
  lemma ReplayedIffRepeat(candidates: seq<Peer>, id: Identity)
    ensures Rejected(id, ReplayedDiscoverySequence) in FreshRejects(candidates) <==> HasReplay(candidates, id)
  {
    CountsAlways(candidates, id);
    if HasReplay(candidates, id) {
      var j: nat :| IsReplay(candidates, id, j);
      assert j in Replays(candidates, id);
    } else {
      assert Replays(candidates, id) == {};
    }
  }
}
