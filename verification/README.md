# Slate: a verified model of peer discovery, trust, framing and browsing cores

Slate is a browser with a background daemon, `broadwebd`. Profiles synchronise between devices: a
device publishes an advertisement, other devices discover it through one or several providers, the
local profile decides which discovered peers it trusts, and requests then travel as
length-prefixed frames. This project models that pipeline and four smaller cores beside it, and
proves what they promise for every input, every run and every reachable state.

| module | what it models |
|---|---|
| `PeerDiscovery` | advertisements, the keyed store that keeps the freshest one, the answers of one store, first-wins de-duplication |
| `CompositeDiscovery` | a query over a tree of providers as a function, with its pushed-down limit and early exits |
| `Providers` | the same, imperatively: the mutable simulated network and the nested publish and discover loops, proved against that function |
| `AnswerFreshness` | which advertisement stands for a peer in an answer |
| `Freshness`, `TrustFilter` | the three-stage filter (trust, freshness, capabilities), loops and laws |
| `DeviceTrust` | the trust check of one advertisement, and signing |
| `TrustedDiscovery` | discovery followed by the filter |
| `Framing`, `ServiceStream` | frames, the bounded writer, the in-process stream and the exchange over it |
| `MultiaddrText`, `SocketText`, `Endpoint` | endpoint text: parsing, classifying, rewriting |
| `Downloads` | download names, allocation in the download folder, the per-profile index |
| `TextCoding`, `Navigation` | UTF-8, percent encoding and the address normaliser |
| `WebViews` | the collection of web views of a window and opening an internal page |
| `Text` | strings: splitting, decimals, trimming, order |

How it is arranged. Code that loops over or updates state is a method or a class, proved equal to a
specification function; the laws are lemmas about that function. Things that cannot be seen are
parameters: the signature scheme (`Codec`, `Signer`, constrained by `IsKeyPair`, `EncodesApart` and
`Unforged` where a lemma says so), the JSON form (`Json`, constrained by `Inverse`), the
handler's answers, which may depend on everything it was asked before, the IPv6 text form
(`Ip6Text`, constrained by `FaithfulIp6`), the current directory.

Where the code falls short of a law one might expect, the lemmas say exactly when it holds.

- Normalising an address twice is normalising it once, except for two families
  (`NormalizeTwiceIff`): a host that contains ".onion" without being an onion address, such as
  `a.onion:80`, and an http onion URL with whitespace before its fragment. Both families are shown
  to be inhabited (`OnionPortChangesAgain`, `SpacedFragmentChangesAgain`). A third time never
  changes anything (`NormalizeThrice`).
- The in-process stream does not dispatch a request at most once. It does so over all
  interleavings exactly when every readable request is answered with a reply that fits a frame
  (`AtMostOnceIff`); any other request is dispatched twice by two flushes
  (`FailedReplyDispatchesTwice`).
- An iroh node named p2p is classified differently in its two text forms
  (`DeferredFormsAgreeIff`).
- A composite drops duplicates first come, first served, not by sequence. An older advertisement
  can answer while a fresher one is stored (`OlderAnswers`); the freshest ones answer exactly when
  they come first (`AnswersFreshestIff`), as they do for one protocol when all networks hold the
  same (`InStepFreshest`).
- A candidate that fails the trust check never disturbs the filter (`OnlyPassingMatter`), but it
  disturbs discovery before it: coming first, it suppresses a passing advertisement of the same
  peer (`SuppressedByFirst`, `UnsignedCopySuppresses`). An identity is trusted exactly when its first hit is acceptable
  (`TrustedIdentityIff`).
- Two stores given the same publications in different orders always agree on the sequences, and on
  whole records exactly when no two different publications share a key's largest sequence
  (`StoresConvergeIff`, `RivalsDiverge`).
- A download listing has one record per file exactly when no path that is still a file was stored
  at twice (`ListingOnePerFileIff`); a file deleted and stored again is listed twice
  (`StoredAgainListedTwice`).

## Model

| member | source | states |
|---|---|---|
| `PeerDiscovery.StoreHoldsEarliestFreshest` | crates/broadwebd/src/peer_discovery.rs:810-839 | after any run of accepted publications the store has exactly the keys that were published, and each holds the earliest publication with the key's largest sequence |
| `PeerDiscovery.StoresConverge` | crates/broadwebd/src/peer_discovery.rs:810-839 | two runs with the same publications, in any order and multiplicity, give the same keys at the same sequences |
| `PeerDiscovery.StoresConvergeIff` | crates/broadwebd/src/peer_discovery.rs:810-839 | every order of a run's publications leads to the same whole store exactly when no two different publications of one key share that key's largest sequence |
| `PeerDiscovery.RivalsDiverge` | crates/broadwebd/src/peer_discovery.rs:810-839 | every valid publication has a valid rival of the same key and sequence; accepted in the two orders, the two leave different records |
| `PeerDiscovery.UpsertTwice` | crates/broadwebd/src/peer_discovery.rs:827-832 | publishing the same thing a second time changes nothing |
| `PeerDiscovery.InOrder` | crates/broadwebd/src/peer_discovery.rs:851-852 | the store is walked once over each key, in strictly ascending key order |
| `PeerDiscovery.KeyBeforeTotal` | crates/broadwebd/src/peer_discovery.rs:881-889 | the derived order of keys (protocol, network, namespace, node, provider) is total and asymmetric |
| `PeerDiscovery.KeyBeforeTransitive` | crates/broadwebd/src/peer_discovery.rs:881-889 | and transitive |
| `PeerDiscovery.FirstWinsNested` | crates/broadwebd/src/peer_discovery.rs:488-497 | de-duplicating an answer that its provider already de-duplicated comes to the same as de-duplicating the provider's raw hits |
| `PeerDiscovery.TakeIncoming` | crates/broadwebd/src/peer_discovery.rs:481-497 | cutting an incoming duplicate-free list to the limit before merging it loses nothing of the merged, cut list |
| `CompositeDiscovery.SearchIsTruncatedUnlimited` | crates/broadwebd/src/peer_discovery.rs:465-501 | for any tree of providers and any protocol list, the answer with `max_peers = n` is the first n entries of the unlimited de-duplicated answer, although every provider is asked for n only and duplicates are dropped afterwards |
| `CompositeDiscovery.LimitIsPrefix` | crates/broadwebd/src/peer_discovery.rs:465-501 | a smaller limit returns a prefix of what a larger one returns |
| `CompositeDiscovery.NestingIrrelevant` | crates/broadwebd/src/peer_discovery.rs:465-501 | two trees with the same stores in the same order answer alike, however they are nested |
| `CompositeDiscovery.SingletonComposite` | crates/broadwebd/src/peer_discovery.rs:465-501 | a composite of one provider answers exactly as that provider |
| `CompositeDiscovery.HitsMembers` | crates/broadwebd/src/peer_discovery.rs:851-875 | a store's hits are its records of the query's network and namespace, under the protocol, not of the requester, offering service frames; no others |
| `CompositeDiscovery.SearchIsSound` | crates/broadwebd/src/peer_discovery.rs:465-501 | answers have pairwise different identities, are matching records, number at most `max_peers`, and each stands for the earliest query protocol, and under it the earliest provider, that offers its identity |
| `CompositeDiscovery.SearchIsComplete` | crates/broadwebd/src/peer_discovery.rs:465-501 | fewer than `max_peers` answers means that no eligible peer was missed |
| `AnswerFreshness.AnswersIff` | crates/broadwebd/src/peer_discovery.rs:465-501 | for any limit, the answers are exactly the first hits of the first `max_peers` identities |
| `AnswerFreshness.AnswersFreshestIff` | crates/broadwebd/src/peer_discovery.rs:488-497 | every answer is a freshest of the hits of its identity exactly when the first hit of every identity within the limit is |
| `AnswerFreshness.FirstNetworkAnswers` | crates/broadwebd/src/peer_discovery.rs:488-497 | of two networks that hold different advertisements of one peer, the first network's answers, whatever the sequences |
| `AnswerFreshness.OlderAnswers` | crates/broadwebd/src/peer_discovery.rs:488-497 | so with the older one first, it answers while a fresher one of the same peer is stored |
| `AnswerFreshness.InStepFreshest` | crates/broadwebd/src/peer_discovery.rs:465-501 | for one protocol, and networks that all hold the same records, the freshest always answers |
| `AnswerFreshness.PublishedFreshest` | crates/broadwebd/src/peer_discovery.rs:425-501 | so after any run of publications made to all networks alike, an answer is the earliest publication of its key with the largest sequence |
| `Providers.SimulatedNetwork.constructor` | crates/broadwebd/src/peer_discovery.rs:789-793 | a new network is empty |
| `Providers.SimulatedNetwork.Publish` | crates/broadwebd/src/peer_discovery.rs:810-839 | accepted exactly when namespace and advertisement are valid; then the store is updated under the publication's key, otherwise unchanged |
| `Providers.SimulatedNetwork.ScanProtocol` | crates/broadwebd/src/peer_discovery.rs:852-875 | the inner loop: the results so far merged, first wins, with the store's hits under one protocol, up to the limit |
| `Providers.SimulatedNetwork.Discover` | crates/broadwebd/src/peer_discovery.rs:841-878 | the loops over protocols and records return the specified search of this one store, or refuse an invalid query |
| `Providers.Merge` | crates/broadwebd/src/peer_discovery.rs:481-497 | the composite's innermost loop with its `seen` set: one provider's answer merged first-wins, early exit only when full |
| `Providers.AskEach` | crates/broadwebd/src/peer_discovery.rs:480-498 | the middle loop: every provider's answer under one protocol, merged in order |
| `Providers.Discover` | crates/broadwebd/src/peer_discovery.rs:465-501 | the whole nested loop over a tree of live networks computes the specified search of what the networks hold |
| `Providers.Publish` | crates/broadwebd/src/peer_discovery.rs:425-463 | a publication through a tree is accepted exactly when it is valid and some network is reached; then every network takes it, with the effect of one update however often it occurs in the tree; a refused one changes nothing |
| `Freshness.FreshIsFreshest` | crates/profile-sync/src/discovery_trust.rs:388-429 | the stage returns exactly one peer per (protocol, namespace, network, node, provider), the earliest candidate with the largest sequence, in order of each identity's first appearance |
| `Freshness.FreshestUnique` | crates/profile-sync/src/discovery_trust.rs:388-429 | that description determines the returned list |
| `Freshness.FreshStreams` | crates/profile-sync/src/discovery_trust.rs:388-429 | filtering a first batch, then its survivors with a second batch, accepts the same list as filtering both at once |
| `Freshness.FreshTwice` | crates/profile-sync/src/discovery_trust.rs:388-429 | filtering the accepted list again returns it with no rejection |
| `Freshness.FreshConserves` | crates/profile-sync/src/discovery_trust.rs:388-464 | the identities of the candidates are, as a multiset, those accepted plus those rejected |
| `Freshness.StaleIffOlder` | crates/profile-sync/src/discovery_trust.rs:397-423 | a Stale rejection is reported for an identity exactly when two of its candidates carry different sequences |
| `Freshness.ReplayedIffRepeat` | crates/profile-sync/src/discovery_trust.rs:412-416 | a Replayed rejection is reported exactly when some candidate repeats the largest sequence its identity had shown so far |
| `Freshness.RejectsExactly` | crates/profile-sync/src/discovery_trust.rs:396-426 | the rejections as a multiset: per identity one Replayed for each position that repeats the largest sequence so far, all other losers Stale, and no other reason |
| `TrustFilter.FreshestTrusted` | crates/profile-sync/src/discovery_trust.rs:388-429 | the loop over the map of slot indices returns the specified list and appends the specified rejections in order |
| `TrustFilter.RequireCapabilities` | crates/profile-sync/src/discovery_trust.rs:254-280 | the capability stage splits the trusted peers in order, rejections appended; with nothing required the report is returned as it was |
| `TrustFilter.FilterTrusted` | crates/profile-sync/src/discovery_trust.rs:219-252 | the three stages together: the first storage error, or trusted peers and rejections stage by stage |
| `TrustFilter.TrustedIff` | crates/profile-sync/src/discovery_trust.rs:228-280 | a peer is trusted exactly when it is the earliest freshest of the candidates of its identity that pass the trust check, and has every required capability; so an older advertisement never stands in for a freshest one that lacks a capability |
| `TrustFilter.OnlyPassingMatter` | crates/profile-sync/src/discovery_trust.rs:228-252 | the trusted list is the one computed from the trust-passing candidates alone, whatever sequences the others carry |
| `TrustFilter.FilterTwice` | crates/profile-sync/src/discovery_trust.rs:219-280 | filtering the trusted list again with the same check and capabilities returns it unchanged, with no rejections |
| `TrustFilter.FilterConserves` | crates/profile-sync/src/discovery_trust.rs:228-280 | over all three stages every candidate's identity is reported exactly once, trusted or rejected |
| `TrustFilter.FilterStreams` | crates/profile-sync/src/discovery_trust.rs:219-252 | candidates may be filtered in batches, keeping only the fresh passing peers of the first |
| `DeviceTrust.PayloadIgnoresSignature` | crates/broadwebd/src/peer_discovery.rs:143-160 | the signed bytes are the same whatever valid signature is attached |
| `DeviceTrust.SignsOwnAdvertisements` | crates/profile-sync/src/discovery_trust.rs:180-201 | a device can sign exactly its own valid advertisements, and signing changes nothing but the signature |
| `DeviceTrust.SignedAcceptedIff` | crates/profile-sync/src/discovery_trust.rs:317-386 | a signed advertisement passes every trust check exactly when it is on the right network, not local, offers service frames, and its signer's own key is registered, trusted and of an epoch not above the advertisement's |
| `DeviceTrust.AcceptedIsAuthentic` | crates/profile-sync/src/discovery_trust.rs:317-386 | if payloads encode apart and no signature among the advertisements seen is forged, an accepted one is, field for field, one that its own node's device signed under the key registered for it |
| `DeviceTrust.RecordedIsUnforged` | crates/profile-sync/src/discovery_trust.rs:180-201 | that assumption holds of real key pairs: whatever set of advertisements came unsigned or from recorded signings under the registered keys contains no forgery |
| `TrustedDiscovery.DiscoverTrusted` | crates/profile-sync/src/discovery_trust.rs:282-299 | on live networks a valid query always yields the filter's report on what the provider tree answers; an invalid one is refused |
| `TrustedDiscovery.DiscoveredNeverStale` | crates/profile-sync/src/discovery_trust.rs:289-298 | on discovered candidates the freshness stage rejects nothing |
| `TrustedDiscovery.LargerLimitExtendsTrusted` | crates/profile-sync/src/discovery_trust.rs:282-299 | asking for more peers only extends the trusted list |
| `TrustedDiscovery.StoreIdsWellFormed` | crates/broadwebd/src/peer_discovery.rs:810-839 | every node id a store holds after accepted publications is a well-formed token |
| `TrustedDiscovery.LiveIdsWellFormed` | crates/broadwebd/src/peer_discovery.rs:810-839 | and so are those of every network in a live provider tree |
| `TrustedDiscovery.DiscoveredAlwaysReported` | crates/profile-sync/src/discovery_trust.rs:282-299 | so filtering what discovery returned never fails on a malformed id |
| `TrustedDiscovery.TrustedAnswersIff` | crates/profile-sync/src/discovery_trust.rs:282-299 | for any limit, trusted after discovery are exactly the first hits within the limit that pass the check and have every required capability |
| `TrustedDiscovery.TrustedIdentityIff` | crates/profile-sync/src/discovery_trust.rs:282-299 | an identity is trusted exactly when its first hit is within the limit, passes and has every capability; its later hits never count |
| `TrustedDiscovery.SuppressedByFirst` | crates/profile-sync/src/discovery_trust.rs:282-299 | so an advertisement that fails the check but comes first suppresses a passing one of the same peer, which the filter alone, given both, would trust |
| `TrustedDiscovery.TrustedAnswersAuthentic` | crates/profile-sync/src/discovery_trust.rs:282-299 | if nothing the stores hold carries a forged signature, every trusted discovered peer is a record of one of them that its own device signed, field for field |
| `TrustedDiscovery.SignedRecordTrusted` | crates/profile-sync/src/discovery_trust.rs:180-386 | what a device signed, all networks hold under its key, and the profile's registered key vouches for is discovered and trusted, if there is room, whatever else the networks hold |
| `TrustedDiscovery.UnsignedCopySuppresses` | crates/profile-sync/src/discovery_trust.rs:282-386 | it is not, when an earlier network still holds its unsigned copy |
| `TrustedDiscovery.SignPublishDiscover` | crates/profile-sync/src/discovery_trust.rs:180-299 | the whole path on live networks: sign, publish to a tree that holds nothing as fresh under the key, discover from it; the report lists the signed advertisement as trusted, unless it is full |
| `Framing.Be32RoundTrip` | crates/broadwebd/src/service_frame.rs:1041-1060 | a length below 2^32 is read back from its four big-endian bytes |
| `Framing.Be32Canonical` | crates/broadwebd/src/service_frame.rs:1041-1060 | and four bytes spell one length only |
| `Framing.ReadFramed` | crates/broadwebd/src/service_frame.rs:1041-1071 | an in-limit frame followed by anything is read back, and nothing of what follows is consumed |
| `Framing.ReadOnlyFramed` | crates/broadwebd/src/service_frame.rs:1054-1071 | whatever is read is a frame as written, within the limit |
| `Framing.ProperPrefixRefused` | crates/broadwebd/src/service_frame.rs:1054-1071 | every proper prefix of a written frame is refused |
| `Framing.OversizedRefused` | crates/broadwebd/src/service_frame.rs:1058-1066 | an oversized header is refused after exactly its four bytes, whatever follows it, be it nothing |
| `Framing.ReadStable` | crates/broadwebd/src/service_frame.rs:1054-1071 | more bytes change neither a frame that could be read nor the refusal of an oversized one |
| `Framing.ReadAllRoundTrip` | crates/broadwebd/src/service_frame.rs:1041-1071 | reading back the concatenation of any list of in-limit frames yields the list and consumes every byte |
| `Framing.ReadAllSound` | crates/broadwebd/src/service_frame.rs:1054-1071 | the bytes are always the frames read, framed, followed by what is left |
| `Framing.Reader.constructor` | crates/broadwebd/src/service_frame.rs:1054-1058 | a reader over a byte string |
| `Framing.Reader.ReadExact` | crates/broadwebd/src/service_frame.rs:1058-1070 | exactly n bytes are consumed, or an error |
| `Framing.Reader.ReadLenPrefixedFrame` | crates/broadwebd/src/service_frame.rs:1054-1071 | the reader returns what the specification reads off the remaining bytes and moves as far |
| `Framing.BoundedFrameWriter.constructor` | crates/broadwebd/src/service_frame.rs:1199-1207 | empty, with its limit |
| `Framing.BoundedFrameWriter.Write` | crates/broadwebd/src/service_frame.rs:1217-1230 | a chunk is taken whole or refused whole, never beyond the limit, and a refusal records the length that would have been reached |
| `Framing.BoundedFrameWriter.WriteAll` | crates/broadwebd/src/service_frame.rs:1217-1230 | writing all of a buffer succeeds exactly when it fits |
| `Framing.EncodeFrame` | crates/broadwebd/src/service_frame.rs:1002-1023 | for any split into chunks, encoding succeeds exactly when the total fits and the serialiser completes, gives the concatenation, and a size refusal names a length above the limit |
| `ServiceStream.RunKeeps` | crates/broadwebd/src/service_frame.rs:258-324 | the stream invariant: everything dispatched is the first framed request written, and a ready response is the framed answer to it |
| `ServiceStream.ReadyIsFinal` | crates/broadwebd/src/service_frame.rs:277-323 | once a response is ready, over any operations nothing but the read position changes, no write is taken and nothing is dispatched |
| `ServiceStream.NothingAfterReady` | crates/broadwebd/src/service_frame.rs:277-323 | the same, split at the moment some prefix of a run made the stream ready |
| `ServiceStream.AnyInterleaving` | crates/broadwebd/src/service_frame.rs:277-323 | over any interleaving of write, flush and read on a fresh stream, the bytes read are a prefix of the framed answer to the first framed request among the bytes accepted |
| `ServiceStream.DispatchesAgainIff` | crates/broadwebd/src/service_frame.rs:277-301 | after a dispatch, a further read or flush dispatches the same request again exactly when no reply is ready |
| `ServiceStream.AtMostOnceIff` | crates/broadwebd/src/service_frame.rs:277-323 | no interleaving of operations dispatches more than once exactly when every request that can be read is answered with a reply that fits a frame |
| `ServiceStream.FailedReplyDispatchesTwice` | crates/broadwebd/src/service_frame.rs:277-301 | the run that shows it, for any readable request and earlier log: write, flush, flush dispatches it twice, whether the handler fails or its reply does not fit |
| `ServiceStream.Handler.Dispatch` | crates/broadwebd/src/daemon.rs:26-29 | one more request in the log, answered according to what came before |
| `ServiceStream.EncodeJsonFrame` | crates/broadwebd/src/service_frame.rs:1002-1023 | the bytes of the value when they fit, else a size refusal above the limit |
| `ServiceStream.InProcessStream.constructor` | crates/broadwebd/src/service_frame.rs:267-275 | a fresh, unready stream |
| `ServiceStream.InProcessStream.PrepareResponse` | crates/broadwebd/src/service_frame.rs:277-300 | the state machine's preparation step, failing exactly when the stream stays unready |
| `ServiceStream.InProcessStream.Read` | crates/broadwebd/src/service_frame.rs:303-308 | the state machine's read |
| `ServiceStream.InProcessStream.Write` | crates/broadwebd/src/service_frame.rs:310-321 | the state machine's write |
| `ServiceStream.InProcessStream.Flush` | crates/broadwebd/src/service_frame.rs:322-324 | the state machine's flush |
| `ServiceStream.InProcessStream.WriteAll` | crates/broadwebd/src/service_frame.rs:1048-1049 | the whole buffer is taken, or none of it by a ready stream |
| `ServiceStream.InProcessStream.ReadExact` | crates/broadwebd/src/service_frame.rs:1058-1070 | on any stream: the first read prepares the reply, then the next n bytes of it, or an error when there is none or fewer are left |
| `ServiceStream.FrameReadMeaning` | crates/broadwebd/src/service_frame.rs:1054-1071 | two exact reads, four bytes and then as many as they say, return what the specification reads off the unread reply |
| `ServiceStream.InProcessStream.ReadLenPrefixedFrame` | crates/broadwebd/src/service_frame.rs:1054-1071 | on any stream, those two reads |
| `ServiceStream.WriteRequest` | crates/broadwebd/src/service_frame.rs:49-56 | a request that does not fit leaves the stream as it was; one that does is appended as a frame and flushed |
| `ServiceStream.ReadResponse` | crates/broadwebd/src/service_frame.rs:72-75 | on any stream, one frame off the prepared reply, decoded, or an error when no reply can be prepared |
| `ServiceStream.DispatchOverStream` | crates/broadwebd/src/service_frame.rs:84-91 | on any stream: a request that does not fit changes nothing and never reaches the handler; without earlier bytes the framed call is the direct call, dispatched once, the reply whole or an error; with earlier bytes the first request among them is dispatched and answered; a used stream refuses and stays as it was |
| `ServiceStream.RequestReadBack` | crates/broadwebd/src/service_frame.rs:49-61 | the written request is the one the stream reads |
| `ServiceStream.ReplyReadBack` | crates/broadwebd/src/service_frame.rs:63-75 | the written reply is the one the caller reads |
| `MultiaddrText.MultiaddrAccepts` | crates/routing/src/lib.rs:26-55 | every non-empty list of valid segments, rejoined with leading slashes, parses, and its segments are that list |
| `MultiaddrText.MultiaddrIsItsSegments` | crates/routing/src/lib.rs:26-65 | nothing else parses: an accepted text is its own segments rejoined |
| `SocketText.StandardIsFaithful` | crates/broadwebd/src/service_frame.rs:215-246 | printed IPs, ports and socket addresses are read back, printed parts are valid multiaddr segments, and socket text starts with a digit or a bracket |
| `Endpoint.TcpIffParsed` | crates/broadwebd/src/service_frame.rs:137-164 | the classifier answers TCP for exactly the trimmed endpoints that the TCP parser accepts |
| `Endpoint.DeferredFormsAgreeIff` | crates/broadwebd/src/service_frame.rs:137-164 | an IPNS name is classified alike as `ipns:name` and `/ipns/name`; an iroh node alike as `iroh-node:name` and `/iroh-node/name`, exactly unless it is called p2p |
| `Endpoint.RewriteMeaning` | crates/broadwebd/src/service_frame.rs:230-246 | rewriting keeps the socket or multiaddr form and the port, replaces the IP exactly when it is unspecified, and the result is read back |
| `Endpoint.RewriteIdempotent` | crates/broadwebd/src/service_frame.rs:230-246 | a second rewrite for the same source changes nothing |
| `Downloads.SanitizedFilename` | crates/broadwebd/src/state.rs:236-251 | the character loop computes the sanitised name |
| `Downloads.SanitizedIsSafe` | crates/broadwebd/src/state.rs:236-251 | the result is one plain path component of at most 160 safe characters without a dot at either end; exactly the names that are so already stay unchanged, so sanitising is idempotent |
| `Downloads.CandidatesDistinct` | crates/broadwebd/src/state.rs:253-262 | no name is tried twice |
| `Downloads.CandidateIsComponent` | crates/broadwebd/src/state.rs:253-262 | every candidate of a safe name is a path component |
| `Downloads.RoomForCandidate` | crates/broadwebd/src/state.rs:60-84 | a folder with fewer than 1000 entries leaves one of the 1000 candidates free |
| `Downloads.AllocateSucceeds` | crates/broadwebd/src/state.rs:60-84 | then a download for a valid profile always succeeds, at the first free candidate |
| `Downloads.AllocateRefusedIff` | crates/broadwebd/src/state.rs:60-84 | it is refused exactly for an invalid profile, or when all 1000 candidates are taken |
| `Downloads.FolderPlaces` | crates/broadwebd/src/state.rs:60-84 | an allocated path is new, inside the folder, under a plain name |
| `Downloads.StateRoot.constructor` | crates/broadwebd/src/state.rs:47-58 | the root over a given disk |
| `Downloads.StateRoot.AppendDownloadRecord` | crates/broadwebd/src/state.rs:185-205 | one record at the end of the profile's index, no other index touched |
| `Downloads.StateRoot.StoreDownload` | crates/broadwebd/src/state.rs:60-84 | the loop with create-if-absent performs the specified store, and leaves the disk alone on refusal |
| `Downloads.StateRoot.Downloads` | crates/broadwebd/src/state.rs:86-116 | the records whose file still exists, with present sizes, sorted by name |
| `Downloads.SortIsStable` | crates/broadwebd/src/state.rs:114-115 | sorting orders by name, keeps every record, and keeps the order of equal names |
| `Downloads.RunKeepsFiles` | crates/broadwebd/src/state.rs:60-84 | no run of stores ever changes or removes an existing file |
| `Downloads.RunRecordsStores` | crates/broadwebd/src/state.rs:60-84 | over any run a profile's index grows by exactly its successful stores in order; their paths are new and pairwise different, and each body is still there at the end |
| `Downloads.ListingAfterRun` | crates/broadwebd/src/state.rs:60-116 | from an empty index, what the listing returns after any run: one record per successful store, with its name, path and size, sorted by name, equal names in store order |
| `Downloads.ListedAfterHistory` | crates/broadwebd/src/state.rs:60-116 | with files deleted between stores, the unsorted listing holds one record per store whose path is a file now, each with the size the file has now |
| `Downloads.ListingOnePerFileIff` | crates/broadwebd/src/state.rs:60-116 | then the listing has one record per file exactly when no path that is still a file was stored at twice |
| `Downloads.StoredAgainListedTwice` | crates/broadwebd/src/state.rs:60-116 | a download stored, deleted and stored again under its name is listed twice, both times with the new size |
| `TextCoding.Utf8RoundTrip` | crates/browser-core/src/lib.rs:497-503 | UTF-8 bytes are decoded to the text they encode |
| `TextCoding.PercentEncodeFilePath` | crates/browser-core/src/lib.rs:510-525 | the byte loop computes the encoded path |
| `TextCoding.PushEscaped` | crates/browser-core/src/lib.rs:498-503 | the inner loop appends one character's bytes as percent triples |
| `TextCoding.EncodeQueryText` | crates/browser-core/src/lib.rs:488-508 | the character loop computes the encoded query |
| `TextCoding.PathRoundTrip` | crates/browser-core/src/lib.rs:510-525 | the decoder of section 2.1 of RFC 3986 gives back any encoded path's bytes |
| `TextCoding.QueryRoundTrip` | crates/browser-core/src/lib.rs:488-508 | the same decoder, reading '+' as a space, gives back the search term with whitespace turned to spaces |
| `Navigation.NormalizedIsSupported` | crates/browser-core/src/lib.rs:234-296 | every non-blank input, and no other, is normalised, and to an address of a supported scheme |
| `Navigation.NormalizeTwiceIff` | crates/browser-core/src/lib.rs:234-282 | normalising the result again changes nothing, exactly for the inputs outside the two families |
| `Navigation.NormalizeThrice` | crates/browser-core/src/lib.rs:234-282 | for every non-blank input the second address is final: normalising a third time changes nothing |
| `Navigation.NormalizeTwiceWithoutOnion` | crates/browser-core/src/lib.rs:234-282 | in particular for every input without ".onion" |
| `Navigation.OnionFormsAgree` | crates/browser-core/src/lib.rs:340-418 | an onion address without a fragment normalises to the same `tor+http` address whether typed bare or behind `http://`, through two different branches |
| `Navigation.PlainWebIff` | crates/browser-core/src/lib.rs:234-282 | the address is on http or https exactly when one was typed and kept or a scheme was put before a host, and it then contains ".onion" exactly in the first family |
| `Navigation.HttpOnionShape` | crates/browser-core/src/lib.rs:368-418 | a rewritten http onion URL has the matching `tor+` scheme, and ends in whitespace exactly when the text before its fragment does |
| `Navigation.OnionUrlShape` | crates/browser-core/src/lib.rs:379-417 | the same for the authority and suffix, for any scheme |
| `Navigation.OnionPortChangesAgain` | crates/browser-core/src/lib.rs:263-281 | the ten characters `a.onion:80` are in the first family |
| `Navigation.SpacedFragmentChangesAgain` | crates/browser-core/src/lib.rs:402-417 | every http URL of an onion authority with a path that ends in whitespace, then a fragment, is in the second |
| `Navigation.ShortOnionAuthority` | crates/browser-core/src/lib.rs:420-432 | `a.onion` is an onion authority, so the second family has members |
| `WebViews.RemoveKeeps` | crates/chrome/src/running_app_state.rs:85-97 | removing a view keeps order and map in step, removes that view alone, and leaves an active view while any view is left |
| `WebViews.RunKeeps` | crates/chrome/src/running_app_state.rs:77-156 | over every run of the commands the order is duplicate-free with exactly the map's ids, and an active view, once set, stays set until no view is left |
| `WebViews.OpenLeavesOneView` | crates/chrome/src/window.rs:338-370 | opening an internal page leaves exactly one view of it, the newest or a new one, active and alone visible; all views of other pages survive, in order, at their URLs |
| `WebViews.BothFormsAgree` | crates/chrome/src/window.rs:105-124 | for every name without a slash, `slate://name`, `slate:name` and `slate:/name/`, with any slashes at the ends of the path, are the same page or none is one |
| `WebViews.WebViewCollection.constructor` | crates/chrome/src/running_app_state.rs:61-74 | an empty collection |
| `WebViews.WebViewCollection.AddView` | crates/chrome/src/running_app_state.rs:77-81 | the view is the newest |
| `WebViews.WebViewCollection.ActivateWebView` | crates/chrome/src/running_app_state.rs:134-147 | the loop shows and focuses the one view and hides and blurs every other |
| `WebViews.WebViewCollection.RemoveView` | crates/chrome/src/running_app_state.rs:85-97 | the view is removed and returned; if it was active, the newest left is activated |
| `WebViews.WebViewCollection.ActivateWebViewByIndex` | crates/chrome/src/running_app_state.rs:149-156 | activates by position; an unknown position changes nothing |
| `WebViews.WebViewCollection.OpenReusableInternalPage` | crates/chrome/src/window.rs:338-370 | the duplicate-closing loop, through remove and its re-activations, opens the page as specified; any other URL is not handled and changes nothing |

## Left out

- Sockets, UDP and TCP transports, HTTP fetches, daemon start-up: input and output. `collect_profile_sync_peer_advertisements` repeats the de-duplication modelled here.
- Ed25519, JSON text and SQLite: abstract sign and verify functions, an inverse encode and decode pair, and a map of registered keys. SQL errors and poisoned locks are not modelled; the malformed-id storage error is.
- IPv6 text: its parser and printer are assumed inverse on short text of hex digits, colons and dots; IPv4, ports, scope ids and brackets are concrete.
- Machine widths: sizes and lengths are unbounded naturals, so the writer's saturating addition never saturates; the 32-bit frame length limit and the 64-bit sequence are explicit.
- Framing.Reader.ReadExact: does not say how many bytes are consumed by a read that meets the end of the input.
- Endpoint.TcpIffParsed: for any faithful address text, which `StandardIsFaithful` shows the standard one to be.
- Downloads.StateRoot.StoreDownload: file-system errors other than "already exists" are not modelled, nor the creation of directories; an index file is the sequence of its records, apart from the download folder, and paths are UTF-8 text.
- `store_temporary_download` and `temporary_downloads` use the same allocator and listing on another folder.
- WebViews.BothFormsAgree: parsing URL text into scheme, host and path is library code; a host contains no slash because it would end there.
- WebViews.WebViewCollection.ActivateWebView: the caller passes a listed id, where the original asserts it.
- WebViews.WebViewCollection.OpenReusableInternalPage: ids of new views are fresh and URLs stay fixed; showing and focusing are flags; embedder controls and repaint flags are not modelled.
- Providers.Discover: the inner loops of the nested search are the helper methods `ScanProtocol`, `Merge` and `AskEach`; a ghost parameter names what the networks hold.
- Providers.Publish: error messages are not modelled, so the text of the last "unsupported" error is not.
- Navigation.Normalize: joining the current directory and a path is modelled for slash-separated UTF-8 paths.
- `serve_one_service_frame_request_over_stream`, endpoint registries and deferred connectors: they compose the operations above.
- `BrowserState`, the Servo shell, health and preview reports, privacy and app tables, the plugin registry, packaging: field copying, user interface or external tools.
