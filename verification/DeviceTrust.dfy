// Which single advertisement the local profile trusts, and how a device signs one
// (crates/profile-sync/src/discovery_trust.rs). Signing, verifying and the JSON encoding of the
// signed payload are parameters.
module DeviceTrust {
  import opened Text
  import opened SocketText
  import opened PeerDiscovery
  import opened Freshness
  import opened TrustFilter

  /** The fields a signature covers: everything but the signature. */
  datatype Payload = Payload(
    schemaVersion: Byte,
    networkId: string,
    nodeId: string,
    providerId: string,
    serviceAddr: string,
    capabilities: seq<string>,
    membershipEpoch: int,
    sequence: U64)

  /** `verify(publicKey, message, signature)`. */
  datatype Codec = Codec(
    text: AddressText,
    encode: Payload -> seq<Byte>,
    verify: (seq<Byte>, seq<Byte>, seq<Byte>) -> bool)

  datatype KeyRecord = KeyRecord(publicKey: seq<Byte>, membershipEpoch: int, trusted: bool)

  /** Registered keys by profile and device id. */
  datatype Database = Database(localDeviceId: string, keys: map<(string, string), KeyRecord>)

  datatype Signer = Signer(deviceId: string, publicKey: seq<Byte>, sign: seq<Byte> -> seq<Byte>)

  datatype SignError = SignerNodeMismatch | InvalidAdvertisement

  const SYNC_OBJECT_VERSION: Byte := 1

  predicate IsSyncIdentifier(s: string) {
    s != "" && forall i :: 0 <= i < |s| ==> IsTokenChar(s[i])
  }

  function LookUp(database: Database, profile: string, deviceId: string): Result<Option<KeyRecord>, StorageError> {
    if !IsSyncIdentifier(deviceId) then Err(InvalidSyncDeviceId(deviceId))
    else if (profile, deviceId) in database.keys then Ok(Some(database.keys[(profile, deviceId)]))
    else Ok(None)
  }

  function PayloadOf(a: Advertisement): Payload {
    Payload(
      SCHEMA_VERSION, a.networkId, a.nodeId, a.providerId, a.serviceAddr, a.capabilities,
      a.membershipEpoch, a.sequence)
  }

  function SigningPayloadBytes(codec: Codec, a: Advertisement): Result<seq<Byte>, DiscoveryError> {
    if !IsValidAdvertisement(codec.text, a) then Err(BadRequest)
    else Ok(codec.encode(PayloadOf(a)))
  }

  function TrustRejection(codec: Codec, database: Database, profile: string, networkId: string, p: Peer)
    : Result<Option<Rejection>, StorageError>
  {
    var a := p.advertisement;
    if a.networkId != networkId then Ok(Some(WrongNetwork))
    else if a.nodeId == database.localDeviceId then Ok(Some(LocalDevice))
    else if !SupportsServiceFrames(a) then Ok(Some(MissingProfileSyncServiceFrameCapability))
    else match LookUp(database, profile, a.nodeId)
      case Err(error) => Err(error)
      case Ok(None) => Ok(Some(UnknownDevicePublicKey))
      case Ok(Some(record)) =>
        if !record.trusted then Ok(Some(UntrustedDevicePublicKey))
        else if record.membershipEpoch > a.membershipEpoch then Ok(Some(SignerMembershipEpochTooNew))
        else match a.identitySignature
          case None => Ok(Some(MissingSignedIdentity))
          case Some(signature) =>
            if signature.deviceId != a.nodeId then Ok(Some(SignatureDeviceMismatch))
            else if signature.publicKey != record.publicKey then Ok(Some(SignaturePublicKeyMismatch))
            else match SigningPayloadBytes(codec, a)
              case Err(_) => Ok(Some(InvalidSignature))
              case Ok(payload) =>
                if signature.version != SYNC_OBJECT_VERSION
                   || !codec.verify(record.publicKey, payload, signature.bytes)
                then Ok(Some(InvalidSignature))
                else Ok(None)
  }

  /** The trust check of one profile and network, as the filter's first stage uses it. */
  function TrustCheck(codec: Codec, database: Database, profile: string, networkId: string): Check {
    (p: Peer) => TrustRejection(codec, database, profile, networkId, p)
  }

  function Sign(codec: Codec, signer: Signer, a: Advertisement): Result<Advertisement, SignError> {
    if a.nodeId != signer.deviceId then Err(SignerNodeMismatch)
    else match SigningPayloadBytes(codec, a)
      case Err(_) => Err(InvalidAdvertisement)
      case Ok(payload) =>
        var signature := Signature(SCHEMA_VERSION, ED25519, signer.deviceId, signer.publicKey, signer.sign(payload));
        var signed := a.(identitySignature := Some(signature));
        if !IsValidSignature(signature) || !IsValidAdvertisement(codec.text, signed) then Err(InvalidAdvertisement)
        else Ok(signed)
  }

  /** A key pair: Ed25519 sizes, and what it signs verifies under its own public key. */
  ghost predicate IsKeyPair(codec: Codec, signer: Signer) {
    && |signer.publicKey| == 32
    && forall m: seq<Byte> :: |signer.sign(m)| == 64 && codec.verify(signer.publicKey, m, signer.sign(m))
  }

  /** The signed bytes do not depend on the attached signature. */
  lemma PayloadIgnoresSignature(codec: Codec, a: Advertisement, signature: Option<Signature>)
    requires IsValidAdvertisement(codec.text, a)
    requires IsValidAdvertisement(codec.text, a.(identitySignature := signature))
    ensures SigningPayloadBytes(codec, a.(identitySignature := signature)) == SigningPayloadBytes(codec, a)
  {
  }

  lemma AttachKeepsValid(text: AddressText, a: Advertisement, signature: Signature)
    requires IsValidAdvertisement(text, a) && IsValidSignature(signature) && signature.deviceId == a.nodeId
    ensures IsValidAdvertisement(text, a.(identitySignature := Some(signature)))
  {
    assert forall i :: 0 <= i < |a.capabilities| ==> IsCapability(a.capabilities[i]);
  }

  /** A device can sign exactly its own valid advertisements, and signing changes only the signature. */
  lemma SignsOwnAdvertisements(codec: Codec, signer: Signer, a: Advertisement)
    requires IsKeyPair(codec, signer)
    ensures Sign(codec, signer, a).Ok? <==> a.nodeId == signer.deviceId && IsValidAdvertisement(codec.text, a)
    ensures Sign(codec, signer, a).Ok? ==>
              Sign(codec, signer, a).value.(identitySignature := a.identitySignature) == a
  {
    if a.nodeId == signer.deviceId && IsValidAdvertisement(codec.text, a) {
      var payload := SigningPayloadBytes(codec, a).value;
      var signature := Signature(SCHEMA_VERSION, ED25519, signer.deviceId, signer.publicKey, signer.sign(payload));
      AttachKeepsValid(codec.text, a, signature);
    }
  }

  /** What the local profile must know of a signer for its advertisements to pass. */
  predicate Registered(database: Database, profile: string, signer: Signer, epoch: int) {
    && (profile, signer.deviceId) in database.keys
    && var record := database.keys[(profile, signer.deviceId)];
       record.trusted && record.publicKey == signer.publicKey && record.membershipEpoch <= epoch
  }

  /**
   * An advertisement signed by a device passes every trust check exactly when it is on the right
   * network, from another device, offers service frames, and the signer's own key is registered,
   * trusted and of an epoch not above the advertisement's.
   */
  lemma SignedAcceptedIff(
    codec: Codec, signer: Signer, a: Advertisement, database: Database, profile: string, networkId: string, p: Peer)
    requires IsKeyPair(codec, signer)
    requires Sign(codec, signer, a) == Ok(p.advertisement)
    ensures TrustRejection(codec, database, profile, networkId, p) == Ok(None) <==>
            && a.networkId == networkId
            && a.nodeId != database.localDeviceId
            && SupportsServiceFrames(a)
            && Registered(database, profile, signer, a.membershipEpoch)
  {
    SignsOwnAdvertisements(codec, signer, a);
    PayloadIgnoresSignature(codec, a, p.advertisement.identitySignature);
    assert IsSyncIdentifier(a.nodeId);
  }

  /** The filter stops with a storage error only on a candidate whose node id is malformed. */
  lemma ErrorIsMalformedId(codec: Codec, database: Database, profile: string, networkId: string, p: Peer)
    ensures TrustRejection(codec, database, profile, networkId, p).Err? <==>
            && p.advertisement.networkId == networkId
            && p.advertisement.nodeId != database.localDeviceId
            && SupportsServiceFrames(p.advertisement)
            && !IsSyncIdentifier(p.advertisement.nodeId)
  {
  }

  /** The local profile trusts the key of the node, and that key signed what is advertised. */
  predicate Vouched(codec: Codec, database: Database, profile: string, a: Advertisement) {
    && (profile, a.nodeId) in database.keys
    && a.identitySignature.Some?
    && var record, signature := database.keys[(profile, a.nodeId)], a.identitySignature.value;
       && record.trusted && record.membershipEpoch <= a.membershipEpoch
       && signature.deviceId == a.nodeId && signature.publicKey == record.publicKey
       && signature.version == SYNC_OBJECT_VERSION
       && IsValidAdvertisement(codec.text, a)
       && codec.verify(record.publicKey, SigningPayloadBytes(codec, a).value, signature.bytes)
  }

  /** Whoever made it, an advertisement passes only with all of this, and with all of this it passes. */
  lemma AcceptedIff(codec: Codec, database: Database, profile: string, networkId: string, p: Peer)
    ensures TrustRejection(codec, database, profile, networkId, p) == Ok(None) <==>
            && p.advertisement.networkId == networkId
            && p.advertisement.nodeId != database.localDeviceId
            && SupportsServiceFrames(p.advertisement)
            && Vouched(codec, database, profile, p.advertisement)
  {
    var a := p.advertisement;
    if IsValidAdvertisement(codec.text, a) {
      assert IsSyncIdentifier(a.nodeId);
    }
  }

  // ---------- authenticity ----------

  /** One act of signing. */
  datatype Signing = Signing(signer: Signer, advertisement: Advertisement)

  /** Different payloads have different bytes. */
  ghost predicate EncodesApart(codec: Codec) {
    forall a: Payload, b: Payload :: codec.encode(a) == codec.encode(b) ==> a == b
  }

  /** Some holder of the key signed these bytes, as the payload of an advertisement. */
  ghost predicate IsSigned(codec: Codec, history: seq<Signing>, publicKey: seq<Byte>, message: seq<Byte>) {
    exists e :: e in history && e.signer.publicKey == publicKey
             && Sign(codec, e.signer, e.advertisement).Ok?
             && SigningPayloadBytes(codec, e.advertisement) == Ok(message)
  }

  /** The attached signature verifies, under the trusted key of the node, over the advertisement's own payload. */
  predicate Verifies(codec: Codec, database: Database, profile: string, a: Advertisement) {
    && (profile, a.nodeId) in database.keys && database.keys[(profile, a.nodeId)].trusted
    && a.identitySignature.Some? && SigningPayloadBytes(codec, a).Ok?
    && codec.verify(
         database.keys[(profile, a.nodeId)].publicKey, SigningPayloadBytes(codec, a).value, a.identitySignature.value.bytes)
  }

  /** Nobody forged a signature of these advertisements: what verifies under a trusted key was signed with it. */
  ghost predicate Unforged(codec: Codec, database: Database, profile: string, history: seq<Signing>, seen: set<Advertisement>) {
    forall a :: a in seen && Verifies(codec, database, profile, a) ==>
      IsSigned(codec, history, database.keys[(profile, a.nodeId)].publicKey, SigningPayloadBytes(codec, a).value)
  }

  /** Unsigned, or the outcome of a recorded signing, by a real key pair, under the key registered for the node, if any is. */
  ghost predicate IsRecorded(codec: Codec, database: Database, profile: string, history: seq<Signing>, a: Advertisement) {
    a.identitySignature.Some? ==>
      exists e :: e in history && IsKeyPair(codec, e.signer) && Sign(codec, e.signer, e.advertisement) == Ok(a)
               && ((profile, a.nodeId) in database.keys ==> database.keys[(profile, a.nodeId)].publicKey == e.signer.publicKey)
  }

  /** Real key pairs and a record of what they signed do meet that assumption. */
  lemma RecordedIsUnforged(codec: Codec, database: Database, profile: string, history: seq<Signing>, seen: set<Advertisement>)
    requires forall a :: a in seen ==> IsRecorded(codec, database, profile, history, a)
    ensures Unforged(codec, database, profile, history, seen)
  {
    forall a | a in seen && Verifies(codec, database, profile, a)
      ensures IsSigned(codec, history, database.keys[(profile, a.nodeId)].publicKey, SigningPayloadBytes(codec, a).value)
    {
      var e :| e in history && IsKeyPair(codec, e.signer) && Sign(codec, e.signer, e.advertisement) == Ok(a)
            && ((profile, a.nodeId) in database.keys ==> database.keys[(profile, a.nodeId)].publicKey == e.signer.publicKey);
      SignsOwnAdvertisements(codec, e.signer, e.advertisement);
      PayloadIgnoresSignature(codec, e.advertisement, a.identitySignature);
    }
  }

  /** The node's own device, under the key registered for it, signed this advertisement and no other text. */
  ghost predicate IsAuthentic(database: Database, profile: string, history: seq<Signing>, a: Advertisement) {
    && (profile, a.nodeId) in database.keys
    && exists e :: e in history && e.signer.deviceId == a.nodeId
                && e.signer.publicKey == database.keys[(profile, a.nodeId)].publicKey
                && e.advertisement.(identitySignature := a.identitySignature) == a
  }

  /** Equal signed bytes mean equal advertisements, up to the signature. */
  lemma SameBytesSameFields(codec: Codec, a: Advertisement, b: Advertisement)
    requires EncodesApart(codec)
    requires SigningPayloadBytes(codec, a).Ok? && SigningPayloadBytes(codec, a) == SigningPayloadBytes(codec, b)
    ensures b.(identitySignature := a.identitySignature) == a
  {
    assert codec.encode(PayloadOf(a)) == codec.encode(PayloadOf(b));
  }

  /** An accepted advertisement is authentic: its own node's device signed exactly these fields. */
  lemma AcceptedIsAuthentic(
    codec: Codec, database: Database, profile: string, networkId: string, history: seq<Signing>,
    seen: set<Advertisement>, p: Peer)
    requires EncodesApart(codec) && Unforged(codec, database, profile, history, seen) && p.advertisement in seen
    requires TrustRejection(codec, database, profile, networkId, p) == Ok(None)
    ensures IsAuthentic(database, profile, history, p.advertisement)
  {
    AcceptedIff(codec, database, profile, networkId, p);
    var a := p.advertisement;
    var record, message := database.keys[(profile, a.nodeId)], SigningPayloadBytes(codec, a).value;
    assert Verifies(codec, database, profile, a);
    var e :| e in history && e.signer.publicKey == record.publicKey
          && Sign(codec, e.signer, e.advertisement).Ok?
          && SigningPayloadBytes(codec, e.advertisement) == Ok(message);
    SameBytesSameFields(codec, a, e.advertisement);
  }
}
