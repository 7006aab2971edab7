/**
 Bootstrap bundles: generating a signed and encrypted bundle, and validating one against a replay
 store, the shipped file or the tests' in-memory one. The cryptographic primitives and the text
 encodings are parameters; each theorem names the ideal laws it needs of them.
 */
module Bundle {
  import opened Common
  import opened SignedPayload
  import Utf8
  import Memory = ReplayStore
  import Disk = FileReplayStore

  datatype BundleData = BundleData(
    schemaVersion: Bytes, agentName: Bytes, token: Bytes, relayUrl: Bytes,
    fingerprint: Bytes, issued: Bytes, expiry: Bytes, bootstrapId: Bytes)

  datatype EncryptedBundle = EncryptedBundle(
    schemaVersion: Bytes, bootstrapId: Bytes, encryptedKey: Bytes, nonce: Bytes, ciphertext: Bytes,
    signatureAlgorithm: Bytes, signerFingerprint: Bytes, signature: Bytes)

  datatype Primitives = Primitives(
    hashHex: Bytes -> Bytes,
    signerPublic: Bytes -> Bytes,
    sign: (Bytes, Bytes) -> Bytes,
    verify: (Bytes, Bytes, Bytes) -> bool,
    recipientPublic: Bytes -> Bytes,
    wrapKey: (Bytes, Bytes, Bytes) -> Option<Bytes>,
    unwrapKey: (Bytes, Bytes) -> Option<Bytes>,
    seal: (Bytes, Bytes, Bytes, Bytes) -> Bytes,
    open: (Bytes, Bytes, Bytes, Bytes) -> Option<Bytes>,
    toBase64: Bytes -> Bytes,
    fromBase64: Bytes -> Option<Bytes>,
    toJson: BundleData -> Bytes,
    fromJson: Bytes -> Option<BundleData>,
    parseTime: Bytes -> Option<Time>)

  const MAX_SKEW: Time := 5 * MINUTE
  const KEY_SIZE: nat := 32
  const NONCE_SIZE: nat := 12
  const FINGERPRINT_SIZE: nat := 64
  const SCHEMA: Bytes := [0x31]
  const ED25519: Bytes := [0x65, 0x64, 0x32, 0x35, 0x35, 0x31, 0x39]

  /** `NoncePanic` is not an error return: the cipher panics, and the deferred release still runs. */
  datatype Reason =
    | NilBundle | NilReplayStore | OuterSchema | UnknownAlgorithm | SignerMismatch | SignatureEncoding
    | InvalidSignature | NotReservable | KeyEncoding | NonceEncoding | CiphertextEncoding | KeyUnwrap
    | KeySize | NoncePanic | Decryption | Malformed | InnerSchema | IdMismatch | UnexpectedAgent
    | FingerprintSize | FingerprintNotHex | MissingField | IssuedFormat | ExpiryFormat
    | IssuedInFuture | ExpiryNotAfterIssued | BundleExpired

  datatype Result<+T> = Ok(value: T) | Err(reason: Reason)

  // ----- Generating -----

  function RecipientFingerprint(p: Primitives, recipientPublic: Bytes): Bytes {
    p.hashHex(recipientPublic)
  }

  /** The fields a bundle's signature covers. */
  function SignedFields(eb: EncryptedBundle, agent: Bytes, recipient: Bytes): Fields {
    Fields(eb.schemaVersion, eb.bootstrapId, agent, recipient, eb.encryptedKey, eb.nonce, eb.ciphertext)
  }

  /** One call of the generator: its data, the recipient's public key, and the randomness it drew. */
  datatype Issue = Issue(data: BundleData, recipientPublic: Bytes, key: Bytes, nonce: Bytes, padding: Bytes)

  predicate IssueOk(i: Issue) {
    |i.key| == KEY_SIZE && |i.nonce| == NONCE_SIZE
  }

  /** The bundle before it is signed; wrapping fails for a recipient key that is too small. */
  function Sealed(p: Primitives, i: Issue): Option<EncryptedBundle> {
    var wrapped := p.wrapKey(i.recipientPublic, i.key, i.padding);
    if wrapped.None? then None
    else
      var aad := AssociatedData(i.data.schemaVersion, i.data.bootstrapId);
      Some(EncryptedBundle(
        i.data.schemaVersion, i.data.bootstrapId, p.toBase64(wrapped.value), p.toBase64(i.nonce),
        p.toBase64(p.seal(i.key, i.nonce, p.toJson(i.data), aad)), [], [], []))
  }

  /** What the signer signs for an issue. */
  function SignedFor(p: Primitives, i: Issue): Option<Fields> {
    var eb := Sealed(p, i);
    if eb.None? then None
    else Some(SignedFields(eb.value, i.data.agentName, RecipientFingerprint(p, i.recipientPublic)))
  }

  /** The finished bundle: the sealed one with the signature over its signed fields. */
  function Generated(p: Primitives, signKey: Bytes, i: Issue): Option<EncryptedBundle> {
    var eb := Sealed(p, i);
    if eb.None? then None
    else Some(eb.value.(
      signatureAlgorithm := ED25519,
      signerFingerprint := p.hashHex(p.signerPublic(signKey)),
      signature := p.toBase64(p.sign(signKey, Payload(SignedFor(p, i).value)))))
  }

  method GenerateSignedBootstrapBundle(p: Primitives, signKey: Bytes, i: Issue) returns (eb: Option<EncryptedBundle>)
    requires IssueOk(i)
    ensures eb == Generated(p, signKey, i)
  {
    var bd := i.data;
    var plaintext := p.toJson(bd);
    var aad := AssociatedData(bd.schemaVersion, bd.bootstrapId);
    var ct := p.seal(i.key, i.nonce, plaintext, aad);
    var wrapped := p.wrapKey(i.recipientPublic, i.key, i.padding);
    if wrapped.None? {
      return None;
    }
    var bundle := EncryptedBundle(bd.schemaVersion, bd.bootstrapId, p.toBase64(wrapped.value), p.toBase64(i.nonce),
                                  p.toBase64(ct), [], [], []);
    var payload := ConstructSignedPayload(
      bundle.schemaVersion, bundle.bootstrapId, bundle.encryptedKey, bundle.nonce, bundle.ciphertext,
      bd.agentName, p.hashHex(i.recipientPublic));
    bundle := bundle.(signatureAlgorithm := ED25519);
    bundle := bundle.(signerFingerprint := p.hashHex(p.signerPublic(signKey)));
    bundle := bundle.(signature := p.toBase64(p.sign(signKey, payload)));
    return Some(bundle);
  }

  // ----- Decrypting -----

  function Decrypted(p: Primitives, eb: EncryptedBundle, priv: Bytes): Result<BundleData> {
    var wrapped, nonce, ct := p.fromBase64(eb.encryptedKey), p.fromBase64(eb.nonce), p.fromBase64(eb.ciphertext);
    if wrapped.None? then Err(KeyEncoding)
    else if nonce.None? then Err(NonceEncoding)
    else if ct.None? then Err(CiphertextEncoding)
    else
      var key := p.unwrapKey(priv, wrapped.value);
      if key.None? then Err(KeyUnwrap)
      else if |key.value| !in {16, 24, 32} then Err(KeySize)
      else if |nonce.value| != NONCE_SIZE then Err(NoncePanic)
      else
        var pt := p.open(key.value, nonce.value, ct.value, AssociatedData(eb.schemaVersion, eb.bootstrapId));
        if pt.None? then Err(Decryption)
        else
          var bd := p.fromJson(pt.value);
          if bd.None? then Err(Malformed) else Ok(bd.value)
  }

  method DecryptBootstrapBundle(p: Primitives, eb: Option<EncryptedBundle>, priv: Bytes) returns (r: Result<BundleData>)
    ensures r == if eb.None? then Err(NilBundle) else Decrypted(p, eb.value, priv)
  {
    if eb.None? {
      return Err(NilBundle);
    }
    var wrapped := p.fromBase64(eb.value.encryptedKey);
    if wrapped.None? {
      return Err(KeyEncoding);
    }
    var nonce := p.fromBase64(eb.value.nonce);
    if nonce.None? {
      return Err(NonceEncoding);
    }
    var ct := p.fromBase64(eb.value.ciphertext);
    if ct.None? {
      return Err(CiphertextEncoding);
    }
    var key := p.unwrapKey(priv, wrapped.value);
    if key.None? {
      return Err(KeyUnwrap);
    }
    if |key.value| !in {16, 24, 32} {
      return Err(KeySize);
    }
    var aad := AssociatedData(eb.value.schemaVersion, eb.value.bootstrapId);
    if |nonce.value| != NONCE_SIZE {
      return Err(NoncePanic);
    }
    var pt := p.open(key.value, nonce.value, ct.value, aad);
    if pt.None? {
      return Err(Decryption);
    }
    var bd := p.fromJson(pt.value);
    if bd.None? {
      return Err(Malformed);
    }
    return Ok(bd.value);
  }

  // ----- The replay store as a validation sees it -----

  datatype ReplayStore = InMemory(memory: Memory.Store) | OnDisk(disk: Disk.Store)

  datatype ReplayState = MemoryState(memory: Memory.State) | DiskState(disk: Disk.File)

  /** What the clock reads and the disk does during a reserve and during a later release. */
  datatype Call = Call(checked: Time, stamped: Time, reserving: Disk.Io, releasing: Disk.Io)

  ghost function Footprint(r: ReplayStore): set<object> {
    match r
    case InMemory(m) => {m}
    case OnDisk(d) => {d.file}
  }

  ghost function StateOf(r: ReplayStore): ReplayState
    reads Footprint(r)
  {
    match r
    case InMemory(m) => MemoryState(m.Abstract())
    case OnDisk(d) => DiskState(d.Abstract())
  }

  /** Whether the store reports the reservation as granted. */
  predicate Grants(s: ReplayState, id: Bytes, c: Call) {
    match s
    case MemoryState(m) => Memory.CanReserve(m, id)
    case DiskState(f) => Disk.Succeeds(f, Disk.Reserve(id, c.checked, c.stamped), c.reserving)
  }

  function AfterReserve(s: ReplayState, id: Bytes, c: Call): ReplayState {
    match s
    case MemoryState(m) => MemoryState(Memory.Reserved(m, id))
    case DiskState(f) => DiskState(Disk.Updated(f, Disk.Reserve(id, c.checked, c.stamped), c.reserving))
  }

  function AfterRelease(s: ReplayState, id: Bytes, c: Call): ReplayState {
    match s
    case MemoryState(m) => MemoryState(Memory.Released(m, id))
    case DiskState(f) => DiskState(Disk.Updated(f, Disk.Release(id), c.releasing))
  }

  method Reserve(r: ReplayStore, id: Bytes, c: Call) returns (ok: bool)
    modifies Footprint(r)
    ensures ok == Grants(old(StateOf(r)), id, c)
    ensures StateOf(r) == AfterReserve(old(StateOf(r)), id, c)
  {
    match r
    case InMemory(m) =>
      ok := m.Reserve(id);
    case OnDisk(d) =>
      ok := d.Update(Disk.Reserve(id, c.checked, c.stamped), c.reserving);
  }

  method Release(r: ReplayStore, id: Bytes, c: Call)
    modifies Footprint(r)
    ensures StateOf(r) == AfterRelease(old(StateOf(r)), id, c)
  {
    match r
    case InMemory(m) =>
      var _ := m.Release(id);
    case OnDisk(d) =>
      var _ := d.Update(Disk.Release(id), c.releasing);
  }

  // ----- Validating -----

  predicate IsHexDigit(b: Byte) {
    0x30 <= b <= 0x39 || 0x41 <= b <= 0x46 || 0x61 <= b <= 0x66
  }

  predicate IsHex(s: Bytes) {
    |s| % 2 == 0 && forall b | b in s :: IsHexDigit(b)
  }

  /** The checks made before the ID is reserved. */
  function OuterFault(p: Primitives, eb: EncryptedBundle, priv: Bytes, signPub: Bytes, agent: Bytes): Option<Reason> {
    if eb.schemaVersion != SCHEMA then Some(OuterSchema)
    else if eb.signatureAlgorithm != ED25519 then Some(UnknownAlgorithm)
    else if eb.signerFingerprint != p.hashHex(signPub) then Some(SignerMismatch)
    else
      var sig := p.fromBase64(eb.signature);
      if sig.None? then Some(SignatureEncoding)
      else
        var fields := SignedFields(eb, agent, RecipientFingerprint(p, p.recipientPublic(priv)));
        if p.verify(signPub, Payload(fields), sig.value) then None else Some(InvalidSignature)
  }

  predicate Complete(bd: BundleData) {
    && bd.token != [] && bd.relayUrl != [] && bd.issued != [] && bd.expiry != [] && bd.bootstrapId != []
    && bd.agentName != [] && bd.schemaVersion != []
  }

  /** The validity window, given both timestamps. */
  predicate Timely(issued: Time, expiry: Time, now: Time) {
    issued <= now + MAX_SKEW && issued < expiry && now <= expiry
  }

  /** What a bundle's contents must satisfy at time `now`. */
  predicate Acceptable(p: Primitives, bd: BundleData, bootstrapId: Bytes, agent: Bytes, now: Time) {
    && bd.schemaVersion == SCHEMA && bd.bootstrapId == bootstrapId && bd.agentName == agent
    && |bd.fingerprint| == FINGERPRINT_SIZE && IsHex(bd.fingerprint) && Complete(bd)
    && p.parseTime(bd.issued).Some? && p.parseTime(bd.expiry).Some?
    && Timely(p.parseTime(bd.issued).value, p.parseTime(bd.expiry).value, now)
  }

  /** The first fault of the decrypted contents, in the order they are checked. */
  function ContentFault(p: Primitives, bd: BundleData, bootstrapId: Bytes, agent: Bytes, now: Time): Option<Reason> {
    var issued, expiry := p.parseTime(bd.issued), p.parseTime(bd.expiry);
    if bd.schemaVersion != SCHEMA then Some(InnerSchema)
    else if bd.bootstrapId != bootstrapId then Some(IdMismatch)
    else if bd.agentName != agent then Some(UnexpectedAgent)
    else if |bd.fingerprint| != FINGERPRINT_SIZE then Some(FingerprintSize)
    else if !IsHex(bd.fingerprint) then Some(FingerprintNotHex)
    else if !Complete(bd) then Some(MissingField)
    else if issued.None? then Some(IssuedFormat)
    else if expiry.None? then Some(ExpiryFormat)
    else if issued.value - now > MAX_SKEW then Some(IssuedInFuture)
    else if expiry.value <= issued.value then Some(ExpiryNotAfterIssued)
    else if expiry.value < now then Some(BundleExpired)
    else None
  }

  /** The checks made on the decrypted contents, while the ID is reserved. */
  method InspectContents(p: Primitives, bd: BundleData, bootstrapId: Bytes, agent: Bytes, now: Time)
    returns (fault: Option<Reason>)
    ensures fault == ContentFault(p, bd, bootstrapId, agent, now)
    ensures fault.None? <==> Acceptable(p, bd, bootstrapId, agent, now)
  {
    if bd.schemaVersion != SCHEMA {
      return Some(InnerSchema);
    }
    if bd.bootstrapId != bootstrapId {
      return Some(IdMismatch);
    }
    if bd.agentName != agent {
      return Some(UnexpectedAgent);
    }
    if |bd.fingerprint| != FINGERPRINT_SIZE {
      return Some(FingerprintSize);
    }
    if !IsHex(bd.fingerprint) {
      return Some(FingerprintNotHex);
    }
    if !Complete(bd) {
      return Some(MissingField);
    }
    var issued := p.parseTime(bd.issued);
    if issued.None? {
      return Some(IssuedFormat);
    }
    var expiry := p.parseTime(bd.expiry);
    if expiry.None? {
      return Some(ExpiryFormat);
    }
    if issued.value > now + MAX_SKEW {
      return Some(IssuedInFuture);
    }
    if !(expiry.value > issued.value) {
      return Some(ExpiryNotAfterIssued);
    }
    if now > expiry.value {
      return Some(BundleExpired);
    }
    return None;
  }

  /** Whether validation accepts the bundle as `bd`. */
  predicate Accepts(p: Primitives, eb: EncryptedBundle, priv: Bytes, signPub: Bytes, agent: Bytes,
                    replay: ReplayState, c: Call, now: Time, bd: BundleData)
  {
    && OuterFault(p, eb, priv, signPub, agent).None?
    && Grants(replay, eb.bootstrapId, c)
    && Decrypted(p, eb, priv) == Ok(bd)
    && Acceptable(p, bd, eb.bootstrapId, agent, now)
  }

  /** The result of a validation, faults included. */
  function Validated(p: Primitives, eb: EncryptedBundle, priv: Bytes, signPub: Bytes, agent: Bytes,
                     replay: ReplayState, c: Call, now: Time): Result<BundleData>
  {
    var outer := OuterFault(p, eb, priv, signPub, agent);
    if outer.Some? then Err(outer.value)
    else if !Grants(replay, eb.bootstrapId, c) then Err(NotReservable)
    else
      var contents := Decrypted(p, eb, priv);
      if contents.Err? then contents
      else
        var fault := ContentFault(p, contents.value, eb.bootstrapId, agent, now);
        if fault.Some? then Err(fault.value) else contents
  }

  /** Of all the checks, the ones that matter to whether a bundle is accepted. */
  lemma AcceptsExactly(p: Primitives, eb: EncryptedBundle, priv: Bytes, signPub: Bytes, agent: Bytes,
                       replay: ReplayState, c: Call, now: Time, bd: BundleData)
    ensures Validated(p, eb, priv, signPub, agent, replay, c, now) == Ok(bd) <==>
            Accepts(p, eb, priv, signPub, agent, replay, c, now, bd)
  {
  }

  /** The content key and the plain text of a bundle, as far as there are any. */
  function Plain(p: Primitives, eb: EncryptedBundle, priv: Bytes): (Option<Bytes>, Option<Bytes>) {
    var wrapped, nonce, ct := p.fromBase64(eb.encryptedKey), p.fromBase64(eb.nonce), p.fromBase64(eb.ciphertext);
    var key := if wrapped.Some? then p.unwrapKey(priv, wrapped.value) else None;
    var aad := eb.schemaVersion + [0x7C] + eb.bootstrapId;
    (key, if key.Some? && nonce.Some? && ct.Some? then p.open(key.value, nonce.value, ct.value, aad) else None)
  }

  function Contents(p: Primitives, eb: EncryptedBundle, priv: Bytes): Option<BundleData> {
    var plain := Plain(p, eb, priv).1;
    if plain.Some? then p.fromJson(plain.value) else None
  }

  /** Whether a bundle passes the check that a reason for refusal stands for. */
  predicate Passes(p: Primitives, eb: EncryptedBundle, priv: Bytes, signPub: Bytes, agent: Bytes, granted: bool,
                   now: Time, check: Reason)
  {
    var signature, nonce, bd := p.fromBase64(eb.signature), p.fromBase64(eb.nonce), Contents(p, eb, priv);
    var key, plain := Plain(p, eb, priv).0, Plain(p, eb, priv).1;
    match check
    case OuterSchema => eb.schemaVersion == [0x31]
    case UnknownAlgorithm => eb.signatureAlgorithm == [0x65, 0x64, 0x32, 0x35, 0x35, 0x31, 0x39]
    case SignerMismatch => eb.signerFingerprint == p.hashHex(signPub)
    case SignatureEncoding => signature.Some?
    case InvalidSignature =>
      signature.Some? ==>
        p.verify(signPub, Payload(Fields(eb.schemaVersion, eb.bootstrapId, agent, p.hashHex(p.recipientPublic(priv)),
                                         eb.encryptedKey, eb.nonce, eb.ciphertext)), signature.value)
    case NotReservable => granted
    case KeyEncoding => p.fromBase64(eb.encryptedKey).Some?
    case NonceEncoding => nonce.Some?
    case CiphertextEncoding => p.fromBase64(eb.ciphertext).Some?
    case KeyUnwrap => key.Some?
    case KeySize => key.Some? ==> |key.value| == 16 || |key.value| == 24 || |key.value| == 32
    case NoncePanic => nonce.Some? ==> |nonce.value| == 12
    case Decryption => plain.Some?
    case Malformed => bd.Some?
    case InnerSchema => bd.Some? ==> bd.value.schemaVersion == [0x31]
    case IdMismatch => bd.Some? ==> bd.value.bootstrapId == eb.bootstrapId
    case UnexpectedAgent => bd.Some? ==> bd.value.agentName == agent
    case FingerprintSize => bd.Some? ==> |bd.value.fingerprint| == 64
    case FingerprintNotHex =>
      bd.Some? ==> |bd.value.fingerprint| % 2 == 0 &&
                   forall b | b in bd.value.fingerprint ::
                     0x30 <= b <= 0x39 || 0x41 <= b <= 0x46 || 0x61 <= b <= 0x66
    case MissingField => bd.Some? ==> bd.value.token != [] && bd.value.relayUrl != [] && bd.value.bootstrapId != []
                                      && bd.value.agentName != [] && bd.value.issued != [] && bd.value.expiry != []
    case IssuedFormat => bd.Some? ==> p.parseTime(bd.value.issued).Some?
    case ExpiryFormat => bd.Some? ==> p.parseTime(bd.value.expiry).Some?
    case IssuedInFuture =>
      bd.Some? && p.parseTime(bd.value.issued).Some? ==> p.parseTime(bd.value.issued).value <= now + 300 * SECOND
    case ExpiryNotAfterIssued =>
      bd.Some? && p.parseTime(bd.value.issued).Some? && p.parseTime(bd.value.expiry).Some? ==>
        p.parseTime(bd.value.issued).value < p.parseTime(bd.value.expiry).value
    case BundleExpired =>
      bd.Some? && p.parseTime(bd.value.expiry).Some? ==> now <= p.parseTime(bd.value.expiry).value
    case _ => true
  }

  /** The place of a check in the order of checks. */
  function Place(check: Reason): nat {
    match check
    case NilBundle => 0 case NilReplayStore => 1 case OuterSchema => 2 case UnknownAlgorithm => 3
    case SignerMismatch => 4 case SignatureEncoding => 5 case InvalidSignature => 6 case NotReservable => 7
    case KeyEncoding => 8 case NonceEncoding => 9 case CiphertextEncoding => 10 case KeyUnwrap => 11
    case KeySize => 12 case NoncePanic => 13 case Decryption => 14 case Malformed => 15 case InnerSchema => 16
    case IdMismatch => 17 case UnexpectedAgent => 18 case FingerprintSize => 19 case FingerprintNotHex => 20
    case MissingField => 21 case IssuedFormat => 22 case ExpiryFormat => 23 case IssuedInFuture => 24
    case ExpiryNotAfterIssued => 25 case BundleExpired => 26
  }

  lemma OuterFirst(p: Primitives, eb: EncryptedBundle, priv: Bytes, signPub: Bytes, agent: Bytes, granted: bool,
                   now: Time, check: Reason)
    ensures match OuterFault(p, eb, priv, signPub, agent)
            case None => Place(check) <= 6 ==> Passes(p, eb, priv, signPub, agent, granted, now, check)
            case Some(f) =>
              && Place(f) <= 6 && !Passes(p, eb, priv, signPub, agent, granted, now, f)
              && (Place(check) < Place(f) ==> Passes(p, eb, priv, signPub, agent, granted, now, check))
  {
  }

  lemma DecryptFirst(p: Primitives, eb: EncryptedBundle, priv: Bytes, signPub: Bytes, agent: Bytes, granted: bool,
                     now: Time, check: Reason)
    ensures match Decrypted(p, eb, priv)
            case Ok(bd) =>
              && Contents(p, eb, priv) == Some(bd)
              && (8 <= Place(check) <= 15 ==> Passes(p, eb, priv, signPub, agent, granted, now, check))
            case Err(f) =>
              && 8 <= Place(f) <= 15 && !Passes(p, eb, priv, signPub, agent, granted, now, f)
              && (8 <= Place(check) < Place(f) ==> Passes(p, eb, priv, signPub, agent, granted, now, check))
  {
  }

  lemma ContentFirst(p: Primitives, eb: EncryptedBundle, priv: Bytes, signPub: Bytes, agent: Bytes, granted: bool,
                     now: Time, bd: BundleData, check: Reason)
    requires Contents(p, eb, priv) == Some(bd)
    ensures match ContentFault(p, bd, eb.bootstrapId, agent, now)
            case None => Place(check) >= 16 ==> Passes(p, eb, priv, signPub, agent, granted, now, check)
            case Some(f) =>
              && 16 <= Place(f) && !Passes(p, eb, priv, signPub, agent, granted, now, f)
              && (16 <= Place(check) < Place(f) ==> Passes(p, eb, priv, signPub, agent, granted, now, check))
  {
  }

  /**
   A bundle is refused for the first check it does not pass, and accepted exactly if it passes all of
   them, as the contents it decrypts to.
   */
  lemma RefusedForTheFirstFault(p: Primitives, eb: EncryptedBundle, priv: Bytes, signPub: Bytes, agent: Bytes,
                                replay: ReplayState, c: Call, now: Time)
    ensures var granted := Grants(replay, eb.bootstrapId, c);
            match Validated(p, eb, priv, signPub, agent, replay, c, now)
            case Ok(bd) =>
              && Contents(p, eb, priv) == Some(bd)
              && forall check :: Passes(p, eb, priv, signPub, agent, granted, now, check)
            case Err(f) =>
              && !Passes(p, eb, priv, signPub, agent, granted, now, f)
              && forall check | Place(check) < Place(f) :: Passes(p, eb, priv, signPub, agent, granted, now, check)
  {
    var granted := Grants(replay, eb.bootstrapId, c);
    forall check
      ensures match Validated(p, eb, priv, signPub, agent, replay, c, now)
              case Ok(bd) =>
                Contents(p, eb, priv) == Some(bd) && Passes(p, eb, priv, signPub, agent, granted, now, check)
              case Err(f) =>
                && !Passes(p, eb, priv, signPub, agent, granted, now, f)
                && (Place(check) < Place(f) ==> Passes(p, eb, priv, signPub, agent, granted, now, check))
    {
      OuterFirst(p, eb, priv, signPub, agent, granted, now, check);
      DecryptFirst(p, eb, priv, signPub, agent, granted, now, check);
      var contents := Decrypted(p, eb, priv);
      if contents.Ok? {
        ContentFirst(p, eb, priv, signPub, agent, granted, now, contents.value, check);
      }
    }
  }

  /** What a validation leaves in the replay store. */
  function Left(p: Primitives, eb: EncryptedBundle, priv: Bytes, signPub: Bytes, agent: Bytes,
                replay: ReplayState, c: Call, now: Time): ReplayState
  {
    var id := eb.bootstrapId;
    if OuterFault(p, eb, priv, signPub, agent).Some? then replay
    else if !Grants(replay, id, c) || Validated(p, eb, priv, signPub, agent, replay, c, now).Ok?
    then AfterReserve(replay, id, c)
    else AfterRelease(AfterReserve(replay, id, c), id, c)
  }

  function Entries(s: ReplayState): (map<Bytes, Disk.Entry>, Option<Memory.State>) {
    match s
    case MemoryState(m) => (map[], Some(m))
    case DiskState(f) => (Disk.EntriesOf(f), None)
  }

  /**
   Which failures leave the replay store's entries as they were: with the in-memory store all of them,
   with the file those that fail before the reservation and those that leave no trace in the file.
   */
  lemma FailureLeavesStoreExactly(p: Primitives, eb: EncryptedBundle, priv: Bytes, signPub: Bytes, agent: Bytes,
                                  replay: ReplayState, c: Call, now: Time)
    requires Validated(p, eb, priv, signPub, agent, replay, c, now).Err?
    ensures Entries(Left(p, eb, priv, signPub, agent, replay, c, now)) == Entries(replay) <==>
              || replay.MemoryState? || OuterFault(p, eb, priv, signPub, agent).Some?
              || Disk.LeavesNoTrace(replay.disk, eb.bootstrapId, c.checked, c.stamped, c.reserving, c.releasing)
  {
    match replay
    case MemoryState(m) =>
      if Memory.CanReserve(m, eb.bootstrapId) {
        assert m.reserved + {eb.bootstrapId} - {eb.bootstrapId} == m.reserved;
      }
    case DiskState(f) =>
      Disk.FailureUnchangedExactly(f, eb.bootstrapId, c.checked, c.stamped, c.reserving, c.releasing);
  }

  /** An accepted ID stays reserved for the caller to commit or release, for others to find it taken. */
  lemma AcceptedIsReserved(p: Primitives, eb: EncryptedBundle, priv: Bytes, signPub: Bytes, agent: Bytes,
                           replay: ReplayState, c: Call, now: Time, later: Call)
    requires Validated(p, eb, priv, signPub, agent, replay, c, now).Ok?
    ensures var s := Left(p, eb, priv, signPub, agent, replay, c, now);
            Grants(s, eb.bootstrapId, later) ==>
              s.DiskState? && later.checked - c.stamped >= Disk.STALE_AFTER
  {
  }

  /** The release after a failure is deferred, and its own failure is ignored. */
  method ValidateBootstrapBundle(p: Primitives, eb: Option<EncryptedBundle>, priv: Bytes, signPub: Bytes,
                                 agent: Bytes, replay: Option<ReplayStore>, c: Call, now: Time)
    returns (r: Result<BundleData>)
    modifies if replay.Some? then Footprint(replay.value) else {}
    ensures eb.None? ==> r == Err(NilBundle)
    ensures eb.Some? && replay.None? ==> r == Err(NilReplayStore)
    ensures eb.None? && replay.Some? ==> StateOf(replay.value) == old(StateOf(replay.value))
    ensures eb.Some? && replay.Some? ==>
              var before := old(StateOf(replay.value));
              && r == Validated(p, eb.value, priv, signPub, agent, before, c, now)
              && StateOf(replay.value) == Left(p, eb.value, priv, signPub, agent, before, c, now)
  {
    if eb.None? {
      return Err(NilBundle);
    }
    if replay.None? {
      return Err(NilReplayStore);
    }
    var b := eb.value;
    if b.schemaVersion != SCHEMA {
      return Err(OuterSchema);
    }
    if b.signatureAlgorithm != ED25519 {
      return Err(UnknownAlgorithm);
    }
    if b.signerFingerprint != p.hashHex(signPub) {
      return Err(SignerMismatch);
    }
    var sig := p.fromBase64(b.signature);
    if sig.None? {
      return Err(SignatureEncoding);
    }
    var payload := ConstructSignedPayload(b.schemaVersion, b.bootstrapId, b.encryptedKey, b.nonce, b.ciphertext,
                                          agent, p.hashHex(p.recipientPublic(priv)));
    if !p.verify(signPub, payload, sig.value) {
      return Err(InvalidSignature);
    }
    var reserved := Reserve(replay.value, b.bootstrapId, c);
    if !reserved {
      return Err(NotReservable);
    }
    var success := false;
    r := DecryptBootstrapBundle(p, eb, priv);
    if r.Ok? {
      var fault := InspectContents(p, r.value, b.bootstrapId, agent, now);
      if fault.Some? {
        r := Err(fault.value);
      } else {
        success := true;
      }
    }
    if !success {
      Release(replay.value, b.bootstrapId, c);
    }
  }

  // ----- Theorems -----

  /** The data as a JSON round trip returns it. */
  function RepairedData(d: BundleData): BundleData {
    BundleData(
      Utf8.Repaired(d.schemaVersion), Utf8.Repaired(d.agentName), Utf8.Repaired(d.token), Utf8.Repaired(d.relayUrl),
      Utf8.Repaired(d.fingerprint), Utf8.Repaired(d.issued), Utf8.Repaired(d.expiry), Utf8.Repaired(d.bootstrapId))
  }

  predicate Encodable(d: BundleData) {
    && Utf8.Valid(d.schemaVersion) && Utf8.Valid(d.agentName) && Utf8.Valid(d.token) && Utf8.Valid(d.relayUrl)
    && Utf8.Valid(d.fingerprint) && Utf8.Valid(d.issued) && Utf8.Valid(d.expiry) && Utf8.Valid(d.bootstrapId)
  }

  lemma EncodableExactly(d: BundleData)
    ensures RepairedData(d) == d <==> Encodable(d)
  {
    forall s: Bytes ensures Utf8.Repaired(s) == s <==> Utf8.Valid(s) {
      Utf8.UnchangedExactlyIfValid(s);
    }
  }

  /** Decoding and decryption undo encoding and encryption, JSON only as far as text is well-formed. */
  ghost predicate Invertible(p: Primitives) {
    && (forall x :: p.fromBase64(p.toBase64(x)) == Some(x))
    && (forall d :: p.fromJson(p.toJson(d)) == Some(RepairedData(d)))
    && (forall priv, key, padding ::
          var w := p.wrapKey(p.recipientPublic(priv), key, padding);
          w.Some? ==> p.unwrapKey(priv, w.value) == Some(key))
    && (forall key, nonce, pt, aad :: p.open(key, nonce, p.seal(key, nonce, pt, aad), aad) == Some(pt))
  }

  /** A signature verifies for the message it was made for and for no other. */
  ghost predicate SignaturesExact(p: Primitives) {
    forall k, m, m' :: p.verify(p.signerPublic(k), m, p.sign(k, m')) <==> m == m'
  }

  ghost predicate HashInjective(p: Primitives) {
    forall a, b :: p.hashHex(a) == p.hashHex(b) ==> a == b
  }

  /** Opening a generated bundle with the matching private key gives back what went in, as JSON returns it. */
  lemma GeneratedDecrypts(p: Primitives, signKey: Bytes, i: Issue, priv: Bytes)
    requires Invertible(p) && IssueOk(i) && Generated(p, signKey, i).Some?
    requires i.recipientPublic == p.recipientPublic(priv)
    ensures Decrypted(p, Generated(p, signKey, i).value, priv) == Ok(RepairedData(i.data))
  {
    var aad := AssociatedData(i.data.schemaVersion, i.data.bootstrapId);
    var wrapped := p.wrapKey(i.recipientPublic, i.key, i.padding);
    assert p.unwrapKey(priv, wrapped.value) == Some(i.key);
    assert p.open(i.key, i.nonce, p.seal(i.key, i.nonce, p.toJson(i.data), aad), aad) == Some(p.toJson(i.data));
  }

  lemma SameMiddle(front: Bytes, h: Bytes, x: Bytes, h': Bytes, x': Bytes, back: Bytes)
    requires |h| == |h'| && front + (h + x + back) == front + (h' + x' + back)
    ensures x == x'
  {
    var whole, whole' := front + (h + x + back), front + (h' + x' + back);
    var from, to := |front| + |h|, |whole| - |back|;
    assert whole[from..to] == x && whole'[from..to] == x';
  }

  /** Payloads of one bundle for two agents are equal only if the agents are, whatever their lengths. */
  lemma PayloadFixesAgent(eb: EncryptedBundle, agent: Bytes, other: Bytes, recipient: Bytes)
    requires Payload(SignedFields(eb, agent, recipient)) == Payload(SignedFields(eb, other, recipient))
    ensures agent == other
  {
    var front := [eb.schemaVersion, eb.bootstrapId];
    var back := [recipient, eb.encryptedKey, eb.nonce, eb.ciphertext];
    forall x: Bytes
      ensures Payload(SignedFields(eb, x, recipient)) == Encoded(front) + (Header(|x|) + x + Encoded(back))
    {
      EncodedConcat(front, [x] + back);
      assert ([x] + back)[1..] == back;
      assert FieldList(SignedFields(eb, x, recipient)) == front + ([x] + back);
    }
    SameMiddle(Encoded(front), Header(|agent|), agent, Header(|other|), other, Encoded(back));
  }

  /** A generated bundle passes the checks before the reservation exactly if its version and its agent are right. */
  lemma OuterChecksExactly(p: Primitives, signKey: Bytes, i: Issue, priv: Bytes, agent: Bytes)
    requires Invertible(p) && SignaturesExact(p) && IssueOk(i) && Generated(p, signKey, i).Some?
    requires i.recipientPublic == p.recipientPublic(priv)
    ensures OuterFault(p, Generated(p, signKey, i).value, priv, p.signerPublic(signKey), agent).None? <==>
            i.data.schemaVersion == SCHEMA && agent == i.data.agentName
  {
    var eb := Generated(p, signKey, i).value;
    var recipient := RecipientFingerprint(p, p.recipientPublic(priv));
    assert SignedFor(p, i).value == SignedFields(eb, i.data.agentName, recipient);
    var made, read := Payload(SignedFor(p, i).value), Payload(SignedFields(eb, agent, recipient));
    assert p.fromBase64(eb.signature) == Some(p.sign(signKey, made));
    assert p.verify(p.signerPublic(signKey), read, p.sign(signKey, made)) <==> read == made;
    if read == made {
      PayloadFixesAgent(eb, agent, i.data.agentName, recipient);
    }
  }

  /**
   Round trip: a generated bundle is accepted, as `bd`, if and only if it was made for this agent, its
   ID is granted, and its data, as JSON returns it, is acceptable now and is `bd`. It is accepted
   unchanged if and only if, moreover, all of it is well-formed UTF-8.
   */
  lemma RoundTrip(p: Primitives, signKey: Bytes, i: Issue, priv: Bytes, agent: Bytes, replay: ReplayState,
                  c: Call, now: Time, bd: BundleData)
    requires Invertible(p) && SignaturesExact(p) && IssueOk(i) && Generated(p, signKey, i).Some?
    requires i.recipientPublic == p.recipientPublic(priv)
    ensures Accepts(p, Generated(p, signKey, i).value, priv, p.signerPublic(signKey), agent, replay, c, now, bd) <==>
              && bd == RepairedData(i.data) && i.data.schemaVersion == SCHEMA && agent == i.data.agentName
              && Grants(replay, i.data.bootstrapId, c) && Acceptable(p, bd, i.data.bootstrapId, agent, now)
    ensures Accepts(p, Generated(p, signKey, i).value, priv, p.signerPublic(signKey), agent, replay, c, now,
                    i.data) <==>
              && Encodable(i.data) && agent == i.data.agentName && Grants(replay, i.data.bootstrapId, c)
              && Acceptable(p, i.data, i.data.bootstrapId, agent, now)
  {
    EncodableExactly(i.data);
    GeneratedDecrypts(p, signKey, i, priv);
    OuterChecksExactly(p, signKey, i, priv, agent);
  }

  /** A bundle whose signed fields are those of an issue decrypts to the data of that issue. */
  lemma SameFieldsSameContents(p: Primitives, i: Issue, eb: EncryptedBundle, priv: Bytes, agent: Bytes)
    requires Invertible(p) && HashInjective(p) && IssueOk(i)
    requires SignedFor(p, i) == Some(SignedFields(eb, agent, RecipientFingerprint(p, p.recipientPublic(priv))))
    ensures i.recipientPublic == p.recipientPublic(priv) && i.data.agentName == agent
    ensures Decrypted(p, eb, priv) == Ok(RepairedData(i.data))
  {
    var made := Generated(p, [], i).value;
    assert SignedFields(made, i.data.agentName, RecipientFingerprint(p, i.recipientPublic)) == SignedFor(p, i).value;
    assert p.hashHex(i.recipientPublic) == p.hashHex(p.recipientPublic(priv));
    GeneratedDecrypts(p, [], i, priv);
    assert Decrypted(p, eb, priv) == Decrypted(p, made, priv);
  }

  /** The signature on this bundle, if it verifies, is one the signer made for an issued bundle. */
  ghost predicate Unforged(p: Primitives, eb: EncryptedBundle, fields: Fields, signPub: Bytes, issued: set<Issue>) {
    var sig := p.fromBase64(eb.signature);
    sig.Some? && p.verify(signPub, Payload(fields), sig.value) ==>
      exists i :: i in issued && SignedFor(p, i).Some? && Payload(SignedFor(p, i).value) == Payload(fields)
  }

  /** `eb` has the recipient, the agent and the seven signed fields of issue `i`. */
  ghost predicate IssuedAs(p: Primitives, i: Issue, eb: EncryptedBundle, priv: Bytes, agent: Bytes) {
    && i.recipientPublic == p.recipientPublic(priv) && i.data.agentName == agent
    && SignedFor(p, i) == Some(SignedFields(eb, agent, RecipientFingerprint(p, p.recipientPublic(priv))))
  }

  /**
   Authenticity: a bundle that passes the signature check and decrypts, as every accepted one does,
   carries exactly the data of one bundle the signer issued to this recipient for this agent, and
   its seven signed fields are that bundle's.
   */
  lemma VerifiedBundleWasIssued(p: Primitives, eb: EncryptedBundle, priv: Bytes, signPub: Bytes, agent: Bytes,
                                bd: BundleData, issued: set<Issue>)
    requires Invertible(p) && HashInjective(p)
    requires forall i | i in issued :: IssueOk(i) && (SignedFor(p, i).Some? ==> Fits(SignedFor(p, i).value))
    requires var fields := SignedFields(eb, agent, RecipientFingerprint(p, p.recipientPublic(priv)));
             Fits(fields) && Unforged(p, eb, fields, signPub, issued)
    requires OuterFault(p, eb, priv, signPub, agent).None? && Decrypted(p, eb, priv) == Ok(bd)
    ensures exists i :: i in issued && bd == RepairedData(i.data) && IssuedAs(p, i, eb, priv, agent)
  {
    var fields := SignedFields(eb, agent, RecipientFingerprint(p, p.recipientPublic(priv)));
    var i :| i in issued && SignedFor(p, i).Some? && Payload(SignedFor(p, i).value) == Payload(fields);
    PayloadInjective(SignedFor(p, i).value, fields);
    SameFieldsSameContents(p, i, eb, priv, agent);
    assert IssuedAs(p, i, eb, priv, agent);
  }
}
