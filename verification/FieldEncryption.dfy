/** Field encryption over the key manager, and what rotation and re-encryption keep. */
module FieldEncryption {
  import opened Wrappers
  import opened CompactForm
  import opened KeyManagement

  const NONCE_SIZE: nat := 12
  const TAG_SIZE: nat := 16
  const ALGORITHM: string := "aes-256-gcm"

  // The cipher and the base64 codec; `seal` and `open` take key, nonce and data.
  datatype Crypto = Crypto(
    seal: (Bytes, Bytes, Bytes) -> Bytes,
    open: (Bytes, Bytes, Bytes) -> Option<Bytes>,
    encode: Bytes -> string,
    decode: string -> Option<Bytes>)
  {
    // Opening undoes sealing under the same key and nonce, the tag is appended, and base64 round-trips.
    ghost predicate Lawful() {
      && (forall k, n, p :: open(k, n, seal(k, n, p)) == Some(p) && |seal(k, n, p)| == |p| + TAG_SIZE)
      && (forall b :: decode(encode(b)) == Some(b))
    }

    // A colon is not in the base64 alphabet.
    ghost predicate RefusesColons() {
      forall t: string :: ':' in t ==> decode(t).None?
    }
  }

  datatype CryptoError = NoKey | EncryptionFailed | BadText | BadEncoding | TooShort | DecryptionFailed

  function EncryptBytes(c: Crypto, r: Keyring, plaintext: Bytes, nonce: Bytes): Result<EncryptedValue, CryptoError> {
    match GetKey(r, r.current)
    case Err(_) => Err(NoKey)
    case Ok(key) =>
      if |key.keyBytes| != KEY_SIZE then Err(EncryptionFailed)
      else
        var combined := nonce + c.seal(key.keyBytes, nonce, plaintext);
        Ok(EncryptedValue(c.encode(combined), key.version, key.keyId, ALGORITHM))
  }

  function DecryptBytes(c: Crypto, r: Keyring, e: EncryptedValue): Result<Bytes, CryptoError> {
    match GetKey(r, e.keyVersion)
    case Err(_) => Err(NoKey)
    case Ok(key) =>
      match c.decode(e.ciphertext)
      case None => Err(BadEncoding)
      case Some(combined) =>
        if |combined| < NONCE_SIZE + TAG_SIZE then Err(TooShort)
        else if |key.keyBytes| != KEY_SIZE then Err(DecryptionFailed)
        else
          match c.open(key.keyBytes, combined[..NONCE_SIZE], combined[NONCE_SIZE..])
          case None => Err(DecryptionFailed)
          case Some(p) => Ok(p)
  }

  function DecryptCompact(c: Crypto, r: Keyring, text: string): Result<Bytes, CryptoError> {
    match FromCompact(text)
    case Err(_) => Err(BadText)
    case Ok(e) => DecryptBytes(c, r, e)
  }

  function Reencrypt(c: Crypto, r: Keyring, e: EncryptedValue, nonce: Bytes): Result<EncryptedValue, CryptoError> {
    if e.keyVersion == r.current then Ok(e)
    else match DecryptBytes(c, r, e)
      case Err(x) => Err(x)
      case Ok(p) => EncryptBytes(c, r, p, nonce)
  }

  predicate NeedsReencryption(r: Keyring, e: EncryptedValue) {
    e.keyVersion != r.current
  }

  class FieldEncryptor {
    const crypto: Crypto
    const keyManager: KeyManager

    constructor (crypto: Crypto, keyManager: KeyManager)
      ensures this.crypto == crypto && this.keyManager == keyManager
    {
      this.crypto := crypto;
      this.keyManager := keyManager;
    }

    // `nonceBytes` stands for the random fill. The value carries the current key's version and id, and its text is
    // the nonce followed by the sealing of the plaintext under that key and nonce.
    method Encrypt(plaintext: Bytes, nonceBytes: Bytes) returns (r: Result<EncryptedValue, CryptoError>)
      ensures r == EncryptBytes(crypto, keyManager.Ring(), plaintext, nonceBytes)
      ensures r == Err(NoKey) <==> keyManager.currentVersion !in keyManager.keys
      ensures r.Ok? <==>
        && keyManager.currentVersion in keyManager.keys
        && |keyManager.keys[keyManager.currentVersion].keyBytes| == KEY_SIZE
      ensures r.Ok? ==>
        var key := keyManager.keys[keyManager.currentVersion];
        && r.value.keyVersion == key.version && r.value.keyId == key.keyId && r.value.algorithm == ALGORITHM
        && r.value.ciphertext == crypto.encode(nonceBytes + crypto.seal(key.keyBytes, nonceBytes, plaintext))
    {
      var key := keyManager.GetCurrentKey();
      if key.Err? {
        return Err(NoKey);
      }
      if |key.value.keyBytes| != KEY_SIZE {
        return Err(EncryptionFailed);
      }
      var ciphertext := crypto.seal(key.value.keyBytes, nonceBytes, plaintext);
      var combined: Bytes := [];
      combined := combined + nonceBytes;
      combined := combined + ciphertext;
      assert combined == nonceBytes + ciphertext;
      return Ok(EncryptedValue(crypto.encode(combined), key.value.version, key.value.keyId, ALGORITHM));
    }

    // Each way to fail, in order; otherwise what opening gives under the key of the value's own version.
    method DecryptValue(encrypted: EncryptedValue) returns (r: Result<Bytes, CryptoError>)
      ensures r == DecryptBytes(crypto, keyManager.Ring(), encrypted)
      ensures encrypted.keyVersion !in keyManager.keys ==> r == Err(NoKey)
      ensures encrypted.keyVersion in keyManager.keys ==>
        var keyBytes, decoded := keyManager.keys[encrypted.keyVersion].keyBytes, crypto.decode(encrypted.ciphertext);
        && (decoded == None ==> r == Err(BadEncoding))
        && (decoded.Some? && |decoded.value| < NONCE_SIZE + TAG_SIZE ==> r == Err(TooShort))
        && (decoded.Some? && |decoded.value| >= NONCE_SIZE + TAG_SIZE ==>
              var inside := crypto.open(keyBytes, decoded.value[..NONCE_SIZE], decoded.value[NONCE_SIZE..]);
              if |keyBytes| == KEY_SIZE && inside.Some? then r == Ok(inside.value) else r == Err(DecryptionFailed))
    {
      var key := keyManager.GetKeyVersion(encrypted.keyVersion);
      if key.Err? {
        return Err(NoKey);
      }
      var decoded := crypto.decode(encrypted.ciphertext);
      if decoded.None? {
        return Err(BadEncoding);
      }
      var combined := decoded.value;
      if |combined| < NONCE_SIZE + TAG_SIZE {
        return Err(TooShort);
      }
      var nonceBytes, ciphertext := combined[..NONCE_SIZE], combined[NONCE_SIZE..];
      if |key.value.keyBytes| != KEY_SIZE {
        return Err(DecryptionFailed);
      }
      var plaintext := crypto.open(key.value.keyBytes, nonceBytes, ciphertext);
      if plaintext.None? {
        return Err(DecryptionFailed);
      }
      return Ok(plaintext.value);
    }

    method DecryptText(compact: string) returns (r: Result<Bytes, CryptoError>)
      ensures r == DecryptCompact(crypto, keyManager.Ring(), compact)
      ensures match FromCompact(compact)
        case Err(_) => r == Err(BadText)
        case Ok(e) => r == DecryptBytes(crypto, keyManager.Ring(), e)
    {
      var parsed := FromCompact(compact);
      if parsed.Err? {
        return Err(BadText);
      }
      r := DecryptValue(parsed.value);
    }

    method ReencryptValue(encrypted: EncryptedValue, nonceBytes: Bytes)
      returns (r: Result<EncryptedValue, CryptoError>)
      ensures r == Reencrypt(crypto, keyManager.Ring(), encrypted, nonceBytes)
      ensures encrypted.keyVersion == keyManager.currentVersion ==> r == Ok(encrypted)
      ensures encrypted.keyVersion != keyManager.currentVersion ==>
        match DecryptBytes(crypto, keyManager.Ring(), encrypted)
        case Err(x) => r == Err(x)
        case Ok(plaintext) => r == EncryptBytes(crypto, keyManager.Ring(), plaintext, nonceBytes)
    {
      if encrypted.keyVersion == keyManager.currentVersion {
        return Ok(encrypted);
      }
      var plaintext := DecryptValue(encrypted);
      if plaintext.Err? {
        return Err(plaintext.error);
      }
      r := Encrypt(plaintext.value, nonceBytes);
    }
  }

  // ---------------------------------------------------------------- runs

  datatype Op =
    | DoEncrypt(plaintext: Bytes, nonce: Bytes)
    | DoReencrypt(index: nat, nonce: Bytes)
    | DoRotate(version: Version, keyId: string, keyBytes: Bytes)
    | DoAdd(version: Version, keyId: string, keyBytes: Bytes)
    | DoDerive(purpose: string)

  // Every ciphertext ever produced, with the plaintext it was made from.
  datatype Record = Record(encrypted: EncryptedValue, plaintext: Bytes)

  datatype History = History(ring: Keyring, produced: seq<Record>)

  datatype Primitives = Primitives(crypto: Crypto, hkdf: Hkdf, salt: string)

  ghost predicate Enabled(h: History, op: Op) {
    match op
    case DoEncrypt(_, n) => |n| == NONCE_SIZE
    case DoReencrypt(i, n) => i < |h.produced| && |n| == NONCE_SIZE
    case _ => true
  }

  function Remember(h: History, r: Result<EncryptedValue, CryptoError>, plaintext: Bytes): History {
    if r.Ok? then h.(produced := h.produced + [Record(r.value, plaintext)]) else h
  }

  ghost function Step(p: Primitives, h: History, op: Op): History
    requires Enabled(h, op)
  {
    match op
    case DoEncrypt(m, n) => Remember(h, EncryptBytes(p.crypto, h.ring, m, n), m)
    case DoReencrypt(i, n) =>
      Remember(h, Reencrypt(p.crypto, h.ring, h.produced[i].encrypted, n), h.produced[i].plaintext)
    case DoRotate(v, id, k) => h.(ring := Rotate(h.ring, v, id, k))
    case DoAdd(v, id, k) => h.(ring := AddKey(h.ring, v, id, k))
    case DoDerive(s) => if h.ring.current in h.ring.keys then h.(ring := Derive(p.hkdf, p.salt, h.ring, s).0) else h
  }

  // No known version number gets other bytes.
  ghost predicate NoRebind(r: Keyring, op: Op) {
    match op
    case DoRotate(v, _, k) => v in r.keys && |k| == KEY_SIZE ==> k == r.keys[v].keyBytes
    case DoAdd(v, _, k) => v in r.keys ==> k == r.keys[v].keyBytes
    case _ => true
  }

  // Weaker: `add_key_version` does not give the current version other bytes.
  ghost predicate NoCurrentRebind(r: Keyring, op: Op) {
    match op
    case DoAdd(v, _, k) => v == r.current && v in r.keys ==> k == r.keys[v].keyBytes
    case _ => true
  }

  ghost predicate ValidRun(p: Primitives, h: History, ops: seq<Op>, allowed: (Keyring, Op) -> bool)
    decreases |ops|
  {
    ops == [] ||
    (Enabled(h, ops[0]) && allowed(h.ring, ops[0]) && ValidRun(p, Step(p, h, ops[0]), ops[1..], allowed))
  }

  ghost function After(p: Primitives, h: History, ops: seq<Op>, allowed: (Keyring, Op) -> bool): History
    requires ValidRun(p, h, ops, allowed)
    decreases |ops|
  {
    if ops == [] then h else After(p, Step(p, h, ops[0]), ops[1..], allowed)
  }

  function Start(version: Version, keyId: string, keyBytes: Bytes): History {
    History(NewRing(version, keyId, keyBytes), [])
  }

  // ---------------------------------------------------------------- rotation never loses data

  // The record's ciphertext is a sealing of its plaintext under the key that its version still has.
  ghost predicate Sealed(c: Crypto, r: Keyring, e: EncryptedValue, plaintext: Bytes) {
    && e.keyVersion in r.keys
    && |r.keys[e.keyVersion].keyBytes| == KEY_SIZE
    && e.algorithm == ALGORITHM
    && exists nonce :: |nonce| == NONCE_SIZE
         && c.decode(e.ciphertext) == Some(nonce + c.seal(r.keys[e.keyVersion].keyBytes, nonce, plaintext))
  }

  ghost predicate CurrentUsable(r: Keyring) {
    && r.current in r.keys && |r.keys[r.current].keyBytes| == KEY_SIZE
    && forall v <- r.keys :: r.keys[v].version == v
  }

  lemma SealedDecrypts(c: Crypto, r: Keyring, e: EncryptedValue, plaintext: Bytes)
    requires c.Lawful() && Sealed(c, r, e, plaintext)
    ensures DecryptBytes(c, r, e) == Ok(plaintext)
  {
    var key := r.keys[e.keyVersion].keyBytes;
    var nonce :| |nonce| == NONCE_SIZE && c.decode(e.ciphertext) == Some(nonce + c.seal(key, nonce, plaintext));
    var combined := nonce + c.seal(key, nonce, plaintext);
    assert combined[..NONCE_SIZE] == nonce && combined[NONCE_SIZE..] == c.seal(key, nonce, plaintext);
  }

  lemma EncryptSeals(c: Crypto, r: Keyring, plaintext: Bytes, nonce: Bytes)
    requires c.Lawful() && CurrentUsable(r) && |nonce| == NONCE_SIZE
    ensures var e := EncryptBytes(c, r, plaintext, nonce);
      e.Ok? && e.value.keyVersion == r.current && Sealed(c, r, e.value, plaintext)
  {
    var key := r.keys[r.current];
    assert EncryptBytes(c, r, plaintext, nonce) ==
      Ok(EncryptedValue(c.encode(nonce + c.seal(key.keyBytes, nonce, plaintext)), r.current, key.keyId, ALGORITHM));
  }

  // Re-encryption keeps the plaintext and leaves nothing more to re-encrypt; a current value is returned as it is.
  lemma ReencryptKeeps(c: Crypto, r: Keyring, e: EncryptedValue, plaintext: Bytes, nonce: Bytes)
    requires c.Lawful() && CurrentUsable(r) && |nonce| == NONCE_SIZE && Sealed(c, r, e, plaintext)
    ensures var n := Reencrypt(c, r, e, nonce);
      && n.Ok? && Sealed(c, r, n.value, plaintext) && !NeedsReencryption(r, n.value)
      && (!NeedsReencryption(r, e) ==> n.value == e)
  {
    SealedDecrypts(c, r, e, plaintext);
    EncryptSeals(c, r, plaintext, nonce);
  }

  // After a rotation encryption uses the new version and id, and every value of another version is due for
  // re-encryption, which moves it there.
  lemma RotationTakesOver(c: Crypto, r: Keyring, version: Version, keyId: string, keyBytes: Bytes, plaintext: Bytes,
                          nonce: Bytes, e: EncryptedValue)
    requires |keyBytes| == KEY_SIZE
    ensures var r' := Rotate(r, version, keyId, keyBytes);
      && EncryptBytes(c, r', plaintext, nonce).Ok?
      && EncryptBytes(c, r', plaintext, nonce).value.keyVersion == version
      && EncryptBytes(c, r', plaintext, nonce).value.keyId == keyId
      && (NeedsReencryption(r', e) <==> e.keyVersion != version)
      && (Reencrypt(c, r', e, nonce).Ok? ==> Reencrypt(c, r', e, nonce).value.keyVersion == version)
  {
  }

  ghost predicate Safe(c: Crypto, h: History) {
    CurrentUsable(h.ring) && forall x <- h.produced :: Sealed(c, h.ring, x.encrypted, x.plaintext)
  }

  lemma SealedSurvives(p: Primitives, h: History, op: Op, e: EncryptedValue, plaintext: Bytes)
    requires Enabled(h, op) && NoRebind(h.ring, op) && Sealed(p.crypto, h.ring, e, plaintext)
    ensures Sealed(p.crypto, Step(p, h, op).ring, e, plaintext)
  {
    var r, r' := h.ring, Step(p, h, op).ring;
    assert e.keyVersion in r'.keys && r'.keys[e.keyVersion].keyBytes == r.keys[e.keyVersion].keyBytes;
  }

  lemma StepSafe(p: Primitives, h: History, op: Op)
    requires p.crypto.Lawful() && Safe(p.crypto, h) && Enabled(h, op) && NoRebind(h.ring, op)
    ensures Safe(p.crypto, Step(p, h, op))
  {
    var h' := Step(p, h, op);
    forall x | x in h.produced ensures Sealed(p.crypto, h'.ring, x.encrypted, x.plaintext) {
      SealedSurvives(p, h, op, x.encrypted, x.plaintext);
    }
    match op
    case DoEncrypt(m, n) => EncryptSeals(p.crypto, h.ring, m, n);
    case DoReencrypt(i, n) => ReencryptKeeps(p.crypto, h.ring, h.produced[i].encrypted, h.produced[i].plaintext, n);
    case _ =>
  }

  // What each operation of a safe run does: an encryption or re-encryption records one more value of the current
  // version that decrypts to its plaintext; keys and current version change only as rotation and addition say.
  lemma StepMeans(p: Primitives, h: History, op: Op)
    requires p.crypto.Lawful() && Safe(p.crypto, h) && Enabled(h, op)
    ensures var h' := Step(p, h, op);
      match op
      case DoEncrypt(m, n) =>
        && h'.ring == h.ring && |h'.produced| == |h.produced| + 1 && h'.produced[..|h.produced|] == h.produced
        && Recorded(p.crypto, h.ring, h'.produced[|h.produced|], m)
      case DoReencrypt(i, n) =>
        && h'.ring == h.ring && |h'.produced| == |h.produced| + 1 && h'.produced[..|h.produced|] == h.produced
        && Recorded(p.crypto, h.ring, h'.produced[|h.produced|], h.produced[i].plaintext)
      case DoRotate(v, id, k) =>
        && h'.produced == h.produced
        && (|k| != KEY_SIZE ==> h' == h)
        && (|k| == KEY_SIZE ==>
              h'.ring == Keyring(v, h.ring.keys[v := KeyVersion(v, id, k)], map[]))
      case DoAdd(v, id, k) =>
        h' == h.(ring := Keyring(h.ring.current, h.ring.keys[v := KeyVersion(v, id, k)], h.ring.derived))
      case DoDerive(s) =>
        && h'.produced == h.produced && h'.ring.current == h.ring.current && h'.ring.keys == h.ring.keys
        && CacheKey(h.ring.current, s) in h'.ring.derived
  {
    match op
    case DoEncrypt(m, n) =>
      EncryptSeals(p.crypto, h.ring, m, n);
      SealedDecrypts(p.crypto, h.ring, EncryptBytes(p.crypto, h.ring, m, n).value, m);
    case DoReencrypt(i, n) =>
      var before := h.produced[i];
      ReencryptKeeps(p.crypto, h.ring, before.encrypted, before.plaintext, n);
      SealedDecrypts(p.crypto, h.ring, Reencrypt(p.crypto, h.ring, before.encrypted, n).value, before.plaintext);
    case _ =>
  }

  ghost predicate Recorded(c: Crypto, r: Keyring, x: Record, plaintext: Bytes) {
    && x.plaintext == plaintext && x.encrypted.keyVersion == r.current
    && DecryptBytes(c, r, x.encrypted) == Ok(plaintext)
  }

  lemma {:induction false} RunSafe(p: Primitives, h: History, ops: seq<Op>)
    requires p.crypto.Lawful() && Safe(p.crypto, h) && ValidRun(p, h, ops, NoRebind)
    ensures Safe(p.crypto, After(p, h, ops, NoRebind))
    decreases |ops|
  {
    if ops != [] {
      StepSafe(p, h, ops[0]);
      RunSafe(p, Step(p, h, ops[0]), ops[1..]);
    }
  }

  // In every run without rebinding, each ciphertext ever produced still decrypts to its plaintext, and encryption
  // never fails.
  lemma RotationKeepsData(p: Primitives, version: Version, keyId: string, keyBytes: Bytes, ops: seq<Op>)
    requires p.crypto.Lawful() && |keyBytes| == KEY_SIZE
    requires ValidRun(p, Start(version, keyId, keyBytes), ops, NoRebind)
    ensures var h := After(p, Start(version, keyId, keyBytes), ops, NoRebind);
      && (forall x <- h.produced :: DecryptBytes(p.crypto, h.ring, x.encrypted) == Ok(x.plaintext))
      && (forall m, n :: |n| == NONCE_SIZE ==> EncryptBytes(p.crypto, h.ring, m, n).Ok?)
  {
    RunSafe(p, Start(version, keyId, keyBytes), ops);
    var h := After(p, Start(version, keyId, keyBytes), ops, NoRebind);
    forall x | x in h.produced ensures DecryptBytes(p.crypto, h.ring, x.encrypted) == Ok(x.plaintext) {
      SealedDecrypts(p.crypto, h.ring, x.encrypted, x.plaintext);
    }
    forall m, n | |n| == NONCE_SIZE ensures EncryptBytes(p.crypto, h.ring, m, n).Ok? {
      EncryptSeals(p.crypto, h.ring, m, n);
    }
  }

  // Stored in compact form, a sealed value decrypts from its text exactly when its key id holds no colon.
  lemma SealedTextDecryptsIff(c: Crypto, r: Keyring, e: EncryptedValue, plaintext: Bytes)
    requires c.Lawful() && c.RefusesColons() && Sealed(c, r, e, plaintext)
    ensures DecryptCompact(c, r, ToCompact(e)) == Ok(plaintext) <==> ':' !in e.keyId
  {
    ReadsBackIff(e);
    TextDecryptsIff(c, r, ToCompact(e), e, plaintext);
  }

  lemma ReadsBackIff(e: EncryptedValue)
    requires e.algorithm == ALGORITHM
    ensures FromCompact(ToCompact(e)) == Ok(e) <==> ':' !in e.keyId
    ensures FromCompact(ToCompact(e)).Ok? && ':' in e.keyId ==> ':' in FromCompact(ToCompact(e)).value.ciphertext
  {
    AlgorithmPlain();
    ReadBackIff(e);
  }

  lemma AlgorithmPlain()
    ensures ':' !in ALGORITHM
  {
  }

  lemma TextDecryptsIff(c: Crypto, r: Keyring, text: string, e: EncryptedValue, plaintext: Bytes)
    requires c.Lawful() && c.RefusesColons() && Sealed(c, r, e, plaintext)
    requires FromCompact(text).Ok? && ':' in e.keyId ==> ':' in FromCompact(text).value.ciphertext
    requires FromCompact(text) == Ok(e) <==> ':' !in e.keyId
    ensures DecryptCompact(c, r, text) == Ok(plaintext) <==> ':' !in e.keyId
  {
    SealedDecrypts(c, r, e, plaintext);
  }

  // In every run without rebinding, each ciphertext ever produced decrypts from its compact text to its plaintext,
  // exactly when it was made under a key id without a colon.
  lemma TextKeepsDataIff(p: Primitives, version: Version, keyId: string, keyBytes: Bytes, ops: seq<Op>)
    requires p.crypto.Lawful() && p.crypto.RefusesColons() && |keyBytes| == KEY_SIZE
    requires ValidRun(p, Start(version, keyId, keyBytes), ops, NoRebind)
    ensures var h := After(p, Start(version, keyId, keyBytes), ops, NoRebind);
      forall x <- h.produced ::
        DecryptCompact(p.crypto, h.ring, ToCompact(x.encrypted)) == Ok(x.plaintext) <==> ':' !in x.encrypted.keyId
  {
    RunSafe(p, Start(version, keyId, keyBytes), ops);
    var h := After(p, Start(version, keyId, keyBytes), ops, NoRebind);
    forall x | x in h.produced
      ensures DecryptCompact(p.crypto, h.ring, ToCompact(x.encrypted)) == Ok(x.plaintext) <==> ':' !in x.encrypted.keyId
    {
      SealedTextDecryptsIff(p.crypto, h.ring, x.encrypted, x.plaintext);
    }
  }

  // The current key is always found, in every run whatever is rebound.
  lemma {:induction false} CurrentKeyFound(p: Primitives, h: History, ops: seq<Op>, allowed: (Keyring, Op) -> bool)
    requires h.ring.current in h.ring.keys && ValidRun(p, h, ops, allowed)
    ensures var r := After(p, h, ops, allowed).ring; GetKey(r, r.current).Ok?
    decreases |ops|
  {
    if ops != [] {
      CurrentKeyFound(p, Step(p, h, ops[0]), ops[1..], allowed);
    }
  }

  // ---------------------------------------------------------------- nonces are never reused

  // The first bytes of the decoded text.
  function NonceOf(c: Crypto, e: EncryptedValue): Option<Bytes> {
    match c.decode(e.ciphertext)
    case None => None
    case Some(b) => if |b| < NONCE_SIZE then None else Some(b[..NONCE_SIZE])
  }

  // A fresh encryption carries exactly the nonce it was given, so different nonces give different ciphertexts.
  lemma CarriesNonce(c: Crypto, r: Keyring, plaintext: Bytes, nonce: Bytes)
    requires c.Lawful() && |nonce| == NONCE_SIZE && EncryptBytes(c, r, plaintext, nonce).Ok?
    ensures NonceOf(c, EncryptBytes(c, r, plaintext, nonce).value) == Some(nonce)
  {
    var key := r.keys[r.current];
    var combined := nonce + c.seal(key.keyBytes, nonce, plaintext);
    assert EncryptBytes(c, r, plaintext, nonce).value.ciphertext == c.encode(combined);
    assert combined[..NONCE_SIZE] == nonce;
  }

  lemma NoncesShow(c: Crypto, r: Keyring, plaintext: Bytes, nonce: Bytes, s: Keyring, other: Bytes, otherNonce: Bytes)
    requires c.Lawful() && |nonce| == |otherNonce| == NONCE_SIZE && nonce != otherNonce
    requires EncryptBytes(c, r, plaintext, nonce).Ok? && EncryptBytes(c, s, other, otherNonce).Ok?
    ensures EncryptBytes(c, r, plaintext, nonce).value.ciphertext !=
            EncryptBytes(c, s, other, otherNonce).value.ciphertext
  {
    CarriesNonce(c, r, plaintext, nonce);
    CarriesNonce(c, s, other, otherNonce);
  }

  function NonceFor(op: Op): Option<Bytes> {
    match op
    case DoEncrypt(_, n) => Some(n)
    case DoReencrypt(_, n) => Some(n)
    case _ => None
  }

  // The nonces of a run's operations are all different.
  ghost predicate FreshNonces(ops: seq<Op>) {
    forall i, j :: 0 <= i < j < |ops| && NonceFor(ops[i]).Some? ==> NonceFor(ops[i]) != NonceFor(ops[j])
  }

  // Two produced values are one value returned again, or carry different nonces; none to come has been used.
  ghost predicate NoncesApart(c: Crypto, produced: seq<Record>, ops: seq<Op>) {
    && (forall i :: 0 <= i < |produced| ==> NonceOf(c, produced[i].encrypted).Some?)
    && (forall i, j :: 0 <= i < j < |produced| ==>
          || produced[i].encrypted == produced[j].encrypted
          || NonceOf(c, produced[i].encrypted) != NonceOf(c, produced[j].encrypted))
    && (forall i, k :: 0 <= i < |produced| && 0 <= k < |ops| ==>
          NonceOf(c, produced[i].encrypted) != NonceFor(ops[k]))
  }

  lemma StepNoncesApart(p: Primitives, h: History, ops: seq<Op>)
    requires p.crypto.Lawful() && ops != [] && Enabled(h, ops[0])
    requires FreshNonces(ops) && NoncesApart(p.crypto, h.produced, ops)
    ensures NoncesApart(p.crypto, Step(p, h, ops[0]).produced, ops[1..]) && FreshNonces(ops[1..])
  {
    match ops[0]
    case DoEncrypt(m, n) =>
      var r := EncryptBytes(p.crypto, h.ring, m, n);
      if r.Ok? {
        CarriesNonce(p.crypto, h.ring, m, n);
      }
    case DoReencrypt(i, n) =>
      var e := h.produced[i].encrypted;
      if e.keyVersion != h.ring.current && Reencrypt(p.crypto, h.ring, e, n).Ok? {
        CarriesNonce(p.crypto, h.ring, DecryptBytes(p.crypto, h.ring, e).value, n);
      }
    case _ =>
  }

  lemma {:induction false} RunNoncesApart(p: Primitives, h: History, ops: seq<Op>, allowed: (Keyring, Op) -> bool)
    requires p.crypto.Lawful() && ValidRun(p, h, ops, allowed)
    requires FreshNonces(ops) && NoncesApart(p.crypto, h.produced, ops)
    ensures NoncesApart(p.crypto, After(p, h, ops, allowed).produced, [])
    decreases |ops|
  {
    if ops != [] {
      StepNoncesApart(p, h, ops);
      RunNoncesApart(p, Step(p, h, ops[0]), ops[1..], allowed);
    }
  }

  // In every run with fresh nonces, whatever is rotated or rebound, two produced values that differ have different
  // nonces, and so different ciphertexts.
  lemma NoncesNeverReused(p: Primitives, version: Version, keyId: string, keyBytes: Bytes, ops: seq<Op>,
                          allowed: (Keyring, Op) -> bool, i: nat, j: nat)
    requires p.crypto.Lawful() && ValidRun(p, Start(version, keyId, keyBytes), ops, allowed) && FreshNonces(ops)
    requires i < j < |After(p, Start(version, keyId, keyBytes), ops, allowed).produced|
    ensures var produced := After(p, Start(version, keyId, keyBytes), ops, allowed).produced;
      produced[i].encrypted != produced[j].encrypted ==>
        && NonceOf(p.crypto, produced[i].encrypted) != NonceOf(p.crypto, produced[j].encrypted)
        && produced[i].encrypted.ciphertext != produced[j].encrypted.ciphertext
  {
    RunNoncesApart(p, Start(version, keyId, keyBytes), ops, allowed);
  }

  // ---------------------------------------------------------------- derived keys agree with direct derivation

  lemma StepCoherent(p: Primitives, h: History, op: Op)
    requires Coherent(p.hkdf, p.salt, h.ring) && Enabled(h, op) && NoCurrentRebind(h.ring, op)
    ensures Coherent(p.hkdf, p.salt, Step(p, h, op).ring)
  {
    match op
    case DoAdd(v, id, k) => AddKeepsCoherent(p.hkdf, p.salt, h.ring, v, id, k);
    case DoDerive(s) => CoherentDerives(p.hkdf, p.salt, h.ring, s);
    case _ =>
  }

  lemma {:induction false} RunCoherent(p: Primitives, h: History, ops: seq<Op>)
    requires Coherent(p.hkdf, p.salt, h.ring) && ValidRun(p, h, ops, NoCurrentRebind)
    ensures Coherent(p.hkdf, p.salt, After(p, h, ops, NoCurrentRebind).ring)
    decreases |ops|
  {
    if ops != [] {
      StepCoherent(p, h, ops[0]);
      RunCoherent(p, Step(p, h, ops[0]), ops[1..]);
    }
  }

  // In every run in which the current version is never rebound by adding, a derived key is what direct derivation
  // from the current key gives, cached or not.
  lemma DerivedKeysAgree(p: Primitives, version: Version, keyId: string, keyBytes: Bytes, ops: seq<Op>, purpose: string)
    requires ValidRun(p, Start(version, keyId, keyBytes), ops, NoCurrentRebind)
    ensures var r := After(p, Start(version, keyId, keyBytes), ops, NoCurrentRebind).ring;
      r.current in r.keys && Derive(p.hkdf, p.salt, r, purpose).1 == Fresh(p.hkdf, p.salt, r, purpose)
  {
    RunCoherent(p, Start(version, keyId, keyBytes), ops);
    CoherentDerives(p.hkdf, p.salt, After(p, Start(version, keyId, keyBytes), ops, NoCurrentRebind).ring, purpose);
  }
}
