/** The versioned key manager: current version, all known keys, and the cache of derived keys. */
module KeyManagement {
  import opened Wrappers
  import Decimal
  import Strings
  import opened CompactForm

  newtype Byte = x: int | 0 <= x < 256
  type Bytes = seq<Byte>

  const KEY_SIZE: nat := 32
  const DEFAULT_SALT: string := "rag-encryption-default-salt"

  // HKDF-SHA256 with a 32-byte output: any function of salt, key and purpose.
  type Hkdf = (string, Bytes, string) -> Bytes

  datatype KeyVersion = KeyVersion(version: Version, keyId: string, keyBytes: Bytes)

  datatype DerivedKey = DerivedKey(keyBytes: Bytes, purpose: string, parentVersion: Version)

  datatype KeyError = KeyNotFound | InvalidKey

  // The manager's fields as one value.
  datatype Keyring = Keyring(
    current: Version,
    keys: map<Version, KeyVersion>,
    derived: map<string, DerivedKey>)

  function NewRing(version: Version, keyId: string, keyBytes: Bytes): Keyring {
    Keyring(version, map[version := KeyVersion(version, keyId, keyBytes)], map[])
  }

  function GetKey(r: Keyring, version: Version): Result<KeyVersion, KeyError> {
    if version in r.keys then Ok(r.keys[version]) else Err(KeyNotFound)
  }

  function AddKey(r: Keyring, version: Version, keyId: string, keyBytes: Bytes): Keyring {
    r.(keys := r.keys[version := KeyVersion(version, keyId, keyBytes)])
  }

  function Rotate(r: Keyring, version: Version, keyId: string, keyBytes: Bytes): Keyring {
    if |keyBytes| != KEY_SIZE then r
    else AddKey(r, version, keyId, keyBytes).(current := version, derived := map[])
  }

  function CacheKey(version: Version, purpose: string): string {
    Decimal.Print(version) + ":" + purpose
  }

  // What a fresh derivation from the current key would give.
  function Fresh(hkdf: Hkdf, salt: string, r: Keyring, purpose: string): DerivedKey
    requires r.current in r.keys
  {
    DerivedKey(hkdf(salt, r.keys[r.current].keyBytes, purpose), purpose, r.current)
  }

  // What the manager answers, and its fields afterwards.
  function Derive(hkdf: Hkdf, salt: string, r: Keyring, purpose: string): (Keyring, DerivedKey)
    requires r.current in r.keys
  {
    var k := CacheKey(r.current, purpose);
    if k in r.derived then (r, r.derived[k])
    else
      var d := Fresh(hkdf, salt, r, purpose);
      (r.(derived := r.derived[k := d]), d)
  }

  // The versions in ascending order, each once.
  ghost predicate Ascending(versions: seq<Version>) {
    forall i, j :: 0 <= i < j < |versions| ==> versions[i] < versions[j]
  }

  // Puts a new version in its place.
  function Inserted(versions: seq<Version>, v: Version): (r: seq<Version>)
    requires Ascending(versions) && v !in versions
    ensures Ascending(r)
    ensures forall w :: w in r <==> w == v || w in versions
  {
    if versions == [] || v < versions[0] then [v] + versions
    else
      var rest := Inserted(versions[1..], v);
      assert versions[0] in versions && forall w :: w in versions[1..] ==> versions[0] < w;
      assert forall i :: 0 <= i < |rest| ==> rest[i] in rest;
      [versions[0]] + rest
  }

  class KeyManager {
    const hkdf: Hkdf
    const derivationSalt: Option<string>
    var currentVersion: Version
    var keys: map<Version, KeyVersion>
    var derivedKeys: map<string, DerivedKey>

    ghost function Ring(): Keyring
      reads this
    {
      Keyring(currentVersion, keys, derivedKeys)
    }

    ghost function Salt(): (salt: string)
      ensures derivationSalt == None ==> salt == DEFAULT_SALT
      ensures forall given :: derivationSalt == Some(given) ==> salt == given
    {
      derivationSalt.GetOr(DEFAULT_SALT)
    }

    constructor (hkdf: Hkdf, salt: Option<string>, version: Version, keyId: string, keyBytes: Bytes)
      ensures Ring() == NewRing(version, keyId, keyBytes)
      ensures currentVersion == version && keys == map[version := KeyVersion(version, keyId, keyBytes)]
      ensures derivedKeys == map[]
      ensures this.hkdf == hkdf && derivationSalt == salt
    {
      this.hkdf := hkdf;
      derivationSalt := salt;
      currentVersion := version;
      keys := map[version := KeyVersion(version, keyId, keyBytes)];
      derivedKeys := map[];
    }

    method GetKeyVersion(version: Version) returns (r: Result<KeyVersion, KeyError>)
      ensures r == GetKey(Ring(), version)
      ensures if version in keys then r == Ok(keys[version]) else r == Err(KeyNotFound)
    {
      if version in keys {
        return Ok(keys[version]);
      }
      return Err(KeyNotFound);
    }

    method GetCurrentKey() returns (r: Result<KeyVersion, KeyError>)
      ensures r == GetKey(Ring(), currentVersion)
      ensures r.Ok? <==> currentVersion in keys
      ensures r.Ok? ==> r.value == keys[currentVersion]
    {
      r := GetKeyVersion(currentVersion);
    }

    method AddKeyVersion(version: Version, keyId: string, keyBytes: Bytes)
      modifies this
      ensures Ring() == AddKey(old(Ring()), version, keyId, keyBytes)
      ensures keys == old(keys)[version := KeyVersion(version, keyId, keyBytes)]
      ensures currentVersion == old(currentVersion) && derivedKeys == old(derivedKeys)
    {
      keys := keys[version := KeyVersion(version, keyId, keyBytes)];
    }

    // The cached key of this version and purpose, or else a new one, which is then cached. Nothing else changes.
    method DeriveKey(purpose: string) returns (key: DerivedKey)
      requires currentVersion in keys
      modifies this
      ensures (Ring(), key) == Derive(hkdf, Salt(), old(Ring()), purpose)
      ensures var cacheKey := CacheKey(currentVersion, purpose);
        && (cacheKey in old(derivedKeys) ==> key == old(derivedKeys)[cacheKey])
        && (cacheKey !in old(derivedKeys) ==>
              key == DerivedKey(hkdf(derivationSalt.GetOr(DEFAULT_SALT), keys[currentVersion].keyBytes, purpose),
                                purpose, currentVersion))
        && derivedKeys == old(derivedKeys)[cacheKey := key]
      ensures currentVersion == old(currentVersion) && keys == old(keys)
    {
      var cacheKey := CacheKey(currentVersion, purpose);
      if cacheKey in derivedKeys {
        return derivedKeys[cacheKey];
      }
      var okm := hkdf(derivationSalt.GetOr(DEFAULT_SALT), keys[currentVersion].keyBytes, purpose);
      key := DerivedKey(okm, purpose, currentVersion);
      derivedKeys := derivedKeys[cacheKey := key];
    }

    // The new key becomes current, beside all the others, and no derived key survives; a key of the wrong size changes
    // nothing.
    method RotateKey(version: Version, keyId: string, keyBytes: Bytes) returns (r: Result<(), KeyError>)
      modifies this
      ensures Ring() == Rotate(old(Ring()), version, keyId, keyBytes)
      ensures r == if |keyBytes| == KEY_SIZE then Ok(()) else Err(InvalidKey)
      ensures r.Ok? ==>
        && currentVersion == version && derivedKeys == map[]
        && keys == old(keys)[version := KeyVersion(version, keyId, keyBytes)]
      ensures r.Err? ==> Ring() == old(Ring())
    {
      if |keyBytes| != KEY_SIZE {
        return Err(InvalidKey);
      }
      AddKeyVersion(version, keyId, keyBytes);
      currentVersion := version;
      derivedKeys := map[];
      return Ok(());
    }

    method ListVersions() returns (versions: seq<Version>)
      ensures Ascending(versions) && forall v :: v in versions <==> v in keys
    {
      versions := [];
      var todo := keys.Keys;
      while todo != {}
        invariant todo <= keys.Keys
        invariant Ascending(versions) && forall v :: v in versions <==> v in keys && v !in todo
        decreases todo
      {
        var v :| v in todo;
        versions := Inserted(versions, v);
        todo := todo - {v};
      }
    }
  }

  // ---------------------------------------------------------------- the derived-key cache

  lemma CacheKeyInjective(v: Version, p: string, w: Version, q: string)
    requires CacheKey(v, p) == CacheKey(w, q)
    ensures v == w && p == q
  {
    var a, x, b, y := Decimal.Print(v), ":" + p, Decimal.Print(w), ":" + q;
    assert CacheKey(v, p) == a + x && CacheKey(w, q) == b + y;
    Strings.SpanUnique(Decimal.IsDigit, a, x, b, y);
    Decimal.PrintInjective(v, w);
    assert p == x[1..] && q == y[1..];
  }

  // Every cached key is what a fresh derivation would give now.
  ghost predicate Coherent(hkdf: Hkdf, salt: string, r: Keyring) {
    && r.current in r.keys
    && forall k <- r.derived :: exists p :: k == CacheKey(r.current, p) && r.derived[k] == Fresh(hkdf, salt, r, p)
  }

  lemma CoherentDerives(hkdf: Hkdf, salt: string, r: Keyring, purpose: string)
    requires Coherent(hkdf, salt, r)
    ensures Derive(hkdf, salt, r, purpose).1 == Fresh(hkdf, salt, r, purpose)
    ensures Coherent(hkdf, salt, Derive(hkdf, salt, r, purpose).0)
  {
    var k := CacheKey(r.current, purpose);
    if k in r.derived {
      var p :| k == CacheKey(r.current, p) && r.derived[k] == Fresh(hkdf, salt, r, p);
      CacheKeyInjective(r.current, p, r.current, purpose);
    } else {
      var r' := Derive(hkdf, salt, r, purpose).0;
      forall j | j in r'.derived
        ensures exists p :: j == CacheKey(r'.current, p) && r'.derived[j] == Fresh(hkdf, salt, r', p)
      {
        if j != k {
          var p :| j == CacheKey(r.current, p) && r.derived[j] == Fresh(hkdf, salt, r, p);
          assert r'.derived[j] == Fresh(hkdf, salt, r', p);
        } else {
          assert r'.derived[j] == Fresh(hkdf, salt, r', purpose);
        }
      }
    }
  }

  // Adding a key leaves the cache right unless it gives the current version other bytes.
  lemma AddKeepsCoherent(hkdf: Hkdf, salt: string, r: Keyring, version: Version, keyId: string, keyBytes: Bytes)
    requires Coherent(hkdf, salt, r)
    requires version == r.current ==> keyBytes == r.keys[version].keyBytes
    ensures Coherent(hkdf, salt, AddKey(r, version, keyId, keyBytes))
  {
    var r' := AddKey(r, version, keyId, keyBytes);
    forall k | k in r'.derived
      ensures exists p :: k == CacheKey(r'.current, p) && r'.derived[k] == Fresh(hkdf, salt, r', p)
    {
      var p :| k == CacheKey(r.current, p) && r.derived[k] == Fresh(hkdf, salt, r, p);
      assert r'.derived[k] == Fresh(hkdf, salt, r', p);
    }
  }

  // When the current version does get other bytes, a purpose is answered freshly exactly when it was not cached, or
  // both keys derive alike for it.
  lemma RebindFreshIff(hkdf: Hkdf, salt: string, r: Keyring, keyId: string, keyBytes: Bytes, purpose: string)
    requires Coherent(hkdf, salt, r)
    ensures var r' := AddKey(r, r.current, keyId, keyBytes);
      Derive(hkdf, salt, r', purpose).1 == Fresh(hkdf, salt, r', purpose) <==>
        CacheKey(r.current, purpose) !in r.derived ||
        hkdf(salt, keyBytes, purpose) == hkdf(salt, r.keys[r.current].keyBytes, purpose)
  {
    CoherentDerives(hkdf, salt, r, purpose);
  }
}
