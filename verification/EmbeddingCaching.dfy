/** The embedding cache: a map from service, tenant and content hash to vectors, kept in a flat store. */
module EmbeddingCaching {
  import opened Wrappers
  import opened CacheClients
  import opened CacheKeys
  import Decimal
  import Strings

  // A 32-bit float by its bits.
  type Float = n: nat | n < 0x1_0000_0000

  type Vector = seq<Float>

  // Infinities and not-a-numbers have all exponent bits set.
  predicate IsFinite(x: Float) {
    x / 0x80_0000 % 0x100 != 0xFF
  }

  predicate AllFinite(v: Vector) {
    forall i :: 0 <= i < |v| ==> IsFinite(v[i])
  }

  // How vectors are written to and read from the store, and the content digest.
  datatype Codec = Codec(write: Vector -> string, read: string -> Option<Vector>, hash: string -> string)
  {
    // Finite vectors come back; a non-finite component is written as null, which is no float.
    ghost predicate Lawful() {
      forall v :: read(write(v)) == if AllFinite(v) then Some(v) else None
    }
  }

  // A read can fail on text that is no vector, and panics on an empty vector.
  datatype Outcome<+T> = Done(value: T) | Malformed | Panicked

  // What one cached embedding is keyed by.
  datatype CacheId = CacheId(service: ServicePrefix, tenant: Tenant, hash: string)

  function KeyOf(id: CacheId): CacheKey {
    CacheKey(id.service, Embedding, id.tenant, id.hash)
  }

  function FullKey(prefix: string, id: CacheId): string {
    PrintWithPrefix(KeyOf(id), prefix)
  }

  function Decoded(c: Codec, text: string): Outcome<Vector> {
    match c.read(text)
    case None => Malformed
    case Some(v) => if v == [] then Panicked else Done(v)
  }

  // One lookup.
  function GetAt(c: Codec, prefix: string, store: Store, id: CacheId): Outcome<Option<Vector>> {
    if FullKey(prefix, id) !in store then Done(None)
    else match Decoded(c, store[FullKey(prefix, id)])
      case Done(v) => Done(Some(v))
      case Malformed => Malformed
      case Panicked => Panicked
  }

  function SetAt(c: Codec, prefix: string, store: Store, id: CacheId, v: Vector): Store {
    store[FullKey(prefix, id) := c.write(v)]
  }

  // The writes of a batch, one after the other.
  function SetAll(c: Codec, prefix: string, store: Store, entries: seq<(CacheId, Vector)>): Store
    decreases |entries|
  {
    if entries == [] then store
    else SetAll(c, prefix, SetAt(c, prefix, store, entries[0].0, entries[0].1), entries[1..])
  }

  class EmbeddingCache {
    const client: CacheClient
    const service: ServicePrefix
    const codec: Codec

    constructor (client: CacheClient, service: ServicePrefix, codec: Codec)
      ensures this.client == client && this.service == service && this.codec == codec
    {
      this.client := client;
      this.service := service;
      this.codec := codec;
    }

    function Id(tenant: Tenant, hash: string): CacheId {
      CacheId(service, tenant, hash)
    }

    ghost function Lookup(tenant: Tenant, hash: string): Outcome<Option<Vector>>
      reads client
    {
      GetAt(codec, client.keyPrefix, client.store, Id(tenant, hash))
    }

    method Get(tenant: Tenant, content: string) returns (r: Outcome<Option<Vector>>)
      ensures r == Lookup(tenant, codec.hash(content))
    {
      r := GetByHash(tenant, codec.hash(content));
    }

    // Looks under the key printed for service, tenant and hash, behind the client's prefix.
    method GetByHash(tenant: Tenant, hash: string) returns (r: Outcome<Option<Vector>>)
      ensures r == Lookup(tenant, hash)
      ensures var full := client.PrefixedKey(Print(CacheKey(service, Embedding, tenant, hash)));
        if full !in client.store then r == Done(None)
        else match codec.read(client.store[full])
          case None => r == Malformed
          case Some(v) => r == if v == [] then Panicked else Done(Some(v))
    {
      var key := CacheKey(service, Embedding, tenant, hash);
      var text := client.Get(Print(key));
      if text.None? {
        return Done(None);
      }
      match Decoded(codec, text.value)
      case Done(v) => return Done(Some(v));
      case Malformed => return Malformed;
      case Panicked => return Panicked;
    }

    method Set(tenant: Tenant, content: string, embedding: Vector)
      requires embedding != []
      modifies client
      ensures client.store ==
        SetAt(codec, client.keyPrefix, old(client.store), Id(tenant, codec.hash(content)), embedding)
    {
      SetByHash(tenant, codec.hash(content), embedding);
    }

    method SetByHash(tenant: Tenant, hash: string, embedding: Vector)
      requires embedding != []
      modifies client
      ensures client.store == SetAt(codec, client.keyPrefix, old(client.store), Id(tenant, hash), embedding)
      ensures client.store == old(client.store)[
        client.PrefixedKey(Print(CacheKey(service, Embedding, tenant, hash))) := codec.write(embedding)]
    {
      var key := CacheKey(service, Embedding, tenant, hash);
      client.Set(Print(key), codec.write(embedding));
    }

    // Exactly what separate lookups would give: it fails when one of them would, and otherwise maps the hash of each
    // content that is found to its vector, and nothing else. All texts are decoded before any vector is built.
    method GetMany(tenant: Tenant, contents: seq<string>) returns (r: Outcome<map<string, Vector>>)
      ensures r.Malformed? <==> exists i :: 0 <= i < |contents| && Lookup(tenant, codec.hash(contents[i])).Malformed?
      ensures r.Done? <==> forall i :: 0 <= i < |contents| ==> Lookup(tenant, codec.hash(contents[i])).Done?
      ensures r.Done? ==> forall h :: h in r.value <==>
        exists i :: 0 <= i < |contents| && codec.hash(contents[i]) == h && Lookup(tenant, h).value.Some?
      ensures r.Done? ==> forall h <- r.value :: Lookup(tenant, h) == Done(Some(r.value[h]))
    {
      var values: seq<Option<Vector>> := [];
      for i := 0 to |contents|
        invariant |values| == i
        invariant forall k :: 0 <= k < i ==> IsRaw(Lookup(tenant, codec.hash(contents[k])), values[k])
      {
        var key := CacheKey(service, Embedding, tenant, codec.hash(contents[i]));
        var text := client.Get(Print(key));
        if text.None? {
          values := values + [None];
        } else {
          var parsed := codec.read(text.value);
          if parsed.None? {
            assert Lookup(tenant, codec.hash(contents[i])).Malformed?;
            return Malformed;
          }
          values := values + [parsed];
        }
      }
      var found: map<string, Vector> := map[];
      for i := 0 to |contents|
        invariant forall k :: 0 <= k < i ==> Lookup(tenant, codec.hash(contents[k])).Done?
        invariant forall h :: h in found <==>
          exists k :: 0 <= k < i && codec.hash(contents[k]) == h && Lookup(tenant, h).value.Some?
        invariant forall h <- found :: Lookup(tenant, h) == Done(Some(found[h]))
      {
        assert IsRaw(Lookup(tenant, codec.hash(contents[i])), values[i]);
        if values[i].Some? {
          if values[i].value == [] {
            assert Lookup(tenant, codec.hash(contents[i])).Panicked?;
            return Panicked;
          }
          found := found[codec.hash(contents[i]) := values[i].value];
        }
      }
      return Done(found);
    }

    method SetMany(tenant: Tenant, pairs: seq<(string, Vector)>)
      requires forall p <- pairs :: p.1 != []
      modifies client
      ensures client.store == SetAll(codec, client.keyPrefix, old(client.store), Entries(tenant, pairs))
    {
      ghost var goal := SetAll(codec, client.keyPrefix, client.store, Entries(tenant, pairs));
      assert pairs[0..] == pairs;
      for i := 0 to |pairs|
        invariant goal == SetAll(codec, client.keyPrefix, client.store, Entries(tenant, pairs[i..]))
      {
        assert pairs[i..][0] == pairs[i] && pairs[i..][1..] == pairs[i + 1..];
        var key := CacheKey(service, Embedding, tenant, codec.hash(pairs[i].0));
        client.Set(Print(key), codec.write(pairs[i].1));
      }
    }

    function Entries(tenant: Tenant, pairs: seq<(string, Vector)>): (es: seq<(CacheId, Vector)>)
      ensures |es| == |pairs|
      ensures forall i :: 0 <= i < |pairs| ==> es[i] == (Id(tenant, codec.hash(pairs[i].0)), pairs[i].1)
    {
      if pairs == [] then []
      else [(Id(tenant, codec.hash(pairs[0].0)), pairs[0].1)] + Entries(tenant, pairs[1..])
    }

    method Delete(tenant: Tenant, content: string) returns (deleted: bool)
      modifies client
      ensures deleted <==> old(Lookup(tenant, codec.hash(content))) != Done(None)
      ensures client.store == old(client.store) - {FullKey(client.keyPrefix, Id(tenant, codec.hash(content)))}
      ensures client.store == old(client.store) -
        {client.PrefixedKey(Print(CacheKey(service, Embedding, tenant, codec.hash(content))))}
    {
      var key := CacheKey(service, Embedding, tenant, codec.hash(content));
      deleted := client.Delete(Print(key));
    }
  }

  // ---------------------------------------------------------------- the law can be met

  function Texts(v: Vector): (ts: seq<string>)
    ensures |ts| == |v| && forall i :: 0 <= i < |v| ==> ts[i] == Decimal.Print(v[i])
  {
    seq(|v|, i requires 0 <= i < |v| => Decimal.Print(v[i]))
  }

  function Listing(v: Vector): string {
    if !AllFinite(v) then "null" else if v == [] then "" else Strings.Join(Texts(v), ',')
  }

  lemma ListingInjective(v: Vector, w: Vector)
    requires AllFinite(v) && Listing(v) == Listing(w)
    ensures v == w
  {
    Legible(v);
    Legible(w);
    if v != [] && w != [] && AllFinite(w) {
      TextsPlain(v);
      TextsPlain(w);
      Strings.SplitJoin(Texts(v), ',');
      Strings.SplitJoin(Texts(w), ',');
      forall i | 0 <= i < |v| ensures v[i] == w[i] {
        assert Texts(v)[i] == Texts(w)[i];
        Decimal.ParsePrint(v[i]);
        Decimal.ParsePrint(w[i]);
      }
    }
  }

  lemma TextsPlain(v: Vector)
    ensures forall i :: 0 <= i < |v| ==> ',' !in Texts(v)[i]
  {
  }

  // The first character tells the three forms apart.
  lemma Legible(v: Vector)
    ensures AllFinite(v) && v != [] ==> Listing(v) != "" && '0' <= Listing(v)[0] <= '9'
  {
    if AllFinite(v) && v != [] {
      var ts := Texts(v);
      assert ts[0] == Decimal.Print(v[0]);
      assert Strings.Join(ts, ',')[0] == ts[0][0];
    }
  }

  // Some codec is lawful: decimal numbers between commas, and null for anything else.
  lemma LawfulExists(hash: string -> string) returns (c: Codec)
    ensures c.Lawful() && c.hash == hash
  {
    c := Codec(Listing, text => Unlist(text), hash);
    forall v ensures c.read(c.write(v)) == if AllFinite(v) then Some(v) else None {
      if AllFinite(v) {
        ListingInjective(v, Unlist(Listing(v)).value);
      } else if Unlist(Listing(v)).Some? {
        ListingInjective(Unlist(Listing(v)).value, v);
      }
    }
  }

  ghost function Unlist(text: string): (r: Option<Vector>)
    ensures r.Some? <==> exists v :: AllFinite(v) && Listing(v) == text
    ensures r.Some? ==> AllFinite(r.value) && Listing(r.value) == text
  {
    if exists v :: AllFinite(v) && Listing(v) == text then
      var v :| AllFinite(v) && Listing(v) == text;
      Some(v)
    else None
  }

  // What the batch read holds for a lookup before vectors are built.
  ghost predicate IsRaw(looked: Outcome<Option<Vector>>, raw: Option<Vector>) {
    match raw
    case None => looked == Done(None)
    case Some(v) => looked == if v == [] then Panicked else Done(Some(v))
  }

  // ---------------------------------------------------------------- the cache is a map keyed by CacheId

  lemma FullKeyInjective(prefix: string, a: CacheId, b: CacheId)
    requires FullKey(prefix, a) == FullKey(prefix, b)
    ensures a == b
  {
    PrintInjective(KeyOf(a), KeyOf(b), prefix);
  }

  // The store holds exactly this map's vectors under the embedding keys, whatever else it holds.
  ghost predicate Represents(c: Codec, prefix: string, store: Store, m: map<CacheId, Vector>) {
    forall id ::
      && (id in m <==> FullKey(prefix, id) in store)
      && (id in m ==> m[id] != [] && store[FullKey(prefix, id)] == c.write(m[id]))
  }

  // Lookups read the map; a vector that is not finite throughout makes every lookup of it fail.
  lemma GetRefines(c: Codec, prefix: string, store: Store, m: map<CacheId, Vector>, id: CacheId)
    requires c.Lawful() && Represents(c, prefix, store, m)
    ensures GetAt(c, prefix, store, id) == if id in m then ReadBack(m[id]) else Done(None)
  {
  }

  // What a non-empty vector reads back as.
  function ReadBack(v: Vector): Outcome<Option<Vector>> {
    if AllFinite(v) then Done(Some(v)) else Malformed
  }

  lemma SetRefines(c: Codec, prefix: string, store: Store, m: map<CacheId, Vector>, id: CacheId, v: Vector)
    requires Represents(c, prefix, store, m) && v != []
    ensures Represents(c, prefix, SetAt(c, prefix, store, id, v), m[id := v])
  {
    var store', m' := SetAt(c, prefix, store, id, v), m[id := v];
    forall other
      ensures other in m' <==> FullKey(prefix, other) in store'
      ensures other in m' ==> m'[other] != [] && store'[FullKey(prefix, other)] == c.write(m'[other])
    {
      var key, otherKey := FullKey(prefix, id), FullKey(prefix, other);
      if key == otherKey {
        FullKeyInjective(prefix, other, id);
      } else {
        assert other != id && (otherKey in store' <==> otherKey in store);
      }
    }
  }

  lemma DeleteRefines(c: Codec, prefix: string, store: Store, m: map<CacheId, Vector>, id: CacheId)
    requires Represents(c, prefix, store, m)
    ensures Represents(c, prefix, store - {FullKey(prefix, id)}, m - {id})
  {
    var store', m' := store - {FullKey(prefix, id)}, m - {id};
    forall other
      ensures other in m' <==> FullKey(prefix, other) in store'
      ensures other in m' ==> m'[other] != [] && store'[FullKey(prefix, other)] == c.write(m'[other])
    {
      var key, otherKey := FullKey(prefix, id), FullKey(prefix, other);
      if key == otherKey {
        FullKeyInjective(prefix, other, id);
      } else {
        assert other != id && (otherKey in store' <==> otherKey in store);
      }
    }
  }

  function Updated(m: map<CacheId, Vector>, entries: seq<(CacheId, Vector)>): map<CacheId, Vector>
    decreases |entries|
  {
    if entries == [] then m else Updated(m[entries[0].0 := entries[0].1], entries[1..])
  }

  lemma {:induction false} SetAllRefines(c: Codec, prefix: string, store: Store, m: map<CacheId, Vector>,
                                         entries: seq<(CacheId, Vector)>)
    requires Represents(c, prefix, store, m) && forall e <- entries :: e.1 != []
    ensures Represents(c, prefix, SetAll(c, prefix, store, entries), Updated(m, entries))
    decreases |entries|
  {
    if entries != [] {
      SetRefines(c, prefix, store, m, entries[0].0, entries[0].1);
      var next := SetAt(c, prefix, store, entries[0].0, entries[0].1);
      SetAllRefines(c, prefix, next, m[entries[0].0 := entries[0].1], entries[1..]);
    }
  }

  // Of several writes to one id in a batch the last one decides what is read, whatever the others were: its vector
  // exactly when that is finite throughout.
  lemma {:induction false} LastWriteWins(
    c: Codec, prefix: string, store: Store, entries: seq<(CacheId, Vector)>, i: nat)
    requires c.Lawful() && i < |entries| && entries[i].1 != []
    requires forall j :: i < j < |entries| ==> entries[j].0 != entries[i].0
    ensures GetAt(c, prefix, SetAll(c, prefix, store, entries), entries[i].0) == ReadBack(entries[i].1)
    ensures GetAt(c, prefix, SetAll(c, prefix, store, entries), entries[i].0) == Done(Some(entries[i].1)) <==>
            AllFinite(entries[i].1)
    decreases |entries|
  {
    var next := SetAt(c, prefix, store, entries[0].0, entries[0].1);
    if i == 0 {
      forall e | e in entries[1..] ensures e.0 != entries[0].0 {
      }
      OthersUntouched(c, prefix, next, entries[1..], entries[0].0);
    } else {
      LastWriteWins(c, prefix, next, entries[1..], i - 1);
    }
  }

  // Writing never changes what is read under an id that is not written: so one tenant never sees another's writes,
  // nor one service another's.
  lemma {:induction false} OthersUntouched(
    c: Codec, prefix: string, store: Store, entries: seq<(CacheId, Vector)>, id: CacheId)
    requires forall e <- entries :: e.0 != id
    ensures GetAt(c, prefix, SetAll(c, prefix, store, entries), id) == GetAt(c, prefix, store, id)
    decreases |entries|
  {
    if entries != [] {
      if FullKey(prefix, entries[0].0) == FullKey(prefix, id) {
        FullKeyInjective(prefix, entries[0].0, id);
      }
      OthersUntouched(c, prefix, SetAt(c, prefix, store, entries[0].0, entries[0].1), entries[1..], id);
    }
  }

  lemma TenantIsolation(
    c: Codec, prefix: string, store: Store, entries: seq<(CacheId, Vector)>, writer: Tenant, id: CacheId)
    requires (forall e <- entries :: e.0.tenant == writer) && id.tenant != writer
    ensures GetAt(c, prefix, SetAll(c, prefix, store, entries), id) == GetAt(c, prefix, store, id)
  {
    OthersUntouched(c, prefix, store, entries, id);
  }

  // Keys of other types live beside the embeddings without ever touching them.
  lemma OtherTypesUntouched(c: Codec, prefix: string, store: Store, k: CacheKey, text: string, id: CacheId)
    requires k.keyType != Embedding
    ensures GetAt(c, prefix, store[PrintWithPrefix(k, prefix) := text], id) == GetAt(c, prefix, store, id)
    ensures GetAt(c, prefix, store - {PrintWithPrefix(k, prefix)}, id) == GetAt(c, prefix, store, id)
  {
    if PrintWithPrefix(k, prefix) == FullKey(prefix, id) {
      PrintInjective(k, KeyOf(id), prefix);
    }
  }
}
