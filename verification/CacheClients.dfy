/**
 The cache client over a flat, string-keyed store. Entries do not expire in this model, and no other client writes
 between the steps of one call.
 */
module CacheClients {
  import opened Wrappers

  type Store = map<string, string>

  class CacheClient {
    const keyPrefix: string
    var store: Store

    constructor (keyPrefix: string)
      ensures this.keyPrefix == keyPrefix && store == map[]
    {
      this.keyPrefix := keyPrefix;
      store := map[];
    }

    function PrefixedKey(key: string): string {
      if keyPrefix == "" then key else keyPrefix + ":" + key
    }

    method Get(key: string) returns (text: Option<string>)
      ensures text == if PrefixedKey(key) in store then Some(store[PrefixedKey(key)]) else None
    {
      var fullKey := PrefixedKey(key);
      if fullKey in store {
        return Some(store[fullKey]);
      }
      return None;
    }

    method Set(key: string, text: string)
      modifies this
      ensures store == old(store)[PrefixedKey(key) := text]
    {
      store := store[PrefixedKey(key) := text];
    }

    method Delete(key: string) returns (deleted: bool)
      modifies this
      ensures deleted <==> PrefixedKey(key) in old(store)
      ensures store == old(store) - {PrefixedKey(key)}
    {
      deleted := PrefixedKey(key) in store;
      store := store - {PrefixedKey(key)};
    }

    // The store's own command: removes the given keys and counts those that were present.
    method Del(keys: seq<string>) returns (deleted: nat)
      modifies this
      ensures store == old(store) - KeySet(keys)
      ensures deleted == |old(store)| - |store|
    {
      deleted := 0;
      for i := 0 to |keys|
        invariant store == old(store) - KeySet(keys[..i])
        invariant deleted == |old(store)| - |store|
      {
        assert keys[..i + 1][..i] == keys[..i];
        MinusMinus(old(store), KeySet(keys[..i]), {keys[i]});
        MinusOne(store, keys[i]);
        if keys[i] in store {
          deleted := deleted + 1;
        }
        store := store - {keys[i]};
      }
      assert keys[..|keys|] == keys;
    }

    // Follows the replies of a cursor scan up to the zero cursor, deleting each page's keys. A reply is the next
    // cursor and a page of keys; keys may repeat or be gone already, and pages may be empty.
    method ScanDelete(replies: seq<Reply>) returns (total: nat)
      requires IsScan(replies)
      modifies this
      ensures store == old(store) - PagedKeys(replies)
      ensures total == |old(store)| - |store|
    {
      ghost var before := store;
      total := 0;
      var n := 0;
      while true
        invariant 0 <= n < |replies|
        invariant store == before - PagedKeys(replies[..n])
        invariant total == |before| - |store|
        decreases |replies| - n
      {
        var cursor, deleted := DeletePage(replies[n]);
        PagedKeysStep(before, replies, n);
        total := total + deleted;
        n := n + 1;
        if cursor == 0 {
          break;
        }
      }
      assert replies[..n] == replies;
    }

    // One turn of the scan: the next cursor, and how many keys of the page were deleted.
    method DeletePage(reply: Reply) returns (cursor: nat, deleted: nat)
      modifies this
      ensures store == old(store) - KeySet(reply.keys)
      ensures cursor == reply.nextCursor && deleted == |old(store)| - |store|
    {
      cursor, deleted := reply.nextCursor, 0;
      if reply.keys != [] {
        deleted := Del(reply.keys);
      }
    }
  }

  datatype Reply = Reply(nextCursor: nat, keys: seq<string>)

  // A scan ends at its first zero cursor.
  predicate IsScan(replies: seq<Reply>) {
    && replies != []
    && forall i :: 0 <= i < |replies| ==> (replies[i].nextCursor == 0 <==> i == |replies| - 1)
  }

  ghost function KeySet(keys: seq<string>): set<string> {
    if keys == [] then {} else KeySet(keys[..|keys| - 1]) + {keys[|keys| - 1]}
  }

  ghost function PagedKeys(replies: seq<Reply>): set<string> {
    if replies == [] then {} else PagedKeys(replies[..|replies| - 1]) + KeySet(replies[|replies| - 1].keys)
  }

  lemma PagedKeysStep(before: Store, replies: seq<Reply>, n: nat)
    requires n < |replies|
    ensures before - PagedKeys(replies[..n]) - KeySet(replies[n].keys) == before - PagedKeys(replies[..n + 1])
  {
    assert replies[..n + 1][..n] == replies[..n];
    MinusMinus(before, PagedKeys(replies[..n]), KeySet(replies[n].keys));
  }

  lemma MinusMinus(s: Store, a: set<string>, b: set<string>)
    ensures s - a - b == s - (a + b)
  {
  }

  lemma MinusOne(s: Store, k: string)
    ensures |s - {k}| == |s| - if k in s then 1 else 0
  {
    var t := s - {k};
    assert t.Keys == s.Keys - {k};
    assert |t| == |t.Keys| && |s| == |s.Keys|;
  }

  // The page keys are exactly the keys that occur on some page.
  lemma {:induction false} KeySetMembers(keys: seq<string>)
    ensures forall k :: k in KeySet(keys) <==> k in keys
  {
    if keys != [] {
      var n := |keys| - 1;
      KeySetMembers(keys[..n]);
      assert keys == keys[..n] + [keys[n]];
    }
  }

  ghost predicate OnSomePage(replies: seq<Reply>, k: string) {
    exists r <- replies :: k in r.keys
  }

  lemma {:induction false} PagedKeysMembers(replies: seq<Reply>)
    ensures forall k :: k in PagedKeys(replies) <==> OnSomePage(replies, k)
  {
    if replies != [] {
      var n := |replies| - 1;
      PagedKeysMembers(replies[..n]);
      KeySetMembers(replies[n].keys);
      assert replies == replies[..n] + [replies[n]];
    }
  }

  // If the pages hold only matching keys, a bulk delete leaves exactly the keys that do not match if and only if every
  // matching key of the store is on some page; its result is then the number of matching keys at the start.
  lemma BulkDeleteIff(before: Store, matching: set<string>, replies: seq<Reply>)
    requires forall k :: OnSomePage(replies, k) ==> k in matching
    ensures var after := before - PagedKeys(replies);
      && (after == before - matching <==> forall k <- before :: k in matching ==> OnSomePage(replies, k))
      && (after == before - matching ==> |before| - |after| == |before.Keys * matching|)
  {
    PagedKeysMembers(replies);
    CountMatching(before, matching);
    MinusSame(before, PagedKeys(replies), matching);
  }

  // Taking away either of two sets leaves the same map exactly when they share the same keys of it.
  lemma MinusSame(s: Store, a: set<string>, b: set<string>)
    requires a <= b
    ensures s - a == s - b <==> forall k <- s :: k in b ==> k in a
  {
    if s - a == s - b {
      assert forall k <- s :: k !in a ==> k in s - a;
    }
    if forall k <- s :: k in b ==> k in a {
      assert s - a == s - b;
    }
  }

  lemma CountMatching(before: Store, matching: set<string>)
    ensures |before - matching| == |before| - |before.Keys * matching|
  {
    var rest := before - matching;
    assert rest.Keys == before.Keys - matching;
    assert before.Keys == rest.Keys + before.Keys * matching;
    assert |before| == |before.Keys| && |rest| == |rest.Keys|;
  }
}
