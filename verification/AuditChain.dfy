/**
 The audit chain: how the logger links entries, how the repository walks them, and what an accepted walk proves.
 The digest is an arbitrary function: results about tampering end in agreement or in a collision. The chain only needs
 a digest of hashed fields; `JsonHash` is the one at hand, and its collisions are collisions of two different texts.
 */
module AuditChain {
  import opened Wrappers
  import opened AuditText

  // A hex digest; in particular never the empty text.
  type Digest = t: Text | |t| == 64 witness seq(64, _ => 0)

  type Sha = string -> Digest

  type Hash = HashedFields -> Digest

  type Collision = (HashedFields, HashedFields)

  // The digest of the fields' JSON text.
  function JsonHash(sha: Sha): Hash {
    f => sha(HashText(f))
  }

  // A point in time: the instant by which rows are ordered, and its ISO form, which is what gets hashed.
  datatype Timestamp = Timestamp(instant: int, iso: Text)

  // The ten fields of an entry that are hashed together with the previous hash.
  datatype Core = Core(
    id: Text,
    timestamp: Timestamp,
    userId: Option<Text>,
    tenantId: Option<Text>,
    action: Text,
    outcome: Text,
    resourceType: Option<Text>,
    resourceId: Option<Text>,
    clientIp: Option<Text>,
    statusCode: Option<int>)

  // The fields of an entry that no hash covers.
  datatype Extra = Extra(
    traceId: Option<Text>,
    spanId: Option<Text>,
    durationMs: Option<real>,
    username: Option<Text>,
    serviceName: Option<Text>,
    apiKeyId: Option<Text>,
    severity: Text,
    resourceName: Option<Text>,
    userAgent: Option<Text>,
    requestMethod: Option<Text>,
    requestPath: Option<Text>,
    requestId: Option<Text>,
    errorMessage: Option<Text>,
    errorCode: Option<Text>,
    details: map<Text, Text>,
    changes: Option<map<Text, Text>>)

  datatype Entry = Entry(core: Core, extra: Extra, previousHash: Option<Text>, entryHash: Option<Text>)

  datatype Fault = Broken(id: Text) | Mismatch(id: Text)

  function Hashed(core: Core, previous: Option<Text>): HashedFields {
    HashedFields(core.id, core.timestamp.iso, core.userId, core.tenantId, core.action, core.outcome,
                 core.resourceType, core.resourceId, core.clientIp, core.statusCode, previous)
  }

  function ComputeHash(hash: Hash, core: Core, previous: Option<Text>): Digest {
    hash(Hashed(core, previous))
  }

  // The ten fields of an entry that its digest covers, besides the previous hash.
  ghost predicate SameCovered(a: Core, b: Core) {
    && a.id == b.id && a.timestamp.iso == b.timestamp.iso
    && a.userId == b.userId && a.tenantId == b.tenantId
    && a.action == b.action && a.outcome == b.outcome
    && a.resourceType == b.resourceType && a.resourceId == b.resourceId
    && a.clientIp == b.clientIp && a.statusCode == b.statusCode
  }

  // What is hashed is the same exactly when all eleven are.
  lemma HashedIff(a: Core, p: Option<Text>, b: Core, q: Option<Text>)
    ensures Hashed(a, p) == Hashed(b, q) <==> SameCovered(a, b) && p == q
  {
    if Hashed(a, p) == Hashed(b, q) {
      var f, g := Hashed(a, p), Hashed(b, q);
      assert f.id == g.id && f.outcome == g.outcome && f.clientIp == g.clientIp;
    }
  }

  // Under which key of the JSON text each of them stands.
  lemma HashedMembers(core: Core, previous: Option<Text>)
    ensures var ms := SortedMembers(Hashed(core, previous));
      && |ms| == 11
      && ("id", JString(core.id)) in ms && ("timestamp", JString(core.timestamp.iso)) in ms
      && ("user_id", OptionalText(core.userId)) in ms && ("tenant_id", OptionalText(core.tenantId)) in ms
      && ("action", JString(core.action)) in ms && ("outcome", JString(core.outcome)) in ms
      && ("resource_type", OptionalText(core.resourceType)) in ms
      && ("resource_id", OptionalText(core.resourceId)) in ms
      && ("client_ip", OptionalText(core.clientIp)) in ms
      && ("status_code", OptionalNumber(core.statusCode)) in ms
      && ("previous_hash", OptionalText(previous)) in ms
  {
  }

  // The hash that the entry at position `i` must name as its predecessor.
  function PreviousAt(rows: seq<Entry>, i: nat): Option<Text>
    requires i <= |rows|
  {
    if i == 0 then None else rows[i - 1].entryHash
  }

  ghost predicate LinkedAt(hash: Hash, rows: seq<Entry>, i: nat)
    requires i < |rows|
  {
    && rows[i].previousHash == PreviousAt(rows, i)
    && rows[i].entryHash == Some(ComputeHash(hash, rows[i].core, PreviousAt(rows, i)))
  }

  ghost predicate Linked(hash: Hash, rows: seq<Entry>) {
    forall i :: 0 <= i < |rows| ==> LinkedAt(hash, rows, i)
  }

  ghost predicate IsCollision(hash: Hash, pair: Collision) {
    pair.0 != pair.1 && hash(pair.0) == hash(pair.1)
  }

  // What was hashed for an entry.
  function RecordOf(e: Entry): HashedFields {
    Hashed(e.core, e.previousHash)
  }

  // A collision between the records of an entry of `a` and one of `b`. (Some collision always exists, because digests
  // are finitely many; one among given entries need not.)
  ghost predicate Collides(hash: Hash, pair: Collision, a: seq<Entry>, b: seq<Entry>) {
    IsCollision(hash, pair) && exists x, y :: x in a && y in b && pair == (RecordOf(x), RecordOf(y))
  }

  lemma CollidesWithin(hash: Hash, pair: Collision, a: seq<Entry>, b: seq<Entry>, wideA: seq<Entry>, wideB: seq<Entry>)
    requires Collides(hash, pair, a, b)
    requires (forall x <- a :: x in wideA) && (forall y <- b :: y in wideB)
    ensures Collides(hash, pair, wideA, wideB)
  {
    var x, y :| x in a && y in b && pair == (RecordOf(x), RecordOf(y));
    assert x in wideA && y in wideB;
  }

  // Different fields with one JSON digest are different texts with one digest.
  lemma TextCollision(sha: Sha, pair: Collision)
    requires IsCollision(JsonHash(sha), pair)
    ensures HashText(pair.0) != HashText(pair.1) && sha(HashText(pair.0)) == sha(HashText(pair.1))
  {
    if HashText(pair.0) == HashText(pair.1) {
      HashTextInjective(pair.0, pair.1);
    }
  }

  // ---------------------------------------------------------------- the repository

  class AuditRepository {
    var table: seq<Entry>  // rows in the order they were added

    constructor ()
      ensures table == []
    {
      table := [];
    }

    method Create(entry: Entry) returns (created: Entry)
      modifies this
      ensures table == old(table) + [entry]
      ensures created == entry
    {
      table := table + [entry];
      created := entry;
    }
  }

  // Walks the rows that the ordered, limited query handed back. Acceptance is exactly linkage; a rejection names
  // the first entry at which the linkage stops and says which of its two hashes is at fault.
  method ValidateHashChain(hash: Hash, rows: seq<Entry>) returns (fault: Option<Fault>)
    ensures fault.None? <==> Linked(hash, rows)
    ensures fault.Some? ==>
      exists i :: 0 <= i < |rows| && Linked(hash, rows[..i]) && !LinkedAt(hash, rows, i) &&
        fault.value.id == rows[i].core.id && (fault.value.Broken? <==> rows[i].previousHash != PreviousAt(rows, i))
  {
    var previous: Option<Text> := None;
    for i := 0 to |rows|
      invariant previous == PreviousAt(rows, i)
      invariant forall k :: 0 <= k < i ==> LinkedAt(hash, rows, k)
    {
      var entry := rows[i];
      assert forall k :: 0 <= k < i ==> LinkedAt(hash, rows[..i], k) == LinkedAt(hash, rows, k);
      if entry.previousHash != previous {
        assert !LinkedAt(hash, rows, i);
        return Some(Broken(entry.core.id));
      }
      var computed := ComputeHash(hash, entry.core, previous);
      if entry.entryHash != Some(computed) {
        assert !LinkedAt(hash, rows, i);
        return Some(Mismatch(entry.core.id));
      }
      previous := entry.entryHash;
    }
    return None;
  }

  // `rows` is what "order by timestamp, limit n" may return for the table; ties may come back in any order.
  ghost predicate IsFetch(table: seq<Entry>, limit: nat, rows: seq<Entry>) {
    exists sorted ::
      && IsTimeOrderOf(sorted, table)
      && rows == Take(sorted, limit)
  }

  ghost predicate IsTimeOrderOf(sorted: seq<Entry>, table: seq<Entry>) {
    && multiset(sorted) == multiset(table)
    && forall i, j :: 0 <= i < j < |sorted| ==> sorted[i].core.timestamp.instant <= sorted[j].core.timestamp.instant
  }

  function Take<T>(s: seq<T>, n: nat): seq<T> {
    if n < |s| then s[..n] else s
  }

  ghost predicate StrictlyLater(table: seq<Entry>) {
    forall i, j :: 0 <= i < j < |table| ==> table[i].core.timestamp.instant < table[j].core.timestamp.instant
  }

  lemma TimeOrderHead(sorted: seq<Entry>, table: seq<Entry>)
    requires StrictlyLater(table) && IsTimeOrderOf(sorted, table) && table != []
    ensures sorted != [] && sorted[0] == table[0]
  {
    assert table[0] in multiset(sorted);
    var i :| 0 <= i < |sorted| && sorted[i] == table[0];
    assert sorted[0] in multiset(table);
    var j :| 0 <= j < |table| && table[j] == sorted[0];
    assert sorted[0].core.timestamp.instant <= sorted[i].core.timestamp.instant;
    assert forall k :: 0 < k < |table| ==> table[0].core.timestamp.instant < table[k].core.timestamp.instant;
  }

  lemma SameTail<T>(x: T, s: seq<T>, t: seq<T>, sorted: seq<T>, table: seq<T>)
    requires sorted != [] && sorted[0] == x && sorted[1..] == s && table != [] && table[0] == x && table[1..] == t
    requires multiset(sorted) == multiset(table)
    ensures multiset(s) == multiset(t)
  {
    assert sorted == [x] + s && table == [x] + t;
    assert multiset(s) == multiset(sorted) - multiset{x};
    assert multiset(t) == multiset(table) - multiset{x};
  }

  lemma {:induction false} TimeOrderUnique(sorted: seq<Entry>, table: seq<Entry>)
    requires StrictlyLater(table) && IsTimeOrderOf(sorted, table)
    ensures sorted == table
  {
    if table == [] {
      assert |multiset(sorted)| == |sorted|;
    } else {
      TimeOrderHead(sorted, table);
      var s, t := sorted[1..], table[1..];
      SameTail(table[0], s, t, sorted, table);
      assert forall i :: 0 <= i < |s| ==> s[i] == sorted[i + 1];
      assert forall i :: 0 <= i < |t| ==> t[i] == table[i + 1];
      TimeOrderUnique(s, t);
    }
  }

  // ---------------------------------------------------------------- what acceptance proves

  // Equal digests mean equal hashed fields, or the two collide.
  lemma SameDigest(hash: Hash, f: HashedFields, g: HashedFields) returns (collision: Option<Collision>)
    requires hash(f) == hash(g)
    ensures collision.Some? ==> collision.value == (f, g) && IsCollision(hash, collision.value)
    ensures collision.None? ==> f == g
  {
    collision := if f == g then None else Some((f, g));
  }

  ghost predicate SameCoverage(a: Entry, b: Entry) {
    SameCovered(a.core, b.core) && a.previousHash == b.previousHash && a.entryHash == b.entryHash
  }

  // Accepted walks with equal final hashes agree on their last entries, and their predecessors do too.
  lemma SameLast(hash: Hash, a: seq<Entry>, b: seq<Entry>) returns (collision: Option<Collision>)
    requires a != [] && b != []
    requires Linked(hash, a) && Linked(hash, b)
    requires a[|a| - 1].entryHash == b[|b| - 1].entryHash
    ensures collision.Some? ==> Collides(hash, collision.value, a, b)
    ensures collision.None? ==> SameCoverage(a[|a| - 1], b[|b| - 1])
    ensures collision.None? ==> PreviousAt(a, |a| - 1) == PreviousAt(b, |b| - 1)
    ensures |a| > 1 ==> PreviousAt(a, |a| - 1).Some?
    ensures |b| > 1 ==> PreviousAt(b, |b| - 1).Some?
  {
    var m, n := |a| - 1, |b| - 1;
    assert LinkedAt(hash, a, m) && LinkedAt(hash, b, n);
    assert m > 0 ==> LinkedAt(hash, a, m - 1);
    assert n > 0 ==> LinkedAt(hash, b, n - 1);
    collision := SameDigest(hash, RecordOf(a[m]), RecordOf(b[n]));
    HashedIff(a[m].core, a[m].previousHash, b[n].core, b[n].previousHash);
    assert a[m] in a && b[n] in b;
  }

  // Two accepted, non-empty walks that end in the same entry hash have equal length and agree on every hashed
  // field and hash at every position, or a record of the one and a record of the other are produced that collide.
  lemma {:induction false} TamperEvidence(hash: Hash, a: seq<Entry>, b: seq<Entry>)
    returns (collision: Option<Collision>)
    requires a != [] && b != []
    requires Linked(hash, a) && Linked(hash, b)
    requires a[|a| - 1].entryHash == b[|b| - 1].entryHash
    ensures collision.Some? ==> Collides(hash, collision.value, a, b)
    ensures collision.None? ==> |a| == |b| && forall i :: 0 <= i < |a| ==> SameCoverage(a[i], b[i])
    decreases |a|
  {
    var m, n := |a| - 1, |b| - 1;
    collision := SameLast(hash, a, b);
    if collision.None? && m > 0 && n > 0 {
      PrefixLinked(hash, a, m);
      PrefixLinked(hash, b, n);
      collision := TamperEvidence(hash, a[..m], b[..n]);
      if collision.Some? {
        CollidesWithin(hash, collision.value, a[..m], b[..n], a, b);
      }
      assert forall i :: 0 <= i < m ==> a[i] == a[..m][i];
      assert forall i :: 0 <= i < n ==> b[i] == b[..n][i];
    }
  }

  lemma PrefixLinked(hash: Hash, rows: seq<Entry>, n: nat)
    requires n <= |rows| && Linked(hash, rows)
    ensures Linked(hash, rows[..n])
  {
    forall i | 0 <= i < n ensures LinkedAt(hash, rows[..n], i) {
      assert LinkedAt(hash, rows, i);
    }
  }

  // Only the hashed fields and the two hashes matter: rewriting anything else is never noticed.
  lemma ExtraNotCovered(hash: Hash, a: seq<Entry>, b: seq<Entry>)
    requires |a| == |b|
    requires forall i :: 0 <= i < |a| ==>
      && SameCovered(a[i].core, b[i].core)
      && a[i].previousHash == b[i].previousHash && a[i].entryHash == b[i].entryHash
    ensures Linked(hash, a) <==> Linked(hash, b)
  {
    forall i | 0 <= i < |a| ensures LinkedAt(hash, a, i) <==> LinkedAt(hash, b, i) {
      HashedIff(a[i].core, PreviousAt(a, i), b[i].core, PreviousAt(a, i));
    }
  }

  // Editing any covered field of one entry of an accepted chain is rejected, even with its own hash computed anew
  // unless it is the last, or the old and the new record collide.
  lemma EditRejected(hash: Hash, rows: seq<Entry>, i: nat, e: Entry) returns (collision: Option<Collision>)
    requires Linked(hash, rows) && i < |rows|
    requires !SameCovered(e.core, rows[i].core)
    requires i == |rows| - 1 ==> e.entryHash == rows[i].entryHash
    ensures collision.Some? ==> Collides(hash, collision.value, [e], [rows[i]])
    ensures collision.None? ==> !Linked(hash, rows[i := e])
  {
    var edited := rows[i := e];
    assert LinkedAt(hash, rows, i);
    collision := None;
    if Linked(hash, edited) {
      assert LinkedAt(hash, edited, i);
      if i < |rows| - 1 {
        assert LinkedAt(hash, rows, i + 1) && LinkedAt(hash, edited, i + 1);
      }
      HashedIff(e.core, e.previousHash, rows[i].core, rows[i].previousHash);
      assert e in [e] && rows[i] in [rows[i]];
      collision := Some((RecordOf(e), RecordOf(rows[i])));
    }
  }

  // A walk started from a later entry of an accepted chain is rejected, because its first link is not empty.
  lemma LateStartRejected(hash: Hash, rows: seq<Entry>, k: nat)
    requires Linked(hash, rows) && 0 < k < |rows|
    ensures !Linked(hash, rows[k..])
  {
    assert LinkedAt(hash, rows, k) && LinkedAt(hash, rows, k - 1);
    assert !LinkedAt(hash, rows[k..], 0);
  }

  // The rows of one tenant, as the tenant-scoped walk sees them.
  function TenantView(rows: seq<Entry>, tenant: Text): seq<Entry> {
    if rows == [] then []
    else
      var last := rows[|rows| - 1];
      TenantView(rows[..|rows| - 1], tenant) + if last.core.tenantId == Some(tenant) then [last] else []
  }

  // The view keeps the order of the rows.
  lemma {:induction false} TenantViewAppend(rows: seq<Entry>, more: seq<Entry>, tenant: Text)
    ensures TenantView(rows + more, tenant) == TenantView(rows, tenant) + TenantView(more, tenant)
    decreases |more|
  {
    if more == [] {
      assert rows + more == rows;
    } else {
      var n := |more| - 1;
      TenantViewAppend(rows, more[..n], tenant);
      AllButLast(rows, more);
    }
  }

  lemma AllButLast<T>(s: seq<T>, t: seq<T>)
    requires t != []
    ensures var u := s + t; u[|u| - 1] == t[|t| - 1] && u[..|u| - 1] == s + t[..|t| - 1]
  {
  }

  lemma LastCounted<T>(s: seq<T>, x: T)
    requires s != []
    ensures multiset(s)[x] == multiset(s[..|s| - 1])[x] + if s[|s| - 1] == x then 1 else 0
  {
    assert s == s[..|s| - 1] + [s[|s| - 1]];
  }

  // It has each of the tenant's rows as often as it occurs, and no other.
  lemma {:induction false} TenantViewIs(rows: seq<Entry>, tenant: Text, e: Entry)
    ensures multiset(TenantView(rows, tenant))[e] ==
            if e.core.tenantId == Some(tenant) then multiset(rows)[e] else 0
  {
    if rows != [] {
      var front, view := rows[..|rows| - 1], TenantView(rows, tenant);
      TenantViewIs(front, tenant, e);
      LastCounted(rows, e);
      if rows[|rows| - 1].core.tenantId == Some(tenant) {
        assert view[..|view| - 1] == TenantView(front, tenant);
        LastCounted(view, e);
      } else {
        assert view == TenantView(front, tenant);
      }
    }
  }

  // A tenant's view of an accepted chain is itself accepted exactly when it is a prefix of the chain, that is when no
  // other tenant's entry comes before one of this tenant's: or two colliding records of the chain are produced.
  lemma {:induction false} TenantViewIffPrefix(hash: Hash, rows: seq<Entry>, tenant: Text)
    returns (collision: Option<Collision>)
    requires Linked(hash, rows)
    ensures collision.Some? ==> Collides(hash, collision.value, rows, rows)
    ensures |TenantView(rows, tenant)| <= |rows|
    ensures collision.None? ==>
      var view := TenantView(rows, tenant);
      Linked(hash, view) <==> view == rows[..|view|]
  {
    collision := None;
    if rows != [] {
      var n := |rows| - 1;
      var last, front := rows[n], rows[..n];
      PrefixLinked(hash, rows, n);
      collision := TenantViewIffPrefix(hash, front, tenant);
      if collision.Some? {
        CollidesWithin(hash, collision.value, front, front, rows, rows);
      }
      var view := TenantView(front, tenant);
      var k := |view|;
      assert front[..k] == rows[..k];
      if collision.None? && last.core.tenantId == Some(tenant) {
        assert LinkedAt(hash, rows, n) && LinkedAt(hash, rows, k);
        AppendLinked(hash, view, last);
        assert rows[..k + 1] == rows[..k] + [rows[k]];
        assert TenantView(rows, tenant) == view + [last];
        assert (view + [last])[..k] == view && (view + [last])[k] == last && rows[..k + 1][..k] == rows[..k];
        if k < n {
          if last.previousHash == PreviousAt(rows, k) {
            collision := SharedPrevious(hash, rows, k, n);
          } else {
            assert rows[k] != last;
          }
        }
      } else if collision.None? {
        assert TenantView(rows, tenant) == view;
      }
    }
  }

  // The first rows of a tenant's view are the tenant's view of the first rows.
  lemma {:induction false} CutView(rows: seq<Entry>, tenant: Text, limit: nat) returns (n: nat)
    ensures n <= |rows| && TenantView(rows[..n], tenant) == Take(TenantView(rows, tenant), limit)
    ensures |TenantView(rows, tenant)| <= |rows|
  {
    n := |rows|;
    assert rows[..n] == rows;
    if rows != [] {
      var front := rows[..|rows| - 1];
      n := CutView(front, tenant, limit);
      assert front[..n] == rows[..n];
      if |TenantView(rows, tenant)| <= limit {
        n := |rows|;
        assert rows[..n] == rows;
      } else {
        var view := TenantView(front, tenant);
        assert Take(TenantView(rows, tenant), limit) == Take(view, limit);
      }
    }
  }

  // The tenant-scoped walk over at most `limit` of a tenant's rows.
  lemma TenantWalkIffPrefix(hash: Hash, rows: seq<Entry>, tenant: Text, limit: nat)
    returns (collision: Option<Collision>)
    requires Linked(hash, rows)
    ensures collision.Some? ==> Collides(hash, collision.value, rows, rows)
    ensures |Take(TenantView(rows, tenant), limit)| <= |rows|
    ensures collision.None? ==>
      var view := Take(TenantView(rows, tenant), limit);
      Linked(hash, view) <==> view == rows[..|view|]
  {
    var n := CutView(rows, tenant, limit);
    PrefixLinked(hash, rows, n);
    collision := TenantViewIffPrefix(hash, rows[..n], tenant);
    if collision.Some? {
      CollidesWithin(hash, collision.value, rows[..n], rows[..n], rows, rows);
    }
    var k := |TenantView(rows[..n], tenant)|;
    assert rows[..n][..k] == rows[..k];
  }

  // Two positions of an accepted chain never name the same predecessor, unless there is a collision.
  lemma SharedPrevious(hash: Hash, rows: seq<Entry>, k: nat, n: nat) returns (collision: Option<Collision>)
    requires Linked(hash, rows) && k < n < |rows|
    requires rows[n].previousHash == PreviousAt(rows, k)
    ensures collision.Some? && Collides(hash, collision.value, rows, rows)
  {
    assert LinkedAt(hash, rows, n) && LinkedAt(hash, rows, n - 1);
    PrefixLinked(hash, rows, n);
    PrefixLinked(hash, rows, k);
    collision := TamperEvidence(hash, rows[..k], rows[..n]);
    CollidesWithin(hash, collision.value, rows[..k], rows[..n], rows, rows);
  }

  // ---------------------------------------------------------------- the logger

  // One call of `log`: what happened, and whether the persist callback stored it.
  datatype Event = Event(core: Core, extra: Extra, persisted: bool)

  datatype State = State(lastHash: Option<Text>, table: seq<Entry>)

  // The remembered hash counts only when it is non-empty text.
  function Remembered(lastHash: Option<Text>): Option<Text> {
    if lastHash.Some? && lastHash.value != [] then lastHash else None
  }

  function NewEntry(hash: Hash, core: Core, extra: Extra, previous: Option<Text>): Entry {
    Entry(core, extra, previous, Some(ComputeHash(hash, core, previous)))
  }

  class AuditLogger {
    const hash: Hash
    var lastHash: Option<Text>

    constructor (hash: Hash)
      ensures this.hash == hash && lastHash == None
    {
      this.hash := hash;
      lastHash := None;
    }

    // `callback` is the answer of the previous-hash callback, when one is installed. The remembered hash moves on
    // even when the persist fails.
    method Log(event: Event, callback: Option<Option<Text>>, repo: AuditRepository) returns (entry: Entry)
      modifies this, repo
      ensures entry.core == event.core && entry.extra == event.extra
      ensures entry.previousHash ==
        if callback.Some? then callback.value
        else if old(lastHash) == Some([]) then None
        else old(lastHash)
      ensures entry.entryHash == Some(hash(RecordOf(entry)))
      ensures repo.table == if event.persisted then old(repo.table) + [entry] else old(repo.table)
      ensures callback.None? ==> State(lastHash, repo.table) == LogStep(hash, old(State(lastHash, repo.table)), event)
      ensures lastHash == entry.entryHash
    {
      var previous: Option<Text> := None;
      if callback.Some? {
        previous := callback.value;
      } else if lastHash.Some? && lastHash.value != [] {
        previous := lastHash;
      }
      entry := Entry(event.core, event.extra, previous, None);
      entry := entry.(entryHash := Some(ComputeHash(hash, event.core, previous)));
      lastHash := entry.entryHash;
      if event.persisted {
        var _ := repo.Create(entry);
      }
    }
  }

  function LogStep(hash: Hash, s: State, event: Event): State {
    var entry := NewEntry(hash, event.core, event.extra, Remembered(s.lastHash));
    State(entry.entryHash, Append(s.table, event, entry))
  }

  function Append(table: seq<Entry>, event: Event, entry: Entry): seq<Entry> {
    if event.persisted then table + [entry] else table
  }

  // The state after a run from an empty store.
  function Run(hash: Hash, events: seq<Event>): State {
    if events == [] then State(None, [])
    else LogStep(hash, Run(hash, events[..|events| - 1]), events[|events| - 1])
  }

  // The same events with every persist succeeding.
  function AllPersisted(events: seq<Event>): seq<Event> {
    seq(|events|, i requires 0 <= i < |events| => events[i].(persisted := true))
  }

  // Every entry the logger made, stored or not.
  function Logged(hash: Hash, events: seq<Event>): seq<Entry> {
    Run(hash, AllPersisted(events)).table
  }

  function Stored(events: seq<Event>): nat {
    if events == [] then 0
    else Stored(events[..|events| - 1]) + if events[|events| - 1].persisted then 1 else 0
  }

  // No failed persist precedes one of the first `limit` successful ones.
  ghost predicate GapFree(events: seq<Event>, limit: nat) {
    forall i, j :: 0 <= i < j < |events| && !events[i].persisted && events[j].persisted ==> limit <= Stored(events[..j])
  }

  ghost predicate EventsStrictlyLater(events: seq<Event>) {
    forall i, j :: 0 <= i < j < |events| ==> events[i].core.timestamp.instant < events[j].core.timestamp.instant
  }

  lemma {:induction false} RunFacts(hash: Hash, events: seq<Event>)
    ensures var s := Run(hash, events);
      && |s.table| == Stored(events) <= |events|
      && (events == [] <==> s.lastHash == None)
      && (forall e <- s.table :: exists i :: 0 <= i < |events| && events[i].core == e.core)
  {
    if events != [] {
      var front := events[..|events| - 1];
      RunFacts(hash, front);
      forall e | e in Run(hash, events).table ensures exists i :: 0 <= i < |events| && events[i].core == e.core {
        if e in Run(hash, front).table {
          var i :| 0 <= i < |front| && front[i].core == e.core;
          assert events[i].core == e.core;
        } else {
          assert events[|events| - 1].core == e.core;
        }
      }
    }
  }

  lemma {:induction false} RunStrictlyLater(hash: Hash, events: seq<Event>)
    requires EventsStrictlyLater(events)
    ensures StrictlyLater(Run(hash, events).table)
  {
    if events != [] {
      var front := events[..|events| - 1];
      RunStrictlyLater(hash, front);
      RunFacts(hash, front);
      var t := Run(hash, front).table;
      forall k | 0 <= k < |t|
        ensures t[k].core.timestamp.instant < events[|events| - 1].core.timestamp.instant
      {
        assert t[k] in t;
      }
    }
  }

  // When nothing fails to persist, the store is the logger's own chain: linked, and ending in the remembered hash.
  lemma {:induction false} CompleteRun(hash: Hash, events: seq<Event>)
    requires forall i :: 0 <= i < |events| ==> events[i].persisted
    ensures var s := Run(hash, events);
      && Linked(hash, s.table) && |s.table| == |events|
      && s.lastHash == PreviousAt(s.table, |s.table|)
  {
    if events != [] {
      var front := events[..|events| - 1];
      CompleteRun(hash, front);
      RunFacts(hash, front);
      var s := Run(hash, front);
      var e := events[|events| - 1];
      AppendLinked(hash, s.table, NewEntry(hash, e.core, e.extra, Remembered(s.lastHash)));
      assert |s.table| > 0 ==> LinkedAt(hash, s.table, |s.table| - 1);
    }
  }

  lemma AppendLinked(hash: Hash, rows: seq<Entry>, e: Entry)
    requires e.entryHash == Some(ComputeHash(hash, e.core, e.previousHash))
    ensures Linked(hash, rows + [e]) <==> Linked(hash, rows) && e.previousHash == PreviousAt(rows, |rows|)
  {
    var more := rows + [e];
    forall i | 0 <= i < |rows| ensures LinkedAt(hash, more, i) <==> LinkedAt(hash, rows, i) {
    }
    assert PreviousAt(more, |rows|) == PreviousAt(rows, |rows|);
    if Linked(hash, more) {
      assert LinkedAt(hash, more, |rows|);
      assert forall i :: 0 <= i < |rows| ==> LinkedAt(hash, more, i);
    }
  }

  // The remembered hash does not depend on which persists succeed.
  lemma {:induction false} LastHashAgrees(hash: Hash, events: seq<Event>)
    ensures Run(hash, events).lastHash == Run(hash, AllPersisted(events)).lastHash
  {
    if events != [] {
      var n := |events| - 1;
      LastHashAgrees(hash, events[..n]);
      assert AllPersisted(events)[..n] == AllPersisted(events[..n]);
    }
  }

  // A collision between a stored entry and one that the logger made, stored or not.
  ghost predicate LoggedCollides(hash: Hash, pair: Collision, events: seq<Event>) {
    Collides(hash, pair, Run(hash, events).table, Logged(hash, events))
  }

  lemma LoggedCollidesLater(hash: Hash, pair: Collision, events: seq<Event>)
    requires events != [] && LoggedCollides(hash, pair, events[..|events| - 1])
    ensures LoggedCollides(hash, pair, events)
  {
    var front := events[..|events| - 1];
    assert AllPersisted(events)[..|events| - 1] == AllPersisted(front);
    CollidesWithin(hash, pair, Run(hash, front).table, Logged(hash, front), Run(hash, events).table,
                   Logged(hash, events));
  }

  // If something failed to persist, the remembered hash no longer names the last stored entry: or there is a collision.
  lemma GapBreaksLink(hash: Hash, events: seq<Event>) returns (collision: Option<Collision>)
    requires Stored(events) < |events|
    requires Linked(hash, Run(hash, events).table)
    ensures collision.Some? ==> LoggedCollides(hash, collision.value, events)
    ensures collision.None? ==>
      var s := Run(hash, events); Remembered(s.lastHash) != PreviousAt(s.table, |s.table|)
  {
    var s, full := Run(hash, events), Run(hash, AllPersisted(events));
    RunFacts(hash, events);
    LastHashAgrees(hash, events);
    CompleteRun(hash, AllPersisted(events));
    collision := None;
    if s.table != [] && s.lastHash == PreviousAt(s.table, |s.table|) {
      collision := TamperEvidence(hash, s.table, full.table);
    }
  }

  // The entry the logger makes at an event.
  function MadeAt(hash: Hash, events: seq<Event>, i: nat): Entry
    requires i < |events|
  {
    NewEntry(hash, events[i].core, events[i].extra, Remembered(Run(hash, events[..i]).lastHash))
  }

  // What the logger made at each event, and that whatever is stored is among it.
  lemma {:induction false} LoggedIs(hash: Hash, events: seq<Event>)
    ensures |Logged(hash, events)| == |events|
    ensures forall i :: 0 <= i < |events| ==> Logged(hash, events)[i] == MadeAt(hash, events, i)
    ensures forall e <- Run(hash, events).table :: e in Logged(hash, events)
  {
    if events != [] {
      var n := |events| - 1;
      LoggedIs(hash, events[..n]);
      LoggedGrows(hash, events);
      forall i | 0 <= i < n ensures MadeAt(hash, events[..n], i) == MadeAt(hash, events, i) {
        PrefixOfPrefix(events, n, i);
      }
    }
  }

  lemma LoggedGrows(hash: Hash, events: seq<Event>)
    requires events != []
    ensures var n := |events| - 1; Logged(hash, events) == Logged(hash, events[..n]) + [MadeAt(hash, events, n)]
  {
    var n := |events| - 1;
    LastHashAgrees(hash, events[..n]);
    assert AllPersisted(events)[..n] == AllPersisted(events[..n]);
  }

  lemma NoGapIffAllStored(events: seq<Event>)
    ensures Stored(events) <= |events|
    ensures Stored(events) == |events| <==> forall i :: 0 <= i < |events| ==> events[i].persisted
  {
    if events != [] {
      var n := |events| - 1;
      NoGapIffAllStored(events[..n]);
      assert forall i :: 0 <= i < n ==> events[..n][i] == events[i];
    }
  }

  lemma GapFreeStep(events: seq<Event>, limit: nat)
    requires events != []
    ensures var n := |events| - 1;
      GapFree(events, limit) <==>
        GapFree(events[..n], limit) &&
        (events[n].persisted && Stored(events[..n]) < limit ==> Stored(events[..n]) == n)
  {
    var n := |events| - 1;
    var front := events[..n];
    NoGapIffAllStored(front);
    assert forall j :: 0 <= j <= n ==> front[..j] == events[..j];
    if GapFree(front, limit) && (events[n].persisted && Stored(front) < limit ==> Stored(front) == n) {
      forall i, j | 0 <= i < j < |events| && !events[i].persisted && events[j].persisted
        ensures limit <= Stored(events[..j])
      {
        assert front[i] == events[i];
        if j < n {
          assert front[j] == events[j];
          assert limit <= Stored(front[..j]);
        }
      }
    }
    if GapFree(events, limit) {
      forall i, j | 0 <= i < j < |front| && !front[i].persisted && front[j].persisted
        ensures limit <= Stored(front[..j])
      {
        assert events[i] == front[i] && events[j] == front[j];
      }
      assert forall i :: 0 <= i < n && !front[i].persisted && events[n].persisted ==> limit <= Stored(events[..n]);
    }
  }

  lemma {:induction false} LinkedIffGapFree(hash: Hash, events: seq<Event>, limit: nat)
    returns (collision: Option<Collision>)
    ensures collision.Some? ==> LoggedCollides(hash, collision.value, events)
    ensures collision.None? ==>
      (Linked(hash, Take(Run(hash, events).table, limit)) <==> GapFree(events, limit))
  {
    collision := None;
    if events != [] {
      var n := |events| - 1;
      var front, last := events[..n], events[n];
      collision := LinkedIffGapFree(hash, front, limit);
      if collision.Some? {
        LoggedCollidesLater(hash, collision.value, events);
        return;
      }
      GapFreeStep(events, limit);
      RunFacts(hash, front);
      var s := Run(hash, front);
      if last.persisted && |s.table| < limit {
        AppendLinked(hash, s.table, NewEntry(hash, last.core, last.extra, Remembered(s.lastHash)));
        if |s.table| < n && Linked(hash, s.table) {
          collision := GapBreaksLink(hash, front);
          if collision.Some? {
            LoggedCollidesLater(hash, collision.value, events);
          }
        } else if |s.table| == n {
          NoGapIffAllStored(front);
          CompleteRun(hash, front);
          assert n > 0 ==> LinkedAt(hash, s.table, n - 1);
        }
      } else {
        assert Take(Run(hash, events).table, limit) == Take(s.table, limit);
      }
    }
  }

  // Audit gaps: from an empty store, with strictly increasing timestamps and no tampering, the walk over the first
  // `limit` rows accepts exactly when no failed persist precedes one of those rows: or the records of a stored entry
  // and of one that the logger made are produced, and they collide.
  lemma AcceptedIffGapFree(hash: Hash, events: seq<Event>, limit: nat, rows: seq<Entry>)
    returns (collision: Option<Collision>)
    requires EventsStrictlyLater(events)
    requires IsFetch(Run(hash, events).table, limit, rows)
    ensures collision.Some? ==> LoggedCollides(hash, collision.value, events)
    ensures collision.None? ==> (Linked(hash, rows) <==> GapFree(events, limit))
  {
    var table := Run(hash, events).table;
    var sorted :| IsTimeOrderOf(sorted, table) && rows == Take(sorted, limit);
    RunStrictlyLater(hash, events);
    TimeOrderUnique(sorted, table);
    collision := LinkedIffGapFree(hash, events, limit);
  }

  // What "order by timestamp descending, limit 1" may return for the table.
  ghost predicate IsLatestHash(table: seq<Entry>, answer: Option<Text>) {
    if table == [] then answer == None
    else exists e :: IsNewest(table, e) && answer == e.entryHash
  }

  ghost predicate IsNewest(table: seq<Entry>, e: Entry) {
    e in table && forall other <- table :: other.core.timestamp.instant <= e.core.timestamp.instant
  }

  // The table of a logger that asks for the latest hash before each entry, and the answers it gets.
  function RunReadingStore(hash: Hash, events: seq<Event>, answers: seq<Option<Text>>): seq<Entry>
    requires |answers| == |events|
  {
    if events == [] then []
    else
      var n := |events| - 1;
      Append(RunReadingStore(hash, events[..n], answers[..n]), events[n],
             NewEntry(hash, events[n].core, events[n].extra, answers[n]))
  }

  ghost predicate AnswersLatest(hash: Hash, events: seq<Event>, answers: seq<Option<Text>>)
    requires |answers| == |events|
  {
    forall n :: 0 <= n < |events| ==> AnswersLatestAt(hash, events, answers, n)
  }

  ghost predicate AnswersLatestAt(hash: Hash, events: seq<Event>, answers: seq<Option<Text>>, n: nat)
    requires |answers| == |events| && n < |events|
  {
    IsLatestHash(RunReadingStore(hash, events[..n], answers[..n]), answers[n])
  }

  lemma {:induction false} ReadingStoreTimes(hash: Hash, events: seq<Event>, answers: seq<Option<Text>>)
    requires |answers| == |events| && EventsStrictlyLater(events)
    ensures var table := RunReadingStore(hash, events, answers);
      && StrictlyLater(table)
      && (forall e <- table :: exists i :: 0 <= i < |events| && events[i].core == e.core)
  {
    if events != [] {
      var n := |events| - 1;
      ReadingStoreTimes(hash, events[..n], answers[..n]);
      var before, table := RunReadingStore(hash, events[..n], answers[..n]), RunReadingStore(hash, events, answers);
      forall e | e in table ensures exists i :: 0 <= i < |events| && events[i].core == e.core {
        if e in before {
          var i :| 0 <= i < n && events[..n][i].core == e.core;
          assert events[i].core == e.core;
        } else {
          assert events[n].core == e.core;
        }
      }
      forall k | 0 <= k < |before| ensures before[k].core.timestamp.instant < events[n].core.timestamp.instant {
        assert before[k] in before;
      }
    }
  }

  lemma LatestIsLast(table: seq<Entry>, answer: Option<Text>)
    requires StrictlyLater(table) && IsLatestHash(table, answer)
    ensures answer == PreviousAt(table, |table|)
  {
    if table != [] {
      var last := table[|table| - 1];
      var e :| IsNewest(table, e) && answer == e.entryHash;
      assert last in table;
    }
  }

  lemma EarlierAnswers(hash: Hash, events: seq<Event>, answers: seq<Option<Text>>)
    requires |answers| == |events| > 0 && AnswersLatest(hash, events, answers)
    ensures var n := |events| - 1;
      && AnswersLatest(hash, events[..n], answers[..n])
      && IsLatestHash(RunReadingStore(hash, events[..n], answers[..n]), answers[n])
  {
    var n := |events| - 1;
    forall k | 0 <= k < n ensures AnswersLatestAt(hash, events[..n], answers[..n], k) {
      EarlierAnswer(hash, events, answers, n, k);
    }
    assert AnswersLatestAt(hash, events, answers, n);
  }

  lemma EarlierAnswer(hash: Hash, events: seq<Event>, answers: seq<Option<Text>>, n: nat, k: nat)
    requires |answers| == |events| && k < n < |events| && AnswersLatestAt(hash, events, answers, k)
    ensures AnswersLatestAt(hash, events[..n], answers[..n], k)
  {
    PrefixOfPrefix(events, n, k);
    PrefixOfPrefix(answers, n, k);
  }

  lemma PrefixOfPrefix<T>(s: seq<T>, n: nat, k: nat)
    requires k <= n <= |s|
    ensures s[..n][..k] == s[..k]
  {
  }

  // With strictly increasing timestamps, a logger that asks the store for its latest hash leaves a linked store,
  // whatever fails to persist.
  lemma {:induction false} ReadingStoreAlwaysLinked(hash: Hash, events: seq<Event>, answers: seq<Option<Text>>)
    requires |answers| == |events| && EventsStrictlyLater(events) && AnswersLatest(hash, events, answers)
    ensures Linked(hash, RunReadingStore(hash, events, answers))
  {
    if events != [] {
      var n := |events| - 1;
      var table := RunReadingStore(hash, events[..n], answers[..n]);
      EarlierAnswers(hash, events, answers);
      ReadingStoreAlwaysLinked(hash, events[..n], answers[..n]);
      ReadingStoreTimes(hash, events[..n], answers[..n]);
      LatestIsLast(table, answers[n]);
      AppendLinked(hash, table, NewEntry(hash, events[n].core, events[n].extra, answers[n]));
    }
  }
}
