/** Splitting, joining and uniquely dividing text: shared by every component that prints and parses. */
module Strings {

  // If two texts agree and each is a run of `p`-elements followed by something that does not start with one,
  // then the runs agree and so do the remainders.
  lemma SpanUnique<T>(p: T -> bool, a: seq<T>, x: seq<T>, b: seq<T>, y: seq<T>)
    requires forall i :: 0 <= i < |a| ==> p(a[i])
    requires forall i :: 0 <= i < |b| ==> p(b[i])
    requires x == [] || !p(x[0])
    requires y == [] || !p(y[0])
    requires a + x == b + y
    ensures a == b && x == y
  {
    var w := a + x;
    assert forall i :: 0 <= i < |a| ==> w[i] == a[i];
    assert forall i :: 0 <= i < |b| ==> w[i] == (b + y)[i] == b[i];
    assert |a| < |w| ==> w[|a|] == x[0];
    assert |b| < |w| ==> w[|b|] == (b + y)[|b|] == y[0];
    CancelEqualLengths(a, x, b, y);
  }

  // Two equal concatenations whose first parts have equal length agree part by part.
  lemma CancelEqualLengths<T>(a: seq<T>, x: seq<T>, b: seq<T>, y: seq<T>)
    requires a + x == b + y && |a| == |b|
    ensures a == b && x == y
  {
    assert a == (a + x)[..|a|] && b == (b + y)[..|b|];
    assert x == (a + x)[|a|..] && y == (b + y)[|b|..];
  }

  // The position of the first `c` in `s`.
  function Find(s: string, c: char): (i: nat)
    requires c in s
    ensures i < |s| && s[i] == c && c !in s[..i]
  {
    if s[0] == c then 0 else Find(s[1..], c) + 1
  }

  lemma FindAfter(s: string, c: char, t: string)
    requires c !in s
    ensures c in s + [c] + t && Find(s + [c] + t, c) == |s|
  {
    var w := s + [c] + t;
    assert w[|s|] == c;
    var i := Find(w, c);
    assert forall k :: 0 <= k < |s| ==> w[k] == s[k];
    assert forall k :: 0 <= k < i ==> w[..i][k] == w[k];
  }

  // The pieces of `s` between separators; there is always at least one.
  function Split(s: string, c: char): (parts: seq<string>)
    ensures parts != []
    ensures forall i :: 0 <= i < |parts| ==> c !in parts[i]
    ensures Join(parts, c) == s
  {
    if c in s then
      var i := Find(s, c);
      var rest := Split(s[i + 1..], c);
      JoinCons(s[..i], rest, c);
      AroundFound(s, i);
      [s[..i]] + rest
    else [s]
  }

  ghost predicate IsSplit(parts: seq<string>, s: string, c: char, n: nat) {
    && 1 <= |parts| <= n
    && Join(parts, c) == s
    && (forall i :: 0 <= i < |parts| - 1 ==> c !in parts[i])
    && (|parts| < n ==> c !in parts[|parts| - 1])
  }

  lemma Assembled(s: string, c: char, i: nat, rest: seq<string>, n: nat)
    requires i < |s| && s[i] == c && c !in s[..i]
    requires n > 1 && IsSplit(rest, s[i + 1..], c, n - 1)
    ensures IsSplit([s[..i]] + rest, s, c, n)
  {
    JoinCons(s[..i], rest, c);
    PlainBeforeLast(s[..i], rest, c);
    AroundFound(s, i);
  }

  // Split into at most `n` pieces; the last piece keeps any further separators.
  function SplitN(s: string, c: char, n: nat): (parts: seq<string>)
    requires 1 <= n
    ensures IsSplit(parts, s, c, n)
  {
    if n == 1 || c !in s then [s]
    else
      var i := Find(s, c);
      var rest := SplitN(s[i + 1..], c, n - 1);
      Assembled(s, c, i, rest, n);
      [s[..i]] + rest
  }

  function Join(parts: seq<string>, c: char): string
    requires parts != []
  {
    if |parts| == 1 then parts[0] else parts[0] + [c] + Join(parts[1..], c)
  }

  lemma PlainBeforeLast(p: string, rest: seq<string>, c: char)
    requires rest != [] && c !in p && forall i :: 0 <= i < |rest| - 1 ==> c !in rest[i]
    ensures forall i :: 0 <= i < |[p] + rest| - 1 ==> c !in ([p] + rest)[i]
    ensures ([p] + rest)[|[p] + rest| - 1] == rest[|rest| - 1]
  {
  }

  lemma AroundFound<T>(s: seq<T>, i: nat)
    requires i < |s|
    ensures s[..i] + [s[i]] + s[i + 1..] == s
  {
  }

  lemma JoinCons(p: string, rest: seq<string>, c: char)
    requires rest != []
    ensures Join([p] + rest, c) == p + [c] + Join(rest, c)
  {
    assert ([p] + rest)[1..] == rest;
  }

  // Joining puts one separator between any two pieces.
  lemma {:induction false} JoinCount(parts: seq<string>, c: char)
    requires parts != [] && forall i :: 0 <= i < |parts| - 1 ==> c !in parts[i]
    ensures multiset(Join(parts, c))[c] == |parts| - 1 + multiset(parts[|parts| - 1])[c]
  {
    if |parts| > 1 {
      JoinCount(parts[1..], c);
      CountAfter(parts[0], Join(parts[1..], c), c);
    }
  }

  lemma CountAfter<T>(p: seq<T>, rest: seq<T>, x: T)
    requires x !in p
    ensures multiset(p + [x] + rest)[x] == multiset(rest)[x] + 1
  {
  }

  // A bounded split finds one piece more than there are separators, up to the bound.
  lemma SplitNCount(s: string, c: char, n: nat)
    requires 1 <= n
    ensures |SplitN(s, c, n)| == if multiset(s)[c] < n then multiset(s)[c] + 1 else n
  {
    JoinCount(SplitN(s, c, n), c);
  }

  lemma SplitCount(s: string, c: char)
    ensures |Split(s, c)| == multiset(s)[c] + 1
  {
    JoinCount(Split(s, c), c);
  }

  // Splitting undoes joining when no piece holds the separator.
  lemma {:induction false} SplitJoin(parts: seq<string>, c: char)
    requires parts != []
    requires forall i :: 0 <= i < |parts| ==> c !in parts[i]
    ensures Split(Join(parts, c), c) == parts
  {
    if |parts| == 1 {
    } else {
      var tail := Join(parts[1..], c);
      var s := parts[0] + [c] + tail;
      FindAfter(parts[0], c, tail);
      assert s[|parts[0]| + 1..] == tail;
      assert s[..|parts[0]|] == parts[0];
      SplitJoin(parts[1..], c);
    }
  }

  // Likewise for a bounded split: the last of `n` pieces may hold separators.
  lemma {:induction false} SplitNJoin(parts: seq<string>, c: char, n: nat)
    requires 1 <= |parts| == n
    requires forall i :: 0 <= i < |parts| - 1 ==> c !in parts[i]
    ensures SplitN(Join(parts, c), c, n) == parts
  {
    if n > 1 {
      var tail := Join(parts[1..], c);
      SplitNJoin(parts[1..], c, n - 1);
      SplitNCons(parts[0], tail, c, n);
      assert parts == [parts[0]] + parts[1..];
    }
  }

  // A separator-free piece in front of a separator is always the first piece.
  lemma SplitNCons(p: string, t: string, c: char, n: nat)
    requires 2 <= n && c !in p
    ensures SplitN(p + [c] + t, c, n) == [p] + SplitN(t, c, n - 1)
  {
    FindAfter(p, c, t);
    assert (p + [c] + t)[|p| + 1..] == t;
    assert (p + [c] + t)[..|p|] == p;
  }
}
