/** The compact text form of an encrypted value: `v{version}:{key_id}:{algorithm}:{ciphertext}`. */
module CompactForm {
  import opened Wrappers
  import Decimal
  import opened Strings

  type Version = n: nat | n < 0x1_0000_0000

  datatype EncryptedValue = EncryptedValue(ciphertext: string, keyVersion: Version, keyId: string, algorithm: string)

  datatype CompactError = InvalidFormat | MissingPrefix | InvalidVersion

  function ToCompact(v: EncryptedValue): string {
    "v" + Decimal.Print(v.keyVersion) + ":" + v.keyId + ":" + v.algorithm + ":" + v.ciphertext
  }

  // An unsigned 32-bit number: an optional plus sign, then at least one digit; out-of-range values are refused.
  function ParseVersion(s: string): Option<Version> {
    var digits := if s != [] && s[0] == '+' then s[1..] else s;
    if digits == [] || !Decimal.AllDigits(digits) then None
    else if Decimal.Parse(digits) < 0x1_0000_0000 then Some(Decimal.Parse(digits))
    else None
  }

  function FromCompact(s: string): Result<EncryptedValue, CompactError> {
    var parts := SplitN(s, ':', 4);
    if |parts| != 4 then Err(InvalidFormat)
    else if parts[0] == [] || parts[0][0] != 'v' then Err(MissingPrefix)
    else match ParseVersion(parts[0][1..])
      case None => Err(InvalidVersion)
      case Some(n) => Ok(EncryptedValue(parts[3], n, parts[1], parts[2]))
  }

  lemma ParsePrintedVersion(n: Version)
    ensures ParseVersion(Decimal.Print(n)) == Some(n)
  {
    Decimal.ParsePrint(n);
  }

  lemma JoinFour(a: string, b: string, c: string, d: string)
    ensures Join([a, b, c, d], ':') == a + ":" + b + ":" + c + ":" + d
  {
    assert [a, b, c, d][1..] == [b, c, d] && [b, c, d][1..] == [c, d] && [c, d][1..] == [d];
    assert Join([c, d], ':') == c + ":" + d;
    assert Join([b, c, d], ':') == b + ":" + (c + ":" + d);
  }

  lemma SplitFour(a: string, b: string, c: string, d: string)
    requires ':' !in a && ':' !in b && ':' !in c
    ensures SplitN(a + ":" + b + ":" + c + ":" + d, ':', 4) == [a, b, c, d]
  {
    JoinFour(a, b, c, d);
    SplitNJoin([a, b, c, d], ':', 4);
  }

  lemma VersionTextPlain(n: nat)
    ensures ':' !in Decimal.Print(n)
  {
  }

  // Reading back what was written gives the same value exactly when key id and algorithm hold no colon; the
  // ciphertext may be anything.
  lemma RoundTripIff(v: EncryptedValue)
    ensures FromCompact(ToCompact(v)) == Ok(v) <==> ':' !in v.keyId && ':' !in v.algorithm
  {
    var version := "v" + Decimal.Print(v.keyVersion);
    VersionTextPlain(v.keyVersion);
    if ':' !in v.keyId && ':' !in v.algorithm {
      SplitFour(version, v.keyId, v.algorithm, v.ciphertext);
      assert version[1..] == Decimal.Print(v.keyVersion);
      ParsePrintedVersion(v.keyVersion);
    }
    // The pieces before the last never hold a separator, so a colon in them cannot come back.
  }

  lemma CountFour<T>(a: seq<T>, b: seq<T>, c: seq<T>, d: seq<T>, x: T)
    ensures multiset(a + [x] + b + [x] + c + [x] + d)[x] ==
      3 + multiset(a)[x] + multiset(b)[x] + multiset(c)[x] + multiset(d)[x]
  {
  }

  // Two ways to write one text: where the first has separators to spare, the second has them in its last piece.
  lemma SpareSeparator<T>(a: seq<T>, b: seq<T>, c: seq<T>, d: seq<T>, p: seq<T>, q: seq<T>, r: seq<T>, s: seq<T>, x: T)
    requires a + [x] + b + [x] + c + [x] + d == p + [x] + q + [x] + r + [x] + s
    requires x in b || x in c
    requires x !in p && x !in q && x !in r
    ensures x in s
  {
    CountFour(a, b, c, d, x);
    CountFour(p, q, r, s, x);
  }

  // The parts of the text between its first three colons.
  lemma CompactPieces(v: EncryptedValue)
    requires ':' !in v.keyId && ':' !in v.algorithm
    ensures SplitN(ToCompact(v), ':', 4) == ["v" + Decimal.Print(v.keyVersion), v.keyId, v.algorithm, v.ciphertext]
  {
    VersionTextPlain(v.keyVersion);
    SplitFour("v" + Decimal.Print(v.keyVersion), v.keyId, v.algorithm, v.ciphertext);
  }

  // Why a text is refused: too few colons, another first letter, or a version that is no 32-bit number.
  lemma RefusalIff(s: string)
    ensures FromCompact(s) == Err(InvalidFormat) <==> multiset(s)[':'] < 3
    ensures FromCompact(s) == Err(MissingPrefix) <==> multiset(s)[':'] >= 3 && s[0] != 'v'
    ensures FromCompact(s) == Err(InvalidVersion) <==>
      multiset(s)[':'] >= 3 && s[0] == 'v' && ParseVersion(SplitN(s, ':', 4)[0][1..]).None?
  {
    SplitNCount(s, ':', 4);
    var parts := SplitN(s, ':', 4);
    if |parts| == 4 {
      FirstOfJoin(parts);
    }
  }

  lemma FirstOfJoin(parts: seq<string>)
    requires |parts| > 1
    ensures var s := Join(parts, ':'); s != [] && s[0] == if parts[0] == [] then ':' else parts[0][0]
  {
  }

  // A colon in key id or algorithm pushes another colon into what reads back as the ciphertext.
  lemma ColonSpills(v: EncryptedValue)
    requires ':' in v.keyId || ':' in v.algorithm
    requires FromCompact(ToCompact(v)).Ok?
    ensures ':' in FromCompact(ToCompact(v)).value.ciphertext
  {
    var parts := SplitN(ToCompact(v), ':', 4);
    var p, q, r, s := parts[0], parts[1], parts[2], parts[3];
    assert parts == [p, q, r, s];
    JoinFour(p, q, r, s);
    SpareSeparator("v" + Decimal.Print(v.keyVersion), v.keyId, v.algorithm, v.ciphertext, p, q, r, s, ':');
  }

  // With a plain algorithm, only a colon in the key id can spoil what is read back.
  lemma ReadBackIff(v: EncryptedValue)
    requires ':' !in v.algorithm
    ensures FromCompact(ToCompact(v)) == Ok(v) <==> ':' !in v.keyId
    ensures FromCompact(ToCompact(v)).Ok? && ':' in v.keyId ==> ':' in FromCompact(ToCompact(v)).value.ciphertext
  {
    RoundTripIff(v);
    if ':' in v.keyId && FromCompact(ToCompact(v)).Ok? {
      ColonSpills(v);
    }
  }

  // The version texts that the printer itself would write.
  predicate Canonical(version: string) {
    version != [] && version[0] != '+' && (version[0] != '0' || version == "0")
  }

  lemma CanonicalIff(text: string, n: Version)
    requires ParseVersion(text) == Some(n)
    ensures Canonical(text) <==> text == Decimal.Print(n)
  {
    if Canonical(text) {
      Decimal.PrintParse(text);
    }
  }

  // The pieces of an accepted text, and the text as their concatenation.
  lemma AcceptedPieces(s: string, v: EncryptedValue)
    requires FromCompact(s) == Ok(v)
    ensures var version := SplitN(s, ':', 4)[0];
      && version != [] && ParseVersion(version[1..]) == Some(v.keyVersion)
      && ':' !in v.keyId && ':' !in v.algorithm
      && s == "v" + version[1..] + ":" + v.keyId + ":" + v.algorithm + ":" + v.ciphertext
  {
    PiecesOfAccepted(s, v);
    HeadAndTail(SplitN(s, ':', 4)[0], 'v');
    JoinFour(SplitN(s, ':', 4)[0], v.keyId, v.algorithm, v.ciphertext);
  }

  lemma HeadAndTail<T>(s: seq<T>, x: T)
    requires s != [] && s[0] == x
    ensures s == [x] + s[1..]
  {
  }

  lemma PiecesOfAccepted(s: string, v: EncryptedValue)
    requires FromCompact(s) == Ok(v)
    ensures SplitN(s, ':', 4) == [SplitN(s, ':', 4)[0], v.keyId, v.algorithm, v.ciphertext]
    ensures SplitN(s, ':', 4)[0] != [] && SplitN(s, ':', 4)[0][0] == 'v'
    ensures ParseVersion(SplitN(s, ':', 4)[0][1..]) == Some(v.keyVersion)
  {
  }

  lemma FirstPieceDecides<T>(p: seq<T>, q: seq<T>, rest: seq<T>)
    ensures p + rest == q + rest <==> p == q
  {
    if p + rest == q + rest {
      assert |p| == |q|;
      CancelEqualLengths(p, rest, q, rest);
    }
  }

  // Every accepted text reprints to a form that parses to the same value; the form is the text itself exactly when
  // the version was written without plus sign and leading zeros.
  lemma NormalForm(s: string, v: EncryptedValue)
    requires FromCompact(s) == Ok(v)
    ensures FromCompact(ToCompact(v)) == Ok(v)
    ensures ToCompact(v) == s <==> Canonical(SplitN(s, ':', 4)[0][1..])
  {
    AcceptedPieces(s, v);
    RoundTripIff(v);
    SameTextIff(SplitN(s, ':', 4)[0][1..], v);
  }

  lemma SameTextIff(text: string, v: EncryptedValue)
    requires ParseVersion(text) == Some(v.keyVersion)
    ensures ToCompact(v) == "v" + text + ":" + v.keyId + ":" + v.algorithm + ":" + v.ciphertext <==> Canonical(text)
  {
    var printed := Decimal.Print(v.keyVersion);
    var rest := ":" + v.keyId + ":" + v.algorithm + ":" + v.ciphertext;
    assert ToCompact(v) == "v" + printed + rest;
    assert "v" + text + ":" + v.keyId + ":" + v.algorithm + ":" + v.ciphertext == "v" + text + rest;
    FirstPieceDecides("v" + printed, "v" + text, rest);
    PrefixKept(printed, text);
    CanonicalIff(text, v.keyVersion);
  }

  lemma PrefixKept(p: string, q: string)
    ensures "v" + p == "v" + q <==> p == q
  {
    if "v" + p == "v" + q {
      CancelEqualLengths("v", p, "v", q);
    }
  }
}
