/** Structured cache keys: `{service}:{type}:{tenant_id}:{identifier}`. */
module CacheKeys {
  import opened Wrappers
  import opened Strings

  datatype ServicePrefix = Ingestion | Retrieval | Orchestrator | Celery

  datatype KeyType = Embedding | Query | Session | Job | Lock

  // A tenant identifier is a 128-bit UUID, here as its 32 hexadecimal digits.
  newtype Nibble = n: int | 0 <= n < 16
  type Tenant = t: seq<Nibble> | |t| == 32 witness seq(32, _ => 0)

  datatype CacheKey = CacheKey(service: ServicePrefix, keyType: KeyType, tenant: Tenant, identifier: string)

  datatype KeyError = TooFewParts | UnknownService | UnknownType | BadTenant

  function ServiceText(s: ServicePrefix): string {
    match s
    case Ingestion => "ing"
    case Retrieval => "ret"
    case Orchestrator => "orc"
    case Celery => "cel"
  }

  function ParseService(s: string): Option<ServicePrefix> {
    if s == "ing" then Some(Ingestion)
    else if s == "ret" then Some(Retrieval)
    else if s == "orc" then Some(Orchestrator)
    else if s == "cel" then Some(Celery)
    else None
  }

  function TypeText(t: KeyType): string {
    match t
    case Embedding => "emb"
    case Query => "query"
    case Session => "sess"
    case Job => "job"
    case Lock => "lock"
  }

  function ParseKeyType(s: string): Option<KeyType> {
    if s == "emb" then Some(Embedding)
    else if s == "query" then Some(Query)
    else if s == "sess" then Some(Session)
    else if s == "job" then Some(Job)
    else if s == "lock" then Some(Lock)
    else None
  }

  // ---------------------------------------------------------------- tenants (section 4 of RFC 9562)

  function HexChar(n: Nibble): char {
    if n < 10 then ('0' as int + n as int) as char else ('a' as int + n as int - 10) as char
  }

  function HexText(t: seq<Nibble>): (s: string)
    ensures |s| == |t|
  {
    seq(|t|, i requires 0 <= i < |t| => HexChar(t[i]))
  }

  function HexDigit(c: char): Option<Nibble> {
    if '0' <= c <= '9' then Some((c as int - '0' as int) as Nibble)
    else if 'a' <= c <= 'f' then Some((c as int - 'a' as int + 10) as Nibble)
    else if 'A' <= c <= 'F' then Some((c as int - 'A' as int + 10) as Nibble)
    else None
  }

  function ParseHex(s: string): (r: Option<seq<Nibble>>)
    ensures r.Some? ==> |r.value| == |s|
  {
    if s == [] then Some([])
    else match (HexDigit(s[0]), ParseHex(s[1..]))
      case (Some(d), Some(ds)) => Some([d] + ds)
      case _ => None
  }

  function TenantText(t: Tenant): string {
    HexText(t[..8]) + "-" + HexText(t[8..12]) + "-" + HexText(t[12..16]) + "-" + HexText(t[16..20]) + "-" +
    HexText(t[20..])
  }

  // The hyphens stand after 8, 12, 16 and 20 digits.
  function ParseHyphenated(s: string): Option<Tenant>
    requires |s| == 36
  {
    if s[8] == '-' && s[13] == '-' && s[18] == '-' && s[23] == '-' then
      ParseHex(s[..8] + s[9..13] + s[14..18] + s[19..23] + s[24..])
    else None
  }

  // Plain, hyphenated and braced forms, in either case of the digits. (The URN form holds colons, so a split key can
  // never offer it.)
  function ParseTenant(s: string): Option<Tenant> {
    if |s| == 32 then ParseHex(s)
    else if |s| == 36 then ParseHyphenated(s)
    else if |s| == 38 && s[0] == '{' && s[37] == '}' then ParseHyphenated(s[1..37])
    else None
  }

  lemma HexDigitOf(n: Nibble)
    ensures HexDigit(HexChar(n)) == Some(n)
  {
  }

  lemma {:induction false} ParseHexText(t: seq<Nibble>)
    ensures ParseHex(HexText(t)) == Some(t)
  {
    if t != [] {
      HexDigitOf(t[0]);
      ParseHexText(t[1..]);
      assert HexText(t)[1..] == HexText(t[1..]) && [t[0]] + t[1..] == t;
    }
  }

  lemma HexTextConcat(a: seq<Nibble>, b: seq<Nibble>)
    ensures HexText(a + b) == HexText(a) + HexText(b)
  {
  }

  lemma HexTextPlain(t: seq<Nibble>)
    ensures ':' !in HexText(t)
  {
    forall i | 0 <= i < |t| ensures HexChar(t[i]) != ':' {
    }
  }

  lemma TenantTextPlain(t: Tenant)
    ensures ':' !in TenantText(t)
  {
    HexTextPlain(t[..8]);
    HexTextPlain(t[8..12]);
    HexTextPlain(t[12..16]);
    HexTextPlain(t[16..20]);
    HexTextPlain(t[20..]);
  }

  lemma HyphenSlices(a: string, b: string, c: string, d: string, e: string)
    requires |a| == 8 && |b| == |c| == |d| == 4 && |e| == 12
    ensures var s := a + "-" + b + "-" + c + "-" + d + "-" + e;
      && |s| == 36 && s[8] == '-' && s[13] == '-' && s[18] == '-' && s[23] == '-'
      && s[..8] == a && s[9..13] == b && s[14..18] == c && s[19..23] == d && s[24..] == e
  {
  }

  lemma HexTextSlices(t: Tenant)
    ensures HexText(t[..8]) + HexText(t[8..12]) + HexText(t[12..16]) + HexText(t[16..20]) + HexText(t[20..]) ==
            HexText(t)
  {
    HexTextConcat(t[..8], t[8..12]);
    assert t[..8] + t[8..12] == t[..12];
    HexTextConcat(t[..12], t[12..16]);
    assert t[..12] + t[12..16] == t[..16];
    HexTextConcat(t[..16], t[16..20]);
    assert t[..16] + t[16..20] == t[..20];
    HexTextConcat(t[..20], t[20..]);
    assert t[..20] + t[20..] == t;
  }

  // Reading a tenant's hyphenated text gives the tenant.
  lemma ParseTenantText(t: Tenant)
    ensures ParseTenant(TenantText(t)) == Some(t)
  {
    HyphenSlices(HexText(t[..8]), HexText(t[8..12]), HexText(t[12..16]), HexText(t[16..20]), HexText(t[20..]));
    HexTextSlices(t);
    ParseHexText(t);
  }

  // ---------------------------------------------------------------- keys

  function Print(k: CacheKey): string {
    ServiceText(k.service) + ":" + TypeText(k.keyType) + ":" + TenantText(k.tenant) + ":" + k.identifier
  }

  function PrintWithPrefix(k: CacheKey, prefix: string): string {
    if prefix == "" then Print(k) else prefix + ":" + Print(k)
  }

  function Parse(s: string): Result<CacheKey, KeyError> {
    var parts := Split(s, ':');
    if |parts| < 4 then Err(TooFewParts)
    else match ParseService(parts[0])
      case None => Err(UnknownService)
      case Some(service) =>
        match ParseKeyType(parts[1])
        case None => Err(UnknownType)
        case Some(keyType) =>
          match ParseTenant(parts[2])
          case None => Err(BadTenant)
          case Some(tenant) => Ok(CacheKey(service, keyType, tenant, Join(parts[3..], ':')))
  }

  lemma JoinFields(a: string, b: string, c: string, rest: seq<string>)
    requires rest != []
    ensures Join([a, b, c] + rest, ':') == a + ":" + b + ":" + c + ":" + Join(rest, ':')
  {
    var p3 := [c] + rest;
    var p2 := [b] + p3;
    var p1 := [a] + p2;
    assert p1[1..] == p2 && p2[1..] == p3 && p3[1..] == rest && p1 == [a, b, c] + rest;
    var j := Join(rest, ':');
    assert Join(p3, ':') == c + ":" + j;
    assert Join(p2, ':') == b + ":" + (c + ":" + j);
    assert Join(p1, ':') == a + ":" + (b + ":" + (c + ":" + j));
  }

  lemma SplitFields(a: string, b: string, c: string, d: string)
    requires ':' !in a && ':' !in b && ':' !in c
    ensures Split(a + ":" + b + ":" + c + ":" + d, ':') == [a, b, c] + Split(d, ':')
  {
    JoinFields(a, b, c, Split(d, ':'));
    SplitJoin([a, b, c] + Split(d, ':'), ':');
  }

  lemma ServiceRoundTrip(s: ServicePrefix)
    ensures ParseService(ServiceText(s)) == Some(s) && ':' !in ServiceText(s)
  {
  }

  lemma TypeRoundTrip(t: KeyType)
    ensures ParseKeyType(TypeText(t)) == Some(t) && ':' !in TypeText(t)
  {
  }

  // The fields of the text between its first three colons, and all that follows as the identifier.
  lemma PrintedPieces(k: CacheKey)
    ensures var parts := Split(Print(k), ':');
      && |parts| >= 4
      && parts[0] == ServiceText(k.service) && parts[1] == TypeText(k.keyType) && parts[2] == TenantText(k.tenant)
      && Join(parts[3..], ':') == k.identifier
  {
    ServiceRoundTrip(k.service);
    TypeRoundTrip(k.keyType);
    TenantTextPlain(k.tenant);
    SplitFields(ServiceText(k.service), TypeText(k.keyType), TenantText(k.tenant), k.identifier);
    assert Split(Print(k), ':')[3..] == Split(k.identifier, ':');
  }

  // Why a text is refused, in the order of its fields.
  lemma RefusalIff(s: string)
    ensures Parse(s) == Err(TooFewParts) <==> multiset(s)[':'] < 3
    ensures multiset(s)[':'] >= 3 ==>
      var parts := Split(s, ':');
      && |parts| >= 4
      && (Parse(s) == Err(UnknownService) <==> ParseService(parts[0]).None?)
      && (Parse(s) == Err(UnknownType) <==> ParseService(parts[0]).Some? && ParseKeyType(parts[1]).None?)
      && (Parse(s) == Err(BadTenant) <==>
            ParseService(parts[0]).Some? && ParseKeyType(parts[1]).Some? && ParseTenant(parts[2]).None?)
  {
    SplitCount(s, ':');
  }

  // The same digits, with any letters in upper case.
  ghost predicate UpperOf(upper: string, text: string) {
    |upper| == |text| && forall i :: 0 <= i < |text| ==>
      upper[i] == text[i] || ('a' <= text[i] <= 'f' && upper[i] as int == text[i] as int - 32)
  }

  lemma {:induction false} ParseUpper(upper: string, t: seq<Nibble>)
    requires UpperOf(upper, HexText(t))
    ensures ParseHex(upper) == Some(t)
  {
    if t != [] {
      assert HexText(t)[1..] == HexText(t[1..]);
      ParseUpper(upper[1..], t[1..]);
      HexDigitOf(t[0]);
      assert HexText(t)[0] == HexChar(t[0]);
      assert [t[0]] + t[1..] == t;
    }
  }

  // A tenant is also read from its digits alone, in either case, and from its hyphenated form in braces.
  lemma OtherTenantForms(t: Tenant)
    ensures ParseTenant(HexText(t)) == Some(t)
    ensures ParseTenant("{" + TenantText(t) + "}") == Some(t)
    ensures forall upper :: |upper| == 32 && UpperOf(upper, HexText(t)) ==> ParseTenant(upper) == Some(t)
  {
    forall upper | |upper| == 32 && UpperOf(upper, HexText(t)) ensures ParseTenant(upper) == Some(t) {
      ParseUpper(upper, t);
    }
    ParseHexText(t);
    ParseTenantText(t);
    var s := "{" + TenantText(t) + "}";
    HyphenSlices(HexText(t[..8]), HexText(t[8..12]), HexText(t[12..16]), HexText(t[16..20]), HexText(t[20..]));
    assert |s| == 38 && s[0] == '{' && s[37] == '}' && s[1..37] == TenantText(t);
  }

  // Every printed key parses back to itself, whatever the identifier: empty, or holding colons.
  lemma ParsePrint(k: CacheKey)
    ensures Parse(Print(k)) == Ok(k)
  {
    ServiceRoundTrip(k.service);
    TypeRoundTrip(k.keyType);
    TenantTextPlain(k.tenant);
    ParseTenantText(k.tenant);
    SplitFields(ServiceText(k.service), TypeText(k.keyType), TenantText(k.tenant), k.identifier);
    var parts := Split(Print(k), ':');
    assert parts[3..] == Split(k.identifier, ':');
  }

  // Under any fixed prefix, different keys print differently.
  lemma PrintInjective(k: CacheKey, m: CacheKey, prefix: string)
    requires PrintWithPrefix(k, prefix) == PrintWithPrefix(m, prefix)
    ensures k == m
  {
    if prefix != "" {
      CancelEqualLengths(prefix + ":", Print(k), prefix + ":", Print(m));
    }
    ParsePrint(k);
    ParsePrint(m);
  }

  lemma ParsedFields(s: string, k: CacheKey)
    requires Parse(s) == Ok(k)
    ensures var parts := Split(s, ':');
      && |parts| >= 4
      && parts[0] == ServiceText(k.service) && parts[1] == TypeText(k.keyType)
      && k.identifier == Join(parts[3..], ':')
  {
    var parts := Split(s, ':');
    ParsedService(parts[0], k.service);
    ParsedType(parts[1], k.keyType);
  }

  // A service is read from its own text and from no other; likewise a type.
  lemma ParsedService(text: string, s: ServicePrefix)
    ensures ParseService(text) == Some(s) <==> text == ServiceText(s)
  {
  }

  lemma ParsedType(text: string, t: KeyType)
    ensures ParseKeyType(text) == Some(t) <==> text == TypeText(t)
  {
  }

  lemma PrintedTenant(k: CacheKey)
    ensures |Split(Print(k), ':')| > 2 && Split(Print(k), ':')[2] == TenantText(k.tenant)
  {
    TenantTextPlain(k.tenant);
    ServiceRoundTrip(k.service);
    TypeRoundTrip(k.keyType);
    SplitFields(ServiceText(k.service), TypeText(k.keyType), TenantText(k.tenant), k.identifier);
  }

  lemma FirstThree<T>(p: seq<T>)
    requires |p| >= 3
    ensures p == [p[0], p[1], p[2]] + p[3..]
  {
  }

  lemma JoinedFields(parts: seq<string>)
    requires |parts| >= 4
    ensures Join(parts, ':') == parts[0] + ":" + parts[1] + ":" + parts[2] + ":" + Join(parts[3..], ':')
  {
    FirstThree(parts);
    JoinFields(parts[0], parts[1], parts[2], parts[3..]);
  }

  // An accepted text is the printed form of its key exactly when its tenant is in the hyphenated lower-case form.
  lemma NormalForm(s: string, k: CacheKey)
    requires Parse(s) == Ok(k)
    ensures Print(k) == s <==> Split(s, ':')[2] == TenantText(k.tenant)
  {
    ParsedFields(s, k);
    JoinedFields(Split(s, ':'));
    PrintedTenant(k);
  }
}
