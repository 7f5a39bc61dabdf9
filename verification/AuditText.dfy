/** The JSON text that an audit entry hands to its digest, and why no two records share one text. */
module AuditText {
  import opened Wrappers
  import Decimal
  import Strings

  // Text is a sequence of UTF-16 code units.
  newtype CodeUnit = x: int | 0 <= x < 0x1_0000
  type Text = seq<CodeUnit>

  // The eleven fields that reach the digest, each in the form `compute_hash` gives it.
  datatype HashedFields = HashedFields(
    id: Text,
    timestamp: Text,
    userId: Option<Text>,
    tenantId: Option<Text>,
    action: Text,
    outcome: Text,
    resourceType: Option<Text>,
    resourceId: Option<Text>,
    clientIp: Option<Text>,
    statusCode: Option<int>,
    previousHash: Option<Text>)

  datatype Scalar = JNull | JNumber(n: int) | JString(t: Text)

  const HEX: string := "0123456789abcdef"

  function HexValue(c: char): Option<nat> {
    if '0' <= c <= '9' then Some(c as int - '0' as int)
    else if 'a' <= c <= 'f' then Some(c as int - 'a' as int + 10)
    else None
  }

  lemma HexValueOf(d: nat)
    requires d < 16
    ensures HexValue(HEX[d]) == Some(d)
  {
    if d < 10 {
      assert HEX[d] == Decimal.DIGITS[d];
    }
  }

  function Hex4(u: CodeUnit): string {
    var n := u as int;
    [HEX[n / 0x1000], HEX[n / 0x100 % 16], HEX[n / 0x10 % 16], HEX[n % 16]]
  }

  // ASCII-only escaping: short escapes where they exist, printable ASCII as is, `\uXXXX` otherwise.
  function EscapeUnit(u: CodeUnit): (s: string)
    ensures s != [] && s[0] != '"'
  {
    if u == 0x22 then "\\\""
    else if u == 0x5C then "\\\\"
    else if u == 0x08 then "\\b"
    else if u == 0x0C then "\\f"
    else if u == 0x0A then "\\n"
    else if u == 0x0D then "\\r"
    else if u == 0x09 then "\\t"
    else if 0x20 <= u <= 0x7E then [u as int as char]
    else "\\u" + Hex4(u)
  }

  // Reads one escaped code unit back.
  function UnescapeUnit(s: string): Option<(CodeUnit, string)> {
    if s == [] || s[0] == '"' then None
    else if s[0] != '\\' then
      if 0x20 <= s[0] as int <= 0x7E then Some((s[0] as int as CodeUnit, s[1..])) else None
    else if |s| < 2 then None
    else match s[1]
      case '"' => Some((0x22, s[2..]))
      case '\\' => Some((0x5C, s[2..]))
      case 'b' => Some((0x08, s[2..]))
      case 'f' => Some((0x0C, s[2..]))
      case 'n' => Some((0x0A, s[2..]))
      case 'r' => Some((0x0D, s[2..]))
      case 't' => Some((0x09, s[2..]))
      case 'u' =>
        if |s| < 6 then None
        else (match (HexValue(s[2]), HexValue(s[3]), HexValue(s[4]), HexValue(s[5]))
              case (Some(a), Some(b), Some(c), Some(d)) =>
                var n := a * 0x1000 + b * 0x100 + c * 0x10 + d;
                if n < 0x1_0000 then Some((n as CodeUnit, s[6..])) else None
              case _ => None)
      case _ => None
  }

  lemma Sixteenth(n: nat, place: nat)
    requires place == 1 || place == 0x10 || place == 0x100
    ensures n / place == n / (place * 0x10) * 0x10 + n / place % 16
  {
  }

  lemma HexDigits(n: nat)
    requires n < 0x1_0000
    ensures n / 0x1000 < 16
    ensures n / 0x1000 * 0x1000 + n / 0x100 % 16 * 0x100 + n / 0x10 % 16 * 0x10 + n % 16 == n
  {
    Sixteenth(n, 1);
    Sixteenth(n, 0x10);
    Sixteenth(n, 0x100);
  }

  lemma UnescapeHex(u: CodeUnit, rest: string)
    ensures UnescapeUnit("\\u" + Hex4(u) + rest) == Some((u, rest))
  {
    var s, n := "\\u" + Hex4(u) + rest, u as int;
    HexDigits(n);
    HexValueOf(n / 0x1000);
    HexValueOf(n / 0x100 % 16);
    HexValueOf(n / 0x10 % 16);
    HexValueOf(n % 16);
    assert s[0] == '\\' && s[1] == 'u' && s[2..6] == Hex4(u) && s[6..] == rest;
    assert s[2] == HEX[n / 0x1000] && s[3] == HEX[n / 0x100 % 16];
    assert s[4] == HEX[n / 0x10 % 16] && s[5] == HEX[n % 16];
  }

  lemma UnescapeEscape(u: CodeUnit, rest: string)
    ensures UnescapeUnit(EscapeUnit(u) + rest) == Some((u, rest))
  {
    var e := EscapeUnit(u);
    if |e| == 6 {
      UnescapeHex(u, rest);
    } else {
      var s := e + rest;
      assert s[|e|..] == rest && s[0] == e[0];
      assert |e| == 2 ==> s[1] == e[1];
    }
  }

  function Concat<T>(code: T -> string, t: seq<T>): string {
    if t == [] then "" else code(t[0]) + Concat(code, t[1..])
  }

  // A code that can be read back unit by unit and never starts a unit with `stop` is uniquely readable up to `stop`.
  lemma {:induction false} ConcatUnique<T(!new)>(code: T -> string, read: string -> Option<(T, string)>, stop: char,
                                                 a: seq<T>, x: string, b: seq<T>, y: string)
    requires forall u, rest :: read(code(u) + rest) == Some((u, rest))
    requires forall u :: code(u) != [] && code(u)[0] != stop
    requires Concat(code, a) + [stop] + x == Concat(code, b) + [stop] + y
    ensures a == b && x == y
  {
    var w := Concat(code, a) + [stop] + x;
    assert a == [] ==> w[0] == stop && w[1..] == x;
    assert b == [] ==> w[0] == stop && w[1..] == y;
    assert a != [] ==> w[0] == code(a[0])[0];
    assert b != [] ==> w[0] == code(b[0])[0];
    if a != [] && b != [] {
      var ra, rb := Concat(code, a[1..]) + [stop] + x, Concat(code, b[1..]) + [stop] + y;
      assert w == code(a[0]) + ra && w == code(b[0]) + rb;
      assert read(w) == Some((a[0], ra)) && read(w) == Some((b[0], rb));
      ConcatUnique(code, read, stop, a[1..], x, b[1..], y);
    }
  }

  function Escape(t: Text): string {
    Concat(EscapeUnit, t)
  }

  // A quoted string ends where its text ends, whatever follows.
  lemma EscapeUnique(a: Text, x: string, b: Text, y: string)
    requires Escape(a) + "\"" + x == Escape(b) + "\"" + y
    ensures a == b && x == y
  {
    forall u, rest ensures UnescapeUnit(EscapeUnit(u) + rest) == Some((u, rest)) {
      UnescapeEscape(u, rest);
    }
    ConcatUnique(EscapeUnit, UnescapeUnit, '"', a, x, b, y);
  }

  function PrintInt(n: int): (s: string)
    ensures s != [] && forall i :: 0 <= i < |s| ==> IsNumeric(s[i])
    ensures s[0] == '-' <==> n < 0
  {
    if n < 0 then "-" + Decimal.Print(-n) else Decimal.Print(n)
  }

  predicate IsNumeric(c: char) {
    c == '-' || Decimal.IsDigit(c)
  }

  lemma PrintIntInjective(m: int, n: int)
    requires PrintInt(m) == PrintInt(n)
    ensures m == n
  {
    assert PrintInt(m)[0] == PrintInt(n)[0];
    if m < 0 {
      var a, b := Decimal.Print(-m), Decimal.Print(-n);
      Strings.CancelEqualLengths("-", a, "-", b);
      Decimal.PrintInjective(-m, -n);
    } else {
      Decimal.PrintInjective(m, n);
    }
  }

  function PrintScalar(v: Scalar): string {
    match v
    case JNull => "null"
    case JNumber(n) => PrintInt(n)
    case JString(t) => "\"" + Escape(t) + "\""
  }

  predicate Delimited(s: string) {
    s != [] && (s[0] == ',' || s[0] == '}')
  }

  lemma SameKind(v: Scalar, x: string, w: Scalar, y: string)
    requires PrintScalar(v) + x == PrintScalar(w) + y
    ensures v.JNull? <==> w.JNull?
    ensures v.JNumber? <==> w.JNumber?
  {
    var a, b := PrintScalar(v), PrintScalar(w);
    assert a != [] && b != [];
    assert (a + x)[0] == a[0] && (b + y)[0] == b[0];
  }

  lemma NumberUnique(m: int, x: string, n: int, y: string)
    requires Delimited(x) && Delimited(y)
    requires PrintInt(m) + x == PrintInt(n) + y
    ensures m == n && x == y
  {
    Strings.SpanUnique(IsNumeric, PrintInt(m), x, PrintInt(n), y);
    PrintIntInjective(m, n);
  }

  lemma StringUnique(t: Text, x: string, u: Text, y: string)
    requires "\"" + Escape(t) + "\"" + x == "\"" + Escape(u) + "\"" + y
    ensures t == u && x == y
  {
    var a, b := Escape(t) + "\"" + x, Escape(u) + "\"" + y;
    assert "\"" + Escape(t) + "\"" + x == "\"" + a;
    assert "\"" + Escape(u) + "\"" + y == "\"" + b;
    Strings.CancelEqualLengths("\"", a, "\"", b);
    EscapeUnique(t, x, u, y);
  }

  // A printed scalar followed by a delimiter determines the scalar: null, numbers and strings never collide.
  lemma ScalarUnique(v: Scalar, x: string, w: Scalar, y: string)
    requires Delimited(x) && Delimited(y)
    requires PrintScalar(v) + x == PrintScalar(w) + y
    ensures v == w && x == y
  {
    SameKind(v, x, w, y);
    match v
    case JNull => Strings.CancelEqualLengths("null", x, "null", y);
    case JNumber(m) => NumberUnique(m, x, w.n, y);
    case JString(t) => StringUnique(t, x, w.t, y);
  }

  type Member = (string, Scalar)

  // The members of an object after its opening brace, in the order given.
  function Members(ms: seq<Member>): string
    decreases |ms|, 0
  {
    if ms == [] then "}" else "\"" + ms[0].0 + "\": " + (PrintScalar(ms[0].1) + Tail(ms[1..]))
  }

  function Tail(ms: seq<Member>): (s: string)
    ensures Delimited(s)
    decreases |ms|, 1
  {
    (if ms == [] then "" else ", ") + Members(ms)
  }

  ghost predicate SameKeys(v: seq<Member>, w: seq<Member>) {
    |v| == |w| && forall i :: 0 <= i < |v| ==> v[i].0 == w[i].0
  }

  lemma {:induction false} MembersUnique(v: seq<Member>, w: seq<Member>)
    requires SameKeys(v, w)
    requires Members(v) == Members(w)
    ensures v == w
  {
    if v != [] {
      var opening := "\"" + v[0].0 + "\": ";
      var x, y := Tail(v[1..]), Tail(w[1..]);
      Strings.CancelEqualLengths(opening, PrintScalar(v[0].1) + x, opening, PrintScalar(w[0].1) + y);
      ScalarUnique(v[0].1, x, w[0].1, y);
      var comma := if v[1..] == [] then "" else ", ";
      Strings.CancelEqualLengths(comma, Members(v[1..]), comma, Members(w[1..]));
      MembersUnique(v[1..], w[1..]);
      assert v == [v[0]] + v[1..] && w == [w[0]] + w[1..];
    }
  }

  function PrintObject(ms: seq<Member>): string {
    "{" + Members(ms)
  }

  lemma ObjectUnique(v: seq<Member>, w: seq<Member>)
    requires SameKeys(v, w)
    requires PrintObject(v) == PrintObject(w)
    ensures v == w
  {
    Strings.CancelEqualLengths("{", Members(v), "{", Members(w));
    MembersUnique(v, w);
  }

  function OptionalText(t: Option<Text>): Scalar {
    if t.None? then JNull else JString(t.value)
  }

  function OptionalNumber(n: Option<int>): Scalar {
    if n.None? then JNull else JNumber(n.value)
  }

  // The record with its keys in ascending order.
  function SortedMembers(f: HashedFields): seq<Member> {
    [("action", JString(f.action)),
     ("client_ip", OptionalText(f.clientIp)),
     ("id", JString(f.id)),
     ("outcome", JString(f.outcome)),
     ("previous_hash", OptionalText(f.previousHash)),
     ("resource_id", OptionalText(f.resourceId)),
     ("resource_type", OptionalText(f.resourceType)),
     ("status_code", OptionalNumber(f.statusCode)),
     ("tenant_id", OptionalText(f.tenantId)),
     ("timestamp", JString(f.timestamp)),
     ("user_id", OptionalText(f.userId))]
  }

  // The record as it is built, before its keys are sorted.
  function DataMembers(f: HashedFields): seq<Member> {
    [("id", JString(f.id)),
     ("timestamp", JString(f.timestamp)),
     ("user_id", OptionalText(f.userId)),
     ("tenant_id", OptionalText(f.tenantId)),
     ("action", JString(f.action)),
     ("outcome", JString(f.outcome)),
     ("resource_type", OptionalText(f.resourceType)),
     ("resource_id", OptionalText(f.resourceId)),
     ("client_ip", OptionalText(f.clientIp)),
     ("status_code", OptionalNumber(f.statusCode)),
     ("previous_hash", OptionalText(f.previousHash))]
  }

  // Strictly earlier in key order: the texts first differ, after `common` characters, in an ascending way.
  predicate Before(s: string, t: string, common: nat) {
    common < |t| && common <= |s| && s[..common] == t[..common] && (common == |s| || s[common] < t[common])
  }

  lemma SortedKeysAscend(f: HashedFields)
    ensures var ms := SortedMembers(f);
      && Before(ms[0].0, ms[1].0, 0) && Before(ms[1].0, ms[2].0, 0) && Before(ms[2].0, ms[3].0, 0)
      && Before(ms[3].0, ms[4].0, 0) && Before(ms[4].0, ms[5].0, 0) && Before(ms[5].0, ms[6].0, 9)
      && Before(ms[6].0, ms[7].0, 0) && Before(ms[7].0, ms[8].0, 0) && Before(ms[8].0, ms[9].0, 1)
      && Before(ms[9].0, ms[10].0, 0)
  {
  }

  // The sorted members are the record's own.
  lemma SortedMembersSame(f: HashedFields)
    ensures |SortedMembers(f)| == |DataMembers(f)|
    ensures forall m :: m in SortedMembers(f) <==> m in DataMembers(f)
  {
  }

  function HashText(f: HashedFields): string {
    PrintObject(SortedMembers(f))
  }

  lemma SortedMembersInjective(f: HashedFields, g: HashedFields)
    requires SortedMembers(f) == SortedMembers(g)
    ensures f == g
  {
    var v, w := SortedMembers(f), SortedMembers(g);
    assert v[0] == w[0] && v[1] == w[1] && v[2] == w[2] && v[3] == w[3] && v[4] == w[4] && v[5] == w[5];
    assert v[6] == w[6] && v[7] == w[7] && v[8] == w[8] && v[9] == w[9] && v[10] == w[10];
  }

  lemma SortedSameKeys(f: HashedFields, g: HashedFields)
    ensures SameKeys(SortedMembers(f), SortedMembers(g))
  {
  }

  // The text determines all eleven fields.
  lemma HashTextInjective(f: HashedFields, g: HashedFields)
    requires HashText(f) == HashText(g)
    ensures f == g
  {
    SortedSameKeys(f, g);
    ObjectUnique(SortedMembers(f), SortedMembers(g));
    SortedMembersInjective(f, g);
  }
}
