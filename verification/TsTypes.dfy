/**
 The fragment of TypeScript's type grammar that the generator prints: postfix `[]` binds tighter than `&`, which
 binds tighter than `|`. A type is kept in the layers of that grammar, so a value of `UnionT` is a parse.
 */
module TsTypes {
  import opened Wrappers
  import Strings

  datatype UnionT = UnionT(alts: seq<InterT>)
  datatype InterT = InterT(parts: seq<PostfixT>)
  datatype PostfixT = PostfixT(atom: Atom, dims: nat)
  datatype Atom = Keyword(word: Word) | Name(name: string) | Record(value: UnionT)
  datatype Word = StringWord | NumberWord | BooleanWord | NullWord | UnknownWord

  function WordText(w: Word): string {
    match w
    case StringWord => "string"
    case NumberWord => "number"
    case BooleanWord => "boolean"
    case NullWord => "null"
    case UnknownWord => "unknown"
  }

  predicate IsNameChar(c: char) {
    'a' <= c <= 'z' || 'A' <= c <= 'Z' || '0' <= c <= '9' || c == '_' || c == '$'
  }

  function WordOf(s: string): Option<Word> {
    if s == "string" then Some(StringWord)
    else if s == "number" then Some(NumberWord)
    else if s == "boolean" then Some(BooleanWord)
    else if s == "null" then Some(NullWord)
    else if s == "unknown" then Some(UnknownWord)
    else None
  }

  // Words that mean something else in a type, beside those the generator prints.
  predicate IsReserved(s: string) {
    || s == "any" || s == "never" || s == "object" || s == "void" || s == "undefined" || s == "symbol"
    || s == "bigint" || s == "this" || s == "true" || s == "false" || s == "typeof" || s == "keyof"
    || s == "readonly" || s == "unique" || s == "infer" || s == "asserts" || s == "new" || s == "import"
    || s == "function"
    || s == "break" || s == "case" || s == "catch" || s == "class" || s == "const" || s == "continue"
    || s == "debugger" || s == "default" || s == "delete" || s == "do" || s == "else" || s == "enum"
    || s == "export" || s == "extends" || s == "finally" || s == "for" || s == "if" || s == "in"
    || s == "instanceof" || s == "return" || s == "super" || s == "switch" || s == "throw" || s == "try"
    || s == "var" || s == "while" || s == "with"
  }

  // The name of an interface, as a type: in particular it starts with no digit.
  predicate IsTypeName(s: string) {
    && s != [] && (forall i :: 0 <= i < |s| ==> IsNameChar(s[i])) && !('0' <= s[0] <= '9')
    && WordOf(s).None? && s != "Record" && !IsReserved(s)
  }

  // ---------------------------------------------------------------- printing

  predicate WellFormed(u: UnionT) {
    WellFormedAlts(u.alts)
  }

  predicate WellFormedAlts(alts: seq<InterT>) {
    && alts != [] && WellFormedParts(alts[0].parts)
    && (|alts| > 1 ==> WellFormedAlts(alts[1..]))
  }

  predicate WellFormedParts(parts: seq<PostfixT>) {
    && parts != [] && WellFormedPostfix(parts[0])
    && (|parts| > 1 ==> WellFormedParts(parts[1..]))
  }

  predicate WellFormedPostfix(p: PostfixT) {
    WellFormedAtom(p.atom)
  }

  predicate WellFormedAtom(a: Atom) {
    match a
    case Keyword(_) => true
    case Name(n) => IsTypeName(n)
    case Record(v) => WellFormed(v)
  }

  function ToText(u: UnionT): string
    requires WellFormed(u)
  {
    AltsText(u.alts)
  }

  function AltsText(alts: seq<InterT>): string
    requires WellFormedAlts(alts)
  {
    PartsText(alts[0].parts) + if |alts| == 1 then "" else " | " + AltsText(alts[1..])
  }

  function PartsText(parts: seq<PostfixT>): string
    requires WellFormedParts(parts)
  {
    PostfixText(parts[0]) + if |parts| == 1 then "" else " & " + PartsText(parts[1..])
  }

  function PostfixText(p: PostfixT): string
    requires WellFormedPostfix(p)
  {
    AtomText(p.atom) + Brackets(p.dims)
  }

  function Brackets(n: nat): string {
    if n == 0 then "" else "[]" + Brackets(n - 1)
  }

  function AtomText(a: Atom): string
    requires WellFormedAtom(a)
  {
    match a
    case Keyword(w) => WordText(w)
    case Name(n) => n
    case Record(v) => "Record<string, " + ToText(v) + ">"
  }

  // ---------------------------------------------------------------- parsing

  type Parsed<T> = Option<(T, string)>

  function NameLength(s: string): (n: nat)
    ensures n <= |s|
    ensures forall i :: 0 <= i < n ==> IsNameChar(s[i])
    ensures n < |s| ==> !IsNameChar(s[n])
  {
    if s == [] || !IsNameChar(s[0]) then 0 else 1 + NameLength(s[1..])
  }

  function ParseUnion(s: string): (r: Parsed<UnionT>)
    ensures r.Some? ==> |r.value.1| < |s|
    decreases |s|, 3
  {
    match ParseInter(s)
    case None => None
    case Some((i, rest)) =>
      if " | " <= rest then
        match ParseUnion(rest[3..])
        case None => None
        case Some((u, rest')) => Some((UnionT([i] + u.alts), rest'))
      else Some((UnionT([i]), rest))
  }

  function ParseInter(s: string): (r: Parsed<InterT>)
    ensures r.Some? ==> |r.value.1| < |s|
    decreases |s|, 2
  {
    match ParseAtom(s)
    case None => None
    case Some((a, rest)) =>
      var (dims, rest') := ParseBrackets(rest);
      var p := PostfixT(a, dims);
      if " & " <= rest' then
        match ParseInter(rest'[3..])
        case None => None
        case Some((i, rest'')) => Some((InterT([p] + i.parts), rest''))
      else Some((InterT([p]), rest'))
  }

  function ParseBrackets(s: string): (r: (nat, string))
    ensures |r.1| <= |s|
  {
    if "[]" <= s then
      var (n, rest) := ParseBrackets(s[2..]);
      (n + 1, rest)
    else (0, s)
  }

  function ParseAtom(s: string): (r: Parsed<Atom>)
    ensures r.Some? ==> |r.value.1| < |s|
    decreases |s|, 1
  {
    var n := NameLength(s);
    var word, rest := s[..n], s[n..];
    if word == [] then None
    else if word == "Record" then
      if "<string, " <= rest then
        match ParseUnion(rest[9..])
        case None => None
        case Some((u, rest')) => if ">" <= rest' then Some((Record(u), rest'[1..])) else None
      else None
    else if WordOf(word).Some? then Some((Keyword(WordOf(word).value), rest))
    else if IsTypeName(word) then Some((Name(word), rest))
    else None
  }

  // A whole text is a type when the parser consumes all of it.
  function ParseType(s: string): Option<UnionT> {
    match ParseUnion(s)
    case Some((u, "")) => Some(u)
    case _ => None
  }

  // ---------------------------------------------------------------- the parser undoes the printer

  predicate EndsName(rest: string) {
    rest == [] || !IsNameChar(rest[0])
  }

  predicate EndsPostfix(rest: string) {
    EndsName(rest) && !("[]" <= rest)
  }

  predicate EndsInter(rest: string) {
    EndsPostfix(rest) && !(" & " <= rest)
  }

  predicate EndsUnion(rest: string) {
    EndsInter(rest) && !(" | " <= rest)
  }

  lemma NameLengthOf(word: string, rest: string)
    requires forall i :: 0 <= i < |word| ==> IsNameChar(word[i])
    requires EndsName(rest)
    ensures var s := word + rest; NameLength(s) == |word| && s[..|word|] == word && s[|word|..] == rest
  {
    var s := word + rest;
    var n := NameLength(s);
    assert s == s[..n] + s[n..];
    Strings.SpanUnique(IsNameChar, word, rest, s[..n], s[n..]);
  }

  lemma WordTextIsName(w: Word)
    ensures var s := WordText(w);
      s != [] && (forall i :: 0 <= i < |s| ==> IsNameChar(s[i])) && WordOf(s) == Some(w) && s != "Record"
  {
  }

  lemma {:induction false} BracketsCommute(n: nat)
    ensures Brackets(n + 1) == Brackets(n) + "[]"
  {
    if n > 0 {
      BracketsCommute(n - 1);
    }
  }

  lemma {:induction false} ParsePrintedBrackets(n: nat, rest: string)
    requires !("[]" <= rest)
    ensures ParseBrackets(Brackets(n) + rest) == (n, rest)
  {
    if n == 0 {
      assert Brackets(0) + rest == rest;
    } else {
      var s := Brackets(n) + rest;
      assert s[..2] == "[]" && s[2..] == Brackets(n - 1) + rest;
      ParsePrintedBrackets(n - 1, rest);
    }
  }

  lemma {:induction false} ParsePrintedRecord(v: UnionT, rest: string)
    requires WellFormed(v)
    requires ParseUnion(ToText(v) + (">" + rest)) == Some((v, ">" + rest))
    ensures ParseAtom(AtomText(Record(v)) + rest) == Some((Record(v), rest))
  {
    var inner := ToText(v) + (">" + rest);
    var after := "<string, " + inner;
    assert AtomText(Record(v)) + rest == "Record" + after;
    NameLengthOf("Record", after);
    assert after[0] == '<' && after[..9] == "<string, " && after[9..] == inner;
    assert (">" + rest)[..1] == ">" && (">" + rest)[1..] == rest;
  }

  lemma {:induction false} ParsePrintedAtom(a: Atom, rest: string)
    requires WellFormedAtom(a) && EndsName(rest)
    ensures ParseAtom(AtomText(a) + rest) == Some((a, rest))
    decreases a
  {
    match a
    case Keyword(w) =>
      WordTextIsName(w);
      NameLengthOf(WordText(w), rest);
    case Name(n) =>
      NameLengthOf(n, rest);
    case Record(v) =>
      ParsePrinted(v, ">" + rest);
      ParsePrintedRecord(v, rest);
  }

  lemma {:induction false} ParsePrintedPostfix(p: PostfixT, tail: string)
    requires WellFormedPostfix(p) && EndsPostfix(tail)
    ensures ParseAtom(PostfixText(p) + tail) == Some((p.atom, Brackets(p.dims) + tail))
    ensures ParseBrackets(Brackets(p.dims) + tail) == (p.dims, tail)
    decreases p, 0
  {
    assert PostfixText(p) + tail == AtomText(p.atom) + (Brackets(p.dims) + tail);
    ParsePrintedAtom(p.atom, Brackets(p.dims) + tail);
    ParsePrintedBrackets(p.dims, tail);
  }

  lemma ParseOnePart(p: PostfixT, rest: string)
    requires WellFormedPostfix(p) && EndsInter(rest)
    ensures ParseInter(PostfixText(p) + rest) == Some((InterT([p]), rest))
    decreases p, 1
  {
    ParsePrintedPostfix(p, rest);
  }

  lemma ParseMoreParts(p: PostfixT, more: string, parts: seq<PostfixT>, rest: string)
    requires WellFormedPostfix(p) && ParseInter(more) == Some((InterT(parts), rest))
    ensures ParseInter(PostfixText(p) + (" & " + more)) == Some((InterT([p] + parts), rest))
    decreases p, 1
  {
    var tail := " & " + more;
    assert tail[0] == ' ' && tail[..3] == " & " && tail[3..] == more;
    ParsePrintedPostfix(p, tail);
  }

  lemma {:induction false} ParsePrintedParts(parts: seq<PostfixT>, rest: string)
    requires WellFormedParts(parts) && EndsInter(rest)
    ensures ParseInter(PartsText(parts) + rest) == Some((InterT(parts), rest))
    decreases parts
  {
    var p := parts[0];
    if |parts| == 1 {
      assert PartsText(parts) + rest == PostfixText(p) + rest;
      ParseOnePart(p, rest);
      assert [p] == parts;
    } else {
      var more := PartsText(parts[1..]) + rest;
      assert PartsText(parts) + rest == PostfixText(p) + (" & " + more);
      ParsePrintedParts(parts[1..], rest);
      ParseMoreParts(p, more, parts[1..], rest);
      assert [p] + parts[1..] == parts;
    }
  }

  lemma ParseOneAlt(text: string, i: InterT, rest: string)
    requires ParseInter(text + rest) == Some((i, rest)) && EndsUnion(rest)
    ensures ParseUnion(text + rest) == Some((UnionT([i]), rest))
  {
  }

  lemma ParseMoreAlts(text: string, i: InterT, more: string, alts: seq<InterT>, rest: string)
    requires ParseInter(text + (" | " + more)) == Some((i, " | " + more))
    requires ParseUnion(more) == Some((UnionT(alts), rest))
    ensures ParseUnion(text + (" | " + more)) == Some((UnionT([i] + alts), rest))
  {
    var tail := " | " + more;
    assert tail[..3] == " | " && tail[3..] == more;
  }

  lemma SeparatorEndsInter(more: string)
    ensures EndsInter(" | " + more)
  {
    var tail := " | " + more;
    assert tail[0] == ' ' && tail[1] == '|';
  }

  lemma {:induction false} ParsePrintedAlts(alts: seq<InterT>, rest: string)
    requires WellFormedAlts(alts) && EndsUnion(rest)
    ensures ParseUnion(AltsText(alts) + rest) == Some((UnionT(alts), rest))
    decreases alts
  {
    var i := alts[0];
    var text := PartsText(i.parts);
    if |alts| == 1 {
      assert AltsText(alts) + rest == text + rest;
      ParsePrintedInter(i, rest);
      ParseOneAlt(text, i, rest);
      assert [i] == alts;
    } else {
      var more := AltsText(alts[1..]) + rest;
      assert AltsText(alts) + rest == text + (" | " + more);
      SeparatorEndsInter(more);
      ParsePrintedInter(i, " | " + more);
      ParsePrintedAlts(alts[1..], rest);
      ParseMoreAlts(text, i, more, alts[1..], rest);
      assert [i] + alts[1..] == alts;
    }
  }

  lemma {:induction false} ParsePrintedInter(i: InterT, rest: string)
    requires WellFormedParts(i.parts) && EndsInter(rest)
    ensures ParseInter(PartsText(i.parts) + rest) == Some((i, rest))
    decreases i
  {
    ParsePrintedParts(i.parts, rest);
  }

  lemma {:induction false} ParsePrinted(u: UnionT, rest: string)
    requires WellFormed(u) && EndsUnion(rest)
    ensures ParseUnion(ToText(u) + rest) == Some((u, rest))
    decreases u
  {
    ParsePrintedAlts(u.alts, rest);
  }

  // Every well-formed type is the parse of its own text; so the printed text determines the type.
  lemma ParseTypePrinted(u: UnionT)
    requires WellFormed(u)
    ensures ParseType(ToText(u)) == Some(u)
  {
    assert ToText(u) + "" == ToText(u);
    ParsePrinted(u, "");
  }

  lemma ToTextInjective(u: UnionT, w: UnionT)
    requires WellFormed(u) && WellFormed(w) && ToText(u) == ToText(w)
    ensures u == w
  {
    ParseTypePrinted(u);
    ParseTypePrinted(w);
  }
}
