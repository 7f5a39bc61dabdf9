/** Reading the generator's output back: which interfaces the printed lines declare. */
module InterfaceText {
  import opened Wrappers
  import Strings
  import opened TsTypes
  import opened SchemaToTs
  import opened Emitter

  // With the text of the comment above it, empty when there is none.
  datatype Member = Member(name: string, optional: bool, value: UnionT, doc: string)

  datatype Interface = Interface(name: string, members: seq<Member>, doc: string)

  // A property name that needs no quotes.
  predicate IsMemberName(s: string) {
    s != [] && (forall i :: 0 <= i < |s| ==> IsNameChar(s[i])) && !('0' <= s[0] <= '9')
  }

  // ---------------------------------------------------------------- reading lines

  // The end of a comment occurs in the text.
  predicate Closes(s: string) {
    exists i :: 0 < i < |s| && s[i - 1] == '*' && s[i] == '/'
  }

  // One comment from the first to the last character, indented or not; it may run over several lines.
  predicate IsComment(line: string) {
    var text := if "\t" <= line then line[1..] else line;
    && 7 <= |text| && text[..4] == "/** " && text[|text| - 3..] == " */"
    && !Closes(text[2..|text| - 1])
  }

  function CommentContent(line: string): string
    requires IsComment(line)
  {
    var text := if "\t" <= line then line[1..] else line;
    text[4..|text| - 3]
  }

  // `name: type;` or `name?: type;`, indented.
  function ParseMember(line: string): Option<Member> {
    if !("\t" <= line) then None
    else
      var n := NameLength(line[1..]);
      var name := line[1..][..n];
      match ParseTyped(line[1..][n..])
      case None => None
      case Some((optional, u)) => if IsMemberName(name) then Some(Member(name, optional, u, "")) else None
  }

  // What follows a member's name: whether it is optional, and its type.
  function ParseTyped(s: string): Option<(bool, UnionT)> {
    var optional := "?" <= s;
    var typed := if optional then s[1..] else s;
    if 3 <= |typed| && typed[..2] == ": " && typed[|typed| - 1] == ';' then
      match ParseType(typed[2..|typed| - 1])
      case None => None
      case Some(u) => Some((optional, u))
    else None
  }

  // The members up to the closing brace; `doc` is the comment just read.
  function ParseMembers(lines: seq<string>, doc: string := ""): (r: Option<(seq<Member>, seq<string>)>)
    ensures r.Some? ==> |r.value.1| < |lines|
  {
    if lines == [] then None
    else if lines[0] == "}" then Some(([], lines[1..]))
    else if IsComment(lines[0]) then ParseMembers(lines[1..], CommentContent(lines[0]))
    else
      match (ParseMember(lines[0]), ParseMembers(lines[1..]))
      case (Some(m), Some((ms, rest))) => Some(([m.(doc := doc)] + ms, rest))
      case _ => None
  }

  const HEADER: string := "export interface "

  function ParseHeader(line: string): Option<string> {
    if |HEADER| + 2 <= |line| && line[..|HEADER|] == HEADER && line[|line| - 2..] == " {" then
      var name := line[|HEADER|..|line| - 2];
      if IsTypeName(name) then Some(name) else None
    else None
  }

  predicate IsBlank(line: string) {
    line == "" || "//" <= line
  }

  // A whole output: interfaces, with comments and empty lines between them.
  function ParseInterfaces(lines: seq<string>, doc: string := ""): Option<seq<Interface>>
    decreases |lines|
  {
    if lines == [] then Some([])
    else if IsBlank(lines[0]) then ParseInterfaces(lines[1..])
    else if IsComment(lines[0]) then ParseInterfaces(lines[1..], CommentContent(lines[0]))
    else match ParseHeader(lines[0])
      case None => None
      case Some(name) =>
        match ParseMembers(lines[1..])
        case None => None
        case Some((ms, rest)) => Prepend(Interface(name, ms, doc), ParseInterfaces(rest))
  }

  function Prepend(i: Interface, tail: Option<seq<Interface>>): Option<seq<Interface>> {
    if tail.Some? then Some([i] + tail.value) else None
  }

  // ---------------------------------------------------------------- what is printed

  function MemberOf(p: Property, required: seq<string>): Member
    requires Printable(p.schema)
  {
    Member(p.name, p.name !in required, Regroup(p.schema), p.schema.description)
  }

  function MembersOf(properties: seq<Property>, required: seq<string>): (ms: seq<Member>)
    requires forall p <- properties :: Printable(p.schema)
    ensures |ms| == |properties|
    ensures forall i :: 0 <= i < |ms| ==>
      ms[i] == MemberOf(properties[i], required)
  {
    if properties == [] then [] else [MemberOf(properties[0], required)] + MembersOf(properties[1..], required)
  }

  // Names are names, property types print, and no description ends its comment early.
  ghost predicate Presentable(d: Def) {
    && IsTypeName(d.name)
    && !Closes(FirstLine(d.schema.description))
    && forall p <- d.schema.properties :: IsMemberName(p.name) && Printable(p.schema) && !Closes(p.schema.description)
  }

  function FirstLine(text: string): string {
    Strings.Split(text, '\n')[0]
  }

  function InterfaceOf(d: Def): Interface
    requires Presentable(d)
  {
    Interface(d.name, MembersOf(d.schema.properties, d.schema.required), FirstLine(d.schema.description))
  }

  // ---------------------------------------------------------------- single lines

  lemma CommentText(text: string)
    requires !Closes(text)
    ensures IsComment("/** " + text + " */") && CommentContent("/** " + text + " */") == text
    ensures IsComment("\t/** " + text + " */") && CommentContent("\t/** " + text + " */") == text
  {
    var s := "/** " + text + " */";
    assert s[..4] == "/** " && s[4..|s| - 3] == text && s[|s| - 3..] == " */";
    NotClosed(text, s);
    assert s[0] == '/';
    var line := "\t/** " + text + " */";
    assert line[..1] == "\t" && line[1..] == s;
  }

  lemma CommentNotBlank(text: string)
    ensures !IsBlank("/** " + text + " */")
  {
    var line := "/** " + text + " */";
    assert line[1] == '*';
  }

  lemma NotClosed(text: string, s: string)
    requires !Closes(text) && s == "/** " + text + " */"
    ensures !Closes(s[2..|s| - 1])
  {
    var inner := s[2..|s| - 1];
    assert inner == "* " + text + " *";
    forall i | 0 < i < |inner| ensures !(inner[i - 1] == '*' && inner[i] == '/') {
      if 3 <= i < |text| + 2 {
        assert inner[i - 1] == text[i - 3] && inner[i] == text[i - 2];
      } else if i == 2 {
        assert inner[1] == ' ';
      } else if i == |text| + 2 {
        assert inner[i] == ' ';
      }
    }
  }

  lemma HeaderParses(name: string)
    requires IsTypeName(name)
    ensures ParseHeader(Header(name)) == Some(name)
    ensures !IsBlank(Header(name)) && !IsComment(Header(name))
  {
    Between(HEADER, name, " {");
    StartsLikeHeader(name);
  }

  lemma Between<T>(front: seq<T>, middle: seq<T>, back: seq<T>)
    ensures var s := front + middle + back;
      && |s| == |front| + |middle| + |back|
      && s[..|front|] == front && s[|front|..|s| - |back|] == middle && s[|s| - |back|..] == back
  {
  }

  lemma StartsLikeHeader(name: string)
    ensures !IsBlank(Header(name)) && !IsComment(Header(name))
  {
    assert Header(name)[0] == 'e';
  }

  lemma TypedTail(mark: string, text: string, u: UnionT)
    requires (mark == "?" || mark == "") && ParseType(text) == Some(u)
    ensures var rest := mark + ": " + text + ";";
      EndsName(rest) && ParseTyped(rest) == Some((mark == "?", u))
  {
    var rest := mark + ": " + text + ";";
    var plain := ": " + text + ";";
    assert plain[..2] == ": " && plain[2..|plain| - 1] == text && plain[|plain| - 1] == ';';
    if mark == "?" {
      assert rest[0] == '?' && rest[..1] == "?" && rest[1..] == plain;
    } else {
      assert rest == plain && rest[0] == ':';
    }
  }

  lemma MemberLineParses(name: string, mark: string, text: string, u: UnionT)
    requires IsMemberName(name) && (mark == "?" || mark == "") && ParseType(text) == Some(u)
    ensures ParseMember("\t" + (name + (mark + ": " + text + ";"))) == Some(Member(name, mark == "?", u, ""))
  {
    var rest := mark + ": " + text + ";";
    var line := "\t" + (name + rest);
    assert line[..1] == "\t" && line[1..] == name + rest;
    TypedTail(mark, text, u);
    NameLengthOf(name, rest);
  }

  lemma NotACommentLine(name: string, rest: string)
    requires IsMemberName(name)
    ensures var line := "\t" + (name + rest); line[0] == '\t' && !IsComment(line)
  {
    var line := "\t" + (name + rest);
    assert line[..1] == "\t" && line[1..] == name + rest;
    assert line[1..][0] == name[0] && IsNameChar(name[0]);
  }

  lemma MemberParses(p: Property, required: seq<string>)
    requires IsMemberName(p.name) && Printable(p.schema)
    ensures ParseMember(PropertyLine(p, required)) ==
      Some(MemberOf(p, required).(doc := ""))
    ensures PropertyLine(p, required) != "}" && !IsComment(PropertyLine(p, required))
  {
    var mark := if p.name in required then "" else "?";
    var text := JsonTypeToTs(p.schema);
    var rest := mark + ": " + text + ";";
    assert PropertyLine(p, required) == "\t" + (p.name + rest);
    ParsesToRegrouped(p.schema);
    MemberLineParses(p.name, mark, text, Regroup(p.schema));
    NotACommentLine(p.name, rest);
  }

  // ---------------------------------------------------------------- whole blocks

  lemma ReadMember(line: string, m: Member, rest: seq<string>, ms: seq<Member>, tail: seq<string>, doc: string)
    requires line != "}" && !IsComment(line) && ParseMember(line) == Some(m)
    requires ParseMembers(rest) == Some((ms, tail))
    ensures ParseMembers([line] + rest, doc) == Some(([m.(doc := doc)] + ms, tail))
  {
    assert ([line] + rest)[1..] == rest;
  }

  lemma SkipMemberComment(line: string, rest: seq<string>)
    requires line != "}" && IsComment(line)
    ensures ParseMembers([line] + rest) == ParseMembers(rest, CommentContent(line))
  {
    assert ([line] + rest)[1..] == rest;
  }

  lemma SkipBetween(line: string, rest: seq<string>)
    requires IsBlank(line) || IsComment(line)
    ensures ParseInterfaces([line] + rest) ==
            if IsBlank(line) then ParseInterfaces(rest) else ParseInterfaces(rest, CommentContent(line))
  {
    assert ([line] + rest)[1..] == rest;
  }

  lemma ReadInterface(name: string, rest: seq<string>, ms: seq<Member>, tail: seq<string>, doc: string)
    requires IsTypeName(name) && ParseMembers(rest) == Some((ms, tail))
    ensures ParseInterfaces([Header(name)] + rest, doc) == Prepend(Interface(name, ms, doc), ParseInterfaces(tail))
  {
    HeaderParses(name);
    assert ([Header(name)] + rest)[1..] == rest;
  }

  lemma Associate<T>(a: seq<T>, b: seq<T>, c: seq<T>)
    ensures a + (b + c) == a + b + c
  {
  }

  lemma {:induction false} MembersParse(properties: seq<Property>, required: seq<string>, tail: seq<string>)
    requires forall p <- properties :: IsMemberName(p.name) && Printable(p.schema) && !Closes(p.schema.description)
    ensures ParseMembers(PropertyLines(properties, required) + (["}"] + tail)) ==
      Some((MembersOf(properties, required), tail))
  {
    var end := ["}"] + tail;
    if properties == [] {
      assert [] + end == end && end[1..] == tail;
    } else {
      var p := properties[0];
      var doc, line := PropertyDoc(p.schema), PropertyLine(p, required);
      var lines := PropertyLines(properties[1..], required);
      MembersParse(properties[1..], required, tail);
      MemberParses(p, required);
      ReadMember(line, MemberOf(p, required).(doc := ""), lines + end, MembersOf(properties[1..], required), tail,
                 p.schema.description);
      DocSkipped(p.schema, [line] + (lines + end));
      Associate(doc, [line], lines + end);
      Associate(doc + [line], lines, end);
    }
  }

  lemma DocSkipped(s: Schema, rest: seq<string>)
    requires !Closes(s.description)
    ensures ParseMembers(PropertyDoc(s) + rest) == ParseMembers(rest, s.description)
  {
    if s.description == "" {
      assert PropertyDoc(s) + rest == rest;
    } else {
      CommentText(s.description);
      SkipMemberComment("\t/** " + s.description + " */", rest);
    }
  }

  lemma BlockParses(d: Def, tail: seq<string>)
    requires Presentable(d)
    ensures ParseInterfaces(Block(d) + tail) == Prepend(InterfaceOf(d), ParseInterfaces(tail))
  {
    var doc, header := DocLines(d.schema), Header(d.name);
    var body := PropertyLines(d.schema.properties, d.schema.required);
    MembersParse(d.schema.properties, d.schema.required, [""] + tail);
    ReadInterface(d.name, body + (["}"] + ([""] + tail)), MembersOf(d.schema.properties, d.schema.required),
                  [""] + tail, FirstLine(d.schema.description));
    SkipBetween("", tail);
    LeadingDocSkipped(d.schema, [header] + (body + (["}"] + ([""] + tail))));
    BlockShape(doc, header, body, tail);
  }

  lemma BlockShape(doc: seq<string>, header: string, body: seq<string>, tail: seq<string>)
    ensures doc + [header] + body + ["}", ""] + tail == doc + ([header] + (body + (["}"] + ([""] + tail))))
  {
    Associate(doc + [header] + body, ["}", ""], tail);
    assert ["}", ""] + tail == ["}"] + ([""] + tail);
    var end := ["}"] + ([""] + tail);
    Associate(doc + [header], body, end);
    Associate(doc, [header], body + end);
  }

  lemma LeadingDocSkipped(s: Schema, lines: seq<string>)
    requires !Closes(FirstLine(s.description))
    ensures ParseInterfaces(DocLines(s) + lines) == ParseInterfaces(lines, FirstLine(s.description))
  {
    var first := FirstLine(s.description);
    if first == "" {
      assert DocLines(s) + lines == lines;
    } else {
      CommentText(first);
      CommentNotBlank(first);
      SkipBetween("/** " + first + " */", lines);
    }
  }

  // ---------------------------------------------------------------- the whole run

  // The definitions whose blocks are printed, in order.
  function Printed(d: Def, emitted: set<string>): seq<Def>
    decreases d, 1
  {
    PrintedDefs(d.schema.defs, emitted) + if d.name in VisitDefs(d.schema.defs, emitted).emitted then [] else [d]
  }

  function PrintedDefs(defs: seq<Def>, emitted: set<string>): seq<Def>
    decreases defs, 0
  {
    if defs == [] then []
    else if defs[0].name in emitted then PrintedDefs(defs[1..], emitted)
    else Printed(defs[0], emitted) + PrintedDefs(defs[1..], Visit(defs[0], emitted).emitted)
  }

  function PrintedModels(models: seq<Def>, emitted: set<string>): seq<Def> {
    if models == [] then []
    else Printed(models[0], emitted) + PrintedModels(models[1..], Visit(models[0], emitted).emitted)
  }

  function FlatMap<D, T>(f: D -> seq<T>, ds: seq<D>): seq<T> {
    if ds == [] then [] else f(ds[0]) + FlatMap(f, ds[1..])
  }

  lemma {:induction false} FlatMapConcat<D, T>(f: D -> seq<T>, a: seq<D>, b: seq<D>)
    ensures FlatMap(f, a + b) == FlatMap(f, a) + FlatMap(f, b)
  {
    if a == [] {
      assert a + b == b;
    } else {
      FlatMapConcat(f, a[1..], b);
      FrontAndRest(a, b);
      Associate(f(a[0]), FlatMap(f, a[1..]), FlatMap(f, b));
    }
  }

  lemma Uncons<T>(a: seq<T>, b: seq<T>)
    requires a != []
    ensures a + b == [a[0]] + (a[1..] + b)
  {
  }

  lemma FrontAndRest<T>(a: seq<T>, b: seq<T>)
    requires a != []
    ensures a + b != [] && (a + b)[0] == a[0] && (a + b)[1..] == a[1..] + b
  {
  }

  lemma FlatMapOne<D, T>(f: D -> seq<T>, d: D)
    ensures FlatMap(f, [d]) == f(d)
  {
    assert [d][1..] == [];
  }

  // The names of a list of printed definitions: none twice, none seen before, and exactly the newly emitted ones.
  ghost predicate NewNames(ds: seq<Def>, before: set<string>, after: set<string>) {
    && (forall i, j :: 0 <= i < j < |ds| ==> ds[i].name != ds[j].name)
    && (forall d <- ds :: d.name !in before)
    && before <= after && (forall n :: n in after <==> n in before || exists d <- ds :: d.name == n)
  }

  lemma NewNamesConcat(a: seq<Def>, b: seq<Def>, before: set<string>, middle: set<string>, after: set<string>)
    requires NewNames(a, before, middle) && NewNames(b, middle, after)
    ensures NewNames(a + b, before, after)
  {
    var c := a + b;
    forall i, j | 0 <= i < j < |c| ensures c[i].name != c[j].name {
      if i < |a| <= j {
        assert a[i] in a && b[j - |a|] in b;
        assert a[i].name in middle;
      }
    }
    forall n | n in after ensures n in before || exists d <- c :: d.name == n {
      if d :| d in b && d.name == n {
        assert d in c;
      } else if d :| d in a && d.name == n {
        assert d in c;
      }
    }
    forall d | d in c ensures d.name in after && d.name !in before {
      assert d in a || d in b;
      assert d in a ==> d.name in middle;
    }
  }

  lemma {:induction false} PrintedIs(d: Def, emitted: set<string>)
    ensures Visit(d, emitted).lines == FlatMap(Block, Printed(d, emitted))
    ensures NewNames(Printed(d, emitted), emitted, Visit(d, emitted).emitted)
    ensures forall x <- Printed(d, emitted) :: x in Occurrences(d)
    decreases d, 1
  {
    PrintedDefsIs(d.schema.defs, emitted);
    var inner, out := VisitDefs(d.schema.defs, emitted).emitted, Visit(d, emitted).emitted;
    var own := if d.name in inner then [] else [d];
    FlatMapConcat(Block, PrintedDefs(d.schema.defs, emitted), own);
    FlatMapOne(Block, d);
    assert NewNames(own, inner, out) by {
      if own != [] {
        assert d in own;
      }
    }
    NewNamesConcat(PrintedDefs(d.schema.defs, emitted), own, emitted, inner, out);
  }

  lemma {:induction false} PrintedDefsIs(defs: seq<Def>, emitted: set<string>)
    ensures VisitDefs(defs, emitted).lines == FlatMap(Block, PrintedDefs(defs, emitted))
    ensures NewNames(PrintedDefs(defs, emitted), emitted, VisitDefs(defs, emitted).emitted)
    ensures forall x <- PrintedDefs(defs, emitted) :: x in OccurrencesOf(defs)
    decreases defs, 0
  {
    if defs != [] {
      if defs[0].name in emitted {
        PrintedDefsIs(defs[1..], emitted);
      } else {
        var head := Visit(defs[0], emitted);
        PrintedIs(defs[0], emitted);
        PrintedDefsIs(defs[1..], head.emitted);
        FlatMapConcat(Block, Printed(defs[0], emitted), PrintedDefs(defs[1..], head.emitted));
        NewNamesConcat(Printed(defs[0], emitted), PrintedDefs(defs[1..], head.emitted),
                       emitted, head.emitted, VisitDefs(defs, emitted).emitted);
      }
    }
  }

  lemma {:induction false} PrintedModelsIs(models: seq<Def>, emitted: set<string>)
    ensures VisitModels(models, emitted).lines == FlatMap(Block, PrintedModels(models, emitted))
    ensures NewNames(PrintedModels(models, emitted), emitted, VisitModels(models, emitted).emitted)
    ensures forall x <- PrintedModels(models, emitted) :: x in OccurrencesOf(models)
  {
    if models != [] {
      var head := Visit(models[0], emitted);
      PrintedIs(models[0], emitted);
      PrintedModelsIs(models[1..], head.emitted);
      FlatMapConcat(Block, Printed(models[0], emitted), PrintedModels(models[1..], head.emitted));
      NewNamesConcat(Printed(models[0], emitted), PrintedModels(models[1..], head.emitted),
                     emitted, head.emitted, VisitModels(models, emitted).emitted);
    }
  }

  // A name keeps the first block printed for it: what is printed for later models are blocks for other names.
  lemma {:induction false} FirstDefinitionPrinted(first: seq<Def>, later: seq<Def>, emitted: set<string>)
    ensures var seen := VisitModels(first, emitted).emitted;
      && PrintedModels(first + later, emitted) == PrintedModels(first, emitted) + PrintedModels(later, seen)
      && VisitModels(first + later, emitted).emitted == VisitModels(later, seen).emitted
      && (forall d <- PrintedModels(first, emitted) :: d.name in seen)
      && (forall d <- PrintedModels(later, seen) :: d.name !in seen)
  {
    var seen := VisitModels(first, emitted).emitted;
    PrintedModelsIs(first, emitted);
    PrintedModelsIs(later, seen);
    if first == [] {
      assert first + later == later;
    } else {
      var next := Visit(first[0], emitted).emitted;
      FirstDefinitionPrinted(first[1..], later, next);
      FrontAndRest(first, later);
      Associate(Printed(first[0], emitted), PrintedModels(first[1..], next), PrintedModels(later, seen));
    }
  }

  function InterfacesOf(ds: seq<Def>): (all: seq<Interface>)
    requires forall d <- ds :: Presentable(d)
    ensures |all| == |ds| && forall i :: 0 <= i < |ds| ==> all[i] == InterfaceOf(ds[i])
  {
    if ds == [] then [] else [InterfaceOf(ds[0])] + InterfacesOf(ds[1..])
  }

  lemma {:induction false} BlocksParse(ds: seq<Def>)
    requires forall d <- ds :: Presentable(d)
    ensures ParseInterfaces(FlatMap(Block, ds)) == Some(InterfacesOf(ds))
  {
    if ds != [] {
      BlocksParse(ds[1..]);
      BlockParses(ds[0], FlatMap(Block, ds[1..]));
    }
  }

  lemma {:induction false} BannerSkipped(banner: seq<string>, lines: seq<string>)
    requires forall l <- banner :: IsBlank(l)
    ensures ParseInterfaces(banner + lines) == ParseInterfaces(lines)
  {
    if banner == [] {
      assert banner + lines == lines;
    } else {
      BannerSkipped(banner[1..], lines);
      SkipBetween(banner[0], banner[1..] + lines);
      Uncons(banner, lines);
    }
  }

  // The generated lines declare, in order, the interfaces of the printed definitions, each name once, with the
  // descriptions above interfaces and members.
  lemma OutputParses(models: seq<Def>, banner: seq<string>)
    requires forall l <- banner :: IsBlank(l)
    requires forall d <- PrintedModels(models, {}) :: Presentable(d)
    ensures var ds := PrintedModels(models, {});
      && (forall d <- ds :: d in OccurrencesOf(models))
      && ParseInterfaces(banner + VisitModels(models, {}).lines) == Some(InterfacesOf(ds))
      && NewNames(ds, {}, VisitModels(models, {}).emitted)
  {
    PrintedModelsIs(models, {});
    BlocksParse(PrintedModels(models, {}));
    BannerSkipped(banner, VisitModels(models, {}).lines);
  }
}
