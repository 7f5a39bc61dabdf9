/** Emitting interface blocks: the shared set of emitted names, and which names end up with a block. */
module Emitter {
  import Strings
  import opened SchemaToTs

  // ---------------------------------------------------------------- one block

  function Header(name: string): string {
    "export interface " + name + " {"
  }

  function PropertyDoc(s: Schema): seq<string> {
    if s.description == "" then [] else ["\t/** " + s.description + " */"]
  }

  function PropertyLine(p: Property, required: seq<string>): string {
    "\t" + p.name + (if p.name in required then "" else "?") + ": " + JsonTypeToTs(p.schema) + ";"
  }

  function PropertyLines(properties: seq<Property>, required: seq<string>): seq<string> {
    if properties == [] then []
    else
      PropertyDoc(properties[0].schema) + [PropertyLine(properties[0], required)] +
      PropertyLines(properties[1..], required)
  }

  function DocLines(s: Schema): seq<string> {
    var first := Strings.Split(s.description, '\n')[0];
    if first == "" then [] else ["/** " + first + " */"]
  }

  function Block(d: Def): seq<string> {
    DocLines(d.schema) + [Header(d.name)] + PropertyLines(d.schema.properties, d.schema.required) + ["}", ""]
  }

  // ---------------------------------------------------------------- the run

  datatype Output = Output(lines: seq<string>, emitted: set<string>)

  // Definitions first, skipping the names already emitted; then the block, unless one of them took the name.
  function Visit(d: Def, emitted: set<string>): Output
    decreases d, 1
  {
    var inner := VisitDefs(d.schema.defs, emitted);
    if d.name in inner.emitted then inner
    else Output(inner.lines + Block(d), inner.emitted + {d.name})
  }

  function VisitDefs(defs: seq<Def>, emitted: set<string>): Output
    decreases defs, 0
  {
    if defs == [] then Output([], emitted)
    else
      var head := if defs[0].name in emitted then Output([], emitted) else Visit(defs[0], emitted);
      var tail := VisitDefs(defs[1..], head.emitted);
      Output(head.lines + tail.lines, tail.emitted)
  }

  // Top-level models are always visited.
  function VisitModels(models: seq<Def>, emitted: set<string>): Output {
    if models == [] then Output([], emitted)
    else
      var head := Visit(models[0], emitted);
      var tail := VisitModels(models[1..], head.emitted);
      Output(head.lines + tail.lines, tail.emitted)
  }

  lemma PropertyLinesStep(properties: seq<Property>, required: seq<string>, i: nat)
    requires i < |properties|
    ensures PropertyLines(properties[i..], required) ==
      PropertyDoc(properties[i].schema) + [PropertyLine(properties[i], required)] +
      PropertyLines(properties[i + 1..], required)
  {
    assert properties[i..][0] == properties[i] && properties[i..][1..] == properties[i + 1..];
  }

  method InterfaceProperties(properties: seq<Property>, required: seq<string>) returns (lines: seq<string>)
    ensures lines == PropertyLines(properties, required)
  {
    lines := [];
    ghost var all := PropertyLines(properties, required);
    assert properties[0..] == properties;
    for i := 0 to |properties|
      invariant lines + PropertyLines(properties[i..], required) == all
    {
      PropertyLinesStep(properties, required, i);
      var doc, line := PropertyDoc(properties[i].schema), PropertyLine(properties[i], required);
      lines := lines + doc + [line];
    }
  }

  method InterfaceLines(d: Def) returns (lines: seq<string>)
    ensures lines == Block(d)
  {
    lines := DocLines(d.schema) + [Header(d.name)];
    var properties := InterfaceProperties(d.schema.properties, d.schema.required);
    lines := lines + properties + ["}", ""];
  }

  function After(lines: seq<string>, out: Output): Output {
    Output(lines + out.lines, out.emitted)
  }

  lemma AfterAppend(a: seq<string>, b: seq<string>, out: Output)
    ensures After(a + b, out) == After(a, After(b, out))
  {
  }

  lemma VisitDefsStep(defs: seq<Def>, i: nat, emitted: set<string>)
    requires i < |defs|
    ensures VisitDefs(defs[i..], emitted) ==
      if defs[i].name in emitted then VisitDefs(defs[i + 1..], emitted)
      else var head := Visit(defs[i], emitted); After(head.lines, VisitDefs(defs[i + 1..], head.emitted))
  {
    assert defs[i..][0] == defs[i] && defs[i..][1..] == defs[i + 1..];
    assert [] + VisitDefs(defs[i + 1..], emitted).lines == VisitDefs(defs[i + 1..], emitted).lines;
  }

  class Generator {
    var emitted: set<string>

    constructor ()
      ensures emitted == {}
    {
      emitted := {};
    }

    method SchemaToInterface(d: Def) returns (lines: seq<string>)
      modifies this
      ensures Output(lines, emitted) == Visit(d, old(emitted))
      decreases d, 1
    {
      lines := EmitDefs(d.schema.defs);
      if d.name in emitted {
        return;
      }
      emitted := emitted + {d.name};
      var block := InterfaceLines(d);
      lines := lines + block;
    }

    // The opening loop of SchemaToInterface: definitions that have not been emitted yet.
    method EmitDefs(defs: seq<Def>) returns (lines: seq<string>)
      modifies this
      ensures Output(lines, emitted) == VisitDefs(defs, old(emitted))
      decreases defs, 0
    {
      lines := [];
      ghost var all := VisitDefs(defs, emitted);
      assert defs[0..] == defs;
      for i := 0 to |defs|
        invariant all == After(lines, VisitDefs(defs[i..], emitted))
      {
        VisitDefsStep(defs, i, emitted);
        if defs[i].name !in emitted {
          ghost var before := lines;
          var more := SchemaToInterface(defs[i]);
          lines := lines + more;
          AfterAppend(before, more, VisitDefs(defs[i + 1..], emitted));
        }
      }
    }

    // One shared set for the whole run; `banner` is the fixed opening comment.
    method GenerateTypescript(models: seq<Def>, banner: seq<string>) returns (lines: seq<string>)
      requires emitted == {}
      modifies this
      ensures Output(lines, emitted) == Output(banner + VisitModels(models, {}).lines, VisitModels(models, {}).emitted)
    {
      lines := banner;
      for i := 0 to |models|
        invariant var rest := VisitModels(models[i..], emitted);
          Output(banner + VisitModels(models, {}).lines, VisitModels(models, {}).emitted) ==
          Output(lines + rest.lines, rest.emitted)
      {
        assert models[i..][0] == models[i] && models[i..][1..] == models[i + 1..];
        var more := SchemaToInterface(models[i]);
        lines := lines + more;
      }
    }
  }

  // ---------------------------------------------------------------- names

  ghost function Names(d: Def): set<string>
    decreases d, 1
  {
    {d.name} + NamesOf(d.schema.defs)
  }

  // Every name in a list of definitions, at any depth.
  ghost function NamesOf(defs: seq<Def>): set<string>
    decreases defs, 0
  {
    if defs == [] then {} else Names(defs[0]) + NamesOf(defs[1..])
  }

  ghost function Nested(d: Def): set<string> {
    NamesOf(d.schema.defs)
  }

  function Count(lines: seq<string>, line: string): nat {
    if lines == [] then 0 else (if lines[0] == line then 1 else 0) + Count(lines[1..], line)
  }

  lemma {:induction false} CountAppend(a: seq<string>, b: seq<string>, line: string)
    ensures Count(a + b, line) == Count(a, line) + Count(b, line)
  {
    if a == [] {
      assert a + b == b;
    } else {
      CountAppend(a[1..], b, line);
      assert (a + b)[1..] == a[1..] + b;
    }
  }

  lemma {:induction false} NoHeaders(lines: seq<string>, name: string)
    requires forall l <- lines :: l == "" || l[0] != 'e'
    ensures Count(lines, Header(name)) == 0
  {
    if lines != [] {
      assert lines[0] in lines && Header(name)[0] == 'e';
      NoHeaders(lines[1..], name);
    }
  }

  lemma HeaderInjective(m: string, n: string)
    requires Header(m) == Header(n)
    ensures m == n
  {
    var prefix := "export interface ";
    assert Header(m)[|prefix|..] == m + " {" && Header(n)[|prefix|..] == n + " {";
    assert (m + " {")[..|m|] == m && (n + " {")[..|n|] == n;
  }

  lemma {:induction false} PropertyLinesIndented(properties: seq<Property>, required: seq<string>)
    ensures forall l <- PropertyLines(properties, required) :: l != "" && l[0] == '\t'
  {
    if properties != [] {
      PropertyLinesIndented(properties[1..], required);
    }
  }

  lemma BlockHasOneHeader(d: Def, name: string)
    ensures Count(Block(d), Header(name)) == if name == d.name then 1 else 0
  {
    var doc, header := DocLines(d.schema), [Header(d.name)];
    var body, end := PropertyLines(d.schema.properties, d.schema.required), ["}", ""];
    PropertyLinesIndented(d.schema.properties, d.schema.required);
    NoHeaders(doc, name);
    NoHeaders(body, name);
    NoHeaders(end, name);
    if Header(d.name) == Header(name) {
      HeaderInjective(d.name, name);
    }
    assert header[1..] == [];
    CountAppend(doc + header + body, end, Header(name));
    CountAppend(doc + header, body, Header(name));
    CountAppend(doc, header, Header(name));
  }

  function Once(b: bool): nat {
    if b then 1 else 0
  }

  // A visit adds exactly one block for each newly emitted name, and emits nothing but names that occur.
  lemma {:induction false} VisitCounts(d: Def, emitted: set<string>, name: string)
    ensures var out := Visit(d, emitted);
      && emitted + {d.name} <= out.emitted <= emitted + Names(d)
      && Count(out.lines, Header(name)) == Once(name in out.emitted && name !in emitted)
    decreases d, 1
  {
    VisitDefsCounts(d.schema.defs, emitted, name);
    var inner := VisitDefs(d.schema.defs, emitted);
    if d.name !in inner.emitted {
      BlockHasOneHeader(d, name);
      CountAppend(inner.lines, Block(d), Header(name));
    }
  }

  lemma {:induction false} VisitDefsCounts(defs: seq<Def>, emitted: set<string>, name: string)
    ensures var out := VisitDefs(defs, emitted);
      && emitted <= out.emitted <= emitted + NamesOf(defs)
      && (forall i :: 0 <= i < |defs| ==> defs[i].name in out.emitted)
      && Count(out.lines, Header(name)) == Once(name in out.emitted && name !in emitted)
    decreases defs, 0
  {
    if defs != [] {
      var head := if defs[0].name in emitted then Output([], emitted) else Visit(defs[0], emitted);
      if defs[0].name !in emitted {
        VisitCounts(defs[0], emitted, name);
      }
      VisitDefsCounts(defs[1..], head.emitted, name);
      CountAppend(head.lines, VisitDefs(defs[1..], head.emitted).lines, Header(name));
      assert forall i :: 0 < i < |defs| ==> defs[i] == defs[1..][i - 1];
    }
  }

  // Over the whole run every emitted name has exactly one block, every other name none, and every model is emitted.
  lemma {:induction false} ExactlyOneBlock(models: seq<Def>, emitted: set<string>, name: string)
    ensures var out := VisitModels(models, emitted);
      && emitted <= out.emitted <= emitted + NamesOf(models)
      && (forall i :: 0 <= i < |models| ==> models[i].name in out.emitted)
      && Count(out.lines, Header(name)) == Once(name in out.emitted && name !in emitted)
  {
    if models != [] {
      var head := Visit(models[0], emitted);
      VisitCounts(models[0], emitted, name);
      ExactlyOneBlock(models[1..], head.emitted, name);
      CountAppend(head.lines, VisitModels(models[1..], head.emitted).lines, Header(name));
      assert forall i :: 0 < i < |models| ==> models[i] == models[1..][i - 1];
    }
  }

  // When a schema's own block is appended, all its direct definitions have been emitted already.
  lemma DefsBeforeBlock(d: Def, emitted: set<string>)
    requires d.name !in VisitDefs(d.schema.defs, emitted).emitted
    ensures var inner, out := VisitDefs(d.schema.defs, emitted), Visit(d, emitted);
      && out.lines == inner.lines + Block(d)
      && (forall i :: 0 <= i < |d.schema.defs| ==> d.schema.defs[i].name in inner.emitted)
      && (forall i :: 0 <= i < |d.schema.defs| && d.schema.defs[i].name !in emitted ==>
            Count(inner.lines, Header(d.schema.defs[i].name)) == 1)
  {
    forall i | 0 <= i < |d.schema.defs|
      ensures d.schema.defs[i].name in VisitDefs(d.schema.defs, emitted).emitted
      ensures d.schema.defs[i].name !in emitted ==>
        Count(VisitDefs(d.schema.defs, emitted).lines, Header(d.schema.defs[i].name)) == 1
    {
      VisitDefsCounts(d.schema.defs, emitted, d.schema.defs[i].name);
    }
  }

  // ---------------------------------------------------------------- coverage of nested definitions

  ghost function Occurrences(d: Def): set<Def>
    decreases d, 1
  {
    {d} + OccurrencesOf(d.schema.defs)
  }

  ghost function OccurrencesOf(defs: seq<Def>): set<Def>
    decreases defs, 0
  {
    if defs == [] then {} else Occurrences(defs[0]) + OccurrencesOf(defs[1..])
  }

  lemma {:induction false} OccurrencesOfEach(defs: seq<Def>, x: Def)
    requires x in OccurrencesOf(defs)
    ensures exists i :: 0 <= i < |defs| && x in Occurrences(defs[i])
  {
    if x in Occurrences(defs[0]) {
    } else {
      OccurrencesOfEach(defs[1..], x);
      var i :| 0 <= i < |defs[1..]| && x in Occurrences(defs[1..][i]);
      assert defs[i + 1] == defs[1..][i];
    }
  }

  // The definitions below the top level.
  ghost function Below(models: seq<Def>): set<Def> {
    if models == [] then {} else OccurrencesOf(models[0].schema.defs) + Below(models[1..])
  }

  ghost function DirectNames(defs: seq<Def>): set<string> {
    set i | 0 <= i < |defs| :: defs[i].name
  }

  // The models and their direct definitions; these are never hidden.
  ghost function SureNames(models: seq<Def>): set<string> {
    if models == [] then {}
    else {models[0].name} + DirectNames(models[0].schema.defs) + SureNames(models[1..])
  }

  lemma {:induction false} SureNamesEmitted(models: seq<Def>, emitted: set<string>)
    ensures emitted + SureNames(models) <= VisitModels(models, emitted).emitted
  {
    if models != [] {
      var head := Visit(models[0], emitted);
      VisitCounts(models[0], emitted, "");
      VisitDefsCounts(models[0].schema.defs, emitted, "");
      SureNamesEmitted(models[1..], head.emitted);
    }
  }

  // Any definition that may be skipped brings along nothing that others of its name do not, but for sure names.
  ghost predicate Replaceable(below: set<Def>, all: set<Def>, sure: set<string>) {
    forall x <- below, y <- all :: x.name == y.name ==> Nested(x) <= Nested(y) + sure
  }

  // Every emitted name stands for some definition whose nested names are emitted or sure.
  ghost predicate Backed(emitted: set<string>, all: set<Def>, sure: set<string>) {
    forall n <- emitted :: exists y :: y in all && y.name == n && Nested(y) <= emitted + sure
  }

  lemma BackedGrows(emitted: set<string>, more: set<string>, all: set<Def>, sure: set<string>, d: Def)
    requires Backed(emitted, all, sure) && emitted <= more && more <= emitted + {d.name}
    requires d in all && Nested(d) <= more + sure
    ensures Backed(more, all, sure)
  {
    forall n | n in more ensures exists y :: y in all && y.name == n && Nested(y) <= more + sure {
      if n in emitted {
        var y :| y in all && y.name == n && Nested(y) <= emitted + sure;
        assert Nested(y) <= more + sure;
      }
    }
  }

  lemma {:induction false} VisitCovers(d: Def, emitted: set<string>, below: set<Def>, all: set<Def>, sure: set<string>)
    requires Replaceable(below, all, sure) && Backed(emitted, all, sure)
    requires d in all && OccurrencesOf(d.schema.defs) <= below <= all
    ensures Backed(Visit(d, emitted).emitted, all, sure)
    ensures emitted + {d.name} <= Visit(d, emitted).emitted && Names(d) <= Visit(d, emitted).emitted + sure
    decreases d, 1
  {
    VisitDefsCovers(d.schema.defs, emitted, below, all, sure);
    var inner := VisitDefs(d.schema.defs, emitted).emitted;
    BackedGrows(inner, Visit(d, emitted).emitted, all, sure, d);
  }

  lemma {:induction false} VisitDefsCovers(
    defs: seq<Def>, emitted: set<string>, below: set<Def>, all: set<Def>, sure: set<string>)
    requires Replaceable(below, all, sure) && Backed(emitted, all, sure) && OccurrencesOf(defs) <= below <= all
    ensures Backed(VisitDefs(defs, emitted).emitted, all, sure)
    ensures emitted <= VisitDefs(defs, emitted).emitted && NamesOf(defs) <= VisitDefs(defs, emitted).emitted + sure
    decreases defs, 0
  {
    if defs != [] {
      var head := if defs[0].name in emitted then Output([], emitted) else Visit(defs[0], emitted);
      assert defs[0] in Occurrences(defs[0]);
      if defs[0].name !in emitted {
        VisitCovers(defs[0], emitted, below, all, sure);
      } else {
        var y :| y in all && y.name == defs[0].name && Nested(y) <= emitted + sure;
        assert Nested(defs[0]) <= Nested(y) + sure;
      }
      VisitDefsCovers(defs[1..], head.emitted, below, all, sure);
    }
  }

  lemma {:induction false} VisitModelsCovers(
    models: seq<Def>, emitted: set<string>, below: set<Def>, all: set<Def>, sure: set<string>)
    requires Replaceable(below, all, sure) && Backed(emitted, all, sure)
    requires Below(models) <= below <= all && forall m <- models :: m in all
    ensures NamesOf(models) <= VisitModels(models, emitted).emitted + sure
  {
    if models != [] {
      var head := Visit(models[0], emitted).emitted;
      VisitCovers(models[0], emitted, below, all, sure);
      VisitModelsCovers(models[1..], head, below, all, sure);
      ExactlyOneBlock(models[1..], head, "");
    }
  }

  // Every name at any depth is emitted, hence has exactly one block, if each definition below the top level brings
  // along nothing that others of its name do not, except names of models and of their direct definitions.
  lemma AllNamesEmitted(models: seq<Def>)
    requires Replaceable(Below(models), OccurrencesOf(models), SureNames(models))
    ensures VisitModels(models, {}).emitted == NamesOf(models)
  {
    ExactlyOneBlock(models, {}, "");
    SureNamesEmitted(models, {});
    BelowOccurs(models);
    VisitModelsCovers(models, {}, Below(models), OccurrencesOf(models), SureNames(models));
  }

  lemma {:induction false} BelowOccurs(models: seq<Def>)
    ensures Below(models) <= OccurrencesOf(models)
    ensures forall m <- models :: m in OccurrencesOf(models)
  {
    if models != [] {
      BelowOccurs(models[1..]);
      forall m | m in models ensures m in OccurrencesOf(models) {
        assert m == models[0] || m in models[1..];
      }
    }
  }

  // Definitions only at the top of a model, as Pydantic writes them.
  ghost predicate Flat(models: seq<Def>) {
    forall m <- models, d <- m.schema.defs :: d.schema.defs == []
  }

  // A flat document always has all its names emitted, whatever its definitions are called.
  lemma FlatAllEmitted(models: seq<Def>)
    requires Flat(models)
    ensures VisitModels(models, {}).emitted == NamesOf(models)
  {
    FlatBelow(models);
    AllNamesEmitted(models);
  }

  lemma {:induction false} FlatBelow(models: seq<Def>)
    requires Flat(models)
    ensures forall x <- Below(models) :: Nested(x) == {}
  {
    if models != [] {
      FlatBelow(models[1..]);
      forall x | x in OccurrencesOf(models[0].schema.defs) ensures Nested(x) == {} {
        OccurrencesOfEach(models[0].schema.defs, x);
        var i :| 0 <= i < |models[0].schema.defs| && x in Occurrences(models[0].schema.defs[i]);
        assert models[0].schema.defs[i] in models[0].schema.defs && models[0] in models;
      }
    }
  }

  lemma NamesOfOne(d: Def)
    ensures NamesOf([d]) == Names(d)
  {
    assert [d][1..] == [] && NamesOf([]) == {};
  }

  // A definition that stands in for another of its name; `a` is the model around the other.
  function StandIn(y: Def, x: Def, a: string): seq<Def> {
    [y, Def(a, EMPTY.(defs := [x]))]
  }

  lemma StandInEmits(y: Def, x: Def, a: string)
    requires x.name == y.name && a !in Names(y)
    ensures VisitModels(StandIn(y, x, a), {}).emitted == Visit(y, {}).emitted + {a}
    ensures NamesOf(StandIn(y, x, a)) == Names(y) + {a} + Nested(x)
  {
    var models := StandIn(y, x, a);
    var other := models[1];
    var seen := Visit(y, {}).emitted;
    VisitCounts(y, {}, y.name);
    assert models[1..] == [other] && [other][1..] == [] && [x][1..] == [];
    assert VisitDefs([], seen).emitted == seen;
    assert VisitDefs([x], seen).emitted == seen;
    assert Visit(other, seen).emitted == seen + {a};
    assert VisitModels([], seen + {a}).emitted == seen + {a};
    assert VisitModels([other], seen).emitted == seen + {a};
    NamesOfOne(x);
    NamesOfOne(other);
    assert Names(other) == {a} + Names(x);
    assert NamesOf(models) == Names(y) + NamesOf(models[1..]);
  }

  // Where one definition, with its own names all emitted by the condition above, stands in for another of its name,
  // every name is emitted exactly when the other brings along none that the first does not.
  lemma SkippedDefIff(y: Def, x: Def, a: string)
    requires x.name == y.name && a !in Names(y)
    requires Replaceable(Below([y]), OccurrencesOf([y]), SureNames([y]))
    ensures VisitModels(StandIn(y, x, a), {}).emitted == NamesOf(StandIn(y, x, a)) <==> Nested(x) <= Names(y) + {a}
  {
    StandInEmits(y, x, a);
    AllNamesEmitted([y]);
    NamesOfOne(y);
    assert [y][1..] == [] && VisitModels([], Visit(y, {}).emitted).emitted == Visit(y, {}).emitted;
    assert VisitModels([y], {}).emitted == Visit(y, {}).emitted;
  }
}
