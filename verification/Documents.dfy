/** What the interfaces declared by the generator's output contain, against what the models' schemas accept. */
module Documents {
  import opened TsTypes
  import opened SchemaToTs
  import opened SchemaMeaning
  import Strings
  import SchemaLimits
  import opened Emitter
  import opened InterfaceText

  // ---------------------------------------------------------------- interfaces

  // The data members of a value: typing is structural, so strings and arrays have a length.
  function Own(v: Json): map<string, Json> {
    match v
    case Object(fields) => fields
    case String(s) => map["length" := Number(|s| as real)]
    case Array(items) => map["length" := Number(|items| as real)]
    case _ => map[]
  }

  ghost predicate HasMember(m: Member, env: Env, v: Json) {
    if m.name in Own(v) then In(m.value, env, Own(v)[m.name]) else m.optional
  }

  ghost predicate InInterface(i: Interface, env: Env, v: Json) {
    !v.Null? && forall k :: 0 <= k < |i.members| ==> HasMember(i.members[k], env, v)
  }

  ghost predicate FaithfulProperties(s: Schema) {
    forall p <- s.properties :: Faithful(p.schema)
  }

  // A listed property of a value other than an object is either its own length, of the right type, or may be missing.
  ghost predicate MayStand(p: Property, required: seq<string>, env: Env, v: Json) {
    if p.name == "length" && (v.String? || v.Array?) then
      Printable(p.schema) && In(Regroup(p.schema), env, Number((if v.String? then |v.s| else |v.items|) as real))
    else p.name !in required
  }

  // A value other than an object passes for one.
  ghost predicate Passes(s: Schema, env: Env, v: Json) {
    !v.Null? && forall k :: 0 <= k < |s.properties| ==> MayStand(s.properties[k], s.required, env, v)
  }

  ghost predicate OthersPass(s: Schema, refs: Env, env: Env) {
    forall v :: Accepts(s, refs, v) && !v.Object? ==> Passes(s, env, v)
  }

  lemma ObjectInInterface(d: Def, refs: Env, env: Env, v: Json)
    requires Presentable(d) && FaithfulProperties(d.schema) && Covers(env, refs)
    requires v.Object? && Accepts(d.schema, refs, v)
    ensures InInterface(InterfaceOf(d), env, v)
  {
    var ms := InterfaceOf(d).members;
    forall k | 0 <= k < |ms| ensures HasMember(ms[k], env, v) {
      var p := d.schema.properties[k];
      if p.name in v.fields {
        MeaningPreserved(p.schema, refs, env, v.fields[p.name]);
      }
    }
  }

  lemma OtherHasMember(p: Property, required: seq<string>, env: Env, v: Json)
    requires Printable(p.schema) && !v.Object?
    ensures HasMember(MemberOf(p, required), env, v) <==> MayStand(p, required, env, v)
  {
  }

  lemma OtherInInterface(d: Def, env: Env, v: Json)
    requires Presentable(d) && !v.Object?
    ensures InInterface(InterfaceOf(d), env, v) <==> Passes(d.schema, env, v)
  {
    var s, ms := d.schema, InterfaceOf(d).members;
    forall k | 0 <= k < |ms| ensures HasMember(ms[k], env, v) <==> MayStand(s.properties[k], s.required, env, v) {
      OtherHasMember(s.properties[k], s.required, env, v);
    }
  }

  // The declared interface contains every accepted value exactly when every accepted value other than an object passes.
  lemma InterfaceCoversIff(d: Def, refs: Env, env: Env)
    requires Presentable(d) && FaithfulProperties(d.schema) && Covers(env, refs)
    ensures (forall v :: Accepts(d.schema, refs, v) ==> InInterface(InterfaceOf(d), env, v)) <==>
            OthersPass(d.schema, refs, env)
  {
    forall v | Accepts(d.schema, refs, v)
      ensures v.Object? ==> InInterface(InterfaceOf(d), env, v)
      ensures !v.Object? ==> (InInterface(InterfaceOf(d), env, v) <==> Passes(d.schema, env, v))
    {
      if v.Object? {
        ObjectInInterface(d, refs, env, v);
      } else {
        OtherInInterface(d, env, v);
      }
    }
  }

  // ---------------------------------------------------------------- names and references

  function Declared(all: seq<Interface>): map<string, Interface> {
    if all == [] then map[] else Declared(all[1..])[all[0].name := all[0]]
  }

  // Type names mean the declared interfaces, followed `depth` times.
  ghost function TypesAt(decls: map<string, Interface>, depth: nat): Env {
    if depth == 0 then (name, w) => false
    else (name, w) => name in decls && InInterface(decls[name], TypesAt(decls, depth - 1), w)
  }

  // References mean the definitions in scope where they stand, followed `depth` times.
  ghost function RefsAt(scope: map<string, Schema>, depth: nat): Env {
    if depth == 0 then (r, w) => false
    else (r, w) => LastSegment(r) in scope && Accepts(scope[LastSegment(r)], RefsAt(scope, depth - 1), w)
  }

  ghost predicate DistinctNames(ds: seq<Def>) {
    forall i, j :: 0 <= i < j < |ds| ==> ds[i].name != ds[j].name
  }

  lemma {:induction false} DeclaredIs(ds: seq<Def>, i: nat)
    requires (forall d <- ds :: Presentable(d)) && DistinctNames(ds) && i < |ds|
    ensures var decls := Declared(InterfacesOf(ds));
      ds[i].name in decls && decls[ds[i].name] == InterfaceOf(ds[i])
  {
    if i > 0 {
      assert ds[1..][i - 1] == ds[i];
      DeclaredIs(ds[1..], i - 1);
      assert InterfacesOf(ds)[1..] == InterfacesOf(ds[1..]);
      assert ds[0].name != ds[i].name;
    }
  }

  // The keywords that decide which values are accepted.
  predicate SameKeywords(a: Schema, b: Schema) {
    a.(defs := [], description := "") == b.(defs := [], description := "")
  }

  lemma SameAccepts(a: Schema, b: Schema, refs: Env, v: Json)
    requires SameKeywords(a, b)
    ensures Accepts(a, refs, v) <==> Accepts(b, refs, v)
  {
    var c := a.(defs := [], description := "");
    BareAccepts(a, c, refs, v);
    BareAccepts(b, c, refs, v);
  }

  lemma BareAccepts(a: Schema, c: Schema, refs: Env, v: Json)
    requires c == a.(defs := [], description := "")
    ensures Accepts(a, refs, v) <==> Accepts(c, refs, v)
  {
    assert forall k :: IsProperty(a, k) <==> IsProperty(c, k);
  }

  ghost predicate PrintedAs(name: string, s: Schema, printed: seq<Def>) {
    exists i :: 0 <= i < |printed| && printed[i].name == name && SameKeywords(s, printed[i].schema)
  }

  // Each name in scope is printed with the definition it has there.
  ghost predicate Agrees(scope: map<string, Schema>, printed: seq<Def>) {
    forall n <- scope :: PrintedAs(n, scope[n], printed)
  }

  // Every printed definition can be read back, its properties keep their meaning, and it declares its name alone.
  ghost predicate Usable(printed: seq<Def>) {
    (forall d <- printed :: Presentable(d) && FaithfulProperties(d.schema)) && DistinctNames(printed)
  }

  ghost function Types(printed: seq<Def>): map<string, Interface>
    requires Usable(printed)
  {
    Declared(InterfacesOf(printed))
  }

  lemma PrintedHas(name: string, s: Schema, printed: seq<Def>, refs: Env, env: Env, w: Json)
    requires Usable(printed) && PrintedAs(name, s, printed) && Covers(env, refs) && Accepts(s, refs, w)
    ensures name in Types(printed)
    ensures InInterface(Types(printed)[name], env, w) <==> w.Object? || Passes(s, env, w)
  {
    var i :| 0 <= i < |printed| && printed[i].name == name && SameKeywords(s, printed[i].schema);
    DeclaredIs(printed, i);
    SameAccepts(s, printed[i].schema, refs, w);
    if w.Object? {
      ObjectInInterface(printed[i], refs, env, w);
    } else {
      OtherInInterface(printed[i], env, w);
    }
  }

  lemma TypeNameIsSegment(name: string)
    requires IsTypeName(name)
    ensures LastSegment(name) == name
  {
    assert '/' !in name;
    assert "" + name == name;
    LastSegmentIs(name, "", name);
  }

  lemma PrintedIsDeclared(name: string, s: Schema, printed: seq<Def>)
    requires Usable(printed) && PrintedAs(name, s, printed)
    ensures name in Types(printed) && LastSegment(name) == name
  {
    var i :| 0 <= i < |printed| && printed[i].name == name && SameKeywords(s, printed[i].schema);
    DeclaredIs(printed, i);
    assert Presentable(printed[i]);
    TypeNameIsSegment(name);
  }

  // A value that the name's definition accepts is in the interface declared for it.
  ghost predicate Answered(
    scope: map<string, Schema>, decls: map<string, Interface>, refs: Env, env: Env, name: string, w: Json)
  {
    name in scope && Accepts(scope[name], refs, w) ==> name in decls && InInterface(decls[name], env, w)
  }

  ghost predicate AllAnswered(scope: map<string, Schema>, decls: map<string, Interface>, refs: Env, env: Env) {
    forall name, w :: Answered(scope, decls, refs, env, name, w)
  }

  ghost predicate AllPass(scope: map<string, Schema>, refs: Env, env: Env) {
    forall name <- scope :: OthersPass(scope[name], refs, env)
  }

  lemma AnsweredIffPass(scope: map<string, Schema>, printed: seq<Def>, refs: Env, env: Env)
    requires Usable(printed) && Agrees(scope, printed) && Covers(env, refs)
    ensures AllAnswered(scope, Types(printed), refs, env) <==> AllPass(scope, refs, env)
  {
    forall name, w | name in scope && Accepts(scope[name], refs, w)
      ensures Answered(scope, Types(printed), refs, env, name, w) <==> w.Object? || Passes(scope[name], env, w)
    {
      PrintedHas(name, scope[name], printed, refs, env, w);
    }
    if AllAnswered(scope, Types(printed), refs, env) {
      forall name, w | name in scope && Accepts(scope[name], refs, w) && !w.Object?
        ensures Passes(scope[name], env, w)
      {
        assert Answered(scope, Types(printed), refs, env, name, w);
      }
    }
  }

  ghost predicate CoversAt(scope: map<string, Schema>, decls: map<string, Interface>, depth: nat) {
    Covers(TypesAt(decls, depth), RefsAt(scope, depth))
  }

  ghost predicate AnsweredAt(scope: map<string, Schema>, decls: map<string, Interface>, depth: nat) {
    AllAnswered(scope, decls, RefsAt(scope, depth), TypesAt(decls, depth))
  }

  // With references followed `depth` times, every accepted value of a definition in scope is an object or passes.
  ghost predicate PassAt(scope: map<string, Schema>, decls: map<string, Interface>, depth: nat) {
    AllPass(scope, RefsAt(scope, depth), TypesAt(decls, depth))
  }

  lemma AnsweredCoversDeeper(scope: map<string, Schema>, decls: map<string, Interface>, depth: nat)
    requires depth > 0 && AnsweredAt(scope, decls, depth - 1)
    ensures CoversAt(scope, decls, depth)
  {
    var refs, env := RefsAt(scope, depth - 1), TypesAt(decls, depth - 1);
    forall r, w | RefsAt(scope, depth)(r, w) ensures TypesAt(decls, depth)(LastSegment(r), w) {
      assert Answered(scope, decls, refs, env, LastSegment(r), w);
    }
  }

  lemma CoversAnsweredBelow(scope: map<string, Schema>, decls: map<string, Interface>, depth: nat)
    requires depth > 0 && CoversAt(scope, decls, depth) && forall name <- scope :: LastSegment(name) == name
    ensures AnsweredAt(scope, decls, depth - 1)
  {
    var refs, env := RefsAt(scope, depth - 1), TypesAt(decls, depth - 1);
    forall name, w ensures Answered(scope, decls, refs, env, name, w) {
      if name in scope && Accepts(scope[name], refs, w) {
        assert RefsAt(scope, depth)(name, w);
        assert TypesAt(decls, depth)(LastSegment(name), w);
      }
    }
  }

  lemma PassAnswers(scope: map<string, Schema>, printed: seq<Def>, depth: nat)
    requires Usable(printed) && Agrees(scope, printed) && CoversAt(scope, Types(printed), depth)
    ensures AnsweredAt(scope, Types(printed), depth) <==> PassAt(scope, Types(printed), depth)
  {
    AnsweredIffPass(scope, printed, RefsAt(scope, depth), TypesAt(Types(printed), depth));
  }

  lemma {:induction false} CoversUpTo(scope: map<string, Schema>, decls: map<string, Interface>, depth: nat)
    requires forall k: nat :: k < depth && CoversAt(scope, decls, k) ==> AnsweredAt(scope, decls, k)
    ensures CoversAt(scope, decls, depth)
  {
    if depth > 0 {
      CoversUpTo(scope, decls, depth - 1);
      AnsweredCoversDeeper(scope, decls, depth);
    }
  }

  // Even through recursive references, every name denotes a type with all the values its definition accepts, if at
  // every smaller depth all accepted values other than objects pass.
  lemma ScopeCovered(scope: map<string, Schema>, printed: seq<Def>, depth: nat)
    requires Usable(printed) && Agrees(scope, printed)
    requires forall k: nat :: k < depth ==> PassAt(scope, Types(printed), k)
    ensures CoversAt(scope, Types(printed), depth)
  {
    forall k: nat | k < depth && CoversAt(scope, Types(printed), k) ensures AnsweredAt(scope, Types(printed), k) {
      PassAnswers(scope, printed, k);
    }
    CoversUpTo(scope, Types(printed), depth);
  }

  // The declared types contain, at every depth, all that the definitions in scope accept, exactly when all accepted
  // values other than objects pass.
  lemma ScopeCoversIff(scope: map<string, Schema>, printed: seq<Def>)
    requires Usable(printed) && Agrees(scope, printed)
    ensures (forall k: nat :: CoversAt(scope, Types(printed), k)) <==>
            (forall k: nat :: PassAt(scope, Types(printed), k))
  {
    var decls := Types(printed);
    if forall k: nat :: CoversAt(scope, decls, k) {
      forall k: nat ensures PassAt(scope, decls, k) {
        forall name | name in scope ensures LastSegment(name) == name {
          PrintedIsDeclared(name, scope[name], printed);
        }
        assert CoversAt(scope, decls, k) && CoversAt(scope, decls, k + 1);
        CoversAnsweredBelow(scope, decls, k + 1);
        PassAnswers(scope, printed, k);
      }
    }
    if forall k: nat :: PassAt(scope, decls, k) {
      forall k: nat ensures CoversAt(scope, decls, k) {
        ScopeCovered(scope, printed, k);
      }
    }
  }

  // The type of this name in the text generated for the models contains all that the schema accepts.
  ghost predicate Holds(models: seq<Def>, banner: seq<string>, m: Def, refs: Env, depth: nat) {
    var read := ParseInterfaces(banner + VisitModels(models, {}).lines);
    && read.Some?
    && forall v :: Accepts(m.schema, refs, v) ==> TypesAt(Declared(read.value), depth + 1)(m.name, v)
  }

  // Under the name of every model printed as it stands, the generated text declares an interface with all the values
  // that the model's schema accepts, exactly when all of them other than objects pass; references resolve among
  // definitions that are printed as they stand.
  lemma GeneratedMeaning(models: seq<Def>, banner: seq<string>, m: Def, scope: map<string, Schema>, depth: nat)
    requires (forall l <- banner :: IsBlank(l)) && Usable(PrintedModels(models, {}))
    requires PrintedAs(m.name, m.schema, PrintedModels(models, {})) && Agrees(scope, PrintedModels(models, {}))
    requires forall k: nat :: k < depth ==> PassAt(scope, Types(PrintedModels(models, {})), k)
    ensures Holds(models, banner, m, RefsAt(scope, depth), depth) <==>
            OthersPass(m.schema, RefsAt(scope, depth), TypesAt(Types(PrintedModels(models, {})), depth))
  {
    var printed := PrintedModels(models, {});
    var refs, env := RefsAt(scope, depth), TypesAt(Types(printed), depth);
    OutputParses(models, banner);
    ScopeCovered(scope, printed, depth);
    PrintedIsDeclared(m.name, m.schema, printed);
    forall v | Accepts(m.schema, refs, v)
      ensures TypesAt(Types(printed), depth + 1)(m.name, v) <==> v.Object? || Passes(m.schema, env, v)
    {
      PrintedHas(m.name, m.schema, printed, refs, env, v);
    }
  }

  // ---------------------------------------------------------------- when everything passes

  // Null is ruled out by a type, by every variant of a union or by a part of an intersection, provided that references
  // rule it out.
  ghost predicate RejectsNull(s: Schema) {
    || s.ref.Some?
    || s.tag in {StringType, IntegerType, NumberType, BooleanType, ArrayType, ObjectType}
    || (s.anyOf.Variants? && forall i :: 0 <= i < |s.anyOf.list| ==> RejectsNull(s.anyOf.list[i]))
    || (s.allOf.Variants? && exists i :: 0 <= i < |s.allOf.list| && RejectsNull(s.allOf.list[i]))
  }

  // An object, or anything without listed properties: a scalar, an array, an enumeration, a union, a bare reference.
  ghost predicate Plain(s: Schema) {
    RejectsNull(s) && (s.tag == ObjectType || s.properties == [])
  }

  lemma {:induction false} RejectsNullSound(s: Schema, refs: Env)
    requires RejectsNull(s) && forall r :: !refs(r, Json.Null)
    ensures !Accepts(s, refs, Json.Null)
    decreases s
  {
    if Accepts(s, refs, Json.Null) && s.ref.None? && TagAccepts(s.tag, Json.Null) {
      if s.anyOf.Variants? && forall i :: 0 <= i < |s.anyOf.list| ==> RejectsNull(s.anyOf.list[i]) {
        var i :| 0 <= i < |s.anyOf.list| && Accepts(s.anyOf.list[i], refs, Json.Null);
        RejectsNullSound(s.anyOf.list[i], refs);
      } else {
        var i :| 0 <= i < |s.allOf.list| && RejectsNull(s.allOf.list[i]);
        RejectsNullSound(s.allOf.list[i], refs);
      }
    }
  }

  lemma {:induction false} PlainRefsRejectNull(scope: map<string, Schema>, depth: nat)
    requires forall n <- scope :: Plain(scope[n])
    ensures forall r :: !RefsAt(scope, depth)(r, Json.Null)
  {
    if depth > 0 {
      PlainRefsRejectNull(scope, depth - 1);
      forall n | n in scope ensures !Accepts(scope[n], RefsAt(scope, depth - 1), Json.Null) {
        RejectsNullSound(scope[n], RefsAt(scope, depth - 1));
      }
    }
  }

  lemma PlainPasses(scope: map<string, Schema>, s: Schema, depth: nat, env: Env)
    requires (forall n <- scope :: Plain(scope[n])) && Plain(s)
    ensures OthersPass(s, RefsAt(scope, depth), env)
  {
    PlainRefsRejectNull(scope, depth);
    RejectsNullSound(s, RefsAt(scope, depth));
  }

  // For plain definitions everything passes, at every depth.
  lemma PlainMeaning(models: seq<Def>, banner: seq<string>, m: Def, scope: map<string, Schema>, depth: nat)
    requires (forall l <- banner :: IsBlank(l)) && Usable(PrintedModels(models, {}))
    requires PrintedAs(m.name, m.schema, PrintedModels(models, {})) && Agrees(scope, PrintedModels(models, {}))
    requires Plain(m.schema) && forall n <- scope :: Plain(scope[n])
    ensures Holds(models, banner, m, RefsAt(scope, depth), depth)
  {
    var decls := Types(PrintedModels(models, {}));
    forall k: nat | k < depth ensures PassAt(scope, decls, k) {
      forall n | n in scope ensures OthersPass(scope[n], RefsAt(scope, k), TypesAt(decls, k)) {
        PlainPasses(scope, scope[n], k, TypesAt(decls, k));
      }
    }
    PlainPasses(scope, m.schema, depth, TypesAt(decls, depth));
    GeneratedMeaning(models, banner, m, scope, depth);
  }

  // ---------------------------------------------------------------- coherent documents

  // Wherever a name is defined, it is defined alike.
  ghost predicate Coherent(models: seq<Def>) {
    Alike(OccurrencesOf(models))
  }

  ghost predicate Alike(all: set<Def>) {
    forall a <- all, b <- all :: a.name == b.name ==> SameKeywords(a.schema, b.schema)
  }

  // In a coherent document, any definitions with emitted names are printed as they stand.
  lemma CoherentAgrees(models: seq<Def>, scope: map<string, Schema>)
    requires Coherent(models)
    requires forall n <- scope ::
      n in VisitModels(models, {}).emitted && Def(n, scope[n]) in OccurrencesOf(models)
    ensures Agrees(scope, PrintedModels(models, {}))
  {
    var printed := PrintedModels(models, {});
    PrintedModelsIs(models, {});
    forall n | n in scope ensures PrintedAs(n, scope[n], printed) {
      AlikeDefinitions(OccurrencesOf(models), Def(n, scope[n]));
      AlikeIsPrinted(OccurrencesOf(models), n, scope[n], printed);
    }
  }

  lemma AlikeDefinitions(all: set<Def>, d: Def)
    requires Alike(all) && d in all
    ensures forall a <- all :: a.name == d.name ==> SameKeywords(d.schema, a.schema)
  {
  }

  lemma AlikeIsPrinted(all: set<Def>, name: string, s: Schema, printed: seq<Def>)
    requires Def(name, s) in all && forall d <- printed :: d in all
    requires forall a <- all :: a.name == name ==> SameKeywords(s, a.schema)
    requires exists d <- printed :: d.name == name
    ensures PrintedAs(name, s, printed)
  {
    var d :| d in printed && d.name == name;
    var i :| 0 <= i < |printed| && printed[i] == d;
    assert SameKeywords(s, printed[i].schema);
  }

  // So the interface generated for a model of a coherent document contains all that the model accepts, exactly when all
  // accepted values other than objects pass.
  lemma CoherentMeaning(models: seq<Def>, banner: seq<string>, m: Def, scope: map<string, Schema>, depth: nat)
    requires (forall l <- banner :: IsBlank(l)) && Usable(PrintedModels(models, {}))
    requires Coherent(models) && m in models
    requires forall n <- scope ::
      n in VisitModels(models, {}).emitted && Def(n, scope[n]) in OccurrencesOf(models)
    requires forall k: nat :: k < depth ==> PassAt(scope, Types(PrintedModels(models, {})), k)
    ensures Holds(models, banner, m, RefsAt(scope, depth), depth) <==>
            OthersPass(m.schema, RefsAt(scope, depth), TypesAt(Types(PrintedModels(models, {})), depth))
  {
    CoherentAgrees(models, scope);
    ModelPrintedAs(models, m);
    GeneratedMeaning(models, banner, m, scope, depth);
  }

  lemma ModelPrintedAs(models: seq<Def>, m: Def)
    requires Coherent(models) && m in models
    ensures PrintedAs(m.name, m.schema, PrintedModels(models, {}))
  {
    BelowOccurs(models);
    PrintedModelsIs(models, {});
    ExactlyOneBlock(models, {}, "");
    var i :| 0 <= i < |models| && models[i] == m;
    assert models[i].name in VisitModels(models, {}).emitted;
    AlikeDefinitions(OccurrencesOf(models), m);
    AlikeIsPrinted(OccurrencesOf(models), m.name, m.schema, PrintedModels(models, {}));
  }

  // ---------------------------------------------------------------- where definitions differ

  function Wrapper(x: string, t: TypeTag): Schema {
    EMPTY.(tag := ObjectType, properties := [Property(x, SchemaLimits.Typed(t))])
  }

  lemma WrapperAccepts(x: string, t: TypeTag, refs: Env, v: Json)
    requires SchemaLimits.IsScalar(t)
    ensures Accepts(Wrapper(x, t), refs, v) <==> v.Object? && (x in v.fields ==> TagAccepts(t, v.fields[x]))
  {
    var s := Wrapper(x, t);
    assert s.properties[0] == Property(x, SchemaLimits.Typed(t));
    if v.Object? && x in v.fields {
      SchemaLimits.ScalarAccepts(t, refs, refs, v.fields[x]);
    }
  }

  lemma WrapperInterface(b: string, x: string, t: TypeTag, env: Env, v: Json)
    requires IsTypeName(b) && IsMemberName(x) && SchemaLimits.IsScalar(t)
    ensures Presentable(Def(b, Wrapper(x, t)))
    ensures v.Object? ==> (InInterface(InterfaceOf(Def(b, Wrapper(x, t))), env, v) <==>
      (x in v.fields ==> InAtom(Keyword(SchemaLimits.ScalarWord(t)), env, v.fields[x])))
  {
    var d := Def(b, Wrapper(x, t));
    assert Strings.Split("", '\n') == [""];
    SchemaLimits.ScalarRegroup(t);
    if v.Object? {
      var ms := InterfaceOf(d).members;
      assert ms == [Member(x, true, Regroup(SchemaLimits.Typed(t)), "")];
      assert ms[0] == Member(x, true, Regroup(SchemaLimits.Typed(t)), "");
      if x in v.fields {
        var w := SchemaLimits.ScalarWord(t);
        InOneAlternative(SchemaLimits.WordAlt(w), env, v.fields[x]);
        SchemaLimits.InWordAlt(w, env, v.fields[x]);
      }
    }
  }

  // Where two models define one name differently, the one printed first stands for both. For definitions with one
  // scalar property, the printed interface keeps the values of the other exactly when both scalars print the same word.
  lemma FirstDefinitionIff(b: string, x: string, first: TypeTag, other: TypeTag, refs: Env, env: Env)
    requires IsTypeName(b) && IsMemberName(x) && SchemaLimits.IsScalar(first) && SchemaLimits.IsScalar(other)
    ensures Presentable(Def(b, Wrapper(x, first)))
    ensures (forall v :: Accepts(Wrapper(x, other), refs, v) ==>
               InInterface(InterfaceOf(Def(b, Wrapper(x, first))), env, v)) <==>
            SchemaLimits.ScalarWord(first) == SchemaLimits.ScalarWord(other)
  {
    var i := InterfaceOf(Def(b, Wrapper(x, first)));
    WrapperInterface(b, x, first, env, Json.Null);
    if SchemaLimits.ScalarWord(first) == SchemaLimits.ScalarWord(other) {
      forall v | Accepts(Wrapper(x, other), refs, v) ensures InInterface(i, env, v) {
        WrapperAccepts(x, other, refs, v);
        WrapperInterface(b, x, first, env, v);
        if x in v.fields {
          SchemaLimits.ScalarAccepts(other, refs, env, v.fields[x]);
        }
      }
    } else {
      var v := Object(map[x := SchemaLimits.Sample(other)]);
      WrapperAccepts(x, other, refs, v);
      WrapperInterface(b, x, first, env, v);
      SchemaLimits.ScalarAccepts(other, refs, env, SchemaLimits.Sample(other));
      SchemaLimits.SampleOnlyIn(other, SchemaLimits.ScalarWord(first), env);
    }
  }
}
