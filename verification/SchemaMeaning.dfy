/**
 Value semantics on both sides of the generator: which JSON values a schema accepts, which values a TypeScript type
 contains, and when the printed type contains every accepted value.
 */
module SchemaMeaning {
  import opened Wrappers
  import opened TsTypes
  import opened SchemaToTs

  // An assignment of value sets to names: to references on the schema side, to type names on the other.
  type Env = (string, Json) -> bool

  // ---------------------------------------------------------------- what a schema accepts

  ghost predicate TagAccepts(tag: TypeTag, v: Json) {
    match tag
    case StringType => v.String?
    case IntegerType => v.Number? && v.n == v.n.Floor as real
    case NumberType => v.Number?
    case BooleanType => v.Bool?
    case NullType => v.Null?
    case ArrayType => v.Array?
    case ObjectType => v.Object?
    case _ => true
  }

  ghost predicate IsProperty(s: Schema, name: string) {
    exists i :: 0 <= i < |s.properties| && s.properties[i].name == name
  }

  // All present keywords constrain the value together.
  ghost predicate Accepts(s: Schema, refs: Env, v: Json) {
    && (s.ref.Some? ==> refs(s.ref.value, v))
    && (s.anyOf.Variants? ==> exists i :: 0 <= i < |s.anyOf.list| && Accepts(s.anyOf.list[i], refs, v))
    && (s.allOf.Variants? ==> forall i :: 0 <= i < |s.allOf.list| ==> Accepts(s.allOf.list[i], refs, v))
    && TagAccepts(s.tag, v)
    && (v.Array? && s.items.Some? ==> forall i :: 0 <= i < |v.items| ==> Accepts(s.items.value, refs, v.items[i]))
    && (v.Object? ==> forall k <- s.required :: k in v.fields)
    && (v.Object? ==> forall i :: 0 <= i < |s.properties| && s.properties[i].name in v.fields ==>
          Accepts(s.properties[i].schema, refs, v.fields[s.properties[i].name]))
    && (v.Object? ==> forall k <- v.fields :: !IsProperty(s, k) ==>
          match s.additional
          case NoAdditional => true
          case Allowed(b) => b
          case Constrained(t) => Accepts(t, refs, v.fields[k]))
  }

  // ---------------------------------------------------------------- what a type contains

  ghost predicate In(u: UnionT, env: Env, v: Json) {
    exists i :: 0 <= i < |u.alts| && InInter(u.alts[i], env, v)
  }

  ghost predicate InInter(t: InterT, env: Env, v: Json) {
    forall i :: 0 <= i < |t.parts| ==> InPostfix(t.parts[i], t.parts[i].dims, env, v)
  }

  ghost predicate InPostfix(p: PostfixT, dims: nat, env: Env, v: Json)
    decreases p, dims
  {
    if dims == 0 then InAtom(p.atom, env, v)
    else v.Array? && forall i :: 0 <= i < |v.items| ==> InPostfix(p, dims - 1, env, v.items[i])
  }

  ghost predicate InAtom(a: Atom, env: Env, v: Json) {
    match a
    case Keyword(StringWord) => v.String?
    case Keyword(NumberWord) => v.Number?
    case Keyword(BooleanWord) => v.Bool?
    case Keyword(NullWord) => v.Null?
    case Keyword(UnknownWord) => true
    case Name(n) => env(n, v)
    case Record(u) => v.Object? && forall k <- v.fields :: In(u, env, v.fields[k])
  }

  // ---------------------------------------------------------------- when the text means what the schema says

  predicate Bare(u: UnionT) {
    |u.alts| == 1 && |u.alts[0].parts| == 1
  }

  // Array items print as neither a union nor an intersection; a dropped "null" is put back; a constrained record
  // lists no properties of its own. Nothing is asked of `allOf`: regrouping there can only add values.
  ghost predicate Faithful(s: Schema) {
    Printable(s) &&
    if s.ref.Some? then true
    else if s.anyOf.Variants? then
      && (forall i :: 0 <= i < |s.anyOf.list| ==> Faithful(s.anyOf.list[i]))
      && KeepsNull(s.anyOf.list)
    else if s.allOf.Variants? then
      forall i :: 0 <= i < |s.allOf.list| ==> Faithful(s.allOf.list[i])
    else match s.tag
      case ArrayType => s.items.Some? ==> Faithful(s.items.value) && Bare(Regroup(s.items.value))
      case ObjectType => s.additional.Constrained? ==> Faithful(s.additional.schema) && s.properties == []
      case _ => true
  }

  // Nothing is dropped, or everything is, or the generator sees a variant declared null.
  ghost predicate KeepsNull(variants: seq<Schema>) {
    || KeptTexts(variants) == []
    || HasNull(variants)
    || forall i :: 0 <= i < |variants| ==> JsonTypeToTs(variants[i]) != "null"
  }

  // ---------------------------------------------------------------- membership of the regrouped forms

  lemma InSingle(a: Atom, env: Env, v: Json)
    ensures In(Single(a), env, v) <==> InAtom(a, env, v)
  {
    var p := PostfixT(a, 0);
    InOneAlternative(InterT([p]), env, v);
    assert InterT([p]).parts[0] == p;
    assert InPostfix(p, 0, env, v) <==> InAtom(a, env, v);
  }

  lemma InConcat(x: seq<InterT>, y: seq<InterT>, env: Env, v: Json)
    ensures In(UnionT(x + y), env, v) <==> In(UnionT(x), env, v) || In(UnionT(y), env, v)
  {
    if In(UnionT(x), env, v) {
      var i :| 0 <= i < |x| && InInter(x[i], env, v);
      assert (x + y)[i] == x[i];
    }
    if In(UnionT(y), env, v) {
      var i :| 0 <= i < |y| && InInter(y[i], env, v);
      assert (x + y)[|x| + i] == y[i];
    }
  }

  // Wherever an item type is bare, brackets make it the type of arrays of it.
  lemma InBracketBare(u: UnionT, env: Env, v: Json)
    requires WellFormed(u) && Bare(u)
    ensures In(Bracket(u), env, v) <==> v.Array? && forall i :: 0 <= i < |v.items| ==> In(u, env, v.items[i])
  {
    var p := u.alts[0].parts[0];
    var q := PostfixT(p.atom, p.dims + 1);
    assert Bracket(u).alts == [InterT([q])];
    forall w ensures In(u, env, w) <==> InPostfix(p, p.dims, env, w) {
      if InPostfix(p, p.dims, env, w) { assert InInter(u.alts[0], env, w); }
    }
    SameAtom(p, q, p.dims + 1, env, v);
    assert In(Bracket(u), env, v) <==> InInter(InterT([q]), env, v) by {
      assert Bracket(u).alts[0] == InterT([q]);
    }
    assert InterT([q]).parts[0] == q;
    assert InPostfix(p, p.dims + 1, env, v) <==>
      v.Array? && forall i :: 0 <= i < |v.items| ==> InPostfix(p, p.dims, env, v.items[i]);
  }

  lemma {:induction false} SameAtom(p: PostfixT, q: PostfixT, dims: nat, env: Env, v: Json)
    requires p.atom == q.atom
    ensures InPostfix(p, dims, env, v) <==> InPostfix(q, dims, env, v)
    decreases dims
  {
    if dims > 0 && v.Array? {
      forall i | 0 <= i < |v.items|
        ensures InPostfix(p, dims - 1, env, v.items[i]) <==> InPostfix(q, dims - 1, env, v.items[i])
      {
        SameAtom(p, q, dims - 1, env, v.items[i]);
      }
    }
  }

  lemma InInterConcat(x: seq<PostfixT>, y: seq<PostfixT>, env: Env, v: Json)
    ensures InInter(InterT(x + y), env, v) <==> InInter(InterT(x), env, v) && InInter(InterT(y), env, v)
  {
    var z := x + y;
    assert forall i :: 0 <= i < |x| ==> z[i] == x[i];
    assert forall i :: 0 <= i < |y| ==> z[|x| + i] == y[i];
    if InInter(InterT(z), env, v) {
      forall i | 0 <= i < |y| ensures InPostfix(y[i], y[i].dims, env, v) {
        assert InPostfix(z[|x| + i], z[|x| + i].dims, env, v);
      }
    }
  }

  lemma InOneAlternative(t: InterT, env: Env, v: Json)
    ensures In(UnionT([t]), env, v) <==> InInter(t, env, v)
  {
    assert UnionT([t]).alts[0] == t;
  }

  // Intersecting only the touching alternatives loses no common value.
  lemma {:induction false} InMeet(x: seq<InterT>, y: seq<InterT>, env: Env, v: Json)
    requires x != [] && y != []
    requires In(UnionT(x), env, v) && In(UnionT(y), env, v)
    ensures In(UnionT(Meet(x, y)), env, v)
  {
    var i :| 0 <= i < |x| && InInter(x[i], env, v);
    var j :| 0 <= j < |y| && InInter(y[j], env, v);
    var m := Meet(x, y);
    if |x| == 1 {
      if j == 0 {
        InInterConcat(x[0].parts, y[0].parts, env, v);
        assert InInter(m[0], env, v);
      } else {
        assert m[j] == y[j];
      }
    } else if i == 0 {
      assert m[0] == x[0];
    } else {
      assert x[1..][i - 1] == x[i];
      InMeet(x[1..], y, env, v);
      InConcat([x[0]], Meet(x[1..], y), env, v);
    }
  }

  lemma {:induction false} InMeetAll(ss: seq<Schema>, env: Env, v: Json)
    requires ss != [] && AllPrintable(ss)
    requires forall i :: 0 <= i < |ss| ==> Printable(ss[i]) && In(Regroup(ss[i]), env, v)
    ensures In(UnionT(MeetAll(ss)), env, v)
  {
    assert In(Regroup(ss[0]), env, v);
    if |ss| > 1 {
      assert forall i :: 0 <= i < |ss| - 1 ==> ss[1..][i] == ss[i + 1];
      InMeetAll(ss[1..], env, v);
      InMeet(Regroup(ss[0]).alts, MeetAll(ss[1..]), env, v);
    }
  }

  lemma {:induction false} AllPrintableEach(ss: seq<Schema>)
    ensures AllPrintable(ss) <==> forall i :: 0 <= i < |ss| ==> Printable(ss[i])
  {
    if ss != [] {
      AllPrintableEach(ss[1..]);
      assert forall i :: 0 < i < |ss| ==> ss[i] == ss[1..][i - 1];
      assert forall i :: 0 <= i < |ss| - 1 ==> ss[1..][i] == ss[i + 1];
    }
  }

  // Every variant that is not dropped keeps its values.
  lemma {:induction false} InKept(ss: seq<Schema>, j: nat, env: Env, v: Json)
    requires AllPrintable(ss) && j < |ss| && Printable(ss[j])
    requires Regroup(ss[j]) != NULL_TYPE && In(Regroup(ss[j]), env, v)
    ensures KeptAlts(ss) != [] && In(UnionT(KeptAlts(ss)), env, v)
  {
    var head, tail := Regroup(ss[0]), KeptAlts(ss[1..]);
    if j > 0 {
      InKept(ss[1..], j - 1, env, v);
    }
    if head != NULL_TYPE && tail != [] {
      InConcat(head.alts, tail, env, v);
    }
  }

  // ---------------------------------------------------------------- meaning preservation

  // The type named by the last segment of a reference has every value that the reference accepts.
  ghost predicate Covers(env: Env, refs: Env) {
    forall r, w :: refs(r, w) ==> env(LastSegment(r), w)
  }

  lemma AnyOfKept(s: Schema, j: nat, env: Env, v: Json)
    requires Faithful(s) && s.ref.None? && s.anyOf.Variants?
    requires j < |s.anyOf.list| && Printable(s.anyOf.list[j]) && In(Regroup(s.anyOf.list[j]), env, v)
    ensures In(Regroup(s), env, v)
  {
    var vs := s.anyOf.list;
    var t := Regroup(vs[j]);
    KeptPrint(vs);
    PrintsRegrouped(vs[j]);
    PrintsNull(t);
    if t != NULL_TYPE {
      InKept(vs, j, env, v);
    }
    if KeptAlts(vs) != [] && HasNull(vs) {
      InConcat(KeptAlts(vs), NULL_TYPE.alts, env, v);
    }
  }

  // The printed text of a faithful schema parses to a type that contains every value the schema accepts.
  lemma {:induction false} MeaningPreserved(s: Schema, refs: Env, env: Env, v: Json)
    requires Faithful(s) && Covers(env, refs) && Accepts(s, refs, v)
    ensures ParseType(JsonTypeToTs(s)) == Some(Regroup(s))
    ensures In(Regroup(s), env, v)
    decreases s
  {
    ParsesToRegrouped(s);
    if s.ref.Some? {
      InSingle(Name(LastSegment(s.ref.value)), env, v);
    } else if s.anyOf.Variants? {
      var j :| 0 <= j < |s.anyOf.list| && Accepts(s.anyOf.list[j], refs, v);
      MeaningPreserved(s.anyOf.list[j], refs, env, v);
      AnyOfKept(s, j, env, v);
    } else if s.allOf.Variants? {
      AllPrintableEach(s.allOf.list);
      forall i | 0 <= i < |s.allOf.list| ensures In(Regroup(s.allOf.list[i]), env, v) {
        MeaningPreserved(s.allOf.list[i], refs, env, v);
      }
      InMeetAll(s.allOf.list, env, v);
    } else {
      TypedMeaning(s, refs, env, v);
    }
  }

  lemma {:induction false} TypedMeaning(s: Schema, refs: Env, env: Env, v: Json)
    requires Faithful(s) && Covers(env, refs) && Accepts(s, refs, v)
    requires s.ref.None? && s.anyOf.NoVariants? && s.allOf.NoVariants?
    ensures In(Regroup(s), env, v)
    decreases s, 0
  {
    match s.tag
    case StringType => InSingle(Keyword(StringWord), env, v);
    case IntegerType => InSingle(Keyword(NumberWord), env, v);
    case NumberType => InSingle(Keyword(NumberWord), env, v);
    case BooleanType => InSingle(Keyword(BooleanWord), env, v);
    case NullType => InSingle(Keyword(NullWord), env, v);
    case ArrayType =>
      forall i | 0 <= i < |v.items| ensures In(ItemType(s.items), env, v.items[i]) {
        if s.items.Some? {
          MeaningPreserved(s.items.value, refs, env, v.items[i]);
        } else {
          InSingle(Keyword(UnknownWord), env, v.items[i]);
        }
      }
      InBracketBare(ItemType(s.items), env, v);
    case ObjectType =>
      var inner := if s.additional.Constrained? then Regroup(s.additional.schema) else Single(Keyword(UnknownWord));
      forall k | k in v.fields ensures In(inner, env, v.fields[k]) {
        if s.additional.Constrained? {
          assert !IsProperty(s, k);
          MeaningPreserved(s.additional.schema, refs, env, v.fields[k]);
        } else {
          InSingle(Keyword(UnknownWord), env, v.fields[k]);
        }
      }
      InSingle(Record(inner), env, v);
    case _ => InSingle(Keyword(UnknownWord), env, v);
  }
}
