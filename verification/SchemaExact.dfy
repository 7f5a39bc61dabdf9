/** Schemas whose printed type contains exactly the accepted values, no more. */
module SchemaExact {
  import opened Wrappers
  import opened TsTypes
  import opened SchemaToTs
  import opened SchemaMeaning

  // No keyword about members of arrays and objects rules a value out.
  ghost predicate Open(s: Schema) {
    && s.items.None? && s.properties == [] && s.required == []
    && (s.additional.NoAdditional? || s.additional == Allowed(true))
  }

  ghost predicate Untyped(s: Schema) {
    s.tag == AbsentType || s.tag == OtherType
  }

  // Each schema says what it says by one keyword; intersected parts print no unions; integers are left out, since they
  // print as numbers.
  ghost predicate Exact(s: Schema) {
    && Faithful(s)
    && if s.ref.Some? then Untyped(s) && Open(s) && s.anyOf.NoVariants? && s.allOf.NoVariants?
       else if s.anyOf.Variants? then
         && Untyped(s) && Open(s) && s.allOf.NoVariants? && s.anyOf.list != []
         && forall i :: 0 <= i < |s.anyOf.list| ==> Exact(s.anyOf.list[i])
       else if s.allOf.Variants? then
         && Untyped(s) && Open(s)
         && forall i :: 0 <= i < |s.allOf.list| ==> Exact(s.allOf.list[i]) && |Regroup(s.allOf.list[i]).alts| == 1
       else match s.tag
         case IntegerType => false
         case ArrayType => s.items.Some? ==> Exact(s.items.value)
         case ObjectType =>
           && s.properties == [] && s.required == [] && s.additional != Allowed(false)
           && (s.additional.Constrained? ==> Exact(s.additional.schema))
         case AbsentType => Open(s)
         case OtherType => Open(s)
         case _ => true
  }

  // References and type names mean the same.
  ghost predicate SameNames(env: Env, refs: Env) {
    forall r, w :: refs(r, w) <==> env(LastSegment(r), w)
  }

  lemma {:induction false} FromKept(ss: seq<Schema>, env: Env, v: Json) returns (j: nat)
    requires AllPrintable(ss) && In(UnionT(KeptAlts(ss)), env, v)
    ensures j < |ss| && Printable(ss[j]) && In(Regroup(ss[j]), env, v)
  {
    var head, tail := Regroup(ss[0]), KeptAlts(ss[1..]);
    if head != NULL_TYPE && In(head, env, v) {
      j := 0;
    } else {
      if head != NULL_TYPE && tail != [] {
        InConcat(head.alts, tail, env, v);
      }
      j := FromKept(ss[1..], env, v);
      j := j + 1;
    }
  }

  lemma {:induction false} FromMeet(ss: seq<Schema>, env: Env, v: Json)
    requires ss != [] && AllPrintable(ss) && In(UnionT(MeetAll(ss)), env, v)
    requires forall i :: 0 <= i < |ss| ==> Printable(ss[i]) && |Regroup(ss[i]).alts| == 1
    ensures |MeetAll(ss)| == 1
    ensures forall i :: 0 <= i < |ss| ==> In(Regroup(ss[i]), env, v)
  {
    var head := Regroup(ss[0]);
    assert head == UnionT(head.alts);
    if |ss| > 1 {
      MeetAllSingle(ss[1..]);
      var rest := MeetAll(ss[1..]);
      assert MeetAll(ss) == [InterT(head.alts[0].parts + rest[0].parts)];
      InOneAlternative(MeetAll(ss)[0], env, v);
      InInterConcat(head.alts[0].parts, rest[0].parts, env, v);
      assert InInter(head.alts[0], env, v) && InInter(rest[0], env, v);
      FromMeet(ss[1..], env, v);
      assert forall i :: 0 < i < |ss| ==> ss[i] == ss[1..][i - 1];
    }
  }

  lemma {:induction false} MeetAllSingle(ss: seq<Schema>)
    requires ss != [] && AllPrintable(ss)
    requires forall i :: 0 <= i < |ss| ==> Printable(ss[i]) && |Regroup(ss[i]).alts| == 1
    ensures |MeetAll(ss)| == 1
  {
    if |ss| > 1 {
      MeetAllSingle(ss[1..]);
    }
  }

  lemma OpenAccepts(s: Schema, refs: Env, v: Json)
    requires Open(s) && Untyped(s)
    ensures Accepts(s, refs, v) <==>
      && (s.ref.Some? ==> refs(s.ref.value, v))
      && (s.anyOf.Variants? ==> exists i :: 0 <= i < |s.anyOf.list| && Accepts(s.anyOf.list[i], refs, v))
      && (s.allOf.Variants? ==> forall i :: 0 <= i < |s.allOf.list| ==> Accepts(s.allOf.list[i], refs, v))
  {
  }

  // The printed type of an exact schema contains the accepted values and nothing else.
  lemma {:induction false} MeaningExact(s: Schema, refs: Env, env: Env, v: Json)
    requires Exact(s) && SameNames(env, refs)
    ensures In(Regroup(s), env, v) <==> Accepts(s, refs, v)
    decreases s
  {
    if Accepts(s, refs, v) {
      MeaningPreserved(s, refs, env, v);
    }
    if In(Regroup(s), env, v) {
      if s.ref.Some? {
        InSingle(Name(LastSegment(s.ref.value)), env, v);
        OpenAccepts(s, refs, v);
      } else if s.anyOf.Variants? {
        AnyOfExact(s, refs, env, v);
      } else if s.allOf.Variants? {
        FromMeet(s.allOf.list, env, v);
        forall i | 0 <= i < |s.allOf.list| ensures Accepts(s.allOf.list[i], refs, v) {
          MeaningExact(s.allOf.list[i], refs, env, v);
        }
        OpenAccepts(s, refs, v);
      } else {
        TypedExact(s, refs, env, v);
      }
    }
  }

  lemma {:induction false} AnyOfExact(s: Schema, refs: Env, env: Env, v: Json)
    requires Exact(s) && SameNames(env, refs) && s.ref.None? && s.anyOf.Variants?
    requires In(Regroup(s), env, v)
    ensures Accepts(s, refs, v)
    decreases s, 0
  {
    var vs := s.anyOf.list;
    var kept := KeptAlts(vs);
    var j: nat := 0;
    AllPrintableEach(vs);
    if kept != [] && In(UnionT(kept), env, v) {
      j := FromKept(vs, env, v);
      MeaningExact(vs[j], refs, env, v);
    } else {
      if kept != [] {
        InConcat(kept, NULL_TYPE.alts, env, v);
        assert NULL_TYPE == UnionT(NULL_TYPE.alts);
        j :| 0 <= j < |vs| && vs[j].tag == NullType;
      } else {
        NothingKept(vs, 0);
      }
      InSingle(Keyword(NullWord), env, v);
      NullVariant(vs[j]);
      MeaningExact(vs[j], refs, env, v);
    }
    OpenAccepts(s, refs, v);
  }

  lemma NullVariant(s: Schema)
    requires Exact(s) && (s.tag == NullType || Regroup(s) == NULL_TYPE)
    ensures Regroup(s) == NULL_TYPE
  {
  }

  lemma {:induction false} NothingKept(ss: seq<Schema>, j: nat)
    requires AllPrintable(ss) && KeptAlts(ss) == [] && j < |ss| && Printable(ss[j])
    ensures Regroup(ss[j]) == NULL_TYPE
  {
    assert Regroup(ss[0]) == NULL_TYPE;
    if j > 0 {
      NothingKept(ss[1..], j - 1);
    }
  }

  lemma {:induction false} TypedExact(s: Schema, refs: Env, env: Env, v: Json)
    requires Exact(s) && SameNames(env, refs) && s.ref.None? && s.anyOf.NoVariants? && s.allOf.NoVariants?
    requires In(Regroup(s), env, v)
    ensures Accepts(s, refs, v)
    decreases s, 0
  {
    match s.tag
    case StringType => InSingle(Keyword(StringWord), env, v);
    case NumberType => InSingle(Keyword(NumberWord), env, v);
    case BooleanType => InSingle(Keyword(BooleanWord), env, v);
    case NullType => InSingle(Keyword(NullWord), env, v);
    case ArrayType =>
      InBracketBare(ItemType(s.items), env, v);
      if s.items.Some? {
        forall i | 0 <= i < |v.items| ensures Accepts(s.items.value, refs, v.items[i]) {
          MeaningExact(s.items.value, refs, env, v.items[i]);
        }
      }
    case ObjectType =>
      var inner := if s.additional.Constrained? then Regroup(s.additional.schema) else Single(Keyword(UnknownWord));
      InSingle(Record(inner), env, v);
      if s.additional.Constrained? {
        forall k | k in v.fields ensures Accepts(s.additional.schema, refs, v.fields[k]) {
          MeaningExact(s.additional.schema, refs, env, v.fields[k]);
        }
      }
    case _ => OpenAccepts(s, refs, v);
  }
}
