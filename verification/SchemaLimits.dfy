/**
 Where the generator's text does lose values: for a family of schemas around each guard of `Faithful`, the exact
 condition under which the text keeps them.
 */
module SchemaLimits {
  import opened Wrappers
  import opened TsTypes
  import opened SchemaToTs
  import opened SchemaMeaning

  // Whatever the references mean, the parsed type contains every accepted value.
  ghost predicate KeepsMeaning(s: Schema)
    requires Printable(s)
  {
    forall refs: Env, env: Env, v :: Covers(env, refs) && Accepts(s, refs, v) ==> In(Regroup(s), env, v)
  }

  // ---------------------------------------------------------------- lists of unions of scalars

  predicate IsScalar(t: TypeTag) {
    t in {StringType, IntegerType, NumberType, BooleanType, NullType}
  }

  function ScalarWord(t: TypeTag): (w: Word)
    requires IsScalar(t)
    ensures w != UnknownWord
  {
    match t
    case StringType => StringWord
    case BooleanType => BooleanWord
    case NullType => NullWord
    case _ => NumberWord
  }

  function Typed(t: TypeTag): Schema {
    EMPTY.(tag := t)
  }

  function TypedAll(tags: seq<TypeTag>): (ss: seq<Schema>)
    ensures |ss| == |tags| && forall i :: 0 <= i < |tags| ==> ss[i] == Typed(tags[i])
  {
    if tags == [] then [] else [Typed(tags[0])] + TypedAll(tags[1..])
  }

  function ScalarUnion(tags: seq<TypeTag>): Schema {
    EMPTY.(anyOf := Variants(TypedAll(tags)))
  }

  function ListOf(item: Schema): Schema {
    EMPTY.(tag := ArrayType, items := Some(item))
  }

  function WordAlt(w: Word): InterT {
    InterT([PostfixT(Keyword(w), 0)])
  }

  ghost predicate IsAltOf(a: InterT, tags: seq<TypeTag>)
    requires forall t <- tags :: IsScalar(t)
  {
    exists t <- tags :: a == WordAlt(ScalarWord(t))
  }

  lemma ScalarRegroup(t: TypeTag)
    requires IsScalar(t)
    ensures Printable(Typed(t)) && Regroup(Typed(t)) == UnionT([WordAlt(ScalarWord(t))])
    ensures Regroup(Typed(t)) == NULL_TYPE <==> t == NullType
  {
    assert NULL_TYPE.alts[0].parts[0].atom.word == NullWord;
    assert t != NullType ==> ScalarWord(t) != NullWord;
  }

  lemma {:induction false} ScalarsPrintable(tags: seq<TypeTag>)
    requires forall t <- tags :: IsScalar(t)
    ensures AllPrintable(TypedAll(tags))
    ensures Printable(ScalarUnion(tags)) && Printable(ListOf(ScalarUnion(tags)))
  {
    if tags != [] {
      ScalarRegroup(tags[0]);
      ScalarsPrintable(tags[1..]);
      assert TypedAll(tags)[1..] == TypedAll(tags[1..]);
    }
  }

  lemma {:induction false} KeptScalars(tags: seq<TypeTag>)
    requires forall t <- tags :: IsScalar(t)
    requires AllPrintable(TypedAll(tags))
    ensures forall a <- KeptAlts(TypedAll(tags)) :: IsAltOf(a, tags)
    ensures forall t <- tags :: t != NullType ==> WordAlt(ScalarWord(t)) in KeptAlts(TypedAll(tags))
  {
    if tags != [] {
      var head, rest := tags[0], tags[1..];
      assert TypedAll(tags)[1..] == TypedAll(rest);
      ScalarRegroup(head);
      KeptScalars(rest);
      var kept := KeptAlts(TypedAll(rest));
      assert KeptAlts(TypedAll(tags)) ==
        if head == NullType then kept else [WordAlt(ScalarWord(head))] + kept;
      forall a | a in KeptAlts(TypedAll(tags)) ensures IsAltOf(a, tags) {
        if a in kept {
          var t :| t in rest && a == WordAlt(ScalarWord(t));
          assert t in tags;
        } else {
          assert head in tags;
        }
      }
    }
  }

  // The alternatives of the union's parse are exactly the scalars' words.
  lemma ScalarUnionAlts(tags: seq<TypeTag>)
    requires tags != [] && forall t <- tags :: IsScalar(t)
    requires Printable(ScalarUnion(tags)) && AllPrintable(TypedAll(tags))
    ensures var alts := Regroup(ScalarUnion(tags)).alts;
      && (forall a <- alts :: IsAltOf(a, tags))
      && (forall t <- tags :: WordAlt(ScalarWord(t)) in alts)
  {
    KeptScalars(tags);
    var kept, nulls := KeptAlts(TypedAll(tags)), HasNull(TypedAll(tags));
    var alts := Regroup(ScalarUnion(tags)).alts;
    assert nulls <==> NullType in tags by {
      assert forall i :: 0 <= i < |tags| ==> TypedAll(tags)[i].tag == tags[i];
    }
    assert WordAlt(NullWord) == NULL_TYPE.alts[0];
    if kept == [] {
      assert tags[0] in tags && tags[0] == NullType;
      assert alts == [WordAlt(NullWord)];
    } else if nulls {
      assert alts == kept + [WordAlt(NullWord)];
      assert NullType in tags && ScalarWord(NullType) == NullWord;
    } else {
      assert alts == kept;
    }
  }

  // Brackets after a union reach only its last alternative.
  lemma {:induction false} InBracketAlts(alts: seq<InterT>, env: Env, v: Json)
    requires WellFormedAlts(alts)
    ensures WellFormedAlts([alts[|alts| - 1]])
    ensures var n := |alts| - 1;
      In(UnionT(BracketAlts(alts)), env, v) <==>
        In(UnionT(alts[..n]), env, v) || In(UnionT(BracketAlts([alts[n]])), env, v)
  {
    var n := |alts| - 1;
    if n == 0 {
      assert alts == [alts[0]];
    } else {
      InBracketAlts(alts[1..], env, v);
      InConcat([alts[0]], BracketAlts(alts[1..]), env, v);
      InConcat([alts[0]], alts[1..n], env, v);
      assert alts[1..][..n - 1] == alts[1..n] && [alts[0]] + alts[1..n] == alts[..n];
    }
  }

  lemma InWordAlt(w: Word, env: Env, v: Json)
    ensures InInter(WordAlt(w), env, v) <==> InAtom(Keyword(w), env, v)
  {
    InSingle(Keyword(w), env, v);
    InOneAlternative(WordAlt(w), env, v);
  }

  function Sample(t: TypeTag): Json
    requires IsScalar(t)
  {
    match t
    case StringType => String("")
    case BooleanType => Bool(true)
    case NullType => Json.Null
    case _ => Number(0.0)
  }

  lemma ScalarAccepts(t: TypeTag, refs: Env, env: Env, v: Json)
    requires IsScalar(t)
    ensures Accepts(Typed(t), refs, v) <==> TagAccepts(t, v)
    ensures Accepts(Typed(t), refs, v) ==> InAtom(Keyword(ScalarWord(t)), env, v)
    ensures Accepts(Typed(t), refs, Sample(t))
  {
  }

  // Brackets after a union of words: a value that is an array belongs to it exactly through the last word.
  lemma InBracketWords(u: UnionT, last: Word, env: Env, v: Json)
    requires WellFormed(u) && u.alts != [] && u.alts[|u.alts| - 1] == WordAlt(last) && v.Array?
    requires forall a <- u.alts :: exists w :: a == WordAlt(w) && w != UnknownWord
    ensures In(Bracket(u), env, v) <==> forall i :: 0 <= i < |v.items| ==> InAtom(Keyword(last), env, v.items[i])
  {
    var n := |u.alts| - 1;
    InBracketAlts(u.alts, env, v);
    forall i | 0 <= i < n ensures !InInter(u.alts[..n][i], env, v) {
      assert u.alts[i] in u.alts;
      var w :| u.alts[i] == WordAlt(w) && w != UnknownWord;
      InWordAlt(w, env, v);
    }
    var one := UnionT([WordAlt(last)]);
    InBracketBare(one, env, v);
    forall i | 0 <= i < |v.items| ensures In(one, env, v.items[i]) <==> InAtom(Keyword(last), env, v.items[i]) {
      InSingle(Keyword(last), env, v.items[i]);
    }
  }

  lemma ListFacts(item: Schema)
    requires Printable(item)
    ensures Printable(ListOf(item)) && Regroup(ListOf(item)) == Bracket(Regroup(item))
    ensures forall refs: Env, v :: Accepts(ListOf(item), refs, v) <==>
      v.Array? && forall i :: 0 <= i < |v.items| ==> Accepts(item, refs, v.items[i])
  {
  }

  lemma ScalarUnionAccepts(tags: seq<TypeTag>, refs: Env, v: Json)
    requires forall t <- tags :: IsScalar(t)
    ensures Accepts(ScalarUnion(tags), refs, v) <==> exists t <- tags :: TagAccepts(t, v)
  {
    var list := TypedAll(tags);
    AnyOfAccepts(list, refs, v);
    forall i | 0 <= i < |tags| ensures Accepts(list[i], refs, v) <==> TagAccepts(tags[i], v) {
      ScalarAccepts(tags[i], refs, refs, v);
    }
    if t :| t in tags && TagAccepts(t, v) {
      var i :| 0 <= i < |tags| && tags[i] == t;
      assert Accepts(list[i], refs, v);
    }
  }

  lemma AnyOfAccepts(list: seq<Schema>, refs: Env, v: Json)
    ensures Accepts(EMPTY.(anyOf := Variants(list)), refs, v) <==>
      exists i :: 0 <= i < |list| && Accepts(list[i], refs, v)
  {
  }

  // What the two lemmas below need to know of the item schema.
  ghost predicate IsScalarUnion(item: Schema, tags: seq<TypeTag>, last: Word) {
    && Printable(item)
    && (forall t <- tags :: IsScalar(t))
    && (forall refs: Env, v :: Accepts(item, refs, v) <==> exists t <- tags :: TagAccepts(t, v))
    && (var alts := Regroup(item).alts;
        && alts != []
        && (forall a <- alts :: exists w :: a == WordAlt(w) && w != UnknownWord)
        && alts[|alts| - 1] == WordAlt(last))
  }

  lemma ScalarListKept(item: Schema, tags: seq<TypeTag>, last: Word)
    requires IsScalarUnion(item, tags, last) && forall t <- tags :: ScalarWord(t) == last
    requires Printable(ListOf(item))
    ensures KeepsMeaning(ListOf(item))
  {
    ListFacts(item);
    forall refs: Env, env: Env, v | Covers(env, refs) && Accepts(ListOf(item), refs, v)
      ensures In(Regroup(ListOf(item)), env, v)
    {
      forall i | 0 <= i < |v.items| ensures InAtom(Keyword(last), env, v.items[i]) {
        assert Accepts(item, refs, v.items[i]);
        var t :| t in tags && TagAccepts(t, v.items[i]);
        ScalarAccepts(t, refs, env, v.items[i]);
      }
      InBracketWords(Regroup(item), last, env, v);
    }
  }

  // The one-element list of a scalar that is not last is accepted and lost.
  lemma ScalarListLost(item: Schema, tags: seq<TypeTag>, t: TypeTag, last: Word)
    requires IsScalarUnion(item, tags, last) && t in tags && ScalarWord(t) != last && last != UnknownWord
    requires Printable(ListOf(item))
    ensures !KeepsMeaning(ListOf(item))
  {
    var none: Env := (name, w) => false;
    var v := Array([Sample(t)]);
    ListFacts(item);
    ScalarAccepts(t, none, none, Sample(t));
    assert Accepts(item, none, v.items[0]);
    assert Accepts(ListOf(item), none, v) && Covers(none, none);
    InBracketWords(Regroup(item), last, none, v);
    SampleOnlyIn(t, last, none);
  }

  lemma SampleOnlyIn(t: TypeTag, w: Word, env: Env)
    requires IsScalar(t) && w != ScalarWord(t) && w != UnknownWord
    ensures !InAtom(Keyword(w), env, Sample(t))
  {
  }

  // A list whose items are a union of scalars keeps its meaning exactly when all the scalars print the same word.
  lemma ScalarListExact(tags: seq<TypeTag>)
    requires tags != [] && forall t <- tags :: IsScalar(t)
    ensures Printable(ListOf(ScalarUnion(tags)))
    ensures KeepsMeaning(ListOf(ScalarUnion(tags))) <==> forall t <- tags, u <- tags :: ScalarWord(t) == ScalarWord(u)
  {
    var item := ScalarUnion(tags);
    ScalarsPrintable(tags);
    ScalarUnionAlts(tags);
    forall refs: Env, v ensures Accepts(item, refs, v) <==> exists t <- tags :: TagAccepts(t, v) {
      ScalarUnionAccepts(tags, refs, v);
    }
    var alts := Regroup(item).alts;
    assert WellFormedAlts(alts);
    var lastTag := LastTag(tags, alts);
    var last := ScalarWord(lastTag);
    assert IsScalarUnion(item, tags, last);
    if forall t <- tags :: ScalarWord(t) == last {
      ScalarListKept(item, tags, last);
    } else {
      var t :| t in tags && ScalarWord(t) != last;
      ScalarListLost(item, tags, t, last);
    }
  }

  lemma LastTag(tags: seq<TypeTag>, alts: seq<InterT>) returns (t: TypeTag)
    requires alts != [] && forall t <- tags :: IsScalar(t)
    requires forall a <- alts :: IsAltOf(a, tags)
    ensures t in tags && alts[|alts| - 1] == WordAlt(ScalarWord(t))
    ensures forall a <- alts :: exists w :: a == WordAlt(w) && w != UnknownWord
  {
    var last := alts[|alts| - 1];
    assert last in alts && IsAltOf(last, tags);
    t :| t in tags && last == WordAlt(ScalarWord(t));
    forall a | a in alts ensures exists w :: a == WordAlt(w) && w != UnknownWord {
      assert IsAltOf(a, tags);
      var u :| u in tags && a == WordAlt(ScalarWord(u));
      assert ScalarWord(u) != UnknownWord;
    }
  }

  // ---------------------------------------------------------------- the other two guards

  // A schema that prints "null" accepts nothing but null.
  lemma {:induction false} NullPrinterAccepts(s: Schema, refs: Env, v: Json)
    requires Printable(s) && Regroup(s) == NULL_TYPE && Accepts(s, refs, v)
    ensures v.Null?
    decreases s
  {
    if s.ref.Some? {
    } else if s.anyOf.Variants? {
      var list := s.anyOf.list;
      var j :| 0 <= j < |list| && Accepts(list[j], refs, v);
      AllPrintableEach(list);
      if Regroup(list[j]) == NULL_TYPE {
        NullPrinterAccepts(list[j], refs, v);
      } else {
        AnyOfIsNull(s, list[j], v);
      }
    } else if s.allOf.Variants? {
      var list := s.allOf.list;
      MeetIsNull(list);
      assert Accepts(list[0], refs, v);
      NullPrinterAccepts(list[0], refs, v);
    } else {
      TypedIsNull(s);
    }
  }

  // A union prints "null" only when all its variants do.
  lemma AnyOfIsNull(s: Schema, kept: Schema, v: Json)
    requires Printable(s) && s.ref.None? && s.anyOf.Variants? && kept in s.anyOf.list
    requires Printable(kept) && Regroup(kept) != NULL_TYPE
    ensures Regroup(s) != NULL_TYPE
  {
    var list := s.anyOf.list;
    var alts := KeptAlts(list);
    NothingNullKept(list, kept);
    if HasNull(list) {
      assert (alts + NULL_TYPE.alts) != NULL_TYPE.alts by {
        assert |alts + NULL_TYPE.alts| == |alts| + 1;
      }
    }
  }

  lemma {:induction false} NothingNullKept(list: seq<Schema>, kept: Schema)
    requires AllPrintable(list) && kept in list && Printable(kept) && Regroup(kept) != NULL_TYPE
    ensures KeptAlts(list) != [] && UnionT(KeptAlts(list)) != NULL_TYPE
  {
    var head, tail := Regroup(list[0]), KeptAlts(list[1..]);
    if kept == list[0] {
      assert head == UnionT(head.alts);
      assert tail != [] ==> |head.alts + tail| >= 2;
    } else {
      NothingNullKept(list[1..], kept);
      assert head != NULL_TYPE ==> |head.alts + tail| >= 2;
    }
  }

  // An intersection prints "null" only when it has one part, which does.
  lemma MeetIsNull(list: seq<Schema>)
    requires list != [] && AllPrintable(list) && UnionT(MeetAll(list)) == NULL_TYPE
    ensures |list| == 1 && Regroup(list[0]) == NULL_TYPE
  {
    var head := Regroup(list[0]);
    if |list| == 1 {
      assert head == UnionT(head.alts);
    } else {
      var rest := MeetAll(list[1..]);
      MeetIsBig(head.alts, rest);
    }
  }

  lemma {:induction false} MeetIsBig(x: seq<InterT>, y: seq<InterT>)
    requires WellFormedAlts(x) && WellFormedAlts(y)
    ensures UnionT(Meet(x, y)) != NULL_TYPE
  {
    var m := Meet(x, y);
    if |x| == 1 {
      assert m[0].parts == x[0].parts + y[0].parts && |m[0].parts| >= 2;
    } else {
      assert |m| >= 2 by {
        assert m == [x[0]] + Meet(x[1..], y);
      }
    }
  }

  lemma TypedIsNull(s: Schema)
    requires s.ref.None? && s.anyOf.NoVariants? && s.allOf.NoVariants?
    requires Printable(s) && Regroup(s) == NULL_TYPE
    ensures s.tag == NullType
  {
    var p := NULL_TYPE.alts[0].parts[0];
    assert p.atom == Keyword(NullWord) && p.dims == 0;
    if s.tag == ArrayType {
      BracketIsArray(ItemType(s.items));
    }
  }

  lemma {:induction false} BracketIsArray(u: UnionT)
    requires WellFormed(u)
    ensures Bracket(u) != NULL_TYPE
  {
    var alts := BracketAlts(u.alts);
    if |u.alts| == 1 {
      var parts := BracketParts(u.alts[0].parts);
      assert alts[0].parts == parts;
      if |u.alts[0].parts| == 1 {
        assert parts[0].dims > 0;
      } else {
        BracketPartsPrints(u.alts[0].parts[1..]);
        assert |parts| >= 2;
      }
    } else {
      BracketAltsPrints(u.alts[1..]);
      assert |alts| >= 2;
    }
  }

  function NullableScalar(t: TypeTag, nested: Schema): Schema {
    EMPTY.(anyOf := Variants([Typed(t), nested]))
  }

  lemma NullableScalarRegroup(t: TypeTag, nested: Schema)
    requires IsScalar(t) && t != NullType
    requires Printable(nested) && Regroup(nested) == NULL_TYPE && nested.tag != NullType
    ensures Printable(NullableScalar(t, nested))
    ensures Regroup(NullableScalar(t, nested)) == UnionT([WordAlt(ScalarWord(t))])
  {
    var vs := [Typed(t), nested];
    ScalarRegroup(t);
    AllPrintableEach(vs);
    assert vs[1..] == [nested] && [nested][1..] == [];
    assert KeptAlts([]) == [] && KeptAlts(vs[1..]) == [];
    assert Regroup(vs[0]) != NULL_TYPE && KeptAlts(vs) == Regroup(vs[0]).alts;
    assert !HasNull(vs);
  }

  // A variant that prints "null" without being declared null is dropped next to a scalar; no value is lost exactly when
  // the variant never accepts null.
  lemma DroppedNullIff(t: TypeTag, nested: Schema)
    requires IsScalar(t) && t != NullType
    requires Printable(nested) && Regroup(nested) == NULL_TYPE && nested.tag != NullType
    ensures Printable(NullableScalar(t, nested))
    ensures KeepsMeaning(NullableScalar(t, nested)) <==> forall refs: Env :: !Accepts(nested, refs, Json.Null)
  {
    NullableScalarRegroup(t, nested);
    if refs: Env :| Accepts(nested, refs, Json.Null) {
      var all: Env := (name, w) => true;
      NullableScalarFacts(t, nested, refs, all, Json.Null);
      Loses(NullableScalar(t, nested), refs, all, Json.Null);
    } else {
      DroppedNullKept(t, nested);
    }
  }

  lemma Loses(s: Schema, refs: Env, env: Env, v: Json)
    requires Printable(s) && Covers(env, refs) && Accepts(s, refs, v) && !In(Regroup(s), env, v)
    ensures !KeepsMeaning(s)
  {
  }

  lemma DroppedNullKept(t: TypeTag, nested: Schema)
    requires IsScalar(t) && t != NullType
    requires Printable(nested) && Regroup(nested) == NULL_TYPE && nested.tag != NullType
    requires Printable(NullableScalar(t, nested)) && forall refs: Env :: !Accepts(nested, refs, Json.Null)
    ensures KeepsMeaning(NullableScalar(t, nested))
  {
    var s := NullableScalar(t, nested);
    forall refs: Env, env: Env, v | Covers(env, refs) && Accepts(s, refs, v) ensures In(Regroup(s), env, v) {
      NullableScalarFacts(t, nested, refs, env, v);
    }
  }

  lemma NullableScalarFacts(t: TypeTag, nested: Schema, refs: Env, env: Env, v: Json)
    requires IsScalar(t) && t != NullType
    requires Printable(nested) && Regroup(nested) == NULL_TYPE && nested.tag != NullType
    requires Printable(NullableScalar(t, nested))
    ensures Accepts(NullableScalar(t, nested), refs, v) <==>
      TagAccepts(t, v) || (v == Json.Null && Accepts(nested, refs, Json.Null))
    ensures TagAccepts(t, v) ==> In(Regroup(NullableScalar(t, nested)), env, v)
    ensures v.Null? ==> !In(Regroup(NullableScalar(t, nested)), env, v)
  {
    NullableScalarRegroup(t, nested);
    InOneAlternative(WordAlt(ScalarWord(t)), env, v);
    InWordAlt(ScalarWord(t), env, v);
    NullableScalarAccepts(t, nested, refs, v);
    ScalarAccepts(t, refs, env, v);
    if Accepts(nested, refs, v) {
      NullPrinterAccepts(nested, refs, v);
    }
  }

  lemma NullableScalarAccepts(t: TypeTag, nested: Schema, refs: Env, v: Json)
    requires IsScalar(t)
    ensures Accepts(NullableScalar(t, nested), refs, v) <==> TagAccepts(t, v) || Accepts(nested, refs, v)
  {
    var vs := [Typed(t), nested];
    AnyOfAccepts(vs, refs, v);
    ScalarAccepts(t, refs, refs, v);
    assert vs[0] == Typed(t) && vs[1] == nested;
  }

  function ListedRecord(name: string, listed: TypeTag, others: TypeTag): Schema {
    EMPTY.(tag := ObjectType, additional := Constrained(Typed(others)), properties := [Property(name, Typed(listed))])
  }

  lemma ListedRecordFacts(name: string, listed: TypeTag, others: TypeTag, refs: Env, env: Env, v: Json)
    requires IsScalar(listed) && IsScalar(others)
    ensures Printable(ListedRecord(name, listed, others))
    ensures In(Regroup(ListedRecord(name, listed, others)), env, v) <==>
      v.Object? && forall k <- v.fields :: InAtom(Keyword(ScalarWord(others)), env, v.fields[k])
    ensures Accepts(ListedRecord(name, listed, others), refs, v) <==>
      v.Object? && forall k <- v.fields :: TagAccepts(if k == name then listed else others, v.fields[k])
  {
    var s := ListedRecord(name, listed, others);
    ScalarRegroup(others);
    var u := Regroup(Typed(others));
    assert Regroup(s) == Single(Record(u));
    InSingle(Record(u), env, v);
    forall w: Json ensures In(u, env, w) <==> InAtom(Keyword(ScalarWord(others)), env, w) {
      InOneAlternative(WordAlt(ScalarWord(others)), env, w);
      InWordAlt(ScalarWord(others), env, w);
    }
    ListedRecordAccepts(name, listed, others, refs, v);
  }

  lemma ListedRecordAccepts(name: string, listed: TypeTag, others: TypeTag, refs: Env, v: Json)
    requires IsScalar(listed) && IsScalar(others)
    ensures Accepts(ListedRecord(name, listed, others), refs, v) <==>
      v.Object? && forall k <- v.fields :: TagAccepts(if k == name then listed else others, v.fields[k])
  {
    var s := ListedRecord(name, listed, others);
    assert s.properties[0] == Property(name, Typed(listed));
    forall k ensures IsProperty(s, k) <==> k == name {
    }
    forall w: Json ensures Accepts(Typed(listed), refs, w) <==> TagAccepts(listed, w)
                   ensures Accepts(Typed(others), refs, w) <==> TagAccepts(others, w)
    {
      ScalarAccepts(listed, refs, refs, w);
      ScalarAccepts(others, refs, refs, w);
    }
  }

  // A record's constraint does not bind the property listed beside it, but the printed type binds it too; no value is
  // lost exactly when both print the same word.
  lemma ListedPropertyIff(name: string, listed: TypeTag, others: TypeTag)
    requires IsScalar(listed) && IsScalar(others)
    ensures Printable(ListedRecord(name, listed, others))
    ensures KeepsMeaning(ListedRecord(name, listed, others)) <==> ScalarWord(listed) == ScalarWord(others)
  {
    var s := ListedRecord(name, listed, others);
    var none: Env := (n, w) => false;
    var v := Object(map[name := Sample(listed)]);
    ListedRecordFacts(name, listed, others, none, none, v);
    if ScalarWord(listed) == ScalarWord(others) {
      forall refs: Env, env: Env, v | Covers(env, refs) && Accepts(s, refs, v) ensures In(Regroup(s), env, v) {
        ListedRecordFacts(name, listed, others, refs, env, v);
      }
    } else {
      SampleOnlyIn(listed, ScalarWord(others), none);
      assert name in v.fields;
      Loses(s, none, none, v);
    }
  }
}
