/**
 Compiling a JSON Schema property to a TypeScript type text: what the text parses to, and when the parsed type
 still contains every value the schema accepts.
 */
module SchemaToTs {
  import opened Wrappers
  import opened TsTypes

  datatype Json =
    | Null
    | Bool(b: bool)
    | Number(n: real)
    | String(s: string)
    | Array(items: seq<Json>)
    | Object(fields: map<string, Json>)

  // The `type` keyword; a list of names or an unknown name is `OtherType`.
  datatype TypeTag =
    | AbsentType | StringType | IntegerType | NumberType | BooleanType | NullType | ArrayType | ObjectType | OtherType

  datatype Additional = NoAdditional | Allowed(allowed: bool) | Constrained(schema: Schema)

  // The list under a combinator keyword, when the keyword is present.
  datatype Variants = NoVariants | Variants(list: seq<Schema>)

  datatype Property = Property(name: string, schema: Schema)

  datatype Def = Def(name: string, schema: Schema)

  // The keywords the generator reads. Several may be present at once.
  datatype Schema = Schema(
    ref: Option<string>,
    anyOf: Variants,
    allOf: Variants,
    tag: TypeTag,
    items: Option<Schema>,
    additional: Additional,
    properties: seq<Property>,
    required: seq<string>,
    description: string,
    defs: seq<Def>)

  const EMPTY: Schema := Schema(None, NoVariants, NoVariants, AbsentType, None, NoAdditional, [], [], "", [])

  // ---------------------------------------------------------------- the generator

  // The part of a reference after its last slash: its longest slash-free ending.
  function LastSegment(r: string): string {
    if r == "" || r[|r| - 1] == '/' then "" else LastSegment(r[..|r| - 1]) + [r[|r| - 1]]
  }

  lemma {:induction false} LastSegmentIs(r: string, path: string, name: string)
    requires r == path + name && '/' !in name && (path == "" || path[|path| - 1] == '/')
    ensures LastSegment(r) == name
  {
    if name != "" {
      var n := |name| - 1;
      assert name[n] in name && r[..|r| - 1] == path + name[..n];
      LastSegmentIs(r[..|r| - 1], path, name[..n]);
      assert name == name[..n] + [name[n]];
    }
  }

  function JsonTypeToTs(s: Schema): string {
    if s.ref.Some? then LastSegment(s.ref.value)
    else if s.anyOf.Variants? then
      var kept := KeptTexts(s.anyOf.list);
      if kept == [] then "null"
      else JoinWith(kept, " | ") + if HasNull(s.anyOf.list) then " | null" else ""
    else if s.allOf.Variants? then JoinWith(Texts(s.allOf.list), " & ")
    else match s.tag
      case StringType => "string"
      case IntegerType => "number"
      case NumberType => "number"
      case BooleanType => "boolean"
      case NullType => "null"
      case ArrayType => (if s.items.Some? then JsonTypeToTs(s.items.value) else "unknown") + "[]"
      case ObjectType =>
        (match s.additional
         case Constrained(t) => "Record<string, " + JsonTypeToTs(t) + ">"
         case _ => "Record<string, unknown>")
      case _ => "unknown"
  }

  function Texts(ss: seq<Schema>): (ts: seq<string>)
    ensures |ts| == |ss|
  {
    if ss == [] then [] else [JsonTypeToTs(ss[0])] + Texts(ss[1..])
  }

  // The texts of the variants, without those that read exactly "null".
  function KeptTexts(ss: seq<Schema>): seq<string> {
    if ss == [] then []
    else
      var t := JsonTypeToTs(ss[0]);
      (if t == "null" then [] else [t]) + KeptTexts(ss[1..])
  }

  predicate HasNull(ss: seq<Schema>) {
    exists i :: 0 <= i < |ss| && ss[i].tag == NullType
  }

  function JoinWith(ts: seq<string>, separator: string): string {
    if ts == [] then ""
    else if |ts| == 1 then ts[0]
    else ts[0] + separator + JoinWith(ts[1..], separator)
  }

  // ---------------------------------------------------------------- what the text parses to

  const NULL_TYPE: UnionT := Single(Keyword(NullWord))

  function Single(a: Atom): (u: UnionT)
    ensures WellFormedAtom(a) ==> WellFormed(u)
  {
    var p := PostfixT(a, 0);
    assert WellFormedAtom(a) ==> WellFormedPostfix(p);
    assert WellFormedAtom(a) ==> WellFormedParts([p]);
    assert WellFormedAtom(a) ==> WellFormedAlts([InterT([p])]);
    UnionT([InterT([p])])
  }

  // `u[]`: the brackets fall on the last operand of the last alternative.
  function Bracket(u: UnionT): UnionT
    requires WellFormed(u)
  {
    UnionT(BracketAlts(u.alts))
  }

  function BracketAlts(alts: seq<InterT>): seq<InterT>
    requires WellFormedAlts(alts)
  {
    if |alts| == 1 then [InterT(BracketParts(alts[0].parts))] else [alts[0]] + BracketAlts(alts[1..])
  }

  function BracketParts(parts: seq<PostfixT>): seq<PostfixT>
    requires WellFormedParts(parts)
  {
    if |parts| == 1 then [PostfixT(parts[0].atom, parts[0].dims + 1)] else [parts[0]] + BracketParts(parts[1..])
  }

  // `x & y`: only the last alternative of `x` and the first of `y` are intersected.
  function Meet(x: seq<InterT>, y: seq<InterT>): seq<InterT>
    requires x != [] && y != []
  {
    if |x| == 1 then [InterT(x[0].parts + y[0].parts)] + y[1..] else [x[0]] + Meet(x[1..], y)
  }

  // Every reference that is printed names a type, and no printed `allOf` is empty.
  predicate Printable(s: Schema) {
    if s.ref.Some? then IsTypeName(LastSegment(s.ref.value))
    else if s.anyOf.Variants? then AllPrintable(s.anyOf.list)
    else if s.allOf.Variants? then s.allOf.list != [] && AllPrintable(s.allOf.list)
    else match s.tag
      case ArrayType => s.items.Some? ==> Printable(s.items.value)
      case ObjectType => s.additional.Constrained? ==> Printable(s.additional.schema)
      case _ => true
  }

  predicate AllPrintable(ss: seq<Schema>) {
    ss != [] ==> Printable(ss[0]) && AllPrintable(ss[1..])
  }

  // The parse of the printed text, schema by schema, including every regrouping that precedence causes.
  function Regroup(s: Schema): (u: UnionT)
    requires Printable(s)
    ensures WellFormed(u)
  {
    if s.ref.Some? then Single(Name(LastSegment(s.ref.value)))
    else if s.anyOf.Variants? then
      var alts := KeptAlts(s.anyOf.list);
      if alts == [] then NULL_TYPE
      else if HasNull(s.anyOf.list) then ConcatWellFormed(alts, NULL_TYPE.alts); UnionT(alts + NULL_TYPE.alts)
      else UnionT(alts)
    else if s.allOf.Variants? then UnionT(MeetAll(s.allOf.list))
    else match s.tag
      case StringType => Single(Keyword(StringWord))
      case IntegerType => Single(Keyword(NumberWord))
      case NumberType => Single(Keyword(NumberWord))
      case BooleanType => Single(Keyword(BooleanWord))
      case NullType => NULL_TYPE
      case ArrayType => BracketPrints(ItemType(s.items)); Bracket(ItemType(s.items))
      case ObjectType =>
        (match s.additional
         case Constrained(t) => Single(Record(Regroup(t)))
         case _ => Single(Record(Single(Keyword(UnknownWord)))))
      case _ => Single(Keyword(UnknownWord))
  }

  function ItemType(items: Option<Schema>): (u: UnionT)
    requires items.Some? ==> Printable(items.value)
    ensures WellFormed(u)
  {
    if items.Some? then Regroup(items.value) else Single(Keyword(UnknownWord))
  }

  function KeptAlts(ss: seq<Schema>): (alts: seq<InterT>)
    requires AllPrintable(ss)
    ensures alts != [] ==> WellFormedAlts(alts)
  {
    if ss == [] then []
    else
      var head, tail := Regroup(ss[0]), KeptAlts(ss[1..]);
      if head == NULL_TYPE then tail
      else if tail == [] then head.alts
      else ConcatWellFormed(head.alts, tail); head.alts + tail
  }

  function MeetAll(ss: seq<Schema>): (alts: seq<InterT>)
    requires ss != [] && AllPrintable(ss)
    ensures WellFormedAlts(alts)
  {
    var head := Regroup(ss[0]).alts;
    if |ss| == 1 then head
    else MeetPrints(head, MeetAll(ss[1..])); Meet(head, MeetAll(ss[1..]))
  }

  lemma {:induction false} ConcatWellFormed(x: seq<InterT>, y: seq<InterT>)
    requires WellFormedAlts(x) && WellFormedAlts(y)
    ensures WellFormedAlts(x + y)
    ensures AltsText(x + y) == AltsText(x) + " | " + AltsText(y)
  {
    var head, z := PartsText(x[0].parts), x + y;
    if |x| == 1 {
      assert z[1..] == y;
    } else {
      var rest := AltsText(x[1..]);
      ConcatWellFormed(x[1..], y);
      assert z[1..] == x[1..] + y;
      assert AltsText(x) == head + (" | " + rest);
      assert AltsText(z) == head + (" | " + (rest + " | " + AltsText(y)));
    }
  }

  lemma {:induction false} ConcatParts(x: seq<PostfixT>, y: seq<PostfixT>)
    requires WellFormedParts(x) && WellFormedParts(y)
    ensures WellFormedParts(x + y)
    ensures PartsText(x + y) == PartsText(x) + " & " + PartsText(y)
  {
    var head, z := PostfixText(x[0]), x + y;
    if |x| == 1 {
      assert z[1..] == y;
    } else {
      var rest := PartsText(x[1..]);
      ConcatParts(x[1..], y);
      assert z[1..] == x[1..] + y;
      assert PartsText(x) == head + (" & " + rest);
      assert PartsText(z) == head + (" & " + (rest + " & " + PartsText(y)));
    }
  }

  lemma {:induction false} MeetPrints(x: seq<InterT>, y: seq<InterT>)
    requires WellFormedAlts(x) && WellFormedAlts(y)
    ensures WellFormedAlts(Meet(x, y))
    ensures AltsText(Meet(x, y)) == AltsText(x) + " & " + AltsText(y)
  {
    var m := Meet(x, y);
    if |x| == 1 {
      ConcatParts(x[0].parts, y[0].parts);
      assert m[1..] == y[1..];
    } else {
      MeetPrints(x[1..], y);
      assert m[1..] == Meet(x[1..], y);
    }
  }

  lemma {:induction false} BracketPartsPrints(parts: seq<PostfixT>)
    requires WellFormedParts(parts)
    ensures WellFormedParts(BracketParts(parts))
    ensures PartsText(BracketParts(parts)) == PartsText(parts) + "[]"
  {
    var b := BracketParts(parts);
    if |parts| == 1 {
      BracketsCommute(parts[0].dims);
    } else {
      BracketPartsPrints(parts[1..]);
      assert b[1..] == BracketParts(parts[1..]);
    }
  }

  lemma {:induction false} BracketAltsPrints(alts: seq<InterT>)
    requires WellFormedAlts(alts)
    ensures WellFormedAlts(BracketAlts(alts))
    ensures AltsText(BracketAlts(alts)) == AltsText(alts) + "[]"
  {
    var b := BracketAlts(alts);
    if |alts| == 1 {
      BracketPartsPrints(alts[0].parts);
    } else {
      BracketAltsPrints(alts[1..]);
      assert b[1..] == BracketAlts(alts[1..]);
    }
  }

  lemma BracketPrints(u: UnionT)
    requires WellFormed(u)
    ensures WellFormed(Bracket(u)) && ToText(Bracket(u)) == ToText(u) + "[]"
  {
    BracketAltsPrints(u.alts);
  }

  lemma SingleText(a: Atom)
    requires WellFormedAtom(a)
    ensures WellFormed(Single(a)) && ToText(Single(a)) == AtomText(a)
  {
    var p := PostfixT(a, 0);
    assert PostfixText(p) == AtomText(a) + "";
    assert PartsText([p]) == PostfixText(p) + "";
    assert AltsText([InterT([p])]) == PartsText([p]) + "";
  }

  lemma PrintsNull(u: UnionT)
    requires WellFormed(u)
    ensures ToText(u) == "null" <==> u == NULL_TYPE
  {
    SingleText(Keyword(NullWord));
    if ToText(u) == "null" {
      ToTextInjective(u, NULL_TYPE);
    }
  }

  // The printed text of every printable schema is the text of its regrouped type.
  lemma {:induction false} PrintsRegrouped(s: Schema)
    requires Printable(s)
    ensures JsonTypeToTs(s) == ToText(Regroup(s))
  {
    if s.ref.Some? {
      SingleText(Name(LastSegment(s.ref.value)));
    } else if s.anyOf.Variants? {
      KeptPrint(s.anyOf.list);
      AnyOfPrints(s);
    } else if s.allOf.Variants? {
      MeetAllPrints(s.allOf.list);
    } else {
      TypedPrints(s);
    }
  }

  lemma AnyOfPrints(s: Schema)
    requires s.ref.None? && s.anyOf.Variants? && Printable(s)
    requires KeptTexts(s.anyOf.list) == [] <==> KeptAlts(s.anyOf.list) == []
    requires KeptAlts(s.anyOf.list) != [] ==>
      JoinWith(KeptTexts(s.anyOf.list), " | ") == AltsText(KeptAlts(s.anyOf.list))
    ensures JsonTypeToTs(s) == ToText(Regroup(s))
  {
    var alts := KeptAlts(s.anyOf.list);
    SingleText(Keyword(NullWord));
    if alts != [] && HasNull(s.anyOf.list) {
      ConcatWellFormed(alts, NULL_TYPE.alts);
    }
  }

  lemma {:induction false} TypedPrints(s: Schema)
    requires s.ref.None? && s.anyOf.NoVariants? && s.allOf.NoVariants? && Printable(s)
    ensures JsonTypeToTs(s) == ToText(Regroup(s))
    decreases s, 0
  {
    match s.tag
    case ArrayType =>
      SingleText(Keyword(UnknownWord));
      if s.items.Some? { PrintsRegrouped(s.items.value); }
      BracketPrints(ItemType(s.items));
    case ObjectType =>
      SingleText(Keyword(UnknownWord));
      if s.additional.Constrained? {
        PrintsRegrouped(s.additional.schema);
        SingleText(Record(Regroup(s.additional.schema)));
      } else {
        SingleText(Record(Single(Keyword(UnknownWord))));
      }
    case StringType => SingleText(Keyword(StringWord));
    case BooleanType => SingleText(Keyword(BooleanWord));
    case NullType => SingleText(Keyword(NullWord));
    case IntegerType => SingleText(Keyword(NumberWord));
    case NumberType => SingleText(Keyword(NumberWord));
    case _ => SingleText(Keyword(UnknownWord));
  }

  lemma {:induction false} KeptPrint(ss: seq<Schema>)
    requires AllPrintable(ss)
    ensures KeptTexts(ss) == [] <==> KeptAlts(ss) == []
    ensures KeptAlts(ss) != [] ==> JoinWith(KeptTexts(ss), " | ") == AltsText(KeptAlts(ss))
  {
    if ss != [] {
      PrintsRegrouped(ss[0]);
      PrintsNull(Regroup(ss[0]));
      KeptPrint(ss[1..]);
      var head, tail := Regroup(ss[0]).alts, KeptAlts(ss[1..]);
      if Regroup(ss[0]) != NULL_TYPE {
        var t, ts := JsonTypeToTs(ss[0]), KeptTexts(ss[1..]);
        assert KeptTexts(ss) == [t] + ts && ([t] + ts)[1..] == ts;
        if tail == [] {
          assert KeptTexts(ss) == [t] && KeptAlts(ss) == head;
        } else {
          ConcatWellFormed(head, tail);
          assert JoinWith(KeptTexts(ss), " | ") == t + " | " + JoinWith(ts, " | ");
        }
      } else {
        assert KeptTexts(ss) == KeptTexts(ss[1..]);
      }
    }
  }

  lemma {:induction false} MeetAllPrints(ss: seq<Schema>)
    requires ss != [] && AllPrintable(ss)
    ensures JoinWith(Texts(ss), " & ") == AltsText(MeetAll(ss))
  {
    PrintsRegrouped(ss[0]);
    if |ss| > 1 {
      MeetAllPrints(ss[1..]);
      MeetPrints(Regroup(ss[0]).alts, MeetAll(ss[1..]));
      assert Texts(ss)[1..] == Texts(ss[1..]);
    }
  }

  // For every printable schema the text parses, and its parse is the regrouped type.
  lemma ParsesToRegrouped(s: Schema)
    requires Printable(s)
    ensures ParseType(JsonTypeToTs(s)) == Some(Regroup(s))
  {
    PrintsRegrouped(s);
    ParseTypePrinted(Regroup(s));
  }
}
