/** Converting JSON values to Qdrant values and back. */
module QdrantValue {
  import opened Wrappers

  const I64_MIN: int := -0x8000_0000_0000_0000
  const I64_MAX: int := 0x7FFF_FFFF_FFFF_FFFF

  type I64 = n: int | I64_MIN <= n <= I64_MAX

  // A double, by its bits; only finite ones are JSON numbers.
  datatype Double = Double(bits: int, finite: bool)

  type FiniteDouble = d: Double | d.finite witness Double(0, true)

  // A JSON number is a signed 64-bit integer, an unsigned one beyond that range, or a finite double.
  datatype JsonNumber = Integer(n: int) | Float(d: FiniteDouble)

  datatype Json =
    | Null
    | Bool(b: bool)
    | Number(number: JsonNumber)
    | String(s: string)
    | Array(items: seq<Json>)
    | Object(fields: map<string, Json>)

  datatype Value = Value(kind: Option<Kind>)

  datatype Kind =
    | NullValue(tag: int)
    | BoolValue(b: bool)
    | IntegerValue(i: I64)
    | DoubleValue(d: Double)
    | StringValue(s: string)
    | ListValue(values: seq<Value>)
    | StructValue(fields: map<string, Value>)

  // The nearest double to an integer beyond 64 signed bits: any function will do.
  type Rounding = int -> FiniteDouble

  // ---------------------------------------------------------------- the conversions

  function JsonToQdrant(round: Rounding, j: Json): Option<Value> {
    match j
    case Null => Some(Value(Some(NullValue(0))))
    case Bool(b) => Some(Value(Some(BoolValue(b))))
    case Number(Integer(n)) =>
      if I64_MIN <= n <= I64_MAX then Some(Value(Some(IntegerValue(n)))) else Some(Value(Some(DoubleValue(round(n)))))
    case Number(Float(d)) => Some(Value(Some(DoubleValue(d))))
    case String(s) => Some(Value(Some(StringValue(s))))
    case Array(items) => Some(Value(Some(ListValue(ItemsToQdrant(round, items)))))
    case Object(fields) =>
      Some(Value(Some(StructValue(
        map k | k in fields && JsonToQdrant(round, fields[k]).Some? :: JsonToQdrant(round, fields[k]).value))))
  }

  function ItemsToQdrant(round: Rounding, items: seq<Json>): seq<Value> {
    if items == [] then []
    else Kept(JsonToQdrant(round, items[0])) + ItemsToQdrant(round, items[1..])
  }

  function QdrantToJson(q: Value): Option<Json> {
    match q.kind
    case None => None
    case Some(NullValue(_)) => Some(Null)
    case Some(BoolValue(b)) => Some(Bool(b))
    case Some(IntegerValue(i)) => Some(Number(Integer(i)))
    case Some(DoubleValue(d)) => if d.finite then Some(Number(Float(d))) else None
    case Some(StringValue(s)) => Some(String(s))
    case Some(ListValue(values)) => Some(Array(ValuesToJson(values)))
    case Some(StructValue(fields)) =>
      Some(Object(map k | k in fields && QdrantToJson(fields[k]).Some? :: QdrantToJson(fields[k]).value))
  }

  function ValuesToJson(values: seq<Value>): seq<Json> {
    if values == [] then [] else Kept(QdrantToJson(values[0])) + ValuesToJson(values[1..])
  }

  function Kept<T>(x: Option<T>): seq<T> {
    if x.Some? then [x.value] else []
  }

  // The loop over a top-level object; anything else becomes the empty payload.
  method PayloadToQdrant(round: Rounding, value: Json) returns (payload: map<string, Value>)
    ensures payload == Payload(round, value)
    ensures value.Object? ==> StandsFor(round, Value(Some(StructValue(payload))), value)
    ensures !value.Object? ==> payload == map[]
  {
    payload := map[];
    if value.Object? {
      var todo := value.fields.Keys;
      while todo != {}
        invariant todo <= value.fields.Keys
        invariant payload == map k | k in value.fields && k !in todo && JsonToQdrant(round, value.fields[k]).Some?
                                     :: JsonToQdrant(round, value.fields[k]).value
        decreases todo
      {
        var k :| k in todo;
        var q := JsonToQdrant(round, value.fields[k]);
        if q.Some? {
          payload := payload[k := q.value];
        }
        todo := todo - {k};
      }
      PayloadStandsFor(round, value.fields);
    }
  }

  function Payload(round: Rounding, value: Json): map<string, Value> {
    if value.Object? then
      map k | k in value.fields && JsonToQdrant(round, value.fields[k]).Some? ::
        JsonToQdrant(round, value.fields[k]).value
    else map[]
  }

  function QdrantToPayload(payload: map<string, Value>): map<string, Json> {
    map k | k in payload && QdrantToJson(payload[k]).Some? :: QdrantToJson(payload[k]).value
  }

  // ---------------------------------------------------------------- what stands for what

  // A Qdrant value stands for a JSON value: kind by kind, element by element and key by key.
  ghost predicate StandsFor(round: Rounding, q: Value, j: Json) {
    match (j, q.kind)
    case (Null, Some(NullValue(tag))) => tag == 0
    case (Bool(b), Some(BoolValue(c))) => b == c
    case (Number(Integer(n)), Some(IntegerValue(i))) => n == i
    case (Number(Integer(n)), Some(DoubleValue(d))) => !(I64_MIN <= n <= I64_MAX) && d == round(n)
    case (Number(Float(f)), Some(DoubleValue(d))) => f == d
    case (String(s), Some(StringValue(t))) => s == t
    case (Array(items), Some(ListValue(values))) =>
      |items| == |values| && forall i :: 0 <= i < |items| ==> StandsFor(round, values[i], items[i])
    case (Object(fields), Some(StructValue(members))) =>
      fields.Keys == members.Keys && forall k <- fields :: StandsFor(round, members[k], fields[k])
    case _ => false
  }

  // Conversion finds the one Qdrant value that stands for the JSON value.
  lemma {:induction false} ConvertsIff(round: Rounding, j: Json, q: Value)
    ensures JsonToQdrant(round, j) == Some(q) <==> StandsFor(round, q, j)
    decreases j
  {
    match j
    case Array(items) =>
      if q.kind.Some? && q.kind.value.ListValue? {
        ItemsConvertIff(round, items, q.kind.value.values);
      }
    case Object(fields) =>
      if q.kind.Some? && q.kind.value.StructValue? {
        FieldsConvertIff(round, fields, q.kind.value.fields);
        assert q == Value(Some(StructValue(q.kind.value.fields)));
      }
    case _ =>
  }

  lemma {:induction false} ItemsConvertIff(round: Rounding, items: seq<Json>, values: seq<Value>)
    ensures ItemsToQdrant(round, items) == values <==>
      |items| == |values| && forall i :: 0 <= i < |items| ==> StandsFor(round, values[i], items[i])
    decreases items
  {
    if items != [] {
      RoundTripIff(round, items[0]);
      var head := JsonToQdrant(round, items[0]).value;
      var tail := ItemsToQdrant(round, items[1..]);
      assert ItemsToQdrant(round, items) == [head] + tail;
      if values != [] {
        ConvertsIff(round, items[0], values[0]);
        ItemsConvertIff(round, items[1..], values[1..]);
        HeadAndTail(values, head, tail);
        assert forall i :: 0 < i < |items| ==> items[i] == items[1..][i - 1];
        assert forall i :: 0 < i < |values| ==> values[i] == values[1..][i - 1];
      }
    }
  }

  lemma HeadAndTail<T>(s: seq<T>, head: T, tail: seq<T>)
    requires s != []
    ensures s == [head] + tail <==> s[0] == head && s[1..] == tail
  {
    assert s == [s[0]] + s[1..];
    assert ([head] + tail)[1..] == tail;
  }

  lemma {:induction false} FieldsConvertIff(round: Rounding, fields: map<string, Json>, members: map<string, Value>)
    ensures JsonToQdrant(round, Object(fields)) == Some(Value(Some(StructValue(members)))) <==>
      fields.Keys == members.Keys && forall k <- fields :: StandsFor(round, members[k], fields[k])
    decreases Object(fields), 0
  {
    var found := JsonToQdrant(round, Object(fields)).value.kind.value.fields;
    forall k | k in fields ensures JsonToQdrant(round, fields[k]).Some? {
      RoundTripIff(round, fields[k]);
    }
    assert found.Keys == fields.Keys;
    forall k | k in fields && k in members
      ensures found[k] == members[k] <==> StandsFor(round, members[k], fields[k])
    {
      ConvertsIff(round, fields[k], members[k]);
    }
    if fields.Keys == members.Keys && forall k <- fields :: StandsFor(round, members[k], fields[k]) {
      assert found == members;
    }
    if found == members {
      forall k | k in fields ensures StandsFor(round, members[k], fields[k]) {
        assert found[k] == members[k];
      }
    }
  }

  // A payload stands for its object, key by key.
  lemma PayloadStandsFor(round: Rounding, fields: map<string, Json>)
    ensures StandsFor(round, Value(Some(StructValue(Payload(round, Object(fields))))), Object(fields))
  {
    FieldsConvertIff(round, fields, Payload(round, Object(fields)));
    assert JsonToQdrant(round, Object(fields)).value.kind.value.fields == Payload(round, Object(fields));
  }

  // ---------------------------------------------------------------- JSON to Qdrant and back

  // Every integer in the value, at any depth, fits 64 signed bits.
  ghost predicate FitsI64(j: Json) {
    match j
    case Number(Integer(n)) => I64_MIN <= n <= I64_MAX
    case Array(items) => forall i :: 0 <= i < |items| ==> FitsI64(items[i])
    case Object(fields) => forall k <- fields :: FitsI64(fields[k])
    case _ => true
  }

  function Back(round: Rounding, j: Json): Option<Json> {
    match JsonToQdrant(round, j)
    case None => None
    case Some(q) => QdrantToJson(q)
  }

  // The round trip always yields a value, and the same one exactly when every integer fits.
  lemma {:induction false} RoundTripIff(round: Rounding, j: Json)
    ensures JsonToQdrant(round, j).Some? && Back(round, j).Some?
    ensures Back(round, j) == Some(j) <==> FitsI64(j)
  {
    match j
    case Array(items) =>
      ItemsRoundTrip(round, items);
    case Object(fields) =>
      forall k | k in fields
        ensures JsonToQdrant(round, fields[k]).Some? && Back(round, fields[k]).Some?
        ensures Back(round, fields[k]) == Some(fields[k]) <==> FitsI64(fields[k])
      {
        RoundTripIff(round, fields[k]);
      }
      FieldsRoundTrip(round, fields);
    case _ =>
  }

  lemma FieldsRoundTrip(round: Rounding, fields: map<string, Json>)
    requires forall k <- fields :: JsonToQdrant(round, fields[k]).Some? && Back(round, fields[k]).Some?
    ensures Back(round, Object(fields)).Some? && Back(round, Object(fields)).value.Object?
    ensures var back := Back(round, Object(fields)).value.fields;
      back.Keys == fields.Keys && forall k <- fields :: back[k] == Back(round, fields[k]).value
    ensures Back(round, Object(fields)) == Some(Object(fields)) <==>
      forall k <- fields :: Back(round, fields[k]) == Some(fields[k])
  {
    var q := JsonToQdrant(round, Object(fields)).value.kind.value.fields;
    var back := Back(round, Object(fields)).value.fields;
    assert q.Keys == fields.Keys;
    assert forall k <- fields :: QdrantToJson(q[k]) == Back(round, fields[k]);
    assert back.Keys == fields.Keys;
    if forall k <- fields :: Back(round, fields[k]) == Some(fields[k]) {
      assert back == fields;
    }
    if back == fields {
      forall k | k in fields ensures Back(round, fields[k]) == Some(fields[k]) {
        assert back[k] == fields[k];
      }
    }
  }

  lemma {:induction false} ItemsRoundTrip(round: Rounding, items: seq<Json>)
    ensures var back := ValuesToJson(ItemsToQdrant(round, items));
      |back| == |items| && (back == items <==> forall i :: 0 <= i < |items| ==> FitsI64(items[i]))
  {
    if items != [] {
      var head, rest := items[0], items[1..];
      RoundTripIff(round, head);
      ItemsRoundTrip(round, rest);
      var q, qs := JsonToQdrant(round, head).value, ItemsToQdrant(round, rest);
      assert ItemsToQdrant(round, items) == [q] + qs && ([q] + qs)[1..] == qs;
      var back := ValuesToJson([q] + qs);
      assert back == [Back(round, head).value] + ValuesToJson(qs);
      assert back[0] == Back(round, head).value && back[1..] == ValuesToJson(qs);
      assert items == [head] + rest;
      assert forall i :: 0 < i < |items| ==> items[i] == rest[i - 1];
      assert forall i :: 0 <= i < |rest| ==> rest[i] == items[i + 1];
    }
  }

  // A whole payload comes back key by key, and unchanged exactly when every integer in it fits.
  lemma PayloadRoundTripIff(round: Rounding, fields: map<string, Json>)
    ensures var back := QdrantToPayload(Payload(round, Object(fields)));
      && back.Keys == fields.Keys
      && (back == fields <==> FitsI64(Object(fields)))
  {
    RoundTripIff(round, Object(fields));
    forall k | k in fields ensures JsonToQdrant(round, fields[k]).Some? && Back(round, fields[k]).Some? {
      RoundTripIff(round, fields[k]);
    }
    FieldsRoundTrip(round, fields);
  }

  // ---------------------------------------------------------------- Qdrant to JSON and back

  // Drop values without a kind and non-finite doubles, at any depth, and number every null zero.
  function Prune(q: Value): Option<Value> {
    match q.kind
    case None => None
    case Some(NullValue(_)) => Some(Value(Some(NullValue(0))))
    case Some(DoubleValue(d)) => if d.finite then Some(q) else None
    case Some(ListValue(values)) => Some(Value(Some(ListValue(PruneAll(values)))))
    case Some(StructValue(fields)) =>
      Some(Value(Some(StructValue(map k | k in fields && Prune(fields[k]).Some? :: Prune(fields[k]).value))))
    case _ => Some(q)
  }

  function PruneAll(values: seq<Value>): seq<Value> {
    if values == [] then [] else Kept(Prune(values[0])) + PruneAll(values[1..])
  }

  function Forth(round: Rounding, q: Value): Option<Value> {
    match QdrantToJson(q)
    case None => None
    case Some(j) => JsonToQdrant(round, j)
  }

  // Going to JSON and back prunes, and what arrives as JSON always fits 64 signed bits.
  lemma {:induction false} ForthIsPrune(round: Rounding, q: Value)
    ensures Forth(round, q) == Prune(q)
    ensures QdrantToJson(q).Some? <==> Prune(q).Some?
    ensures QdrantToJson(q).Some? ==> FitsI64(QdrantToJson(q).value)
  {
    match q.kind
    case Some(ListValue(values)) =>
      ListForth(round, values);
    case Some(StructValue(fields)) =>
      forall k | k in fields
        ensures Forth(round, fields[k]) == Prune(fields[k])
        ensures QdrantToJson(fields[k]).Some? <==> Prune(fields[k]).Some?
        ensures QdrantToJson(fields[k]).Some? ==> FitsI64(QdrantToJson(fields[k]).value)
      {
        ForthIsPrune(round, fields[k]);
      }
      var j := QdrantToJson(q).value.fields;
      forall k | k in j ensures JsonToQdrant(round, j[k]) == Prune(fields[k]) {
        assert Forth(round, fields[k]) == Prune(fields[k]);
      }
      assert Forth(round, q).value.kind.value.fields == Prune(q).value.kind.value.fields;
    case _ =>
  }

  lemma {:induction false} ListForth(round: Rounding, values: seq<Value>)
    ensures ItemsToQdrant(round, ValuesToJson(values)) == PruneAll(values)
    ensures forall i :: 0 <= i < |ValuesToJson(values)| ==> FitsI64(ValuesToJson(values)[i])
  {
    if values != [] {
      var rest := ValuesToJson(values[1..]);
      ForthIsPrune(round, values[0]);
      ListForth(round, values[1..]);
      if QdrantToJson(values[0]).Some? {
        var j := QdrantToJson(values[0]).value;
        assert ValuesToJson(values) == [j] + rest && ([j] + rest)[1..] == rest;
        assert forall i :: 0 < i <= |rest| ==> ([j] + rest)[i] == rest[i - 1];
      } else {
        assert ValuesToJson(values) == rest && PruneAll(values) == PruneAll(values[1..]);
      }
    }
  }

  // Pruning twice is pruning once.
  lemma {:induction false} PruneIdempotent(q: Value)
    ensures Prune(q).Some? ==> Prune(Prune(q).value) == Prune(q)
  {
    match q.kind
    case Some(ListValue(values)) =>
      PruneAllIdempotent(values);
    case Some(StructValue(fields)) =>
      forall k | k in fields ensures Prune(fields[k]).Some? ==> Prune(Prune(fields[k]).value) == Prune(fields[k]) {
        PruneIdempotent(fields[k]);
      }
      var once := Prune(q).value;
      var twice := Prune(once).value;
      assert forall k <- once.kind.value.fields :: once.kind.value.fields[k] == Prune(fields[k]).value;
      assert twice.kind.value.fields == once.kind.value.fields;
    case _ =>
  }

  lemma {:induction false} PruneAllIdempotent(values: seq<Value>)
    ensures PruneAll(PruneAll(values)) == PruneAll(values)
  {
    if values != [] {
      var rest := PruneAll(values[1..]);
      PruneIdempotent(values[0]);
      PruneAllIdempotent(values[1..]);
      if Prune(values[0]).Some? {
        var p := Prune(values[0]).value;
        assert PruneAll(values) == [p] + rest && ([p] + rest)[1..] == rest;
        assert PruneAll([p] + rest) == [p] + PruneAll(rest);
      } else {
        assert PruneAll(values) == rest;
      }
    }
  }
}
