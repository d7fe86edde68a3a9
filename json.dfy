/** JSON.stringify and JSON.parse, as the data layer uses them to store
    scenario definitions and vitals snapshots in TEXT columns. The text itself
    is abstracted to the JSON document it spells: what matters to the data
    layer is which value comes back when the column is parsed again. */
module Json {
  import opened JsValues

  /** A value JSON can carry unchanged: no undefined at any depth and only
      finite numbers. */
  predicate IsJson(v: JsValue)
  {
    match v
    case Undefined => false
    case Num(n) => n.Finite?
    case Arr(items) => forall i :: 0 <= i < |items| ==> IsJson(items[i])
    case Obj(props) => forall k :: k in props ==> IsJson(props[k])
    case _ => true
  }

  /** What survives a trip through JSON text for a value that has a text:
      NaN and the infinities become null, undefined array elements become
      null, and object members whose value is undefined are dropped. */
  function Project(v: JsValue): (r: JsValue)
    ensures IsJson(r)
  {
    match v
    case Undefined => Null
    case Num(n) => if n.Finite? then v else Null
    case Arr(items) => Arr(seq(|items|, i requires 0 <= i < |items| => Project(items[i])))
    case Obj(props) => Obj(map k | k in props && !props[k].Undefined? :: Project(props[k]))
    case _ => v
  }

  /** The text of a JSON document, represented by the document it denotes. */
  datatype JsonText = JsonText(doc: JsValue)

  /** JSON.stringify: undefined has no JSON text (the call returns undefined);
      every other modelled value has one. */
  function Encode(v: JsValue): (t: Option<JsonText>)
    ensures t.None? <==> v.Undefined?
    ensures t.Some? ==> IsJson(t.value.doc)
  {
    if v.Undefined? then None else Some(JsonText(Project(v)))
  }

  /** JSON.parse of a text this layer wrote. */
  function Decode(t: JsonText): JsValue
  {
    t.doc
  }

  /** A TEXT column holding JSON or NULL, as the readers return it:
      `column ? JSON.parse(column) : null`. A JSON text is never empty, so
      only NULL reads as null. */
  function ParseColumn(column: Option<JsonText>): (v: JsValue)
    ensures column.None? ==> v == Null
    ensures column.Some? ==> v == column.value.doc
  {
    if column.Some? then Decode(column.value) else Null
  }

  /** Projecting a JSON value changes nothing. */
  lemma {:induction false} ProjectJson(v: JsValue)
    requires IsJson(v)
    ensures Project(v) == v
  {
    match v
    case Arr(items) =>
      forall i | 0 <= i < |items|
        ensures Project(items[i]) == items[i]
      {
        ProjectJson(items[i]);
      }
      assert Project(v).items == items;
    case Obj(props) =>
      forall k | k in props
        ensures Project(props[k]) == props[k]
      {
        ProjectJson(props[k]);
      }
      assert Project(v).props == props;
    case _ =>
  }

  /** parse(stringify(v)) gives back v exactly when v is a JSON value, and in
      any case gives back its projection. */
  lemma RoundTrip(v: JsValue)
    requires !v.Undefined?
    ensures Decode(Encode(v).value) == Project(v)
    ensures Decode(Encode(v).value) == v <==> IsJson(v)
  {
    if IsJson(v) {
      ProjectJson(v);
    }
  }

  /** Storing a value with JSON.stringify and reading the column back gives
      null for undefined (stored as NULL) and the projection otherwise. */
  lemma ColumnRoundTrip(v: JsValue)
    ensures ParseColumn(Encode(v)) == if v.Undefined? then Null else Project(v)
    ensures IsJson(v) ==> ParseColumn(Encode(v)) == v
  {
    if IsJson(v) {
      ProjectJson(v);
    }
  }
}
