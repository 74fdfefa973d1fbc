/**
 * What `JsonTreeRef::validate` decides, as functions of the data, the schema ref
 * and the id index: the type the schema asks for, the type the data has once PHP's
 * looseness is allowed for, how a member or an item finds its schema, and the
 * depth-first, fail-fast walk over the document.
 */
module Validation {
  import opened Wrappers
  import opened JsonValue
  import opened Php
  import opened SchemaErrors
  import opened JsonUtil
  import opened TreeRefs
  import opened SchemaIndex

  /** `$x['title']` as a display name: a string or int title; anything else counts as absent. */
  function TitleOf(j: Json): (r: Option<Key>)
    ensures r.Some? ==> Member(j, "title") == Some(if r.value.KStr? then JStr(r.value.s) else JInt(r.value.i))
    ensures Member(j, "title") == None ==> r == None
    ensures forall x :: Member(j, "title") == Some(JStr(x)) ==> r == Some(KStr(x))
    ensures forall i :: Member(j, "title") == Some(JInt(i)) ==> r == Some(KInt(i))
  {
    match Member(j, "title")
    case Some(JStr(s)) => Some(KStr(s))
    case Some(JInt(i)) => Some(KInt(i))
    case _ => None
  }

  /** `$node[$key]`: the value under the key, null when there is none. */
  function ValueAt(data: Json, k: Key): (v: Json)
    requires data.JArr?
    ensures Has(data.entries, k) ==> Some(v) == Get(data.entries, k)
    ensures !Has(data.entries, k) ==> v == JNull
    ensures data.entries != [] ==> Size(v) < Size(data)
  {
    match Get(data.entries, k)
    case Some(v) => v
    case None => JNull
  }

  /** A type name as PHP holds it: a string, or null for null data. */
  function TypeName(t: Option<string>): Json {
    match t
    case Some(n) => JStr(n)
    case None => JNull
  }

  /**
   * `JsonTreeRef::getType`: the schema's `type` member, or, when that is loosely
   * 'any' or absent, the data's own type.
   */
  function SchemaType(snode: Json, data: Json): (t: Json)
    requires snode.JArr?
    ensures !LooseEqualsWord(t, "any")
    ensures t != JBool(true)
    ensures !Has(snode.entries, KStr("type")) ==> t == TypeName(InferType(data))
    ensures Member(snode, "type") == Some(t) || t == TypeName(InferType(data))
    ensures forall d :: Member(snode, "type") == Some(d) && !LooseEqualsWord(d, "any") ==> t == d
    ensures forall d :: Member(snode, "type") == Some(d) && LooseEqualsWord(d, "any") ==> t == TypeName(InferType(data))
  {
    var declared := match Member(snode, "type") case Some(d) => d case None => JStr("any");
    if LooseEqualsWord(declared, "any") then TypeName(InferType(data)) else declared
  }

  /**
   * The data's type as `validate` compares it: a list passes for an object where
   * the schema asks for one, and a whole number for an integer where the schema
   * asks for one.
   */
  function DataType(data: Json, schematype: Json): (d: Option<string>)
    ensures d.None? <==> data.JNull?
    ensures d.Some? ==> IsWord(d.value)
    ensures d == Some("object") <==> data.JArr? && (InferType(data) == Some("object") || LooseEqualsWord(schematype, "object"))
    ensures d == Some("array") <==> data.JArr? && InferType(data) == Some("array") && !LooseEqualsWord(schematype, "object")
    ensures d == Some("integer") <==> (data.JInt? || data.JFloat?) && LooseEqualsWord(schematype, "integer") && EqualsItsIntCast(data)
    ensures d == Some("number") <==> (data.JInt? || data.JFloat?) && !(LooseEqualsWord(schematype, "integer") && EqualsItsIntCast(data))
    ensures d == Some("string") <==> data.JStr?
    ensures d == Some("boolean") <==> data.JBool?
  {
    var d0 := InferType(data);
    var d1 := if d0 == Some("array") && LooseEqualsWord(schematype, "object") then Some("object") else d0;
    if d1 == Some("number") && LooseEqualsWord(schematype, "integer") && EqualsItsIntCast(data) then Some("integer") else d1
  }

  /** `$datatype == $schematype`, the loose comparison `validate` makes. */
  predicate TypesMatch(d: Option<string>, schematype: Json)
    requires d.Some? ==> IsWord(d.value)
  {
    match d
    case None => LooseEqualsNull(schematype)
    case Some(n) => LooseEqualsWord(schematype, n)
  }

  /** A property's `required` flag, false when it has none. */
  function RequiredFlag(svalue: Json): Json
    requires svalue.JArr?
  {
    match Member(svalue, "required") case Some(f) => f case None => JBool(false)
  }

  /**
   * The first loop of `validateObjectChildren`: every property schema must be an
   * array, and a property flagged as required must be present in the data.
   */
  function RequiredScan(props: seq<Entry>, es: seq<Entry>): (r: Outcome<Error>)
    ensures r == Pass <==>
              forall n :: 0 <= n < |props| ==> props[n].1.JArr? && (Truthy(RequiredFlag(props[n].1)) ==> Has(es, props[n].0))
    ensures r.Fail? ==> r.error == TypeError || r.error == ValidateFailMissingField
    ensures (forall n :: 0 <= n < |props| ==> props[n].1.JArr?) ==> r != Fail(TypeError)
  {
    if props == [] then Pass
    else if !props[0].1.JArr? then Fail(TypeError)
    else if Truthy(RequiredFlag(props[0].1)) && !Has(es, props[0].0) then Fail(ValidateFailMissingField)
    else
      var r := RequiredScan(props[1..], es);
      assert forall n :: 1 <= n < |props| ==> props[n] == props[1..][n - 1];
      r
  }

  /** A child ref as validation needs it: the data value, its schema ref and its display name. */
  datatype Child = Child(value: Json, sref: TreeRef, name: Key)

  /**
   * The first half of `getMappingChildRef`: the schema of member `key` and its
   * display name.  That is its entry under `properties` (named by its title), else
   * `additionalProperties` (an error when that is falsy), else the empty schema.
   */
  function MemberSchema(snode: Json, key: Key, path: string): (r: Result<(Json, Key), Error>)
    requires snode.JArr?
    ensures r.Err? ==> r.error == TypeError || r.error == InvalidKey(key, path)
    ensures r.Ok? && r.value.1 != key ==> match Member(snode, "properties") case Some(JArr(ps)) => Has(ps, key) case _ => false
  {
    var props := Member(snode, "properties");
    if props.Some? && !props.value.JArr? then Err(TypeError)
    else if props.Some? && Has(props.value.entries, key) then
      var sd := Get(props.value.entries, key).value;
      Ok((sd, TitleOf(sd).GetOr(key)))
    else
      match Member(snode, "additionalProperties")
      case Some(ap) => if !Truthy(ap) then Err(InvalidKey(key, path)) else Ok((ap, key))
      case None => Ok((JArr([]), key))
  }

  /** `getMappingChildRef`: the member's value, under its schema resolved against the index. */
  function MappingChild(data: Json, sref: TreeRef, ids: IdTable, key: Key, path: string): (r: Result<Child, Error>)
    requires data.JArr? && sref.node.JArr?
    ensures r.Ok? ==> r.value.value == ValueAt(data, key) && r.value.sref.parent == Some(sref) && r.value.sref.nodeindex == Some(key)
    ensures r.Err? && r.error.InvalidKey? ==> r.error == InvalidKey(key, path)
    ensures MemberSchema(sref.node, key, path).Err? ==> r == Err(MemberSchema(sref.node, key, path).error)
    ensures MemberSchema(sref.node, key, path).Ok? ==>
              var (sd, name) := MemberSchema(sref.node, key, path).value;
              var cref := ResolveRef(ids, sd, Some(sref), Some(key), key);
              && (r.Ok? <==> cref.Ok?)
              && (r.Ok? ==> r.value.sref == cref.value && r.value.name == name)
  {
    match MemberSchema(sref.node, key, path)
    case Err(e) => Err(e)
    case Ok((sd, name)) =>
      match ResolveRef(ids, sd, Some(sref), Some(key), key)
      case Err(e) => Err(e)
      case Ok(cref) => Ok(Child(ValueAt(data, key), cref, name))
  }

  /**
   * The schema fragment `getSequenceChildRef` uses for every item: `items[0]`, or the
   * empty schema without `items`.  When `items` is not an array PHP reads null or a
   * one-character string, and either fails as a fragment; null stands for both.
   */
  function ItemSchema(snode: Json): (r: Json)
    ensures Member(snode, "items").None? ==> r == JArr([])
    ensures Member(snode, "items").Some? && Member(snode, "items").value.JArr? ==> r == ValueAt(Member(snode, "items").value, KInt(0))
    ensures Member(snode, "items").Some? && !Member(snode, "items").value.JArr? ==> !r.JArr?
  {
    match Member(snode, "items")
    case None => JArr([])
    case Some(items) => if items.JArr? then ValueAt(items, KInt(0)) else JNull
  }

  /** The display name of item `i`: its schema's title, or 'Item', then " #" and the 1-based position. */
  function ItemName(sd: Json, i: int): Key {
    KStr(KeyToString(TitleOf(sd).GetOr(KStr("Item"))) + " #" + IntToString(i + 1))
  }

  /** `getSequenceChildRef`: item `i` of the data under the schema of the first `items` entry. */
  function SequenceChild(data: Json, sref: TreeRef, ids: IdTable, i: int): (r: Result<Child, Error>)
    requires data.JArr?
    ensures r.Ok? ==> r.value.value == ValueAt(data, KInt(i)) && r.value.sref.parent == Some(sref)
    ensures r.Ok? ==> r.value.name == ItemName(ItemSchema(sref.node), i)
    ensures r.Err? ==> r.error == TypeError || r.error.BadIdRef?
    ensures var cref := ResolveRef(ids, ItemSchema(sref.node), Some(sref), Some(KInt(0)), KInt(i));
            && (r.Ok? <==> cref.Ok?)
            && (r.Ok? ==> r.value.sref == cref.value)
            && (r.Err? ==> r.error == cref.error)
  {
    var sd := ItemSchema(sref.node);
    match ResolveRef(ids, sd, Some(sref), Some(KInt(0)), KInt(i))
    case Err(e) => Err(e)
    case Ok(cref) => Ok(Child(ValueAt(data, KInt(i)), cref, ItemName(sd, i)))
  }

  /** The path titles of a child, from those of its parent. */
  function ChildPath(path: string, name: Key): string {
    path + " -> " + KeyToString(name)
  }

  /** The first failure in a run of outcomes, or Pass when every one passes. */
  function FirstFailure(outs: seq<Outcome<Error>>): (r: Outcome<Error>)
    ensures r == Pass <==> forall n :: 0 <= n < |outs| ==> outs[n] == Pass
    ensures r.Fail? ==> exists n :: 0 <= n < |outs| && outs[n] == r && forall m :: 0 <= m < n ==> outs[m] == Pass
  {
    if outs == [] then Pass
    else if outs[0].Fail? then outs[0]
    else
      var r := FirstFailure(outs[1..]);
      assert forall n :: 1 <= n < |outs| ==> outs[n] == outs[1..][n - 1];
      r
  }

  /** Scanning from position `n` on: stop at a failure there, or go on. */
  lemma FirstFailureStep(outs: seq<Outcome<Error>>, n: nat)
    requires n < |outs|
    ensures FirstFailure(outs[n..]) == if outs[n].Fail? then outs[n] else FirstFailure(outs[n + 1..])
  {
    assert outs[n..][1..] == outs[n + 1..];
  }

  /** When every outcome before `n` passes and outcome `n` fails, that failure is the first. */
  lemma {:induction false} FirstFailureAt(outs: seq<Outcome<Error>>, n: nat)
    requires n < |outs| && outs[n].Fail?
    requires forall m :: 0 <= m < n ==> outs[m] == Pass
    ensures FirstFailure(outs) == outs[n]
  {
    if n > 0 {
      assert outs[0] == Pass;
      assert forall m :: 0 <= m < n - 1 ==> outs[1..][m] == outs[m + 1];
      FirstFailureAt(outs[1..], n - 1);
    }
  }

  /**
   * The type check `validate` starts with: the schema fragment must be an array,
   * and the data's type must loosely equal the schema's type.  A mismatch on null
   * data at the root has an error of its own.
   */
  function TypeCheck(data: Json, snode: Json, isRoot: bool, path: string): (r: Outcome<Error>)
    ensures r == Pass <==> snode.JArr? && TypeMatches(data, snode)
    ensures r == Fail(ValidateFailNull) ==> isRoot && data.JNull?
    ensures r.Fail? ==> r.error == TypeError || r.error == ValidateFailNull || r.error.ValidateFail?
    ensures !snode.JArr? ==> r == Fail(TypeError)
    ensures snode.JArr? && !TypeMatches(data, snode) && isRoot && data.JNull? ==> r == Fail(ValidateFailNull)
    ensures snode.JArr? && !TypeMatches(data, snode) && !(isRoot && data.JNull?) ==>
              var st := SchemaType(snode, data);
              r == Fail(ValidateFail(st, DataType(data, st).GetOr("null"), path))
    ensures r.Fail? && r.error.ValidateFail? ==>
              var st := SchemaType(snode, data);
              r.error == ValidateFail(st, DataType(data, st).GetOr("null"), path)
  {
    if !snode.JArr? then Fail(TypeError)
    else if TypeMatches(data, snode) then Pass
    else
      var st := SchemaType(snode, data);
      var dt := DataType(data, st);
      if dt.None? && isRoot then Fail(ValidateFailNull)
      else Fail(ValidateFail(st, dt.GetOr("null"), path))
  }

  /** `$datatype == $schematype` for this data and this schema fragment. */
  predicate TypeMatches(data: Json, snode: Json)
    requires snode.JArr?
  {
    var st := SchemaType(snode, data);
    TypesMatch(DataType(data, st), st)
  }

  /** Data that passes for an 'object' or an 'array' is a PHP array. */
  lemma TypeMatchesContainer(data: Json, snode: Json)
    requires snode.JArr? && TypeMatches(data, snode)
    requires LooseEqualsWord(SchemaType(snode, data), "object") || LooseEqualsWord(SchemaType(snode, data), "array")
    ensures data.JArr?
  {
  }

  /**
   * `validate`: the type check of this node, then, for an object or an array, the
   * check of each member or item in order; the first failure is the result.
   */
  function Check(data: Json, sref: TreeRef, ids: IdTable, isRoot: bool, path: string): (r: Outcome<Error>)
    ensures r == Fail(ValidateFailNull) ==> isRoot && data.JNull?
    decreases Size(data), 5
  {
    var t := TypeCheck(data, sref.node, isRoot, path);
    if t.Fail? then t else CheckChildren(data, sref, ids, path)
  }

  /** The part of `validate` after the type check: the members of an object, the items of an array. */
  function CheckChildren(data: Json, sref: TreeRef, ids: IdTable, path: string): (r: Outcome<Error>)
    requires sref.node.JArr? && TypeMatches(data, sref.node)
    ensures r != Fail(ValidateFailNull)
    decreases Size(data), 4
  {
    var st := SchemaType(sref.node, data);
    if LooseEqualsWord(st, "object") then
      TypeMatchesContainer(data, sref.node);
      CheckObject(data, sref, ids, path)
    else if LooseEqualsWord(st, "array") then
      TypeMatchesContainer(data, sref.node);
      FirstFailure(ItemOutcomes(data, sref, ids, path))
    else Pass
  }

  /** `validateObjectChildren`: the required-field scan, then every member in the data's order. */
  function CheckObject(data: Json, sref: TreeRef, ids: IdTable, path: string): (r: Outcome<Error>)
    requires data.JArr? && sref.node.JArr?
    ensures r != Fail(ValidateFailNull)
    decreases Size(data), 3
  {
    var scan := match Member(sref.node, "properties") case Some(JArr(props)) => RequiredScan(props, data.entries) case _ => Pass;
    if scan.Fail? then scan else FirstFailure(MemberOutcomes(data, sref, ids, path))
  }

  /** What validating each member on its own gives, in the data's order. */
  function MemberOutcomes(data: Json, sref: TreeRef, ids: IdTable, path: string): (outs: seq<Outcome<Error>>)
    requires data.JArr? && sref.node.JArr?
    ensures |outs| == |data.entries|
    ensures forall n :: 0 <= n < |outs| ==> outs[n] == MemberOutcome(data, sref, ids, path, n)
    decreases Size(data), 1
  {
    seq(|data.entries|, n requires 0 <= n < |data.entries| => MemberOutcome(data, sref, ids, path, n))
  }

  /** Member `n`: its child ref (`getMappingChildRef`), then that child's own validation. */
  function MemberOutcome(data: Json, sref: TreeRef, ids: IdTable, path: string, n: nat): (r: Outcome<Error>)
    requires data.JArr? && sref.node.JArr? && n < |data.entries|
    ensures r != Fail(ValidateFailNull)
    decreases Size(data), 0
  {
    match MappingChild(data, sref, ids, data.entries[n].0, path)
    case Err(e) => Fail(e)
    case Ok(c) => Check(c.value, c.sref, ids, false, ChildPath(path, c.name))
  }

  /** What validating each item `0 .. count - 1` on its own gives (`validateArrayChildren`). */
  function ItemOutcomes(data: Json, sref: TreeRef, ids: IdTable, path: string): (outs: seq<Outcome<Error>>)
    requires data.JArr?
    ensures |outs| == |data.entries|
    ensures forall n :: 0 <= n < |outs| ==> outs[n] == ItemOutcome(data, sref, ids, path, n)
    decreases Size(data), 1
  {
    seq(|data.entries|, n requires 0 <= n < |data.entries| => ItemOutcome(data, sref, ids, path, n))
  }

  /** Item `n`: its child ref (`getSequenceChildRef`), then that child's own validation. */
  function ItemOutcome(data: Json, sref: TreeRef, ids: IdTable, path: string, n: nat): (r: Outcome<Error>)
    requires data.JArr? && n < |data.entries|
    ensures r != Fail(ValidateFailNull)
    decreases Size(data), 0
  {
    match SequenceChild(data, sref, ids, n)
    case Err(e) => Fail(e)
    case Ok(c) => Check(c.value, c.sref, ids, false, ChildPath(path, c.name))
  }
}
