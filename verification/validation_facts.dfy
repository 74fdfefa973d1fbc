/** What the validation walk guarantees, stated over the model of `validate`. */
module ValidationFacts {
  import opened Wrappers
  import opened JsonValue
  import opened Php
  import opened SchemaErrors
  import opened JsonUtil
  import opened TreeRefs
  import opened SchemaIndex
  import opened Validation

  /** `k` is declared under the fragment's `properties`. */
  predicate Declared(snode: Json, k: Key) {
    match Member(snode, "properties")
    case Some(JArr(ps)) => Has(ps, k)
    case _ => false
  }

  /** A fragment whose `additionalProperties` is present and loosely false closes the object. */
  predicate Closed(snode: Json) {
    match Member(snode, "additionalProperties")
    case Some(ap) => !Truthy(ap)
    case None => false
  }

  /** Under a closed object schema, data that validates has no member the schema does not declare. */
  lemma ClosedMappingEnforced(data: Json, sref: TreeRef, ids: IdTable, isRoot: bool, path: string)
    requires sref.node.JArr? && Closed(sref.node) && SchemaType(sref.node, data) == JStr("object")
    requires Check(data, sref, ids, isRoot, path) == Pass
    ensures data.JArr?
    ensures forall k :: Has(data.entries, k) ==> Declared(sref.node, k)
  {
    assert CheckChildren(data, sref, ids, path) == Pass;
    TypeMatchesContainer(data, sref.node);
    assert CheckObject(data, sref, ids, path) == Pass;
    forall k | Has(data.entries, k)
      ensures Declared(sref.node, k)
    {
      var n := Find(data.entries, k);
      assert MemberOutcome(data, sref, ids, path, n) == Pass;
      assert MappingChild(data, sref, ids, data.entries[n].0, path).Ok?;
    }
  }

  /** Under an object schema, data that validates has every property the schema flags as required. */
  lemma RequiredFieldEnforced(data: Json, sref: TreeRef, ids: IdTable, isRoot: bool, path: string, n: nat)
    requires sref.node.JArr? && SchemaType(sref.node, data) == JStr("object")
    requires Member(sref.node, "properties").Some? && Member(sref.node, "properties").value.JArr?
    requires var ps := Member(sref.node, "properties").value.entries;
             n < |ps| && ps[n].1.JArr? && Truthy(RequiredFlag(ps[n].1))
    requires Check(data, sref, ids, isRoot, path) == Pass
    ensures data.JArr? && Has(data.entries, Member(sref.node, "properties").value.entries[n].0)
  {
    assert CheckChildren(data, sref, ids, path) == Pass;
    TypeMatchesContainer(data, sref.node);
    assert CheckObject(data, sref, ids, path) == Pass;
  }

  /**
   * A fragment that constrains nothing: no type other than 'any', no `properties`,
   * `additionalProperties` or `items`.
   */
  predicate Open(snode: Json) {
    && snode.JArr?
    && (match Member(snode, "type") case None => true case Some(t) => LooseEqualsWord(t, "any"))
    && Member(snode, "properties").None?
    && Member(snode, "additionalProperties").None?
    && Member(snode, "items").None?
  }

  /** An open fragment, such as the default schema `[]` unknown members get, accepts every document. */
  lemma {:induction false} OpenSchemaAcceptsAll(data: Json, sref: TreeRef, ids: IdTable, isRoot: bool, path: string)
    requires Open(sref.node)
    ensures Check(data, sref, ids, isRoot, path) == Pass
    decreases Size(data), 1
  {
    var st := SchemaType(sref.node, data);
    if LooseEqualsWord(st, "object") || LooseEqualsWord(st, "array") {
      TypeMatchesContainer(data, sref.node);
      forall n | 0 <= n < |data.entries|
        ensures MemberOutcome(data, sref, ids, path, n) == Pass && ItemOutcome(data, sref, ids, path, n) == Pass
      {
        OpenChildrenPass(data, sref, ids, path, n);
      }
      assert CheckChildren(data, sref, ids, path) == Pass;
    }
  }

  /** Under an open fragment, member `n` and item `n` are open too, and so pass. */
  lemma {:induction false} OpenChildrenPass(data: Json, sref: TreeRef, ids: IdTable, path: string, n: nat)
    requires Open(sref.node) && data.JArr? && n < |data.entries|
    ensures MemberOutcome(data, sref, ids, path, n) == Pass
    ensures ItemOutcome(data, sref, ids, path, n) == Pass
    decreases Size(data), 0
  {
    var k := data.entries[n].0;
    assert ResolveRef(ids, JArr([]), Some(sref), Some(k), k) == Ok(TreeRef(JArr([]), Some(sref), Some(k), k));
    var c := MappingChild(data, sref, ids, k, path);
    assert c == Ok(Child(ValueAt(data, k), TreeRef(JArr([]), Some(sref), Some(k), k), k));
    OpenSchemaAcceptsAll(c.value.value, c.value.sref, ids, false, ChildPath(path, c.value.name));
    assert ItemSchema(sref.node) == JArr([]);
    assert ResolveRef(ids, JArr([]), Some(sref), Some(KInt(0)), KInt(n)) == Ok(TreeRef(JArr([]), Some(sref), Some(KInt(0)), KInt(n)));
    var d := SequenceChild(data, sref, ids, n);
    OpenSchemaAcceptsAll(d.value.value, d.value.sref, ids, false, ChildPath(path, d.value.name));
  }

  /**
   * A member the schema does not declare is named by its own key, so two such
   * members never share a title.
   */
  lemma UndeclaredMembersNamedByKey(data: Json, sref: TreeRef, ids: IdTable, a: Key, b: Key, path: string)
    requires data.JArr? && sref.node.JArr? && !Declared(sref.node, a) && !Declared(sref.node, b) && a != b
    requires MappingChild(data, sref, ids, a, path).Ok? && MappingChild(data, sref, ids, b, path).Ok?
    ensures MappingChild(data, sref, ids, a, path).value.name == a
    ensures MappingChild(data, sref, ids, a, path).value.name != MappingChild(data, sref, ids, b, path).value.name
  {
  }

  /**
   * A number passes for 'integer' exactly when it is an int or a whole double within
   * the 64-bit range (so 1e20 fails); otherwise it is reported as a 'number'.
   */
  lemma IntegerLoosening(data: Json, sref: TreeRef, ids: IdTable, isRoot: bool, path: string)
    requires sref.node.JArr? && Member(sref.node, "type") == Some(JStr("integer"))
    requires data.JInt? || data.JFloat?
    ensures Check(data, sref, ids, isRoot, path) ==
              if data.JInt? || (data.r == data.r.Floor as real && MinInt as real <= data.r <= MaxInt as real) then Pass
              else Fail(ValidateFail(JStr("integer"), "number", path))
  {
    if data.JFloat? {
      IntCastExactlyWhole(data.r);
    }
  }

  /** Under an object schema whose property schemas are arrays, a required property the data lacks is reported as a missing field. */
  lemma MissingRequiredFieldReported(data: Json, sref: TreeRef, ids: IdTable, isRoot: bool, path: string, n: nat)
    requires data.JArr? && sref.node.JArr? && SchemaType(sref.node, data) == JStr("object")
    requires Member(sref.node, "properties").Some? && Member(sref.node, "properties").value.JArr?
    requires var ps := Member(sref.node, "properties").value.entries;
             && (forall k :: 0 <= k < |ps| ==> ps[k].1.JArr?)
             && n < |ps| && Truthy(RequiredFlag(ps[n].1)) && !Has(data.entries, ps[n].0)
    ensures Check(data, sref, ids, isRoot, path) == Fail(ValidateFailMissingField)
  {
    assert CheckChildren(data, sref, ids, path) == CheckObject(data, sref, ids, path);
  }

  /** Under a closed schema, an undeclared member is rejected with the key and the path titles. */
  lemma UndeclaredMemberRejected(data: Json, sref: TreeRef, ids: IdTable, path: string, n: nat)
    requires data.JArr? && sref.node.JArr? && n < |data.entries|
    requires PropertiesUsable(sref.node) && Closed(sref.node) && !Declared(sref.node, data.entries[n].0)
    ensures MemberOutcome(data, sref, ids, path, n) == Fail(InvalidKey(data.entries[n].0, path))
  {
    ClosedMemberSchema(sref.node, data.entries[n].0, path);
  }

  /**
   * Under a closed object schema whose required properties are present, the first
   * undeclared member, after members that pass, is what `validate` reports.
   */
  lemma FirstUndeclaredMemberReported(data: Json, sref: TreeRef, ids: IdTable, isRoot: bool, path: string, n: nat)
    requires data.JArr? && sref.node.JArr? && SchemaType(sref.node, data) == JStr("object") && n < |data.entries|
    requires PropertiesUsable(sref.node) && Closed(sref.node) && !Declared(sref.node, data.entries[n].0)
    requires match Member(sref.node, "properties") case Some(JArr(ps)) => RequiredScan(ps, data.entries) == Pass case _ => true
    requires forall m :: 0 <= m < n ==> MemberOutcome(data, sref, ids, path, m) == Pass
    ensures Check(data, sref, ids, isRoot, path) == Fail(InvalidKey(data.entries[n].0, path))
  {
    UndeclaredMemberRejected(data, sref, ids, path, n);
    FirstFailureAt(MemberOutcomes(data, sref, ids, path), n);
    assert CheckChildren(data, sref, ids, path) == CheckObject(data, sref, ids, path);
  }

  /** `properties` is absent or an array, so looking a key up in it raises nothing. */
  predicate PropertiesUsable(snode: Json) {
    Member(snode, "properties").None? || Member(snode, "properties").value.JArr?
  }

  /** A declared member gets its `properties` entry, named by that entry's title, else by its key. */
  lemma DeclaredMemberSchema(snode: Json, key: Key, path: string)
    requires snode.JArr? && Declared(snode, key)
    ensures var sd := Get(Member(snode, "properties").value.entries, key).value;
            MemberSchema(snode, key, path) == Ok((sd, TitleOf(sd).GetOr(key)))
  {
  }

  /** An undeclared member under a truthy `additionalProperties` gets that fragment, named by its key. */
  lemma AdditionalMemberSchema(snode: Json, key: Key, path: string)
    requires snode.JArr? && PropertiesUsable(snode) && !Declared(snode, key)
    requires Member(snode, "additionalProperties").Some? && Truthy(Member(snode, "additionalProperties").value)
    ensures MemberSchema(snode, key, path) == Ok((Member(snode, "additionalProperties").value, key))
  {
  }

  /** An undeclared member under a closed schema is an invalid key. */
  lemma ClosedMemberSchema(snode: Json, key: Key, path: string)
    requires snode.JArr? && PropertiesUsable(snode) && Closed(snode) && !Declared(snode, key)
    ensures MemberSchema(snode, key, path) == Err(InvalidKey(key, path))
  {
  }

  /** With neither a declaration nor `additionalProperties`, a member gets the empty schema, named by its key. */
  lemma DefaultMemberSchema(snode: Json, key: Key, path: string)
    requires snode.JArr? && PropertiesUsable(snode) && !Declared(snode, key)
    requires Member(snode, "additionalProperties").None?
    ensures MemberSchema(snode, key, path) == Ok((JArr([]), key))
  {
  }

  /**
   * Every item gets the same schema fragment, resolved with index 0 and named by its
   * own position, so one item's schema ref fails exactly when every item's does.
   */
  lemma ItemsShareSchema(data: Json, sref: TreeRef, ids: IdTable, i: int, j: int)
    requires data.JArr?
    ensures SequenceChild(data, sref, ids, i).Ok? <==> SequenceChild(data, sref, ids, j).Ok?
    ensures SequenceChild(data, sref, ids, i).Ok? ==>
              var ci, cj := SequenceChild(data, sref, ids, i).value, SequenceChild(data, sref, ids, j).value;
              && ci.sref.node == cj.sref.node
              && cj.sref.nodeindex == Some(KInt(0)) && cj.sref.nodename == KInt(j)
  {
  }

  /** Every PHP array passes for 'object', a list included: an empty document is an empty map. */
  lemma ArrayPassesForObject(data: Json, snode: Json)
    requires data.JArr? && snode.JArr? && Member(snode, "type") == Some(JStr("object"))
    ensures var st := SchemaType(snode, data); TypesMatch(DataType(data, st), st)
  {
  }

  /** An empty document against an object schema with no declared properties is valid. */
  lemma EmptyMapAccepted(sref: TreeRef, ids: IdTable, isRoot: bool, path: string)
    requires sref.node.JArr? && Member(sref.node, "type") == Some(JStr("object")) && Member(sref.node, "properties").None?
    ensures Check(JArr([]), sref, ids, isRoot, path) == Pass
  {
  }

  /**
   * Null data against a schema asking for a named type: at the root the dedicated
   * empty-document error, anywhere else an ordinary type mismatch naming 'null'.
   */
  lemma NullAgainstNamedType(sref: TreeRef, ids: IdTable, t: string, path: string)
    requires sref.node.JArr? && Member(sref.node, "type") == Some(JStr(t)) && t != "" && t != "any"
    ensures Check(JNull, sref, ids, true, path) == Fail(ValidateFailNull)
    ensures Check(JNull, sref, ids, false, path) == Fail(ValidateFail(JStr(t), "null", path))
  {
  }

  /** Nothing satisfies a 'null' type: `getType` never names it, and null itself fails the loose comparison. */
  lemma NullTypeUnsatisfiable(data: Json, sref: TreeRef, ids: IdTable, isRoot: bool, path: string)
    requires sref.node.JArr? && Member(sref.node, "type") == Some(JStr("null"))
    ensures Check(data, sref, ids, isRoot, path).Fail?
  {
  }

  /** The default value for each schema type validates against a fragment of that type. */
  lemma NewValueValidates(t: string, ids: IdTable, isRoot: bool, path: string)
    requires t in {"object", "array", "number", "integer", "string", "boolean"}
    ensures var sref := TreeRef(JArr([(KStr("type"), JStr(t))]), None, None, KStr("Root node"));
            Check(NewValueForType(JStr(t)), sref, ids, isRoot, path) == Pass
  {
    var snode := JArr([(KStr("type"), JStr(t))]);
    assert Member(snode, "type") == Some(JStr(t));
    assert Member(snode, "properties") == None;
    assert Member(snode, "items") == None;
  }
}
