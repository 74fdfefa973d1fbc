/**
 * The data side of the tree: a ref wraps one node of the decoded document, knows
 * its parent ref, its index and display name there, and the schema ref and index
 * that describe it.  Validation walks these refs depth-first.
 */
module JsonTree {
  import opened Wrappers
  import opened JsonValue
  import opened Php
  import opened SchemaErrors
  import JsonUtil
  import opened TreeRefs
  import opened SchemaIndex
  import opened Validation

  /** `$a[$k] = $v` turns null or false into an array first; an array stays as it is. */
  predicate Writable(j: Json) {
    j.JArr? || j.JNull? || j == JBool(false)
  }

  /** The entries an assignment by key starts from: none for a value PHP turns into an array. */
  function WritableEntries(j: Json): (es: seq<Entry>)
    requires Writable(j)
    ensures j.JArr? ==> es == j.entries
    ensures !j.JArr? ==> es == []
  {
    if j.JArr? then j.entries else []
  }

  /**
   * `$j[$k1][$k2]...`: the value reached by following `path` down from `j`, an
   * absent key reading as null; nothing once a step meets a value that is not an array.
   */
  function Load(j: Json, path: seq<Key>): Option<Json>
    decreases |path|
  {
    if path == [] then Some(j)
    else if j.JArr? then Load(ValueAt(j, path[0]), path[1..])
    else None
  }

  /** One more step down: loading along `path + [k]` reads `k` in what `path` loads. */
  lemma {:induction false} LoadExtend(j: Json, path: seq<Key>, k: Key)
    ensures Load(j, path + [k]) ==
              match Load(j, path)
              case Some(p) => if p.JArr? then Some(ValueAt(p, k)) else None
              case None => None
    decreases |path|
  {
    if path != [] {
      assert (path + [k])[1..] == path[1..] + [k];
      if j.JArr? {
        LoadExtend(ValueAt(j, path[0]), path[1..], k);
      }
    } else {
      assert [k][1..] == [];
    }
  }

  /** The dot-separated ids of a run of indexes, each preceded by ".". */
  function IdSuffix(ks: seq<Key>): string
  {
    if ks == [] then ""
    else IdSuffix(ks[..|ks| - 1]) + "." + JsonUtil.KeyToId(ks[|ks| - 1])
  }

  /**
   * `after` is `before` with the value `v` moved from key `oldk` to key `newk`:
   * it is found under the new key (lost when the keys are equal), the old key is
   * gone, every other key reads as before, and distinct keys stay distinct.
   */
  ghost predicate Renamed(before: seq<Entry>, after: seq<Entry>, oldk: Key, newk: Key, v: Json) {
    && (newk != oldk ==> Get(after, newk) == Some(v))
    && !Has(after, oldk)
    && (forall k :: k != oldk && k != newk ==> Get(after, k) == Get(before, k))
    && (DistinctKeys(before) ==> DistinctKeys(after))
  }

  /** Two runs of id characters joined by a dot are id characters throughout. */
  lemma JoinedIdChars(a: string, b: string)
    requires forall i :: 0 <= i < |a| ==> JsonUtil.IsIdChar(a[i])
    requires forall i :: 0 <= i < |b| ==> JsonUtil.IsIdChar(b[i])
    ensures forall i :: 0 <= i < |a + "." + b| ==> JsonUtil.IsIdChar((a + "." + b)[i])
  {
    var s := a + "." + b;
    forall i | 0 <= i < |s| ensures JsonUtil.IsIdChar(s[i]) {
      if i < |a| {
        assert s[i] == a[i];
      } else if i > |a| {
        assert s[i] == b[i - |a| - 1];
      }
    }
  }

  class JsonTreeRef {
    var node: Json
    const parent: JsonTreeRef?
    var nodeindex: Option<Key>
    var nodename: Option<Key>
    var schemaref: Option<TreeRef>
    var fullindex: string
    var schemaindex: JsonSchemaIndex?

    /** The number of refs above this one, and the refs themselves. */
    ghost const depth: nat
    ghost const ancestors: set<JsonTreeRef>

    /** The parent chain is finite and ends at a root; it never comes back to this ref. */
    ghost predicate Valid()
      decreases depth
    {
      && this !in ancestors
      && (parent == null ==> depth == 0 && ancestors == {})
      && (parent != null ==>
            && ancestors == {parent} + parent.ancestors
            && depth == parent.depth + 1
            && parent.Valid())
    }

    /** Every ref below the root, this one included, has an index in its parent. */
    ghost predicate Indexed()
      requires Valid()
      reads this`nodeindex, ancestors`nodeindex
      decreases depth
    {
      parent != null ==> nodeindex.Some? && parent.Indexed()
    }

    /** A schema ref and an index to resolve references against are in place. */
    ghost predicate Attached()
      reads this
    {
      schemaref.Some? && schemaindex != null
    }

    /**
     * Sets the fields and computes the full index; a ref created with a schema ref
     * shares its parent's schema index.
     */
    constructor (node: Json, parent: JsonTreeRef?, nodeindex: Option<Key>, nodename: Option<Key>, schemaref: Option<TreeRef>)
      requires parent != null ==> parent.Valid() && parent.Indexed() && nodeindex.Some?
      ensures Valid() && Indexed()
      ensures this.node == node && this.parent == parent && this.nodeindex == nodeindex
      ensures this.nodename == nodename && this.schemaref == schemaref
      ensures fullindex == FullIndex()
      ensures schemaindex == if schemaref.Some? && parent != null then parent.schemaindex else null
      ensures depth == if parent == null then 0 else parent.depth + 1
      ensures ancestors == if parent == null then {} else {parent} + parent.ancestors
    {
      this.node := node;
      this.parent := parent;
      this.nodeindex := nodeindex;
      this.nodename := nodename;
      this.schemaref := schemaref;
      this.schemaindex := null;
      this.depth := if parent == null then 0 else parent.depth + 1;
      this.ancestors := if parent == null then {} else {parent} + parent.ancestors;
      new;
      fullindex := FullIndex();
      if schemaref.Some? {
        var _ := AttachSchema(None);
      }
    }

    /**
     * `attachSchema`: with a schema, indexes it, names this ref after the schema's
     * title (or 'Root node') and makes the schema its schema ref; without one, takes
     * the parent's schema index.
     */
    method AttachSchema(schema: Option<Json>) returns (r: Outcome<Error>)
      requires Valid()
      requires schema.Some? ==> Indexable(schema.value)
      modifies this`nodename, this`schemaref, this`schemaindex
      ensures schema.None? ==>
                && r == Pass && nodename == old(nodename) && schemaref == old(schemaref)
                && schemaindex == if parent != null then parent.schemaindex else old(schemaindex)
      ensures schema.Some? ==>
                && fresh(schemaindex) && schemaindex.root == schema
                && schemaindex.idtable == Collect(schema.value, map[])
                && nodename == Some(TitleOf(schema.value).GetOr(KStr("Root node")))
                && var rr := ResolveRef(schemaindex.idtable, schema.value, None, None, nodename.value);
                   && r == (if rr.Ok? then Pass else Fail(rr.error))
                   && schemaref == (if rr.Ok? then Some(rr.value) else old(schemaref))
    {
      r := Pass;
      match schema {
        case Some(s) =>
          schemaindex := new JsonSchemaIndex(schema);
          nodename := Some(TitleOf(s).GetOr(KStr("Root node")));
          var rr := schemaindex.NewRef(s, None, None, nodename.value);
          if rr.Err? {
            return Fail(rr.error);
          }
          schemaref := Some(rr.value);
        case None =>
          if parent != null {
            schemaindex := parent.schemaindex;
          }
      }
    }

    /** `getTitle`: the display name, else the data's own `title`, else the index. */
    function Title(): (t: Option<Key>)
      reads this
      ensures nodename.Some? ==> t == nodename
      ensures nodename.None? && TitleOf(node).Some? ==> t == TitleOf(node)
      ensures nodename.None? && TitleOf(node).None? ==> t == nodeindex
    {
      if nodename.Some? then nodename
      else if TitleOf(node).Some? then TitleOf(node)
      else nodeindex
    }

    /** `getDataPathTitles`: the titles from the root down, separated by " -> ". */
    function PathTitles(): (s: string)
      requires Valid()
      reads this, ancestors
      decreases depth
    {
      if parent == null then LabelToString(Title())
      else
        var p := parent.PathTitles();
        p + " -> " + LabelToString(Title())
    }

    /**
     * The root's path titles are its own title; below the root they are the
     * parent's, then " -> ", then this ref's title.
     */
    lemma PathTitlesShape()
      requires Valid()
      ensures parent == null ==> PathTitles() == LabelToString(Title())
      ensures parent != null ==>
                var p, t := parent.PathTitles(), LabelToString(Title());
                && |PathTitles()| == |p| + 4 + |t|
                && PathTitles()[..|p|] == p && PathTitles()[|p|..|p| + 4] == " -> "
                && PathTitles()[|p| + 4..] == t
    {
    }

    /** `getFullIndex`: "json_root", then the id of each index on the way down, dot-separated. */
    function FullIndex(): (s: string)
      requires Valid() && Indexed()
      reads this`nodeindex, ancestors`nodeindex
      ensures |s| >= 9 && s[..9] == "json_root"
      ensures forall i :: 0 <= i < |s| ==> JsonUtil.IsIdChar(s[i])
      decreases depth
    {
      if parent == null then "json_root"
      else
        var p := parent.FullIndex();
        var s := p + "." + JsonUtil.KeyToId(nodeindex.value);
        assert s[..9] == p[..9];
        JoinedIdChars(p, JsonUtil.KeyToId(nodeindex.value));
        s
    }

    /** The ref at the top of this ref's parent chain. */
    function Root(): (r: JsonTreeRef)
      requires Valid()
      ensures r.parent == null && (r == this || r in ancestors)
      decreases depth
    {
      if parent == null then this else parent.Root()
    }

    /** Each ref on the way up holds the value its parent's (array) node has under its index. */
    ghost predicate Consistent()
      requires Valid() && Indexed()
      reads this, ancestors
      decreases depth
    {
      parent != null ==> parent.node.JArr? && node == ValueAt(parent.node, nodeindex.value) && parent.Consistent()
    }

    /** The full index is "json_root" followed by the ids of the data path's indexes. */
    lemma {:induction false} FullIndexFollowsDataPath()
      requires Valid() && Indexed()
      ensures FullIndex() == "json_root" + IdSuffix(DataPath())
      decreases depth
    {
      if parent != null {
        parent.FullIndexFollowsDataPath();
      }
    }

    /** In a consistent tree, following the data path down from the root's node loads this ref's node. */
    lemma {:induction false} DataPathLoadsNode()
      requires Valid() && Indexed() && Consistent()
      ensures Load(Root().node, DataPath()) == Some(node)
      decreases depth
    {
      if parent != null {
        parent.DataPathLoadsNode();
        LoadExtend(parent.Root().node, parent.DataPath(), nodeindex.value);
      }
    }

    /** `getDataPath`: the index of each ref from the one below the root down to this one. */
    function DataPath(): (path: seq<Key>)
      requires Valid() && Indexed()
      reads this`nodeindex, ancestors`nodeindex
      ensures |path| == depth
      ensures parent != null ==> path[depth - 1] == nodeindex.value && path[..depth - 1] == parent.DataPath()
      decreases depth
    {
      if parent == null then [] else parent.DataPath() + [nodeindex.value]
    }

    /**
     * `renamePropname`: files this ref's node under a new index in the parent's
     * node, then removes the entry under the old index; this ref takes the new index
     * as its index and its name.
     */
    method RenamePropname(newindex: Key)
      requires Valid() && Indexed() && parent != null && Writable(parent.node)
      modifies this`nodeindex, this`nodename, this`fullindex, parent`node
      ensures Indexed()
      ensures parent.node == JArr(Remove(Put(WritableEntries(old(parent.node)), ArrayKey(newindex), old(node)), ArrayKey(old(nodeindex.value))))
      ensures Renamed(WritableEntries(old(parent.node)), parent.node.entries, ArrayKey(old(nodeindex.value)), ArrayKey(newindex), old(node))
      ensures nodeindex == Some(newindex) && nodename == Some(newindex)
      ensures fullindex == FullIndex()
      ensures node == old(node) && schemaref == old(schemaref) && schemaindex == old(schemaindex)
    {
      parent.MoveEntry(nodeindex.value, newindex, node);
      Reindex(newindex);
    }

    /** This ref's half of a rename: the new index becomes its index and its name. */
    method Reindex(newindex: Key)
      requires Valid() && Indexed()
      modifies this`nodeindex, this`nodename, this`fullindex
      ensures Indexed()
      ensures nodeindex == Some(newindex) && nodename == Some(newindex)
      ensures fullindex == FullIndex()
    {
      nodeindex := Some(newindex);
      nodename := Some(newindex);
      RefreshFullIndex();
    }

    /**
     * The parent's half of a rename: the value goes in under the new key (null or
     * false becoming an array first), then the old key is unset; both keys are
     * read as array keys.
     */
    method MoveEntry(oldindex: Key, newindex: Key, value: Json)
      requires Writable(node)
      modifies this`node
      ensures node == JArr(Remove(Put(WritableEntries(old(node)), ArrayKey(newindex), value), ArrayKey(oldindex)))
      ensures Renamed(WritableEntries(old(node)), node.entries, ArrayKey(oldindex), ArrayKey(newindex), value)
    {
      RenameEntries(WritableEntries(node), ArrayKey(oldindex), ArrayKey(newindex), value);
      node := JArr(Put(WritableEntries(node), ArrayKey(newindex), value));
      node := JArr(Remove(node.entries, ArrayKey(oldindex)));
    }

    /** Recomputes the stored full index from the indexes on the way down. */
    method RefreshFullIndex()
      requires Valid() && Indexed()
      modifies this`fullindex
      ensures fullindex == FullIndex()
    {
      fullindex := FullIndex();
    }

    /** `getType`: the schema's type for this node, the data's own type when that is 'any'. */
    method GetType() returns (t: Result<Json, Error>)
      requires schemaref.Some?
      ensures t == if schemaref.value.node.JArr? then Ok(SchemaType(schemaref.value.node, node)) else Err(TypeError)
    {
      var snode := schemaref.value.node;
      if !snode.JArr? {
        return Err(TypeError);
      }
      var nodetype := if Has(snode.entries, KStr("type")) then Get(snode.entries, KStr("type")).value else JStr("any");
      if LooseEqualsWord(nodetype, "any") {
        if node == JNull {
          return Ok(JNull);
        }
        var inferred := JsonUtil.GetType(node);
        return Ok(JStr(inferred.value));
      }
      return Ok(nodetype);
    }

    /** `getMappingChildRef`: the ref for member `key` of this (object) node. */
    method GetMappingChildRef(key: Key) returns (r: Result<JsonTreeRef, Error>)
      requires Valid() && Indexed() && Attached() && node.JArr?
      ensures !schemaref.value.node.JArr? ==> r == Err(TypeError)
      ensures schemaref.value.node.JArr? ==>
                var c := MappingChild(node, schemaref.value, schemaindex.idtable, key, PathTitles());
                && (r.Err? <==> c.Err?)
                && (r.Err? ==> r.error == c.error)
                && (r.Ok? ==> ChildOf(r.value, c.value, Some(key)))
      ensures r.Ok? ==> fresh(r.value)
    {
      if !schemaref.value.node.JArr? {
        return Err(TypeError);
      }
      var picked := PickMemberSchema(key);
      if picked.Err? {
        return Err(picked.error);
      }
      var (schemadata, name) := picked.value;
      var value := ValueAt(node, key);
      var schemai := schemaindex.NewRef(schemadata, schemaref, Some(key), key);
      if schemai.Err? {
        return Err(schemai.error);
      }
      var jsoni := new JsonTreeRef(value, this, Some(key), Some(name), Some(schemai.value));
      return Ok(jsoni);
    }

    /**
     * A child ref built by `GetMappingChildRef` or `GetSequenceChildRef` (its value
     * is this node's value under its index) extends the data path by that index and
     * keeps the tree consistent, so its data path loads its node from the root's.
     */
    lemma NewChild(child: JsonTreeRef, c: Child, index: Option<Key>)
      requires Valid() && Indexed() && node.JArr? && ChildOf(child, c, index) && c.value == ValueAt(node, index.value)
      ensures child.Valid() && child.Indexed()
      ensures child.DataPath() == DataPath() + [index.value]
      ensures Consistent() ==> child.Consistent()
    {
    }

    /** The branches of `getMappingChildRef` that choose the member's schema and name. */
    method PickMemberSchema(key: Key) returns (r: Result<(Json, Key), Error>)
      requires Valid() && schemaref.Some? && schemaref.value.node.JArr?
      ensures r == MemberSchema(schemaref.value.node, key, PathTitles())
    {
      var snode := schemaref.value.node;
      var props := Member(snode, "properties");
      if props.Some? && !props.value.JArr? {
        return Err(TypeError);
      }
      if props.Some? && Has(props.value.entries, key) {
        var schemadata := Get(props.value.entries, key).value;
        return Ok((schemadata, TitleOf(schemadata).GetOr(key)));
      }
      var ap := Member(snode, "additionalProperties");
      if ap.Some? {
        if !Truthy(ap.value) {
          return Err(InvalidKey(key, PathTitles()));
        }
        return Ok((ap.value, key));
      }
      return Ok((JArr([]), key));
    }

    /** `getSequenceChildRef`: the ref for item `i` of this (list) node. */
    method GetSequenceChildRef(i: int) returns (r: Result<JsonTreeRef, Error>)
      requires Valid() && Indexed() && Attached() && node.JArr?
      ensures !schemaref.value.node.JArr? ==> r == Err(TypeError)
      ensures schemaref.value.node.JArr? ==>
                var c := SequenceChild(node, schemaref.value, schemaindex.idtable, i);
                && (r.Err? <==> c.Err?)
                && (r.Err? ==> r.error == c.error)
                && (r.Ok? ==> ChildOf(r.value, c.value, Some(KInt(i))))
      ensures r.Ok? ==> fresh(r.value)
    {
      var snode := schemaref.value.node;
      if !snode.JArr? {
        return Err(TypeError);
      }
      var schemanode := ItemSchema(snode);
      var nodename := ItemName(schemanode, i);
      var schemai := schemaindex.NewRef(schemanode, schemaref, Some(KInt(0)), KInt(i));
      if schemai.Err? {
        return Err(schemai.error);
      }
      var jsoni := new JsonTreeRef(ValueAt(node, KInt(i)), this, Some(KInt(i)), Some(nodename), Some(schemai.value));
      return Ok(jsoni);
    }

    /** `child` is a new ref below this one for the given child, sharing this ref's schema index. */
    ghost predicate ChildOf(child: JsonTreeRef, c: Child, index: Option<Key>)
      reads this, child
    {
      && child.parent == this && child.nodeindex == index && index.Some?
      && child.node == c.value && child.schemaref == Some(c.sref) && child.nodename == Some(c.name)
      && child.schemaindex == schemaindex
      && child.depth == depth + 1 && child.ancestors == {this} + ancestors
      && child != this && child !in ancestors
    }

    /**
     * The ghost arguments of the walk stand for this ref's node, schema ref, id
     * index and path titles, so that what the walk computes is stated over values
     * the heap cannot change.
     */
    ghost predicate Walking(data: Json, sref: TreeRef, ids: IdTable, path: string)
      reads this, ancestors, schemaindex
    {
      && Valid() && Indexed() && Attached()
      && data == node && sref == schemaref.value && ids == schemaindex.idtable && path == PathTitles()
    }

    /**
     * `validate`: Pass, or the first failure of a depth-first walk over this node
     * and everything below it.
     */
    method Validate() returns (r: Outcome<Error>)
      requires Valid() && Indexed() && Attached()
      ensures r == Check(node, schemaref.value, schemaindex.idtable, parent == null, PathTitles())
    {
      r := ValidateNode(node, schemaref.value, schemaindex.idtable, PathTitles());
    }

    /** The body of `validate`: the type check of this node, then its members or items. */
    method ValidateNode(ghost data: Json, ghost sref: TreeRef, ghost ids: IdTable, ghost path: string) returns (r: Outcome<Error>)
      requires Walking(data, sref, ids, path)
      ensures r == Check(data, sref, ids, parent == null, path)
      decreases Size(data), 4
    {
      var schematype;
      r, schematype := CheckType(data, sref, ids, path);
      if r.Pass? {
        r := ValidateChildren(schematype, data, sref, ids, path);
      }
    }

    /** The rest of `validate` once the type matches: an object's members or an array's items. */
    method ValidateChildren(schematype: Json, ghost data: Json, ghost sref: TreeRef, ghost ids: IdTable, ghost path: string) returns (r: Outcome<Error>)
      requires Walking(data, sref, ids, path) && sref.node.JArr? && TypeMatches(data, sref.node)
      requires schematype == SchemaType(sref.node, data)
      ensures r == CheckChildren(data, sref, ids, path)
      decreases Size(data), 3
    {
      r := Pass;
      if LooseEqualsWord(schematype, "object") {
        TypeMatchesContainer(data, sref.node);
        r := ValidateObjectChildren(data, sref, ids, path);
      } else if LooseEqualsWord(schematype, "array") {
        TypeMatchesContainer(data, sref.node);
        r := ValidateArrayChildren(data, sref, ids, path);
      }
    }

    /** The first part of `validate`: this node's type against the type its schema asks for. */
    method CheckType(ghost data: Json, ghost sref: TreeRef, ghost ids: IdTable, ghost path: string) returns (r: Outcome<Error>, schematype: Json)
      requires Walking(data, sref, ids, path)
      ensures r == TypeCheck(data, sref.node, parent == null, path)
      ensures r.Pass? ==> schematype == SchemaType(sref.node, data)
    {
      var dtype := JsonUtil.GetType(node);
      var st := GetType();
      schematype := JNull;
      if st.Err? {
        return Fail(st.error), schematype;
      }
      schematype := st.value;
      if dtype == Some("array") && LooseEqualsWord(schematype, "object") {
        dtype := Some("object");
      }
      if dtype == Some("number") && LooseEqualsWord(schematype, "integer") && EqualsItsIntCast(node) {
        dtype := Some("integer");
      }
      assert dtype == DataType(data, schematype);
      if !TypesMatch(dtype, schematype) {
        if dtype.None? && parent == null {
          return Fail(ValidateFailNull), schematype;
        }
        return Fail(ValidateFail(schematype, if dtype.Some? then dtype.value else "null", PathTitles())), schematype;
      }
      r := Pass;
    }

    /** The child's own path titles extend this ref's by the child's name. */
    lemma ChildPathTitles(child: JsonTreeRef, c: Child, index: Option<Key>)
      requires Valid() && Indexed() && ChildOf(child, c, index)
      ensures child.Valid() && child.Indexed()
      ensures child.PathTitles() == ChildPath(PathTitles(), c.name)
    {
    }

    /** `validateObjectChildren`: the required-property scan, then each member in turn. */
    method ValidateObjectChildren(ghost data: Json, ghost sref: TreeRef, ghost ids: IdTable, ghost path: string) returns (r: Outcome<Error>)
      requires Walking(data, sref, ids, path) && data.JArr? && sref.node.JArr?
      ensures r == CheckObject(data, sref, ids, path)
      decreases Size(data), 2
    {
      r := CheckRequired();
      if r.Pass? {
        r := ValidateMembers(data, sref, ids, path);
      }
    }

    /** The first loop of `validateObjectChildren`: property schemas are arrays, required properties are present. */
    method CheckRequired() returns (r: Outcome<Error>)
      requires node.JArr? && schemaref.Some? && schemaref.value.node.JArr?
      ensures r == match Member(schemaref.value.node, "properties")
                   case Some(JArr(props)) => RequiredScan(props, node.entries)
                   case _ => Pass
    {
      var props := Member(schemaref.value.node, "properties");
      if props.Some? && props.value.JArr? {
        var ps := props.value.entries;
        for n := 0 to |ps|
          invariant RequiredScan(ps, node.entries) == RequiredScan(ps[n..], node.entries)
        {
          assert ps[n..][1..] == ps[n + 1..];
          var svalue := ps[n].1;
          if !svalue.JArr? {
            return Fail(TypeError);
          }
          var keyRequired := if Has(svalue.entries, KStr("required")) then Get(svalue.entries, KStr("required")).value else JBool(false);
          if Truthy(keyRequired) && !Has(node.entries, ps[n].0) {
            return Fail(ValidateFailMissingField);
          }
        }
        assert ps[|ps|..] == [];
      }
      return Pass;
    }

    /** The second loop of `validateObjectChildren`: each member in the data's order, up to the first failure. */
    method ValidateMembers(ghost data: Json, ghost sref: TreeRef, ghost ids: IdTable, ghost path: string) returns (r: Outcome<Error>)
      requires Walking(data, sref, ids, path) && data.JArr? && sref.node.JArr?
      ensures r == FirstFailure(MemberOutcomes(data, sref, ids, path))
      decreases Size(data), 1
    {
      ghost var outs := MemberOutcomes(data, sref, ids, path);
      var es := node.entries;
      assert |es| == |outs|;
      for n := 0 to |es|
        invariant Walking(data, sref, ids, path)
        invariant FirstFailure(outs) == FirstFailure(outs[n..])
      {
        FirstFailureStep(outs, n);
        var cr := ValidateMember(n, data, sref, ids, path);
        if cr.Fail? {
          return cr;
        }
      }
      assert outs[|es|..] == [];
      return Pass;
    }

    /** One pass of the member loop: the child ref for member `n`, then its validation. */
    method ValidateMember(n: nat, ghost data: Json, ghost sref: TreeRef, ghost ids: IdTable, ghost path: string) returns (r: Outcome<Error>)
      requires Walking(data, sref, ids, path) && data.JArr? && sref.node.JArr? && n < |data.entries|
      ensures r == MemberOutcome(data, sref, ids, path, n)
      ensures Walking(data, sref, ids, path)
      decreases Size(data), 0
    {
      var key := node.entries[n].0;
      var child := GetMappingChildRef(key);
      assert Walking(data, sref, ids, path);
      if child.Err? {
        return Fail(child.error);
      }
      ghost var c := MappingChild(data, sref, ids, key, path).value;
      ChildPathTitles(child.value, c, Some(key));
      assert Size(c.value) < Size(data);
      r := child.value.ValidateNode(c.value, c.sref, ids, ChildPath(path, c.name));
    }

    /** `validateArrayChildren`: each item `0 .. count - 1` in turn. */
    method ValidateArrayChildren(ghost data: Json, ghost sref: TreeRef, ghost ids: IdTable, ghost path: string) returns (r: Outcome<Error>)
      requires Walking(data, sref, ids, path) && data.JArr? && sref.node.JArr?
      ensures r == FirstFailure(ItemOutcomes(data, sref, ids, path))
      decreases Size(data), 1
    {
      ghost var outs := ItemOutcomes(data, sref, ids, path);
      var max := |node.entries|;
      assert max == |outs|;
      for i := 0 to max
        invariant Walking(data, sref, ids, path)
        invariant FirstFailure(outs) == FirstFailure(outs[i..])
      {
        FirstFailureStep(outs, i);
        var cr := ValidateItem(i, data, sref, ids, path);
        if cr.Fail? {
          return cr;
        }
      }
      assert outs[max..] == [];
      return Pass;
    }

    /** One pass of the item loop: the child ref for item `i`, then its validation. */
    method ValidateItem(i: nat, ghost data: Json, ghost sref: TreeRef, ghost ids: IdTable, ghost path: string) returns (r: Outcome<Error>)
      requires Walking(data, sref, ids, path) && data.JArr? && sref.node.JArr? && i < |data.entries|
      ensures r == ItemOutcome(data, sref, ids, path, i)
      ensures Walking(data, sref, ids, path)
      decreases Size(data), 0
    {
      var child := GetSequenceChildRef(i);
      assert Walking(data, sref, ids, path);
      if child.Err? {
        return Fail(child.error);
      }
      ghost var c := SequenceChild(data, sref, ids, i).value;
      ChildPathTitles(child.value, c, Some(KInt(i)));
      assert Size(c.value) < Size(data);
      r := child.value.ValidateNode(c.value, c.sref, ids, ChildPath(path, c.name));
    }
  }
}
