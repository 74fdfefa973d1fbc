/**
 * The schema index: one post-order walk over the schema collects every fragment that
 * carries an `id`, and `NewRef` turns a fragment, or a `$ref` to an indexed one,
 * into a schema ref.
 */
module SchemaIndex {
  import opened Wrappers
  import opened JsonValue
  import opened Php
  import opened SchemaErrors
  import opened TreeRefs

  /** Indexed fragments by their `id` string. */
  type IdTable = map<string, Json>

  /** The walk's local copy of a fragment: a missing `type` is set to 'any' (appended, as PHP does). */
  function WithDefaultType(s: Json): (r: Json)
    requires s.JArr?
    ensures r.JArr?
    ensures Member(r, "type") == if Has(s.entries, KStr("type")) then Member(s, "type") else Some(JStr("any"))
    ensures forall name :: name != "type" ==> Member(r, name) == Member(s, name)
  {
    if Has(s.entries, KStr("type")) then s
    else JArr(Put(s.entries, KStr("type"), JStr("any")))
  }

  /** The type the walk switches on. */
  function WalkType(s: Json): Json
  {
    match Member(s, "type")
    case Some(t) => t
    case None => JStr("any")
  }

  /** The walk's type is the `type` of its local copy. */
  lemma WalkTypeOfLocalCopy(s: Json)
    requires s.JArr?
    ensures Member(WithDefaultType(s), "type") == Some(WalkType(s))
  {
  }

  /**
   * The array whose values the walk descends into: `properties` when the type is
   * 'object', `items` when it is 'array' (loosely compared, as `switch` does); none
   * when that member is missing or not an array, since `foreach` then only warns.
   */
  function ChildArray(s: Json): (r: Option<Json>)
    requires s.JArr?
    ensures r.Some? ==> r.value.JArr? && Size(r.value) < Size(s)
    ensures LooseEqualsWord(WalkType(s), "object") ==>
              r == (if Member(s, "properties").Some? && Member(s, "properties").value.JArr? then Member(s, "properties") else None)
    ensures !LooseEqualsWord(WalkType(s), "object") && LooseEqualsWord(WalkType(s), "array") ==>
              r == (if Member(s, "items").Some? && Member(s, "items").value.JArr? then Member(s, "items") else None)
    ensures !LooseEqualsWord(WalkType(s), "object") && !LooseEqualsWord(WalkType(s), "array") ==> r.None?
  {
    var t := WalkType(s);
    var m := if LooseEqualsWord(t, "object") then Member(s, "properties")
             else if LooseEqualsWord(t, "array") then Member(s, "items")
             else None;
    if m.Some? && m.value.JArr? then m else None
  }

  /** The `id` under which the walk registers a fragment; only string ids can ever be looked up. */
  function IdOf(s: Json): Option<string> {
    match Member(s, "id")
    case Some(JStr(x)) => Some(x)
    case _ => None
  }

  /**
   * A schema the walk can run on: every fragment it visits is an array (PHP raises a
   * TypeError otherwise) whose `id`, if any, is not an array (not a legal array key).
   */
  predicate Indexable(s: Json)
    decreases Size(s), 1, 0
  {
    && s.JArr?
    && !(Member(s, "id").Some? && Member(s, "id").value.JArr?)
    && (ChildArray(s).None? || IndexableFrom(ChildArray(s).value, 0))
  }

  predicate IndexableFrom(c: Json, i: nat)
    requires c.JArr? && i <= |c.entries|
    decreases Size(c), 0, |c.entries| - i
  {
    i == |c.entries| || (Indexable(c.entries[i].1) && IndexableFrom(c, i + 1))
  }

  /** What `indexSubtree` leaves in the table: children first, then the fragment itself. */
  function Collect(s: Json, t: IdTable): (r: IdTable)
    requires Indexable(s)
    ensures t.Keys <= r.Keys
    ensures IdOf(s).Some? ==> IdOf(s).value in r
    decreases Size(s), 1, 1
  {
    Register(s, CollectChildren(s, t))
  }

  /** The table after the walk has visited the fragment's children. */
  function CollectChildren(s: Json, t: IdTable): (r: IdTable)
    requires Indexable(s)
    ensures t.Keys <= r.Keys
    decreases Size(s), 1, 0
  {
    match ChildArray(s) case None => t case Some(c) => CollectFrom(c, 0, t)
  }

  /** Stores the walk's copy of the fragment under its string `id`, if it has one. */
  function Register(s: Json, t: IdTable): (r: IdTable)
    requires s.JArr?
    ensures r.Keys == t.Keys + (match IdOf(s) case Some(x) => {x} case None => {})
    ensures forall x :: x in t && IdOf(s) != Some(x) ==> r[x] == t[x]
    ensures IdOf(s).Some? ==> r[IdOf(s).value] == WithDefaultType(s)
  {
    match IdOf(s)
    case Some(x) => t[x := WithDefaultType(s)]
    case None => t
  }

  /** The table after the walk has visited the values of `c` from position `i` on. */
  function CollectFrom(c: Json, i: nat, t: IdTable): (r: IdTable)
    requires c.JArr? && i <= |c.entries| && IndexableFrom(c, i)
    ensures t.Keys <= r.Keys
    decreases Size(c), 0, |c.entries| - i
  {
    if i == |c.entries| then t else CollectFrom(c, i + 1, Collect(c.entries[i].1, t))
  }

  /** The ids of the fragments the walk visits. */
  function IdsIn(s: Json): set<string>
    requires Indexable(s)
    decreases Size(s), 1, 0
  {
    (match ChildArray(s) case None => {} case Some(c) => IdsFrom(c, 0))
    + (match IdOf(s) case Some(x) => {x} case None => {})
  }

  function IdsFrom(c: Json, i: nat): set<string>
    requires c.JArr? && i <= |c.entries| && IndexableFrom(c, i)
    decreases Size(c), 0, |c.entries| - i
  {
    if i == |c.entries| then {} else IdsIn(c.entries[i].1) + IdsFrom(c, i + 1)
  }

  /** The fragments the walk visits, in the order it registers them: the children's first, then the fragment itself. */
  function PostOrder(s: Json): seq<Json>
    requires Indexable(s)
    decreases Size(s), 1, 0
  {
    (match ChildArray(s) case None => [] case Some(c) => PostOrderFrom(c, 0)) + [s]
  }

  function PostOrderFrom(c: Json, i: nat): seq<Json>
    requires c.JArr? && i <= |c.entries| && IndexableFrom(c, i)
    decreases Size(c), 0, |c.entries| - i
  {
    if i == |c.entries| then [] else PostOrder(c.entries[i].1) + PostOrderFrom(c, i + 1)
  }

  /** `f` is a fragment the walk visits when started at `s`. */
  predicate Reaches(s: Json, f: Json)
    requires Indexable(s)
    decreases Size(s), 1, 0
  {
    f == s || (ChildArray(s).Some? && ReachesFrom(ChildArray(s).value, 0, f))
  }

  predicate ReachesFrom(c: Json, i: nat, f: Json)
    requires c.JArr? && i <= |c.entries| && IndexableFrom(c, i)
    decreases Size(c), 0, |c.entries| - i
  {
    i < |c.entries| && (Reaches(c.entries[i].1, f) || ReachesFrom(c, i + 1, f))
  }

  /** The walk adds exactly the ids of the fragments it visits. */
  lemma {:induction false} CollectDomain(s: Json, t: IdTable)
    requires Indexable(s)
    ensures Collect(s, t).Keys == t.Keys + IdsIn(s)
    decreases Size(s), 1, 0
  {
    if ChildArray(s).Some? {
      CollectFromDomain(ChildArray(s).value, 0, t);
    }
  }

  lemma {:induction false} CollectFromDomain(c: Json, i: nat, t: IdTable)
    requires c.JArr? && i <= |c.entries| && IndexableFrom(c, i)
    ensures CollectFrom(c, i, t).Keys == t.Keys + IdsFrom(c, i)
    decreases Size(c), 0, |c.entries| - i
  {
    if i < |c.entries| {
      CollectDomain(c.entries[i].1, t);
      CollectFromDomain(c, i + 1, Collect(c.entries[i].1, t));
    }
  }

  /** The walk leaves alone every entry whose id it does not meet. */
  lemma {:induction false} CollectKeepsOthers(s: Json, t: IdTable)
    requires Indexable(s)
    ensures forall x :: x in t && x !in IdsIn(s) ==> x in Collect(s, t) && Collect(s, t)[x] == t[x]
    decreases Size(s), 1, 0
  {
    if ChildArray(s).Some? {
      CollectFromKeepsOthers(ChildArray(s).value, 0, t);
    }
  }

  lemma {:induction false} CollectFromKeepsOthers(c: Json, i: nat, t: IdTable)
    requires c.JArr? && i <= |c.entries| && IndexableFrom(c, i)
    ensures forall x :: x in t && x !in IdsFrom(c, i) ==> x in CollectFrom(c, i, t) && CollectFrom(c, i, t)[x] == t[x]
    decreases Size(c), 0, |c.entries| - i
  {
    if i < |c.entries| {
      CollectKeepsOthers(c.entries[i].1, t);
      CollectFromKeepsOthers(c, i + 1, Collect(c.entries[i].1, t));
    }
  }

  /** Every fragment the walk visits that has a string `id` ends up in the table under that id. */
  lemma {:induction false} ReachableIdIndexed(s: Json, f: Json, t: IdTable)
    requires Indexable(s) && Reaches(s, f) && IdOf(f).Some?
    ensures IdOf(f).value in Collect(s, t)
    decreases Size(s), 1, 0
  {
    CollectDomain(s, t);
    ReachableIdIn(s, f);
  }

  lemma {:induction false} ReachableIdIn(s: Json, f: Json)
    requires Indexable(s) && Reaches(s, f) && IdOf(f).Some?
    ensures IdOf(f).value in IdsIn(s)
    decreases Size(s), 1, 0
  {
    if f != s {
      ReachableIdInFrom(ChildArray(s).value, 0, f);
    }
  }

  lemma {:induction false} ReachableIdInFrom(c: Json, i: nat, f: Json)
    requires c.JArr? && i <= |c.entries| && IndexableFrom(c, i) && ReachesFrom(c, i, f) && IdOf(f).Some?
    ensures IdOf(f).value in IdsFrom(c, i)
    decreases Size(c), 0, |c.entries| - i
  {
    if Reaches(c.entries[i].1, f) {
      ReachableIdIn(c.entries[i].1, f);
    } else {
      ReachableIdInFrom(c, i + 1, f);
    }
  }

  /**
   * Every entry the walk writes is a visited fragment, in the walk's default-typed
   * form, stored under its own id.
   */
  lemma IndexedIsReachable(s: Json, t: IdTable, x: string) returns (f: Json)
    requires Indexable(s) && x in Collect(s, t) && x !in t
    ensures Indexable(f) && Reaches(s, f) && IdOf(f) == Some(x) && Collect(s, t)[x] == WithDefaultType(f)
  {
    CollectDomain(s, t);
    var m;
    f, m := LastWriter(s, t, x);
  }

  /** Every id carried by a fragment of the post-order is one the walk meets. */
  lemma {:induction false} PostOrderIds(s: Json)
    requires Indexable(s)
    ensures forall k :: 0 <= k < |PostOrder(s)| && IdOf(PostOrder(s)[k]).Some? ==> IdOf(PostOrder(s)[k]).value in IdsIn(s)
    decreases Size(s), 1, 0
  {
    if ChildArray(s).Some? {
      PostOrderFromIds(ChildArray(s).value, 0);
    }
  }

  lemma {:induction false} PostOrderFromIds(c: Json, i: nat)
    requires c.JArr? && i <= |c.entries| && IndexableFrom(c, i)
    ensures forall k :: 0 <= k < |PostOrderFrom(c, i)| && IdOf(PostOrderFrom(c, i)[k]).Some? ==> IdOf(PostOrderFrom(c, i)[k]).value in IdsFrom(c, i)
    decreases Size(c), 0, |c.entries| - i
  {
    if i < |c.entries| {
      PostOrderIds(c.entries[i].1);
      PostOrderFromIds(c, i + 1);
    }
  }

  /** Position `m` holds the last fragment of `fs` that carries id `x`. */
  predicate LastWith(fs: seq<Json>, m: nat, x: string) {
    m < |fs| && IdOf(fs[m]) == Some(x) && forall k :: m < k < |fs| ==> IdOf(fs[k]) != Some(x)
  }

  lemma LastWithRight(a: seq<Json>, b: seq<Json>, m: nat, x: string)
    requires LastWith(b, m, x)
    ensures LastWith(a + b, |a| + m, x)
  {
    assert forall k :: |a| <= k < |a + b| ==> (a + b)[k] == b[k - |a|];
  }

  lemma LastWithLeft(a: seq<Json>, b: seq<Json>, m: nat, x: string)
    requires LastWith(a, m, x) && forall k :: 0 <= k < |b| ==> IdOf(b[k]) != Some(x)
    ensures LastWith(a + b, m, x)
  {
    assert forall k :: |a| <= k < |a + b| ==> (a + b)[k] == b[k - |a|];
  }

  /**
   * `f` is reached from `s`, carries `x`, and is the last fragment of the post-order
   * (at position `m`) to do so; the walk leaves its copy under `x`.
   */
  predicate WritesLast(s: Json, t: IdTable, x: string, f: Json, m: nat)
    requires Indexable(s)
  {
    && Indexable(f) && Reaches(s, f) && IdOf(f) == Some(x)
    && x in Collect(s, t) && Collect(s, t)[x] == WithDefaultType(f)
    && LastWith(PostOrder(s), m, x) && PostOrder(s)[m] == f
  }

  /**
   * The fragment whose entry survives for `x`: the one at position `m` of the
   * post-order, after which no fragment carries `x`.
   */
  lemma {:induction false} LastWriter(s: Json, t: IdTable, x: string) returns (f: Json, m: nat)
    requires Indexable(s) && x in IdsIn(s)
    ensures WritesLast(s, t, x, f, m)
    decreases Size(s), 1, 1
  {
    if IdOf(s) == Some(x) {
      f, m := s, |PostOrder(s)| - 1;
      LastInOwnPostOrder(s, t);
    } else {
      f, m := LastWriterBelow(s, t, x);
    }
  }

  /** A fragment with an id comes last in its own post-order and writes the entry for that id. */
  lemma LastInOwnPostOrder(s: Json, t: IdTable)
    requires Indexable(s) && IdOf(s).Some?
    ensures IdOf(s).value in Collect(s, t) && Collect(s, t)[IdOf(s).value] == WithDefaultType(s)
    ensures LastWith(PostOrder(s), |PostOrder(s)| - 1, IdOf(s).value) && PostOrder(s)[|PostOrder(s)| - 1] == s
  {
  }

  /** When the fragment itself does not carry `x`, the entry for `x` comes from below it. */
  lemma {:induction false} LastWriterBelow(s: Json, t: IdTable, x: string) returns (f: Json, m: nat)
    requires Indexable(s) && x in IdsIn(s) && IdOf(s) != Some(x)
    ensures WritesLast(s, t, x, f, m)
    decreases Size(s), 1, 0
  {
    var c := ChildArray(s).value;
    WalkBelow(s, t, c);
    f, m := LastWriterFrom(c, 0, t, x);
    LastWithLeft(PostOrderFrom(c, 0), [s], m, x);
  }

  /** One step of the walk below a fragment with children: its ids, table, order and reach come from them. */
  lemma WalkBelow(s: Json, t: IdTable, c: Json)
    requires Indexable(s) && ChildArray(s) == Some(c)
    ensures c.JArr? && IndexableFrom(c, 0)
    ensures IdsIn(s) == IdsFrom(c, 0) + (match IdOf(s) case Some(x) => {x} case None => {})
    ensures Collect(s, t) == Register(s, CollectFrom(c, 0, t))
    ensures PostOrder(s) == PostOrderFrom(c, 0) + [s]
    ensures forall f :: ReachesFrom(c, 0, f) ==> Reaches(s, f)
  {
  }

  lemma {:induction false} LastWriterFrom(c: Json, i: nat, t: IdTable, x: string) returns (f: Json, m: nat)
    requires c.JArr? && i <= |c.entries| && IndexableFrom(c, i) && x in IdsFrom(c, i)
    ensures Indexable(f) && ReachesFrom(c, i, f) && IdOf(f) == Some(x)
    ensures x in CollectFrom(c, i, t) && CollectFrom(c, i, t)[x] == WithDefaultType(f)
    ensures LastWith(PostOrderFrom(c, i), m, x) && PostOrderFrom(c, i)[m] == f
    decreases Size(c), 0, |c.entries| - i
  {
    var child := c.entries[i].1;
    var t1 := Collect(child, t);
    if x in IdsFrom(c, i + 1) {
      var mr;
      f, mr := LastWriterFrom(c, i + 1, t1, x);
      LastWithRight(PostOrder(child), PostOrderFrom(c, i + 1), mr, x);
      m := |PostOrder(child)| + mr;
    } else {
      f, m := LastWriter(child, t, x);
      CollectFromKeepsOthers(c, i + 1, t1);
      PostOrderFromIds(c, i + 1);
      LastWithLeft(PostOrder(child), PostOrderFrom(c, i + 1), m, x);
    }
  }

  /** Every value the walk stores is an array, provided the table started out that way. */
  lemma {:induction false} CollectStoresArrays(s: Json, t: IdTable)
    requires Indexable(s) && forall x :: x in t ==> t[x].JArr?
    ensures forall x :: x in Collect(s, t) ==> Collect(s, t)[x].JArr?
    decreases Size(s), 1, 0
  {
    match ChildArray(s)
    case None =>
    case Some(c) =>
      CollectFromStoresArrays(c, 0, t);
      assert CollectChildren(s, t) == CollectFrom(c, 0, t);
  }

  lemma {:induction false} CollectFromStoresArrays(c: Json, i: nat, t: IdTable)
    requires c.JArr? && i <= |c.entries| && IndexableFrom(c, i) && forall x :: x in t ==> t[x].JArr?
    ensures forall x :: x in CollectFrom(c, i, t) ==> CollectFrom(c, i, t)[x].JArr?
    decreases Size(c), 0, |c.entries| - i
  {
    if i < |c.entries| {
      CollectStoresArrays(c.entries[i].1, t);
      CollectFromStoresArrays(c, i + 1, Collect(c.entries[i].1, t));
    }
  }

  /** Registration is post-order: a fragment's own entry overwrites any descendant's with the same id. */
  lemma OwnIdWins(s: Json, t: IdTable)
    requires Indexable(s) && IdOf(s).Some?
    ensures Collect(s, t)[IdOf(s).value] == WithDefaultType(s)
  {
  }

  /**
   * A fragment without a `type` counts as 'any': the walk registers it but looks at
   * none of its `properties` or `items`.
   */
  lemma UntypedNotDescended(s: Json, t: IdTable)
    requires Indexable(s) && !Has(s.entries, KStr("type"))
    ensures Collect(s, t) == Register(s, t)
  {
  }

  /** Builds the index of a whole schema on construction and resolves id references. */
  class JsonSchemaIndex {
    var root: Option<Json>
    var idtable: IdTable

    /** Indexes the whole schema; an absent schema gives an empty index. */
    constructor (schema: Option<Json>)
      requires schema.Some? ==> Indexable(schema.value)
      ensures root == schema
      ensures idtable == if schema.Some? then Collect(schema.value, map[]) else map[]
    {
      root := schema;
      idtable := map[];
      new;
      if schema.Some? {
        IndexSubtree(schema.value);
      }
    }

    /** `indexSubtree`: registers every id in the fragment, children before the fragment itself. */
    method IndexSubtree(schemanode: Json)
      requires Indexable(schemanode)
      modifies this`idtable
      ensures idtable == Collect(schemanode, old(idtable))
      decreases Size(schemanode), 1
    {
      var local := WithDefaultType(schemanode);
      IndexChildren(schemanode, local);
      ghost var t1 := idtable;
      var id := Member(local, "id");
      assert id == Member(schemanode, "id");
      if id.Some? && id.value.JStr? {
        assert IdOf(schemanode) == Some(id.value.s);
        idtable := idtable[id.value.s := local];
      } else {
        assert IdOf(schemanode) == None;
      }
    }

    /** The loop of `indexSubtree` over the fragment's `properties` or `items`, by the local copy's type. */
    method IndexChildren(schemanode: Json, local: Json)
      requires Indexable(schemanode) && local == WithDefaultType(schemanode)
      modifies this`idtable
      ensures idtable == CollectChildren(schemanode, old(idtable))
      decreases Size(schemanode), 0
    {
      WalkTypeOfLocalCopy(schemanode);
      var nodetype := Member(local, "type").value;
      var children := None;
      if LooseEqualsWord(nodetype, "object") {
        children := Member(local, "properties");
      } else if LooseEqualsWord(nodetype, "array") {
        children := Member(local, "items");
      }
      if children.Some? && children.value.JArr? {
        var c := children.value;
        assert ChildArray(schemanode) == Some(c);
        ghost var t0 := idtable;
        for i := 0 to |c.entries|
          invariant IndexableFrom(c, i)
          invariant CollectFrom(c, 0, t0) == CollectFrom(c, i, idtable)
        {
          IndexSubtree(c.entries[i].1);
        }
      } else {
        assert ChildArray(schemanode) == None;
      }
    }

    /** `newRef` on this index. */
    function NewRef(node: Json, parent: Option<TreeRef>, nodeindex: Option<Key>, nodename: Key): (r: Result<TreeRef, Error>)
      reads this
      ensures r == ResolveRef(idtable, node, parent, nodeindex, nodename)
    {
      ResolveRef(idtable, node, parent, nodeindex, nodename)
    }
  }

  /** `strspn(s, '#')`: the length of the run of '#' at the start of `s`. */
  function LeadingHashes(s: string): (n: nat)
    ensures n <= |s|
    ensures forall k :: 0 <= k < n ==> s[k] == '#'
    ensures n < |s| ==> s[n] != '#'
  {
    if |s| > 0 && s[0] == '#' then 1 + LeadingHashes(s[1..]) else 0
  }

  /** A `$ref` value that may be looked up: a string with exactly one leading '#'. */
  predicate WellFormedRef(v: Json) {
    v.JStr? && LeadingHashes(v.s) == 1
  }

  lemma WellFormedRefShape(v: Json)
    ensures WellFormedRef(v) <==> v.JStr? && |v.s| >= 1 && v.s[0] == '#' && (|v.s| == 1 || v.s[1] != '#')
  {
    if v.JStr? && |v.s| >= 1 && v.s[0] == '#' {
      var n := LeadingHashes(v.s);
      assert n >= 1;
    }
  }

  /**
   * Wraps a schema fragment as a schema ref.  A fragment with a `$ref` member is
   * replaced by the indexed fragment it names (one hop: that fragment's own `$ref`
   * is not followed, and the referring fragment's other members are dropped).
   */
  function ResolveRef(ids: IdTable, node: Json, parent: Option<TreeRef>, nodeindex: Option<Key>, nodename: Key): (r: Result<TreeRef, Error>)
    ensures r.Ok? ==> r.value.parent == parent && r.value.nodeindex == nodeindex && r.value.nodename == nodename
    ensures r == Err(TypeError) <==> !node.JArr? || (Member(node, "$ref").Some? && Member(node, "$ref").value.JArr?)
    ensures node.JArr? && !Has(node.entries, KStr("$ref")) ==> r.Ok? && r.value.node == node
    ensures node.JArr? && Has(node.entries, KStr("$ref")) && !Member(node, "$ref").value.JArr? ==>
              var ref := Member(node, "$ref").value;
              if WellFormedRef(ref) && ref.s in ids then r.Ok? && r.value.node == ids[ref.s]
              else r == Err(BadIdRef(ref))
  {
    if !node.JArr? then Err(TypeError)
    else match Member(node, "$ref")
      case None => Ok(TreeRef(node, parent, nodeindex, nodename))
      case Some(ref) =>
        if ref.JArr? then Err(TypeError)
        else if WellFormedRef(ref) && ref.s in ids then Ok(TreeRef(ids[ref.s], parent, nodeindex, nodename))
        else Err(BadIdRef(ref))
  }

  /**
   * `newRef` as written: the lookup of a well-formed `$ref` that names no indexed
   * fragment is guarded by a `catch`, but reading a missing array key only warns
   * and yields null, so the fragment becomes null instead of a badidref error.
   */
  function ResolveRefAsWritten(ids: IdTable, node: Json, parent: Option<TreeRef>, nodeindex: Option<Key>, nodename: Key): (r: Result<TreeRef, Error>)
    ensures r.Ok? ==> r.value.parent == parent && r.value.nodeindex == nodeindex && r.value.nodename == nodename
    ensures r != ResolveRef(ids, node, parent, nodeindex, nodename) ==> r.Ok? && r.value.node == JNull
  {
    if !node.JArr? then Err(TypeError)
    else match Member(node, "$ref")
      case None => Ok(TreeRef(node, parent, nodeindex, nodename))
      case Some(ref) =>
        if ref.JArr? then Err(TypeError)
        else if !WellFormedRef(ref) then Err(BadIdRef(ref))
        else if ref.s in ids then Ok(TreeRef(ids[ref.s], parent, nodeindex, nodename))
        else Ok(TreeRef(JNull, parent, nodeindex, nodename))
  }

  /** An unresolvable reference: the corrected lookup reports it, the code as written hands on a null fragment. */
  lemma DanglingRefAsWritten(ids: IdTable, name: string)
    requires |name| > 0 && name[0] != '#' && "#" + name !in ids
    ensures var node := JArr([(KStr("$ref"), JStr("#" + name))]);
            && ResolveRefAsWritten(ids, node, None, None, KStr("root")) == Ok(TreeRef(JNull, None, None, KStr("root")))
            && ResolveRef(ids, node, None, None, KStr("root")) == Err(BadIdRef(JStr("#" + name)))
  {
    var node := JArr([(KStr("$ref"), JStr("#" + name))]);
    assert Member(node, "$ref") == Some(JStr("#" + name));
    WellFormedRefShape(JStr("#" + name));
  }

  /** Against an index built by the walk, every resolved schema ref holds an array fragment. */
  lemma ResolvedNodesAreArrays(root: Json, node: Json, parent: Option<TreeRef>, nodeindex: Option<Key>, nodename: Key)
    requires Indexable(root)
    ensures var r := ResolveRef(Collect(root, map[]), node, parent, nodeindex, nodename);
            r.Ok? ==> r.value.node.JArr?
  {
    CollectStoresArrays(root, map[]);
  }

  /**
   * A fragment whose `$ref` names an indexed fragment without a `$ref` of its own
   * behaves exactly like that fragment, whatever other members it has: they are
   * dropped.
   */
  lemma AliasTransparent(ids: IdTable, node: Json, x: string, parent: Option<TreeRef>, nodeindex: Option<Key>, nodename: Key)
    requires node.JArr? && Member(node, "$ref") == Some(JStr(x))
    requires x in ids && ids[x].JArr? && !Has(ids[x].entries, KStr("$ref"))
    requires LeadingHashes(x) == 1
    ensures ResolveRef(ids, node, parent, nodeindex, nodename) == Ok(TreeRef(ids[x], parent, nodeindex, nodename))
    ensures ResolveRef(ids, node, parent, nodeindex, nodename) == ResolveRef(ids, ids[x], parent, nodeindex, nodename)
  {
  }
}
