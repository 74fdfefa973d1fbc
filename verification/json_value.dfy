/**
 * Decoded JSON values in the shape PHP holds them after `json_decode($text, true)`:
 * a JSON list and a JSON object are both a PHP array, an ordered sequence of
 * key => value entries whose keys are integers or strings.  Schemas are values
 * of the same kind.
 */
module JsonValue {
  import opened Wrappers

  /** A PHP array key. */
  datatype Key = KInt(i: int) | KStr(s: string)

  datatype Json =
    | JNull
    | JBool(b: bool)
    | JInt(i: int)        // a PHP int
    | JFloat(r: real)     // a PHP double, as the exact number it denotes
    | JStr(s: string)
    | JArr(entries: seq<(Key, Json)>)

  type Entry = (Key, Json)

  /** A measure under which every entry value of an array is smaller than the array. */
  function Size(j: Json): (n: nat)
    ensures n >= 1
    ensures j.JArr? ==> forall k :: 0 <= k < |j.entries| ==> Size(j.entries[k].1) < n
  {
    match j
    case JArr(_) => 1 + SizeFrom(j, 0)
    case _ => 1
  }

  /** The sizes of the entry values of `j` from position `i` on, added up. */
  function SizeFrom(j: Json, i: nat): (n: nat)
    requires j.JArr? && i <= |j.entries|
    ensures forall k :: i <= k < |j.entries| ==> Size(j.entries[k].1) <= n
    decreases j, |j.entries| - i
  {
    if i == |j.entries| then 0 else Size(j.entries[i].1) + SizeFrom(j, i + 1)
  }

  /** The position of the first entry with key `k`, or `|es|` when there is none. */
  function Find(es: seq<Entry>, k: Key): (n: nat)
    ensures n <= |es|
    ensures n < |es| ==> es[n].0 == k
    ensures forall m :: 0 <= m < n ==> es[m].0 != k
  {
    if es == [] then 0
    else if es[0].0 == k then 0
    else 1 + Find(es[1..], k)
  }

  /** `array_key_exists($k, $a)`. */
  predicate Has(es: seq<Entry>, k: Key) {
    Find(es, k) < |es|
  }

  /** `$a[$k]` for a key that may be absent. */
  function Get(es: seq<Entry>, k: Key): (r: Option<Json>)
    ensures r.Some? <==> Has(es, k)
    ensures r.Some? ==> es[Find(es, k)] == (k, r.value)
  {
    var n := Find(es, k);
    if n < |es| then Some(es[n].1) else None
  }

  /** The member `name` of an object-like value; nothing for a value that is not an array. */
  function Member(j: Json, name: string): (r: Option<Json>)
    ensures r.Some? ==> j.JArr? && Has(j.entries, KStr(name))
    ensures r.Some? ==> Size(r.value) < Size(j)
  {
    if j.JArr? then Get(j.entries, KStr(name)) else None
  }

  /** No two entries share a key, as in every PHP array. */
  ghost predicate DistinctKeys(es: seq<Entry>) {
    forall m, n :: 0 <= m < n < |es| ==> es[m].0 != es[n].0
  }

  /** `$a[$k] = $v`: an existing key keeps its position and takes the new value; a new key is appended. */
  function Put(es: seq<Entry>, k: Key, v: Json): (r: seq<Entry>)
    ensures Get(r, k) == Some(v)
    ensures forall k' :: k' != k ==> Get(r, k') == Get(es, k')
    ensures Has(es, k) ==> |r| == |es| && r[Find(es, k)] == (k, v)
    ensures !Has(es, k) ==> r == es + [(k, v)]
  {
    var n := Find(es, k);
    if n == |es| then
      var r := es + [(k, v)];
      FindAppend(es, (k, v), k);
      forall k' | k' != k ensures Get(r, k') == Get(es, k') { FindAppend(es, (k, v), k'); }
      r
    else
      var r := es[n := (k, v)];
      forall k' ensures Find(r, k') == Find(es, k') { FindSameKeys(r, es, k'); }
      r
  }

  /** `unset($a[$k])`: every entry with key `k` is dropped, the others keep their order. */
  function Remove(es: seq<Entry>, k: Key): (r: seq<Entry>)
    ensures !Has(r, k)
    ensures forall k' :: k' != k ==> Get(r, k') == Get(es, k')
    ensures forall e :: e in r ==> e in es
    ensures !Has(es, k) ==> r == es
  {
    if es == [] then []
    else if es[0].0 == k then Remove(es[1..], k)
    else
      var rest := Remove(es[1..], k);
      var r := [es[0]] + rest;
      assert r[1..] == rest;
      forall k' | k' != k ensures Get(r, k') == Get(es, k') {
        if es[0].0 != k' {
          var a, b := Find(rest, k'), Find(es[1..], k');
          assert Find(r, k') == 1 + a;
          assert Find(es, k') == 1 + b;
          assert Get(rest, k') == Get(es[1..], k');
          if a < |rest| { assert r[1 + a] == rest[a]; }
          if b < |es[1..]| { assert es[1 + b] == es[1..][b]; }
        }
      }
      r
  }

  /**
   * `unset` keeps the order of the entries it leaves: it acts on each entry alone,
   * dropping it exactly when it has key `k`.
   */
  lemma {:induction false} RemoveKeepsOrder(a: seq<Entry>, b: seq<Entry>, k: Key)
    ensures Remove(a + b, k) == Remove(a, k) + Remove(b, k)
    ensures |a| == 1 ==> Remove(a, k) == if a[0].0 == k then [] else a
  {
    if a == [] {
      assert a + b == b;
    } else {
      assert (a + b)[1..] == a[1..] + b;
      RemoveKeepsOrder(a[1..], b, k);
      if |a| == 1 {
        assert a[1..] == [];
      }
    }
  }

  lemma {:induction false} FindAppend(es: seq<Entry>, e: Entry, k: Key)
    ensures Find(es + [e], k) == if Find(es, k) < |es| then Find(es, k) else if e.0 == k then |es| else |es| + 1
  {
    if es != [] {
      assert (es + [e])[1..] == es[1..] + [e];
      FindAppend(es[1..], e, k);
    }
  }

  lemma {:induction false} FindSameKeys(a: seq<Entry>, b: seq<Entry>, k: Key)
    requires |a| == |b| && forall i :: 0 <= i < |a| ==> a[i].0 == b[i].0
    ensures Find(a, k) == Find(b, k)
  {
    if a != [] {
      FindSameKeys(a[1..], b[1..], k);
    }
  }

  /** Removing a key from an array whose keys are distinct leaves them distinct. */
  lemma {:induction false} RemoveKeepsDistinct(es: seq<Entry>, k: Key)
    requires DistinctKeys(es)
    ensures DistinctKeys(Remove(es, k))
  {
    if es != [] {
      RemoveKeepsDistinct(es[1..], k);
      var rest := Remove(es[1..], k);
      if es[0].0 != k {
        forall e | e in rest ensures e.0 != es[0].0 {
          var m :| 0 <= m < |es[1..]| && es[1..][m] == e;
          assert es[m + 1] == e;
        }
      }
    }
  }

  /** Writing a key into an array whose keys are distinct leaves them distinct. */
  lemma PutKeepsDistinct(es: seq<Entry>, k: Key, v: Json)
    requires DistinctKeys(es)
    ensures DistinctKeys(Put(es, k, v))
  {
  }

  /**
   * Filing a value under a new key and then unsetting the old key: the value is
   * found under the new key, the old key is gone, every other key reads as before
   * and distinct keys stay distinct.  When the two keys are equal the entry is lost.
   */
  lemma RenameEntries(es: seq<Entry>, oldk: Key, newk: Key, v: Json)
    ensures var r := Remove(Put(es, newk, v), oldk);
            && (newk != oldk ==> Get(r, newk) == Some(v))
            && !Has(r, oldk)
            && (forall k :: k != oldk && k != newk ==> Get(r, k) == Get(es, k))
            && (DistinctKeys(es) ==> DistinctKeys(r))
  {
    if DistinctKeys(es) {
      PutKeepsDistinct(es, newk, v);
      RemoveKeepsDistinct(Put(es, newk, v), oldk);
    }
  }
}
