/** Stateless helpers: the type of a decoded value, HTML-id sanitising, default values per type. */
module JsonUtil {
  import opened Wrappers
  import opened JsonValue
  import opened Php
  import opened SchemaErrors

  /** A character the id sanitiser keeps: `[A-Za-z0-9\-_:.]`. */
  predicate IsIdChar(c: char) {
    'a' <= c <= 'z' || 'A' <= c <= 'Z' || '0' <= c <= '9' || c == '-' || c == '_' || c == ':' || c == '.'
  }

  /** The characters of `s` that are id characters, in their order. */
  function FilterIdChars(s: string): (r: string)
    ensures |r| <= |s|
    ensures forall i :: 0 <= i < |r| ==> IsIdChar(r[i])
    ensures (forall i :: 0 <= i < |s| ==> IsIdChar(s[i])) ==> r == s
    ensures |s| == 1 ==> r == if IsIdChar(s[0]) then s else []
  {
    if s == [] then []
    else (if IsIdChar(s[0]) then [s[0]] else []) + FilterIdChars(s[1..])
  }

  /** `stringToId`: an int becomes its decimal form, a string loses every non-id character, anything else is refused. */
  function StringToId(v: Json): (r: Result<string, Error>)
    ensures r.Err? <==> !(v.JInt? || v.JStr?)
    ensures r.Err? ==> r.error == IdConvert(v)
    ensures r.Ok? ==> forall i :: 0 <= i < |r.value| ==> IsIdChar(r.value[i])
    ensures v.JStr? ==> r.Ok? && |r.value| <= |v.s|
  {
    match v
    case JInt(i) =>
      assert forall k :: 0 <= k < |IntToString(i)| ==> IsIdChar(IntToString(i)[k]);
      Ok(IntToString(i))
    case JStr(s) => Ok(FilterIdChars(s))
    case _ => Err(IdConvert(v))
  }

  /** An array key as the value it is. */
  function KeyValue(k: Key): Json {
    match k
    case KInt(i) => JInt(i)
    case KStr(s) => JStr(s)
  }

  /** Every array key can be made into an id. */
  lemma KeyHasId(k: Key)
    ensures StringToId(KeyValue(k)).Ok?
    ensures k.KInt? ==> StringToId(KeyValue(k)).value == IntToString(k.i)
    ensures k.KStr? ==> StringToId(KeyValue(k)).value == FilterIdChars(k.s)
  {
  }

  /** The id of an array key; keys are ints or strings, so the conversion never fails. */
  function KeyToId(k: Key): (s: string)
    ensures StringToId(KeyValue(k)) == Ok(s)
    ensures forall i :: 0 <= i < |s| ==> IsIdChar(s[i])
  {
    match StringToId(KeyValue(k))
    case Ok(s) => s
    case Err(_) => ""
  }

  /** Sanitising is lossy: keys that differ only in dropped characters get the same id. */
  lemma IdsCollide()
    ensures KeyToId(KStr("a b")) == KeyToId(KStr("ab")) == "ab"
  {
    var s1, s2 := "a b", "ab";
    assert s1[1..][1..] == s2[1..] == "b";
    assert FilterIdChars(s1[1..]) == FilterIdChars(s1[1..][1..]);
    assert FilterIdChars("b") == "b";
    assert FilterIdChars(s2) == "ab";
  }

  /** The filter distributes over concatenation, so it keeps each character or drops it on its own. */
  lemma {:induction false} FilterIdCharsAppend(a: string, b: string)
    ensures FilterIdChars(a + b) == FilterIdChars(a) + FilterIdChars(b)
  {
    if a != [] {
      assert (a + b)[0] == a[0];
      assert (a + b)[1..] == a[1..] + b;
      FilterIdCharsAppend(a[1..], b);
    } else {
      assert a + b == b;
    }
  }

  /** Sanitising an id twice changes nothing. */
  lemma StringToIdIdempotent(v: Json)
    requires StringToId(v).Ok?
    ensures StringToId(JStr(StringToId(v).value)) == StringToId(v)
  {
  }

  /** The type name of a JSON value for the schema vocabulary (`getType`), as a specification. */
  function InferType(v: Json): (t: Option<string>)
    ensures t.None? <==> v.JNull?
    ensures v.JArr? ==> (t == Some("object") <==> exists n :: 0 <= n < |v.entries| && v.entries[n].0.KStr?)
    ensures v.JArr? ==> t == Some("array") || t == Some("object")
    ensures v.JArr? && v.entries == [] ==> t == Some("array")
    ensures v.JBool? ==> t == Some("boolean")
    ensures v.JInt? || v.JFloat? ==> t == Some("number")
    ensures v.JStr? ==> t == Some("string")
  {
    match v
    case JNull => None
    case JBool(_) => Some("boolean")
    case JInt(_) => Some("number")
    case JFloat(_) => Some("number")
    case JStr(_) => Some("string")
    case JArr(es) => if forall n :: 0 <= n < |es| ==> es[n].0.KInt? then Some("array") else Some("object")
  }

  /** `getType`, with its loop over the array's keys. */
  method GetType(foo: Json) returns (t: Option<string>)
    ensures t == InferType(foo)
  {
    if foo == JNull {
      return None;
    }
    match foo {
      case JArr(es) =>
        var keys := seq(|es|, n requires 0 <= n < |es| => es[n].0);
        var retval := "array";
        for n := 0 to |keys|
          invariant retval == "object" <==> exists m :: 0 <= m < n && es[m].0.KStr?
          invariant retval == "array" || retval == "object"
        {
          if !keys[n].KInt? {
            retval := "object";
          }
        }
        t := Some(retval);
      case JInt(_) => t := Some("number");
      case JFloat(_) => t := Some("number");
      case JBool(_) => t := Some("boolean");
      case JStr(_) => t := Some("string");
    }
  }

  /** `getNewValueForType`: the empty value a new field of the given type starts with. */
  function NewValueForType(t: Json): (v: Json)
    ensures t.JStr? && t.s in {"object", "array"} ==> v == JArr([])
    ensures t.JStr? && t.s in {"number", "integer"} ==> v == JInt(0)
    ensures t.JStr? && t.s in {"number", "string", "boolean"} ==> InferType(v) == Some(t.s)
    ensures t == JStr("string") ==> v == JStr("")
    ensures t.JStr? && t.s !in {"object", "array", "number", "integer", "string", "boolean"} ==> v == JNull
    ensures !t.JStr? && !t.JBool? ==> v == JNull
    ensures t == JBool(true) ==> v == JArr([])
    ensures t == JBool(false) ==> v == JNull
    ensures !Truthy(v)
  {
    if LooseEqualsWord(t, "object") then JArr([])
    else if LooseEqualsWord(t, "array") then JArr([])
    else if LooseEqualsWord(t, "number") || LooseEqualsWord(t, "integer") then JInt(0)
    else if LooseEqualsWord(t, "string") then JStr("")
    else if LooseEqualsWord(t, "boolean") then JBool(false)
    else JNull
  }
}
