/**
 * The parts of PHP 8's value semantics that the validator's decisions rest on:
 * conversion to bool, loose `==` against the type-name literals and against null,
 * the `(int)` cast of a double, and the conversion of an int or key to a string.
 */
module Php {
  import opened Wrappers
  import opened JsonValue

  /** A string literal the code compares against: non-empty lower-case letters, hence never numeric. */
  predicate IsWord(name: string) {
    |name| > 0 && forall i :: 0 <= i < |name| ==> 'a' <= name[i] <= 'z'
  }

  /** `(bool)$v`; `$v == false` is its negation. */
  predicate Truthy(v: Json) {
    match v
    case JNull => false
    case JBool(b) => b
    case JInt(i) => i != 0
    case JFloat(r) => r != 0.0
    case JStr(s) => s != "" && s != "0"
    case JArr(es) => es != []
  }

  /** `$v == $name` for a literal word such as 'any' or 'object'. */
  predicate LooseEqualsWord(v: Json, name: string)
    requires IsWord(name)
  {
    match v
    case JStr(s) => s == name           // a non-numeric string on one side: byte comparison
    case JBool(b) => b                  // the word converts to true
    case JNull => false                 // null converts to "", which is not the word
    case JInt(_) => false               // the number's decimal form is compared, and has no letters
    case JFloat(_) => false
    case JArr(_) => false               // an array never equals a string
  }

  /** `$v == null`. */
  predicate LooseEqualsNull(v: Json) {
    match v
    case JNull => true
    case JBool(b) => !b
    case JInt(i) => i == 0
    case JFloat(r) => r == 0.0
    case JStr(s) => s == ""             // null converts to "" against a string
    case JArr(es) => es == []
  }

  /** The bounds of PHP's 64-bit int. */
  const MinInt: int := -0x8000_0000_0000_0000
  const MaxInt: int := 0x7FFF_FFFF_FFFF_FFFF

  predicate InIntRange(i: int) {
    MinInt <= i <= MaxInt
  }

  /** Truncation toward zero. */
  function Truncate(r: real): (t: int)
    ensures 0.0 <= r ==> t as real <= r < t as real + 1.0
    ensures r < 0.0 ==> t as real - 1.0 < r <= t as real
  {
    if r >= 0.0 then r.Floor else -((-r).Floor)
  }

  /**
   * `(int)$r` for a double: truncation toward zero inside the 64-bit range; outside
   * it the Zend engine reduces the truncated value modulo 2^64 (so `(int)1e20` is
   * 7766279631452241920).
   */
  function IntCast(r: real): (i: int)
    ensures InIntRange(i)
    ensures MinInt as real <= r < (MaxInt + 1) as real ==> i == Truncate(r)
  {
    var t := Truncate(r);
    if InIntRange(t) then t else (t - MinInt) % 0x1_0000_0000_0000_0000 + MinInt
  }

  /** `$v == (int)$v` for a number; an int always equals itself. */
  predicate EqualsItsIntCast(v: Json)
    requires v.JInt? || v.JFloat?
  {
    v.JInt? || v.r == IntCast(v.r) as real
  }

  /** A double equals its int cast exactly when it is a whole number within the 64-bit range. */
  lemma IntCastExactlyWhole(r: real)
    ensures EqualsItsIntCast(JFloat(r)) <==> r == r.Floor as real && MinInt as real <= r <= MaxInt as real
  {
    if !(MinInt as real <= r < (MaxInt + 1) as real) {
      var i := IntCast(r);
      assert MinInt as real <= i as real <= MaxInt as real;
    }
  }

  /** 1e20 is a whole number, yet it does not survive `(int)`: 64 bits cannot hold it. */
  lemma WholeButTooWide()
    ensures !EqualsItsIntCast(JFloat(100000000000000000000.0))
  {
    IntCastExactlyWhole(100000000000000000000.0);
  }

  function Digit(d: nat): (c: char)
    requires d < 10
    ensures '0' <= c <= '9' && c as int == 48 + d
  {
    (48 + d) as char
  }

  /** The decimal digits of `n`, without leading zeros. */
  function NatToString(n: nat): (s: string)
    ensures |s| > 0
    ensures forall i :: 0 <= i < |s| ==> '0' <= s[i] <= '9'
    ensures s[0] == '0' ==> n == 0 && s == "0"
  {
    if n < 10 then [Digit(n)] else NatToString(n / 10) + [Digit(n % 10)]
  }

  /** `(string)$i`: an optional '-', then the decimal digits of the magnitude without leading zeros. */
  function IntToString(i: int): (s: string)
    ensures |s| > 0
    ensures s[0] == '-' <==> i < 0
    ensures forall k :: 0 < k < |s| ==> '0' <= s[k] <= '9'
    ensures i >= 0 ==> '0' <= s[0] <= '9' && DigitsValue(s) == i
    ensures i < 0 ==> |s| > 1 && DigitsValue(s[1..]) == -i
    ensures s[if i < 0 then 1 else 0] == '0' ==> s == "0"
  {
    if i < 0 then
      NatToStringRoundTrip(-i);
      assert ("-" + NatToString(-i))[1..] == NatToString(-i);
      "-" + NatToString(-i)
    else
      NatToStringRoundTrip(i);
      NatToString(i)
  }

  /** The value of a string of decimal digits. */
  function DigitsValue(s: string): nat
    requires forall i :: 0 <= i < |s| ==> '0' <= s[i] <= '9'
  {
    if s == [] then 0 else 10 * DigitsValue(s[..|s| - 1]) + (s[|s| - 1] as int - 48)
  }

  /** Reading the decimal form back gives the number: the conversion loses nothing. */
  lemma {:induction false} NatToStringRoundTrip(n: nat)
    ensures DigitsValue(NatToString(n)) == n
  {
    if n >= 10 {
      var s := NatToString(n);
      assert s[..|s| - 1] == NatToString(n / 10);
      NatToStringRoundTrip(n / 10);
    }
  }

  /** Decimal digits as PHP prints them: at least one, and no leading zero. */
  predicate IsCanonicalDigits(d: string) {
    && |d| > 0
    && (forall k :: 0 <= k < |d| ==> '0' <= d[k] <= '9')
    && (d[0] == '0' ==> |d| == 1)
  }

  /** Canonical digits other than "0" have a positive value. */
  lemma {:induction false} CanonicalDigitsPositive(d: string)
    requires IsCanonicalDigits(d) && d[0] != '0'
    ensures DigitsValue(d) > 0
  {
    if |d| > 1 {
      CanonicalDigitsPositive(d[..|d| - 1]);
    }
  }

  /** Printing the value of canonical digits gives the digits back. */
  lemma {:induction false} CanonicalDigitsRoundTrip(d: string)
    requires IsCanonicalDigits(d)
    ensures NatToString(DigitsValue(d)) == d
  {
    if |d| > 1 {
      var p := d[..|d| - 1];
      CanonicalDigitsPositive(p);
      CanonicalDigitsRoundTrip(p);
      var n := DigitsValue(d);
      assert n / 10 == DigitsValue(p) && n % 10 == d[|d| - 1] as int - 48;
      assert d == p + [d[|d| - 1]];
    }
  }

  /**
   * The int a string key stands for when PHP stores it as an int key: a decimal
   * integer written as PHP prints it (`"5"`, `"-12"`; not `"05"`, `"-0"` or `"+1"`)
   * and within the 64-bit range.
   */
  function IntegerKey(s: string): (r: Option<int>)
    ensures r.Some? ==> InIntRange(r.value) && IntToString(r.value) == s
  {
    var neg := |s| > 0 && s[0] == '-';
    var d := if neg then s[1..] else s;
    if !IsCanonicalDigits(d) || (neg && d == "0") then None
    else
      var v: int := DigitsValue(d);
      var i := if neg then -v else v;
      if !InIntRange(i) then None
      else
        CanonicalDigitsRoundTrip(d);
        if neg then
          CanonicalDigitsPositive(d);
          assert s == "-" + d;
          Some(i)
        else Some(i)
  }

  /** Every printed int of the 64-bit range is read back as that int. */
  lemma IntegerKeyRoundTrip(i: int)
    requires InIntRange(i)
    ensures IntegerKey(IntToString(i)) == Some(i)
  {
  }

  /** The key `$a[$k]` uses: a string key that reads as an int becomes that int. */
  function ArrayKey(k: Key): (r: Key)
    ensures k.KInt? || r.KStr? ==> r == k
    ensures k.KStr? && r.KInt? ==> InIntRange(r.i) && IntToString(r.i) == k.s
    ensures k.KStr? && r.KStr? ==> IntegerKey(k.s).None?
  {
    match k
    case KInt(_) => k
    case KStr(s) =>
      match IntegerKey(s)
      case Some(i) => KInt(i)
      case None => k
  }

  /** `(string)$k` for an array key. */
  function KeyToString(k: Key): string {
    match k
    case KInt(i) => IntToString(i)
    case KStr(s) => s
  }

  /** String interpolation of a title that may be null (null becomes ""). */
  function LabelToString(l: Option<Key>): string {
    match l
    case Some(k) => KeyToString(k)
    case None => ""
  }
}
