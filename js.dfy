/** JavaScript values as far as the runtime observes them, and the two
    coercions it relies on: truthiness and conversion to a property name. */
module Js {

  datatype Option<T> = None | Some(value: T)

  /** A JavaScript value. Objects and functions are opaque tokens compared by
      identity; numbers are integers (floating point is not modelled). */
  datatype Value =
    | Undefined
    | Null
    | Bool(b: bool)
    | Num(n: int)
    | Str(s: string)
    | Obj(id: nat)
    | Fn(id: nat)

  /** `!!v` */
  predicate Truthy(v: Value)
  {
    match v
    case Undefined => false
    case Null => false
    case Bool(b) => b
    case Num(n) => n != 0
    case Str(s) => s != ""
    case Obj(_) => true
    case Fn(_) => true
  }

  /** `v == null`, the test behind `??` and `key != null` */
  predicate Nullish(v: Value)
  {
    v.Undefined? || v.Null?
  }

  predicate IsDigit(c: char)
  {
    '0' <= c <= '9'
  }

  function DigitChar(d: nat): (c: char)
    requires d < 10
    ensures IsDigit(c) && c as int - '0' as int == d
  {
    ('0' as int + d) as char
  }

  /** Decimal digits of n, most significant first, without leading zeros. */
  function NatToString(n: nat): (s: string)
    ensures |s| >= 1 && (forall i :: 0 <= i < |s| ==> IsDigit(s[i]))
    ensures |s| > 1 ==> s[0] != '0'
    decreases n
  {
    if n < 10 then [DigitChar(n)] else NatToString(n / 10) + [DigitChar(n % 10)]
  }

  /** `String(n)` for an integer n. */
  function IntToString(n: int): string
  {
    if n < 0 then "-" + NatToString(-n) else NatToString(n)
  }

  /** The number a string of decimal digits denotes. */
  function DecimalValue(s: string): nat
    requires forall i :: 0 <= i < |s| ==> IsDigit(s[i])
  {
    if s == [] then 0
    else
      assert IsDigit(s[|s| - 1]);
      DecimalValue(s[..|s| - 1]) * 10 + (s[|s| - 1] as int - '0' as int)
  }

  lemma {:induction false} DecimalValueOfNatToString(n: nat)
    ensures DecimalValue(NatToString(n)) == n
    decreases n
  {
    if n >= 10 {
      var s := NatToString(n);
      assert s[..|s| - 1] == NatToString(n / 10);
      DecimalValueOfNatToString(n / 10);
    }
  }

  /** An "array index" property name: the canonical decimal form of an integer
      below 2^32 - 1. Object.keys lists such names first, in ascending numeric
      order, and every other name afterwards in insertion order. */
  predicate IsArrayIndex(s: string)
  {
    |s| >= 1
    && (forall i :: 0 <= i < |s| ==> IsDigit(s[i]))
    && (|s| == 1 || s[0] != '0')
    && DecimalValue(s) < 0xFFFF_FFFF
  }

  /** A digit string without a leading zero denotes a positive number. */
  lemma {:induction false} DecimalValuePositive(s: string)
    requires |s| >= 1 && (forall i :: 0 <= i < |s| ==> IsDigit(s[i])) && s[0] != '0'
    ensures DecimalValue(s) >= 1
    decreases |s|
  {
    if |s| > 1 {
      var p := s[..|s| - 1];
      assert p[0] == s[0];
      DecimalValuePositive(p);
    }
  }

  /** A digit string without leading zeros is the decimal form of its value. */
  lemma {:induction false} NatToStringOfDecimalValue(s: string)
    requires |s| >= 1 && (forall i :: 0 <= i < |s| ==> IsDigit(s[i])) && (|s| == 1 || s[0] != '0')
    ensures NatToString(DecimalValue(s)) == s
    decreases |s|
  {
    var d := s[|s| - 1] as int - '0' as int;
    if |s| == 1 {
      assert DecimalValue(s) == d;
      assert DigitChar(d) == s[0];
    } else {
      var p := s[..|s| - 1];
      assert p[0] == s[0];
      DecimalValuePositive(p);
      NatToStringOfDecimalValue(p);
      var n := DecimalValue(s);
      assert n == DecimalValue(p) * 10 + d && n >= 10;
      assert n / 10 == DecimalValue(p) && n % 10 == d;
      assert DigitChar(d) == s[|s| - 1];
      assert s == p + [s[|s| - 1]];
    }
  }

  /** Two array-index names with the same value are the same name. */
  lemma ArrayIndexInjective(x: string, y: string)
    requires IsArrayIndex(x) && IsArrayIndex(y) && DecimalValue(x) == DecimalValue(y)
    ensures x == y
  {
    NatToStringOfDecimalValue(x);
    NatToStringOfDecimalValue(y);
  }

  /** The numbers 0 .. 2^32 - 2 become array-index names when used as keys. */
  lemma NumberKeysAreArrayIndices(n: nat)
    requires n < 0xFFFF_FFFF
    ensures IsArrayIndex(IntToString(n)) && DecimalValue(IntToString(n)) == n
  {
    DecimalValueOfNatToString(n);
  }

  /** `String(v)`: the property name a value becomes when it is used as a key
      of a plain object. */
  function PropertyName(v: Value): string
  {
    match v
    case Undefined => "undefined"
    case Null => "null"
    case Bool(b) => if b then "true" else "false"
    case Num(n) => IntToString(n)
    case Str(s) => s
    case Obj(_) => "[object Object]"
    case Fn(id) => "function#" + NatToString(id)
  }
}
