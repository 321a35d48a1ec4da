/**
 * The small part of JavaScript value semantics that the routes rely on:
 * truthiness (`a || b`), `String(v)` and the decimal rendering of integers.
 * Floating-point numbers (and hence NaN) are not part of this model: a JSON
 * number is an integer here.
 */
module Js {

  /** A JSON/JavaScript value as read from a parsed request or model response. */
  datatype Value =
    | Undefined
    | Null
    | Bool(b: bool)
    | Num(n: int)
    | Str(s: string)
    /** An array or object; `text` is what `String(v)` renders for it. */
    | Composite(text: string)

  /** JavaScript truthiness: `undefined`, `null`, `false`, `0` and `''` are falsy. */
  predicate Truthy(v: Value) {
    match v
    case Undefined => false
    case Null => false
    case Bool(b) => b
    case Num(n) => n != 0
    case Str(s) => s != ""
    case Composite(_) => true
  }

  /** `a || b`: the first operand when it is truthy, else the second. */
  function Or(a: Value, b: Value): (r: Value)
    ensures Truthy(a) ==> r == a
    ensures !Truthy(a) ==> r == b
  {
    if Truthy(a) then a else b
  }

  function DigitChar(d: nat): (c: char)
    requires d < 10
    ensures '0' <= c <= '9'
  {
    (48 + d) as char
  }

  /** Decimal rendering of a natural number, most significant digit first. */
  function NatToString(n: nat): (r: string)
    ensures |r| >= 1
    ensures forall i :: 0 <= i < |r| ==> '0' <= r[i] <= '9'
    decreases n
  {
    if n < 10 then [DigitChar(n)] else NatToString(n / 10) + [DigitChar(n % 10)]
  }

  /** Decimal rendering of an integer, as `String(n)` does for integral numbers. */
  function IntToString(n: int): string {
    if n < 0 then "-" + NatToString(-n) else NatToString(n)
  }

  /** `String(v)`. */
  function ToStr(v: Value): string {
    match v
    case Undefined => "undefined"
    case Null => "null"
    case Bool(b) => if b then "true" else "false"
    case Num(n) => IntToString(n)
    case Str(s) => s
    case Composite(t) => t
  }

  /** `String(v || fallback)` for a string fallback, the idiom of the analysis route. */
  function StrOr(v: Value, fallback: string): (r: string)
    ensures Truthy(v) ==> r == ToStr(v)
    ensures !Truthy(v) ==> r == fallback
  {
    ToStr(Or(v, Str(fallback)))
  }

  /**
   * `a === b` for values read from parsed JSON. An array or object is `===`
   * only to itself, and values parsed from different JSON texts are never
   * the same object, so a composite is strictly equal to nothing here.
   */
  predicate StrictEquals(a: Value, b: Value) {
    a == b && !a.Composite?
  }

  /** Reading a property of a JavaScript object: a missing key reads as `undefined`. */
  function Get(obj: map<string, Value>, key: string): Value {
    if key in obj then obj[key] else Undefined
  }

  /** Decimal renderings of distinct naturals differ, so ids such as `w1`, `w2` never collide. */
  lemma {:induction false} NatToStringInjective(a: nat, b: nat)
    requires NatToString(a) == NatToString(b)
    ensures a == b
    decreases a
  {
    var ra, rb := NatToString(a), NatToString(b);
    if a < 10 && b < 10 {
      assert ra[0] == rb[0];
    } else if a >= 10 && b >= 10 {
      assert ra[..|ra| - 1] == NatToString(a / 10);
      assert rb[..|rb| - 1] == NatToString(b / 10);
      assert ra[|ra| - 1] == rb[|rb| - 1];
      NatToStringInjective(a / 10, b / 10);
    }
  }
}
