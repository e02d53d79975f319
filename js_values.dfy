/**
 * The JavaScript values that flow through the REST client: query-argument
 * values (`setArg(key, value: any)`), decoded response bodies and the
 * values a promise is settled with.  Only the parts of the language the
 * client relies on are modelled: loose equality with `null`, truthiness,
 * string conversion (as done by a template literal or `encodeURI`) and
 * property lookup.
 */
module JsValues {

  /** A JavaScript value.  Numbers are integers here (see README, "Left out"). */
  datatype Value =
    | Undefined
    | Null
    | Bool(b: bool)
    | Num(n: int)
    | Str(s: string)
    | Arr(items: seq<Value>)
    | Obj(fields: map<string, Value>)
  {
    /** `v == null` (loose equality): true exactly for `null` and `undefined`. */
    predicate IsNullish() {
      Undefined? || Null?
    }

    /** The value that `if (v)` and `v ? a : b` test. */
    predicate Truthy() {
      match this
      case Undefined => false
      case Null => false
      case Bool(b) => b
      case Num(n) => n != 0
      case Str(s) => s != ""
      case Arr(_) => true
      case Obj(_) => true
    }

    /**
     * Property access `v.name` for an own data member of a plain record, such
     * as `message` or `code`: the field of an object, `undefined` for a
     * missing field and for any other value.  Built-in members (a string's
     * `length`, inherited methods) are not modelled.
     */
    function Member(name: string): (r: Value)
      ensures !Obj? ==> r == Undefined
      ensures Obj? && name !in fields ==> r == Undefined
    {
      if Obj? && name in fields then fields[name] else Undefined
    }
  }

  /** Decimal digits of a natural number, most significant first. */
  function NatToString(n: nat): (r: string)
    ensures |r| >= 1
    ensures forall i :: 0 <= i < |r| ==> '0' <= r[i] <= '9'
    ensures n < 10 <==> |r| == 1
    decreases n
  {
    var d := ['0' + (n % 10) as char];
    if n < 10 then d else NatToString(n / 10) + d
  }

  /** Reads back a string of decimal digits. */
  function DigitsValue(s: string): nat
    requires forall i :: 0 <= i < |s| ==> '0' <= s[i] <= '9'
  {
    if s == [] then 0 else DigitsValue(s[..|s| - 1]) * 10 + (s[|s| - 1] - '0') as int
  }

  /** The decimal rendering of a natural number reads back as that number. */
  lemma {:induction false} NatToStringRoundTrip(n: nat)
    ensures DigitsValue(NatToString(n)) == n
    decreases n
  {
    var r := NatToString(n);
    if n >= 10 {
      NatToStringRoundTrip(n / 10);
      assert r[..|r| - 1] == NatToString(n / 10);
    }
  }

  /** `String(n)` for an integer `n`. */
  function IntToString(n: int): (r: string)
    ensures |r| >= 1
    ensures n < 0 <==> r[0] == '-'
  {
    if n < 0 then "-" + NatToString(-n) else NatToString(n)
  }

  /**
   * `String(v)`, the conversion `encodeURI` applies to a non-string argument:
   * `undefined` and `null` by name, booleans as `true`/`false`, numbers in
   * decimal, arrays as their elements joined by `,` (with `null` and
   * `undefined` elements as empty strings) and plain objects as
   * `[object Object]`.
   */
  function ToString(v: Value): (r: string)
    ensures v.Str? ==> r == v.s
    decreases v
  {
    match v
    case Undefined => "undefined"
    case Null => "null"
    case Bool(b) => if b then "true" else "false"
    case Num(n) => IntToString(n)
    case Str(s) => s
    case Arr(items) => JoinElements(v, items)
    case Obj(_) => "[object Object]"
  }

  /** `Array.prototype.join(',')` over the elements of the array `whole`. */
  function JoinElements(ghost whole: Value, items: seq<Value>): string
    requires whole.Arr? && items <= whole.items
    decreases whole, |items|
  {
    if items == [] then ""
    else
      var last := items[|items| - 1];
      assert last in whole.items;
      var text := if last.IsNullish() then "" else ToString(last);
      if |items| == 1 then text else JoinElements(whole, items[..|items| - 1]) + "," + text
  }
}
