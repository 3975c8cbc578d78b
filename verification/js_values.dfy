/** The JavaScript values an event can carry, and the few conversions the
    plugin applies to them: truthiness, `isDefined`, `String(v)` (template
    literals and property keys) and `v.toString()`.

    Numbers are mathematical integers: the plugin only copies them, compares
    them with `===` and prints them as property keys or metric-name parts.
 */
module JsValues {
  import opened Results

  /** A JavaScript value. `===` on this type is datatype equality: objects
      are compared by reference, which `ref` stands for. */
  datatype JsValue =
    | Undefined
    | Null
    | Num(n: int)
    | Bool(b: bool)
    | Str(s: string)
    | Obj(ref: nat)

  /** index.js `isDefined`: neither undefined nor null. */
  predicate IsDefined(v: JsValue)
  {
    v != Undefined && v != Null
  }

  /** JavaScript truthiness (`if (v)`, `!v`). */
  predicate Truthy(v: JsValue)
  {
    match v
    case Undefined => false
    case Null => false
    case Num(n) => n != 0
    case Bool(b) => b
    case Str(s) => s != ""
    case Obj(_) => true
  }

  predicate IsDigit(c: char)
  {
    '0' <= c <= '9'
  }

  function DigitChar(d: nat): (c: char)
    requires d < 10
    ensures IsDigit(c)
  {
    ('0' as int + d) as char
  }

  /** Decimal digits of a natural number, most significant first. */
  function NatToDecimal(n: nat): (s: string)
    ensures |s| > 0
    ensures forall i :: 0 <= i < |s| ==> IsDigit(s[i])
    decreases n
  {
    if n < 10 then [DigitChar(n)] else NatToDecimal(n / 10) + [DigitChar(n % 10)]
  }

  function IntToDecimal(n: int): string
  {
    if n < 0 then "-" + NatToDecimal(-n) else NatToDecimal(n)
  }

  /** Different naturals have different decimal forms. */
  lemma {:induction false} NatToDecimalInjective(a: nat, b: nat)
    requires NatToDecimal(a) == NatToDecimal(b)
    ensures a == b
    decreases a
  {
    var s := NatToDecimal(a);
    if a < 10 && b < 10 {
      assert s[0] == DigitChar(a) && s[0] == DigitChar(b);
    } else if a >= 10 && b >= 10 {
      assert s[|s| - 1] == DigitChar(a % 10) && s[|s| - 1] == DigitChar(b % 10);
      assert NatToDecimal(a / 10) == s[..|s| - 1] == NatToDecimal(b / 10);
      NatToDecimalInjective(a / 10, b / 10);
    }
  }

  /** `String(n)` is injective on integers: a number is its own decimal
      form, with a leading minus sign exactly when it is negative. */
  lemma IntToDecimalInjective(a: int, b: int)
    ensures IntToDecimal(a) == IntToDecimal(b) <==> a == b
  {
    if IntToDecimal(a) == IntToDecimal(b) {
      assert a >= 0 ==> IsDigit(NatToDecimal(a)[0]);
      assert b >= 0 ==> IsDigit(NatToDecimal(b)[0]);
      assert (IntToDecimal(a)[0] == '-') == (a < 0) && (IntToDecimal(b)[0] == '-') == (b < 0);
      if a < 0 && b < 0 {
        assert NatToDecimal(-a) == IntToDecimal(a)[1..] == NatToDecimal(-b);
        NatToDecimalInjective(-a, -b);
      } else if a >= 0 && b >= 0 {
        NatToDecimalInjective(a, b);
      }
    }
  }

  /** `String(v)`: the text a template literal inserts and the property key
      an object index converts its key to. */
  function JsString(v: JsValue): string
  {
    match v
    case Undefined => "undefined"
    case Null => "null"
    case Num(n) => IntToDecimal(n)
    case Bool(b) => if b then "true" else "false"
    case Str(s) => s
    case Obj(_) => "[object Object]"
  }

  /** `v.toString()`: throws on undefined and null, `String(v)` otherwise. */
  function ToStringMethod(v: JsValue): (r: Result<string>)
    ensures r.Err? <==> !IsDefined(v)
    ensures r.Err? ==> r.error == NullishToString
    ensures r.Ok? ==> r.value == JsString(v)
  {
    if IsDefined(v) then Ok(JsString(v)) else Err(NullishToString)
  }
}
