/**
 * JavaScript numbers and untyped values, as far as the interval code looks at them.
 * A non-NaN double is an extended real; NaN only appears as a JsVal or as the sign
 * of Infinity - Infinity.
 */
module Numbers {
  import opened Results

  /** A non-NaN number: a real value or one of the two infinities. */
  datatype Ext = NegInf | Fin(r: real) | PosInf

  /** isInteger / isInt: integral, or infinite (infinity counts as an integer value). */
  predicate IsInteger(x: Ext) {
    x.Fin? ==> x.r.Floor as real == x.r
  }

  /** `a < b` on two non-NaN numbers. */
  predicate Less(a: Ext, b: Ext) {
    match a
    case NegInf => !b.NegInf?
    case Fin(x) => (b.Fin? && x < b.r) || b.PosInf?
    case PosInf => false
  }

  /** `a <= b` on two non-NaN numbers. */
  predicate LessEq(a: Ext, b: Ext) {
    a == b || Less(a, b)
  }

  /** `x + 1`: the infinities absorb the addition. */
  function Inc(x: Ext): (y: Ext)
    ensures x.Fin? <==> y.Fin?
    ensures !x.Fin? ==> y == x
    ensures x.Fin? ==> Less(x, y) && y.r - x.r == 1.0
    ensures IsInteger(x) ==> IsInteger(y)
  {
    match x
    case Fin(r) =>
      assert IsInteger(x) ==> IsInteger(Fin(r + 1.0)) by {
        if IsInteger(x) {
          assert r + 1.0 == (r.Floor + 1) as real;
        }
      }
      Fin(r + 1.0)
    case _ => x
  }

  /** The sign of a computed difference; NaN compares false with everything. */
  datatype Sign = Neg | Zero | Pos | NaN

  /** The sign of `a - b`, with Infinity - Infinity = NaN. */
  function Minus(a: Ext, b: Ext): (s: Sign)
    ensures s == Neg <==> Less(a, b)
    ensures s == Pos <==> Less(b, a)
    ensures s == Zero <==> a == b && a.Fin?
    ensures s == NaN <==> a == b && !a.Fin?
  {
    match (a, b)
    case (Fin(x), Fin(y)) => if x - y < 0.0 then Neg else if x - y == 0.0 then Zero else Pos
    case (PosInf, PosInf) => NaN
    case (NegInf, NegInf) => NaN
    case (PosInf, _) => Pos
    case (NegInf, _) => Neg
    case (_, PosInf) => Neg
    case (_, NegInf) => Pos
  }

  /** Two distinct integral reals are at least one apart. */
  lemma IntegralGap(a: real, b: real)
    requires a.Floor as real == a && b.Floor as real == b && a < b
    ensures a + 1.0 <= b
  {
    assert a.Floor < b.Floor;
  }

  /** `d <= 0` on a computed difference. */
  predicate AtMostZero(s: Sign) {
    s == Neg || s == Zero
  }

  /** Math.min on two non-NaN numbers. */
  function Min(a: Ext, b: Ext): (m: Ext)
    ensures LessEq(m, a) && LessEq(m, b)
    ensures m == a || m == b
  {
    if Less(b, a) then b else a
  }

  /** Math.max on two non-NaN numbers. */
  function Max(a: Ext, b: Ext): (m: Ext)
    ensures LessEq(a, m) && LessEq(b, m)
    ensures m == a || m == b
  {
    if Less(a, b) then b else a
  }

  /** The real part of a finite number (0 for the infinities). */
  function RealOf(x: Ext): real {
    if x.Fin? then x.r else 0.0
  }

  /** An untyped JavaScript value handed to a setter or constructor. */
  datatype JsVal = Undefined | Null | Bool(b: bool) | Num(n: Ext) | NotANumber | Str(s: string)

  /** JavaScript truthiness: `if (x)`. */
  predicate Truthy(x: JsVal) {
    match x
    case Undefined => false
    case Null => false
    case Bool(b) => b
    case Num(n) => n != Fin(0.0)
    case NotANumber => false
    case Str(s) => s != ""
  }

  /**
   * getNumber: undefined and null give undefined (None); a boolean converts to 1 or 0;
   * a number is returned as it is; NaN falls through to `str.toUpperCase()`, which throws
   * a TypeError on a number. Strings are read as naming no number (see README).
   */
  function GetNumber(x: JsVal): (r: Result<Option<Ext>>)
    ensures r.Err? <==> x.NotANumber?
    ensures x.Num? ==> r == Ok(Some(x.n))
    ensures r.Ok? && r.value.Some? ==> x.Num? || x.Bool?
  {
    match x
    case Undefined => Ok(None)
    case Null => Ok(None)
    case Bool(b) => Ok(Some(Fin(if b then 1.0 else 0.0)))
    case Num(n) => Ok(Some(n))
    case NotANumber => Err(Thrown(TypeError))
    case Str(_) => Ok(None)
  }

  /**
   * The check of the TypeScript and UMD `value` setters: `getNumber(x)` must be a number that
   * isInteger or isFloat accepts, which is every non-NaN number; anything else is a TypeError.
   */
  function NumberValue(x: JsVal): (r: Result<Ext>)
    ensures r.Ok? <==> x.Num? || x.Bool?
    ensures x.Num? ==> r == Ok(x.n)
    ensures r.Err? ==> r.error == Thrown(TypeError)
  {
    match GetNumber(x)
    case Ok(Some(n)) => Ok(n)
    case _ => Err(Thrown(TypeError))
  }
}
