/** src/endpoint.ts: the TypeScript Endpoint class and its static parsing helpers. */
module EndpointTs {
  import opened Numbers
  import opened Results
  import opened Intervals

  /** The private fields of a TypeScript Endpoint: the number `v` and the flag `k`, which its setter stores unchecked. */
  datatype Fields = Fields(v: Ext, k: JsVal)

  /**
   * `new Endpoint(config)`: the fields start at v = 0 and k = true, then `value` and `included`
   * go through their setters, each only when the config field is truthy.
   */
  function Construct(c: EndpointSpec): (r: Result<Fields>)
    ensures r.Ok? <==> !Truthy(c.value) || NumberValue(c.value).Ok?
    ensures r.Err? ==> r.error == Thrown(TypeError)
    ensures r.Ok? && c.value.Num? ==> r.value.v == c.value.n
    ensures r.Ok? && Truthy(c.value) ==> r.value.v == NumberValue(c.value).value
    ensures r.Ok? && !Truthy(c.value) ==> r.value.v == Fin(0.0)
    ensures r.Ok? ==> Truthy(r.value.k)
    ensures r.Ok? && Truthy(c.included) ==> r.value.k == c.included
    ensures r.Ok? ==> (r.value.k == Bool(true) <==> !Truthy(c.included) || c.included == Bool(true))
  {
    var v := if Truthy(c.value) then NumberValue(c.value) else Ok(Fin(0.0));
    match v
    case Err(e) => Err(e)
    case Ok(x) => Ok(Fields(x, if Truthy(c.included) then c.included else Bool(true)))
  }

  /** checkValue: an 'integer' type demands an integral or infinite number; any other type demands nothing. */
  function CheckValue(value: Option<Ext>, ty: JsVal): (o: Outcome)
    ensures ty != Str("integer") ==> o == Pass
    ensures value.Some? && IsInteger(value.value) ==> o == Pass
    ensures ty == Str("integer") && !(value.Some? && IsInteger(value.value)) ==> o == Fail(Thrown(TypeError))
  {
    if ty == Str("integer") && !(value.Some? && IsInteger(value.value)) then Fail(Thrown(TypeError)) else Pass
  }

  /** tryParseValue: getNumber on `ep.value`, then checkValue against the spec's own `type`. */
  function TryParseValue(ep: EndpointSpec): (r: Result<Option<Ext>>)
    ensures ep.value.Num? && ep.ty != Str("integer") ==> r == Ok(Some(ep.value.n))
    ensures ep.value.Num? && ep.ty == Str("integer") ==> (r.Ok? <==> IsInteger(ep.value.n))
    ensures r.Err? ==> r.error == Thrown(TypeError)
  {
    match GetNumber(ep.value)
    case Err(e) => Err(e)
    case Ok(n) =>
      match CheckValue(n, ep.ty)
      case Fail(e) => Err(e)
      case Pass => Ok(n)
  }

  /** tryParseInclusion: a boolean, or one of the strings 'true' and 'false'; anything else is a TypeError. */
  function TryParseInclusion(ep: EndpointSpec): (r: Result<bool>)
    ensures r.Ok? <==> ep.included.Bool? || ep.included == Str("true") || ep.included == Str("false")
    ensures ep.included.Bool? ==> r == Ok(ep.included.b)
    ensures r.Ok? && ep.included.Str? ==> r.value == (ep.included.s == "true")
    ensures r.Err? ==> r.error == Thrown(TypeError)
  {
    if ep.included == Str("true") || ep.included == Str("false") then Ok(ep.included == Str("true"))
    else if ep.included.Bool? then Ok(ep.included.b)
    else Err(Thrown(TypeError))
  }

  /** The config value a parsed number is handed back as: undefined when getNumber found none. */
  function NumberOrUndefined(n: Option<Ext>): JsVal {
    match n
    case None => Undefined
    case Some(x) => Num(x)
  }

  /**
   * Endpoint.parse: parses the inclusion, then the value, and builds the endpoint through the
   * constructor, which drops a false inclusion: a parsed endpoint always reports `included` true.
   */
  function Parse(ep: EndpointSpec): (r: Result<Fields>)
    ensures r.Ok? <==> TryParseInclusion(ep).Ok? && TryParseValue(ep).Ok?
    ensures r.Ok? ==> r.value.k == Bool(true)
    ensures r.Ok? && ep.value.Num? ==> r.value.v == ep.value.n
  {
    match TryParseInclusion(ep)
    case Err(e) => Err(e)
    case Ok(inc) =>
      match TryParseValue(ep)
      case Err(e) => Err(e)
      case Ok(n) => Construct(EndpointSpec(NumberOrUndefined(n), Bool(inc), Undefined))
  }

  class Endpoint {
    var v: Ext
    var k: JsVal

    /** The field initialisers `v = 0` and `k = true`. */
    constructor Init()
      ensures v == Fin(0.0) && k == Bool(true)
    {
      v := Fin(0.0);
      k := Bool(true);
    }

    /** The `value` setter: stores the number getNumber reads, otherwise throws a TypeError and keeps `v`. */
    method SetValue(x: JsVal) returns (o: Outcome)
      modifies this
      ensures NumberValue(x).Ok? ==> o == Pass && v == NumberValue(x).value
      ensures NumberValue(x).Err? ==> o == Fail(Thrown(TypeError)) && v == old(v)
      ensures k == old(k)
    {
      var n := NumberValue(x);
      if n.Ok? {
        v := n.value;
        o := Pass;
      } else {
        o := Fail(n.error);
      }
    }

    /** The `included` setter: stores whatever it is given. */
    method SetIncluded(x: JsVal)
      modifies this
      ensures k == x && v == old(v)
    {
      k := x;
    }

    /** `new Endpoint(config)`. */
    static method New(c: EndpointSpec) returns (r: Result<Endpoint>)
      ensures r.Ok? <==> Construct(c).Ok?
      ensures r.Ok? ==> fresh(r.value) && Construct(c).value == Fields(r.value.v, r.value.k)
      ensures r.Err? ==> r.error == Construct(c).error
    {
      var e := new Endpoint.Init();
      if Truthy(c.value) {
        var o := e.SetValue(c.value);
        if o.Fail? {
          return Err(o.error);
        }
      }
      if Truthy(c.included) {
        e.SetIncluded(c.included);
      }
      return Ok(e);
    }
  }
}
