/** src/endpoint.js: the Endpoint the monolith src/interval.js builds its endpoints with. */
module EndpointLegacy {
  import opened Numbers
  import opened Results
  import Intervals

  /** The `value` setter's check: isInt or isFloat, with no coercion, so exactly the non-NaN numbers. */
  function CheckedValue(x: JsVal): (r: Result<Ext>)
    ensures r.Ok? <==> x.Num?
    ensures r.Ok? ==> r.value == x.n
    ensures r.Err? ==> r.error == Thrown(TypeError)
  {
    if x.Num? then Ok(x.n) else Err(Thrown(TypeError))
  }

  /** The `included` setter's check: booleans only. */
  function CheckedInclusion(x: JsVal): (r: Result<bool>)
    ensures r.Ok? <==> x.Bool?
    ensures r.Ok? ==> r.value == x.b
    ensures r.Err? ==> r.error == Thrown(TypeError)
  {
    if x.Bool? then Ok(x.b) else Err(Thrown(TypeError))
  }

  /** `new Endpoint(config)`: v = 0 and i = false, then each truthy config field through its setter. */
  function Construct(c: Intervals.EndpointSpec): (r: Result<Intervals.Endpoint>)
    ensures r.Ok? <==> (!Truthy(c.value) || c.value.Num?) && (!Truthy(c.included) || c.included.Bool?)
    ensures r.Err? ==> r.error == Thrown(TypeError)
    ensures r.Ok? && c.value.Num? ==> r.value.value == c.value.n
    ensures r.Ok? && !Truthy(c.value) ==> r.value.value == Fin(0.0)
    ensures r.Ok? ==> (r.value.included <==> Truthy(c.included))
  {
    var v := if Truthy(c.value) then CheckedValue(c.value) else Ok(Fin(0.0));
    var i := if Truthy(c.included) then CheckedInclusion(c.included) else Ok(false);
    if v.Err? then Err(v.error)
    else if i.Err? then Err(i.error)
    else Ok(Intervals.Endpoint(v.value, i.value))
  }

  class Endpoint {
    var v: Ext
    var i: bool

    /** The fields set first by the constructor: `v = 0` and `i = false`. */
    constructor Init()
      ensures v == Fin(0.0) && !i
    {
      v := Fin(0.0);
      i := false;
    }

    /** The `included` setter: a boolean is stored; anything else throws a TypeError and keeps `i`. */
    method SetIncluded(x: JsVal) returns (o: Outcome)
      modifies this
      ensures x.Bool? ==> o == Pass && i == x.b
      ensures !x.Bool? ==> o == Fail(Thrown(TypeError)) && i == old(i)
      ensures v == old(v)
    {
      if x.Bool? {
        i := x.b;
        o := Pass;
      } else {
        o := Fail(Thrown(TypeError));
      }
    }

    /** The `value` setter: a number is stored as it is; anything else throws a TypeError and keeps `v`. */
    method SetValue(x: JsVal) returns (o: Outcome)
      modifies this
      ensures x.Num? ==> o == Pass && v == x.n
      ensures !x.Num? ==> o == Fail(Thrown(TypeError)) && v == old(v)
      ensures i == old(i)
    {
      if x.Num? {
        v := x.n;
        o := Pass;
      } else {
        o := Fail(Thrown(TypeError));
      }
    }

    /** `new Endpoint(config)`. */
    static method New(c: Intervals.EndpointSpec) returns (r: Result<Endpoint>)
      ensures r.Ok? <==> Construct(c).Ok?
      ensures r.Ok? ==> fresh(r.value) && Construct(c).value == Intervals.Endpoint(r.value.v, r.value.i)
      ensures r.Err? ==> r.error == Construct(c).error
    {
      var e := new Endpoint.Init();
      if Truthy(c.value) {
        var o := e.SetValue(c.value);
        if o.Fail? {
          return Err(o.error);
        }
      }
      if Truthy(c.included) {
        var o := e.SetIncluded(c.included);
        if o.Fail? {
          return Err(o.error);
        }
      }
      return Ok(e);
    }
  }
}
