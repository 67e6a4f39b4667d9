/** src/js/endpoint.js: the Endpoint of the UMD build. */
module EndpointUmd {
  import opened Numbers
  import opened Results
  import Intervals
  import EndpointLegacy

  /** `new Endpoint(config)`: v = 0 and k = false, then each truthy config field through its setter. */
  function Construct(c: Intervals.EndpointSpec): (r: Result<Intervals.Endpoint>)
    ensures r.Ok? <==> (!Truthy(c.value) || NumberValue(c.value).Ok?) && (!Truthy(c.included) || c.included.Bool?)
    ensures r.Err? ==> r.error == Thrown(TypeError)
    ensures r.Ok? && c.value.Num? ==> r.value.value == c.value.n
    ensures r.Ok? && Truthy(c.value) ==> r.value.value == NumberValue(c.value).value
    ensures r.Ok? && !Truthy(c.value) ==> r.value.value == Fin(0.0)
    ensures r.Ok? ==> (r.value.included <==> Truthy(c.included))
  {
    var v := if Truthy(c.value) then NumberValue(c.value) else Ok(Fin(0.0));
    var i := if Truthy(c.included) then EndpointLegacy.CheckedInclusion(c.included) else Ok(false);
    if v.Err? then Err(v.error)
    else if i.Err? then Err(i.error)
    else Ok(Intervals.Endpoint(v.value, i.value))
  }

  class Endpoint {
    var v: Ext
    var k: bool

    /** The fields set first by the constructor: `v = 0` and `k = false`. */
    constructor Init()
      ensures v == Fin(0.0) && !k
    {
      v := Fin(0.0);
      k := false;
    }

    /** The `included` setter: a boolean is stored; anything else throws a TypeError and keeps `k`. */
    method SetIncluded(x: JsVal) returns (o: Outcome)
      modifies this
      ensures x.Bool? ==> o == Pass && k == x.b
      ensures !x.Bool? ==> o == Fail(Thrown(TypeError)) && k == old(k)
      ensures v == old(v)
    {
      if x.Bool? {
        k := x.b;
        o := Pass;
      } else {
        o := Fail(Thrown(TypeError));
      }
    }

    /**
     * The `value` setter: getNumber, then isInteger or isFloat. A number is stored unchanged
     * (getNumber(x) = Number(x) = x); anything that is not a number throws a TypeError and keeps `v`.
     */
    method SetValue(x: JsVal) returns (o: Outcome)
      modifies this
      ensures x.Num? ==> o == Pass && v == x.n
      ensures NumberValue(x).Ok? ==> o == Pass && v == NumberValue(x).value
      ensures NumberValue(x).Err? ==> o == Fail(Thrown(TypeError)) && v == old(v)
      ensures k == old(k)
    {
      var n := NumberValue(x);
      if n.Ok? {
        v := n.value;
        o := Pass;
      } else {
        o := Fail(n.error);
      }
    }

    /** `new Endpoint(config)`. */
    static method New(c: Intervals.EndpointSpec) returns (r: Result<Endpoint>)
      ensures r.Ok? <==> Construct(c).Ok?
      ensures r.Ok? ==> fresh(r.value) && Construct(c).value == Intervals.Endpoint(r.value.v, r.value.k)
      ensures r.Err? ==> r.error == Construct(c).error
    {
      var e := new Endpoint.Init();
      if Truthy(c.value) {
        var o := e.SetValue(c.value);
        if o.Fail? {
          return Err(o.error);
        }
      }
      if Truthy(c.included) {
        var o := e.SetIncluded(c.included);
        if o.Fail? {
          return Err(o.error);
        }
      }
      return Ok(e);
    }
  }
}
