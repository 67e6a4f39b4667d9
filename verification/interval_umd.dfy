/** src/js/intervals.js: the Interval class of the UMD build. */
module IntervalUmd {
  import opened Numbers
  import opened Results
  import opened Intervals
  import opened Classification
  import opened Membership
  import EndpointTs
  import EndpointUmd

  /**
   * parseEndpoint: tryParseInclusion, then tryParseValue (the same helpers as src/endpoint.ts,
   * repeated at src/js/intervals.js:156-177), then `new Endpoint({included, value})`. The integer
   * check reads the literal's own `type`, never the interval's. The inclusion is kept as parsed,
   * a numeric value is kept as given, and a missing value falls back to the Endpoint default 0.
   */
  function ParseEndpoint(ep: EndpointSpec): (r: Result<Endpoint>)
    ensures r.Ok? <==> EndpointTs.TryParseInclusion(ep).Ok? && EndpointTs.TryParseValue(ep).Ok?
    ensures r.Err? ==> r.error == Thrown(TypeError)
    ensures r.Ok? ==> r.value.included == EndpointTs.TryParseInclusion(ep).value
    ensures r.Ok? && ep.value.Num? ==> r.value.value == ep.value.n
    ensures r.Ok? && ep.value.Undefined? ==> r.value.value == Fin(0.0)
  {
    match EndpointTs.TryParseInclusion(ep)
    case Err(e) => Err(e)
    case Ok(inc) =>
      match EndpointTs.TryParseValue(ep)
      case Err(e) => Err(e)
      case Ok(n) => EndpointUmd.Construct(EndpointSpec(EndpointTs.NumberOrUndefined(n), Bool(inc), Undefined))
  }

  /** Parsing the literal `{value, included}` of an endpoint gives that endpoint back. */
  lemma ParseEndpointOfSpec(e: Endpoint)
    ensures ParseEndpoint(SpecOf(e)) == Ok(e)
  {
  }

  /** The field initialisers: `new Endpoint({value: -Infinity, included: false})` and its +Infinity twin. */
  function DefaultFrom(): (e: Endpoint)
    ensures EndpointUmd.Construct(SpecOf(Endpoint(NegInf, false))) == Ok(e)
  {
    Endpoint(NegInf, false)
  }

  /** The default upper endpoint: +Infinity, open. */
  function DefaultTo(): (e: Endpoint)
    ensures EndpointUmd.Construct(SpecOf(Endpoint(PosInf, false))) == Ok(e)
  {
    Endpoint(PosInf, false)
  }

  /** The `to` setter's outcome: parseEndpoint, its error wrapped in a new TypeError (or Error) with the cause as `inner`. */
  function ParseTo(ep: EndpointSpec): (r: Result<Endpoint>)
    ensures r.Ok? <==> ParseEndpoint(ep).Ok?
    ensures r.Ok? ==> r == ParseEndpoint(ep)
    ensures r.Err? ==> r.error == Rethrown(TypeError, ParseEndpoint(ep).error)
  {
    match ParseEndpoint(ep)
    case Ok(e) => Ok(e)
    case Err(e) => Err(Rewrapped(e))
  }

  /**
   * `new Interval(config)`: type 'float', -Infinity open and +Infinity open, then the truthy
   * `type`, the present `from` and the present `to`, in that order, through their setters.
   * The `endpoints` key is never read.
   */
  function Construct(c: Config): (r: Result<Intervals.Interval>)
    ensures r.Ok? <==> (!Truthy(c.ty) || ParseType(c.ty).Ok?)
                       && (c.from.Some? ==> ParseEndpoint(c.from.value).Ok?)
                       && (c.to.Some? ==> ParseEndpoint(c.to.value).Ok?)
    ensures r.Ok? && Truthy(c.ty) ==> TypeName(r.value.ty) == c.ty
    ensures r.Ok? && !Truthy(c.ty) ==> r.value.ty == Float
    ensures r.Ok? ==> r.value.from == (if c.from.Some? then ParseEndpoint(c.from.value).value else DefaultFrom())
    ensures r.Ok? ==> r.value.to == (if c.to.Some? then ParseEndpoint(c.to.value).value else DefaultTo())
    ensures r.Err? && Truthy(c.ty) && ParseType(c.ty).Err? ==> r.error == Thrown(PlainError)
    ensures (!Truthy(c.ty) || ParseType(c.ty).Ok?) && c.from.Some? && ParseEndpoint(c.from.value).Err? ==>
              r == Err(ParseEndpoint(c.from.value).error)
    ensures (!Truthy(c.ty) || ParseType(c.ty).Ok?) && (c.from.Some? ==> ParseEndpoint(c.from.value).Ok?)
            && c.to.Some? && ParseEndpoint(c.to.value).Err? ==>
              r == Err(Rethrown(TypeError, ParseEndpoint(c.to.value).error))
  {
    var ty := if Truthy(c.ty) then ParseType(c.ty) else Ok(Float);
    var from := if c.from.Some? then ParseEndpoint(c.from.value) else Ok(DefaultFrom());
    var to := if c.to.Some? then ParseTo(c.to.value) else Ok(DefaultTo());
    if ty.Err? then Err(ty.error)
    else if from.Err? then Err(from.error)
    else if to.Err? then Err(to.error)
    else Ok(Intervals.Interval(ty.value, from.value, to.value))
  }

  /** `new Interval()` is the open line (-Infinity, +Infinity) of type 'float', whose members are the finite numbers. */
  lemma FreshIsOpenLine()
    ensures Construct(Config(Undefined, None, None, NoList)).Ok?
    ensures var i := Construct(Config(Undefined, None, None, NoList)).value;
            i.ty == Float && IsOpen(i) && !IsEmpty(i) && !IsBounded(i)
            && forall x :: Member(i, x) <==> x.Fin?
  {
  }

  /** Interval.empty: `new Interval({from: {value: 0, included: false}, to: ...})`, the open (0,0) of type 'float'. */
  function Empty(): (i: Intervals.Interval)
    ensures Construct(Config(Undefined, Some(SpecOf(Endpoint(Fin(0.0), false))), Some(SpecOf(Endpoint(Fin(0.0), false))), NoList)) == Ok(i)
    ensures i.ty == Float && IsEmpty(i) && forall x :: !Member(i, x)
  {
    Intervals.Interval(Float, Endpoint(Fin(0.0), false), Endpoint(Fin(0.0), false))
  }

  class Interval {
    var t: Type
    var l: Endpoint
    var r: Endpoint

    /** What the getters `type`, `from` and `to` read. */
    function Value(): Intervals.Interval
      reads this
    {
      Intervals.Interval(t, l, r)
    }

    /** The field initialisers: type 'float', -Infinity open, +Infinity open. */
    constructor Init()
      ensures Value() == Intervals.Interval(Float, DefaultFrom(), DefaultTo())
    {
      t := Float;
      l := DefaultFrom();
      r := DefaultTo();
    }

    /** The `type` setter: 'integer' or 'float' is stored; anything else throws a plain Error and keeps `t`. */
    method SetType(x: JsVal) returns (o: Outcome)
      modifies this
      ensures ParseType(x).Ok? ==> o == Pass && t == ParseType(x).value
      ensures ParseType(x).Err? ==> o == Fail(Thrown(PlainError)) && t == old(t)
      ensures l == old(l) && r == old(r)
    {
      var p := ParseType(x);
      if p.Ok? {
        t := p.value;
        o := Pass;
      } else {
        o := Fail(p.error);
      }
    }

    /** The `from` setter: a parsed endpoint is stored; a parse error is rethrown unwrapped and `l` is kept. */
    method SetFrom(ep: EndpointSpec) returns (o: Outcome)
      modifies this
      ensures ParseEndpoint(ep).Ok? ==> o == Pass && l == ParseEndpoint(ep).value
      ensures ParseEndpoint(ep).Err? ==> o == Fail(ParseEndpoint(ep).error) && l == old(l)
      ensures t == old(t) && r == old(r)
    {
      // The setter's catch block begins with `throw e`, so the error leaves unwrapped.
      var p := ParseEndpoint(ep);
      if p.Ok? {
        l := p.value;
        o := Pass;
      } else {
        o := Fail(p.error);
      }
    }

    /** The `to` setter: a parsed endpoint is stored; a parse error is rethrown wrapped, with the cause as `inner`, and `r` is kept. */
    method SetTo(ep: EndpointSpec) returns (o: Outcome)
      modifies this
      ensures ParseEndpoint(ep).Ok? ==> o == Pass && r == ParseEndpoint(ep).value
      ensures ParseEndpoint(ep).Err? ==> o == Fail(Rewrapped(ParseEndpoint(ep).error)) && r == old(r)
      ensures t == old(t) && l == old(l)
    {
      var p := ParseTo(ep);
      if p.Ok? {
        r := p.value;
        o := Pass;
      } else {
        o := Fail(p.error);
      }
    }

    /**
     * clear: `from` is set (through its setter) to a fresh Endpoint(-Infinity, open) and `r`
     * directly to a fresh Endpoint(+Infinity, open): the open whole line, with the type kept.
     */
    method Clear()
      modifies this
      ensures Value() == Intervals.Interval(old(t), DefaultFrom(), DefaultTo())
      ensures IsOpen(Value()) && !IsEmpty(Value()) && !IsLeftBounded(Value()) && !IsRightBounded(Value())
    {
      var o := SetFrom(SpecOf(DefaultFrom()));
      ParseEndpointOfSpec(DefaultFrom());
      r := DefaultTo();
    }

    /** `new Interval(config)`. */
    static method New(c: Config) returns (res: Result<Interval>)
      ensures res.Ok? <==> Construct(c).Ok?
      ensures res.Ok? ==> fresh(res.value) && res.value.Value() == Construct(c).value
      ensures res.Err? ==> res.error == Construct(c).error
    {
      var i := new Interval.Init();
      if Truthy(c.ty) {
        var o := i.SetType(c.ty);
        if o.Fail? {
          return Err(o.error);
        }
      }
      if c.from.Some? {
        var o := i.SetFrom(c.from.value);
        if o.Fail? {
          return Err(o.error);
        }
      }
      if c.to.Some? {
        var o := i.SetTo(c.to.value);
        if o.Fail? {
          return Err(o.error);
        }
      }
      return Ok(i);
    }
  }
}
