/** src/intervals.ts (and its tsc output src/intervals.js): the TypeScript Interval class. */
module IntervalTs {
  import opened Numbers
  import opened Results
  import opened Intervals
  import opened Classification
  import opened Membership
  import EndpointTs

  /** An endpoint literal as the TypeScript setters are typed to take it: a number and a boolean. */
  predicate IsTyped(s: EndpointSpec) {
    s.value.Num? && s.included.Bool?
  }

  /** A config whose `from` and `to`, when present, are typed endpoint literals. */
  predicate IsTypedConfig(c: Config) {
    (c.from.Some? ==> IsTyped(c.from.value)) && (c.to.Some? ==> IsTyped(c.to.value))
  }

  /** The endpoint a typed literal reads as through the `value` and `included` keys. */
  function Read(s: EndpointSpec): Endpoint
    requires IsTyped(s)
  {
    Endpoint(s.value.n, s.included.b)
  }

  /** The literal `{value: v, included: b}`. */
  function Literal(v: Ext, b: bool): EndpointSpec {
    EndpointSpec(Num(v), Bool(b), Undefined)
  }

  /**
   * The field initialiser `l = new Endpoint({value: -Infinity, included: false})`: the Endpoint
   * constructor drops the false inclusion, so the default lower endpoint is -Infinity included.
   */
  function DefaultFrom(): (e: Endpoint)
    ensures EndpointTs.Construct(Literal(NegInf, false)) == Ok(EndpointTs.Fields(e.value, Bool(e.included)))
  {
    Endpoint(NegInf, true)
  }

  /** The field initialiser `r = new Endpoint({value: +Infinity, included: false})`: +Infinity included. */
  function DefaultTo(): (e: Endpoint)
    ensures EndpointTs.Construct(Literal(PosInf, false)) == Ok(EndpointTs.Fields(e.value, Bool(e.included)))
  {
    Endpoint(PosInf, true)
  }

  /**
   * `new Interval(config)`: type 'float' and the default endpoints, then the truthy `type`, the
   * present `from` and the present `to`, in that order, through their setters. The `endpoints`
   * key is never read. Only an invalid truthy type fails, with a plain Error.
   */
  function Construct(c: Config): (r: Result<Intervals.Interval>)
    requires IsTypedConfig(c)
    ensures r.Ok? <==> !Truthy(c.ty) || ParseType(c.ty).Ok?
    ensures r.Err? ==> r.error == Thrown(PlainError)
    ensures r.Ok? && Truthy(c.ty) ==> TypeName(r.value.ty) == c.ty
    ensures r.Ok? && !Truthy(c.ty) ==> r.value.ty == Float
    ensures r.Ok? ==> r.value.from == (if c.from.Some? then Read(c.from.value) else DefaultFrom())
    ensures r.Ok? ==> r.value.to == (if c.to.Some? then Read(c.to.value) else DefaultTo())
  {
    var ty := if Truthy(c.ty) then ParseType(c.ty) else Ok(Float);
    if ty.Err? then Err(ty.error)
    else
      var from := if c.from.Some? then Read(c.from.value) else DefaultFrom();
      var to := if c.to.Some? then Read(c.to.value) else DefaultTo();
      Ok(Intervals.Interval(ty.value, from, to))
  }

  /** A config with only `type`, `from` and `to` given. */
  function FromToConfig(ty: Type, from: EndpointSpec, to: EndpointSpec): Config {
    Config(TypeName(ty), Some(from), Some(to), NoList)
  }

  /**
   * `new Interval()` is the closed line [-Infinity, +Infinity] of type 'float': not empty, not
   * bounded, closed, and every finite number is a member.
   */
  lemma FreshIsWholeLine()
    ensures Construct(Config(Undefined, None, None, NoList)).Ok?
    ensures var i := Construct(Config(Undefined, None, None, NoList)).value;
            i.ty == Float && i.from.value == NegInf && i.to.value == PosInf
            && !IsEmpty(i) && !IsBounded(i) && IsClosed(i)
            && forall x :: Member(i, x)
  {
  }

  /** Interval.Empty: (0,0) open, type 'float', with no member. */
  function Empty(): (i: Intervals.Interval)
    ensures Construct(FromToConfig(Float, Literal(Fin(0.0), false), Literal(Fin(0.0), false))) == Ok(i)
    ensures i.ty == Float && IsEmpty(i) && IsOpen(i)
    ensures forall x :: !Member(i, x)
  {
    Intervals.Interval(Float, Endpoint(Fin(0.0), false), Endpoint(Fin(0.0), false))
  }

  /** Interval.R: (-Infinity, +Infinity), type 'float', whose members are exactly the finite numbers. */
  function R(): (i: Intervals.Interval)
    ensures Construct(FromToConfig(Float, Literal(NegInf, false), Literal(PosInf, false))) == Ok(i)
    ensures i.ty == Float && !IsEmpty(i) && !IsLeftBounded(i) && !IsRightBounded(i)
    ensures forall x :: Member(i, x) <==> x.Fin?
  {
    Intervals.Interval(Float, Endpoint(NegInf, false), Endpoint(PosInf, false))
  }

  /** Interval.Z: (-Infinity, +Infinity), type 'integer', whose members are exactly the finite integers. */
  function Z(): (i: Intervals.Interval)
    ensures Construct(FromToConfig(Integer, Literal(NegInf, false), Literal(PosInf, false))) == Ok(i)
    ensures i.ty == Integer && !IsEmpty(i) && !IsLeftBounded(i) && !IsRightBounded(i)
    ensures forall x :: Member(i, x) <==> x.Fin? && IsInteger(x)
  {
    Intervals.Interval(Integer, Endpoint(NegInf, false), Endpoint(PosInf, false))
  }

  /** Interval.N: (0, +Infinity), type 'integer', whose members are exactly the integers above zero. */
  function N(): (i: Intervals.Interval)
    ensures Construct(FromToConfig(Integer, Literal(Fin(0.0), false), Literal(PosInf, false))) == Ok(i)
    ensures i.ty == Integer && !IsEmpty(i) && IsLeftBounded(i) && !IsRightBounded(i) && IsOpen(i)
    ensures forall x :: Member(i, x) <==> x.Fin? && IsInteger(x) && 0.0 < x.r
  {
    Intervals.Interval(Integer, Endpoint(Fin(0.0), false), Endpoint(PosInf, false))
  }

  /** Interval.NN: [0, +Infinity), type 'integer', whose members are exactly the integers from zero up. */
  function NN(): (i: Intervals.Interval)
    ensures Construct(FromToConfig(Integer, Literal(Fin(0.0), true), Literal(PosInf, false))) == Ok(i)
    ensures i.ty == Integer && !IsEmpty(i) && IsLeftClosed(i) && !IsRightBounded(i)
    ensures forall x :: Member(i, x) <==> x.Fin? && IsInteger(x) && 0.0 <= x.r
  {
    Intervals.Interval(Integer, Endpoint(Fin(0.0), true), Endpoint(PosInf, false))
  }

  /**
   * A TypeScript interval object: the fields it reads, and whether it carries the classification
   * getters. src/intervals.classification.ts adds those getters in a subclass of this file's
   * Interval, and the operators build their results with the subclass. The static getters above
   * build objects of this file's base class, and the tsc output's `__extends` copies each of them
   * onto the subclass once, so `isEmpty`, `isBounded` and the other getters read undefined on them.
   */
  datatype Instance = Instance(value: Intervals.Interval, classified: bool)

  /** `o.<getter>` used as a condition, for a getter that answers `answer` on the fields: undefined is falsy. */
  predicate Answers(o: Instance, answer: bool) {
    o.classified && answer
  }

  /** The object a static getter (Empty, R, Z, N, NN) returns: its fields, without the getters. */
  function StaticObject(i: Intervals.Interval): (o: Instance)
    ensures o.value == i && !o.classified
    ensures forall answer :: !Answers(o, answer)
  {
    Instance(i, false)
  }

  /**
   * The static intervals' fields classify as their names promise, but the objects do not answer:
   * `Interval.Empty.isEmpty`, `Interval.N.isOpen` and `Interval.NN.isLeftClosed` read undefined.
   */
  lemma StaticGettersReadUndefined()
    ensures IsEmpty(Empty()) && !Answers(StaticObject(Empty()), IsEmpty(Empty()))
    ensures IsOpen(N()) && IsLeftBounded(N()) && !Answers(StaticObject(N()), IsOpen(N()))
    ensures IsLeftClosed(NN()) && !Answers(StaticObject(NN()), IsLeftClosed(NN()))
  {
  }

  class Interval {
    var t: Type
    var l: Endpoint
    var r: Endpoint

    /** What the getters `type`, `from` and `to` read. */
    function Value(): Intervals.Interval
      reads this
    {
      Intervals.Interval(t, l, r)
    }

    /** The field initialisers: type 'float' with the default endpoints (`l` is assigned twice, to the same value). */
    constructor Init()
      ensures Value() == Intervals.Interval(Float, DefaultFrom(), DefaultTo())
    {
      t := Float;
      l := DefaultFrom();
      r := DefaultTo();
    }

    /** The `type` setter: 'integer' or 'float' is stored; anything else throws a plain Error and keeps `t`. */
    method SetType(x: JsVal) returns (o: Outcome)
      modifies this
      ensures ParseType(x).Ok? ==> o == Pass && t == ParseType(x).value
      ensures ParseType(x).Err? ==> o == Fail(Thrown(PlainError)) && t == old(t)
      ensures l == old(l) && r == old(r)
    {
      var p := ParseType(x);
      if p.Ok? {
        t := p.value;
        o := Pass;
      } else {
        o := Fail(p.error);
      }
    }

    /** The `from` setter: stores the endpoint as given and changes nothing else. */
    method SetFrom(e: Endpoint)
      modifies this
      ensures l == e && t == old(t) && r == old(r)
    {
      l := e;
    }

    /** The `to` setter: stores the endpoint as given and changes nothing else. */
    method SetTo(e: Endpoint)
      modifies this
      ensures r == e && t == old(t) && l == old(l)
    {
      r := e;
    }

    /**
     * clear: both endpoints become what Endpoint.parse makes of `{value: -Infinity, included: false}`
     * and `{value: +Infinity, included: false}`, which is the closed whole line; the type is kept.
     */
    method Clear()
      modifies this
      ensures EndpointTs.Parse(Literal(NegInf, false)) == Ok(EndpointTs.Fields(l.value, Bool(l.included)))
      ensures EndpointTs.Parse(Literal(PosInf, false)) == Ok(EndpointTs.Fields(r.value, Bool(r.included)))
      ensures t == old(t)
      ensures !IsEmpty(Value()) && !IsLeftBounded(Value()) && !IsRightBounded(Value())
    {
      l := Endpoint(NegInf, true);
      r := Endpoint(PosInf, true);
    }

    /** `new Interval(config)`. */
    static method New(c: Config) returns (res: Result<Interval>)
      requires IsTypedConfig(c)
      ensures res.Ok? <==> Construct(c).Ok?
      ensures res.Ok? ==> fresh(res.value) && res.value.Value() == Construct(c).value
      ensures res.Err? ==> res.error == Construct(c).error
    {
      var i := new Interval.Init();
      if Truthy(c.ty) {
        var o := i.SetType(c.ty);
        if o.Fail? {
          return Err(o.error);
        }
      }
      if c.from.Some? {
        i.SetFrom(Read(c.from.value));
      }
      if c.to.Some? {
        i.SetTo(Read(c.to.value));
      }
      return Ok(i);
    }
  }
}
