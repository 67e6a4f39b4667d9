/** src/interval.js: the monolith Interval, which keeps its two endpoints in the array `ep`. */
module IntervalLegacy {
  import opened Numbers
  import opened Results
  import opened Intervals
  import opened Classification
  import opened Membership
  import EndpointLegacy

  /** isInfinite: a number that is not finite. */
  function IsInfinite(v: JsVal): (b: bool)
    ensures b <==> v == Num(NegInf) || v == Num(PosInf)
  {
    v.Num? && !v.n.Fin?
  }

  /** isInt: an integral or infinite number. */
  function IsInt(v: JsVal): (b: bool)
    ensures b ==> v.Num?
    ensures IsInfinite(v) ==> b
    ensures v.Num? && v.n.Fin? ==> (b <==> IsInteger(v.n))
  {
    v.Num? && IsInteger(v.n)
  }

  /** Every number is an integer or a float, and only the infinities are both. */
  lemma NumberClasses(v: JsVal)
    ensures v.Num? <==> IsInt(v) || IsFloatValue(v)
    ensures IsInt(v) && IsFloatValue(v) <==> IsInfinite(v)
  {
  }

  /**
   * isValidValueType(value, type): `isInfinite(value) === infinite || (integer && isInt(value))
   * || (isFloat(value) && (integer || float))`, where both type tags set `integer` and `infinite`.
   * For either tag it accepts exactly the non-NaN numbers, so an integer interval admits fractions.
   */
  function IsValidValueType(v: JsVal, t: Type): (b: bool)
    ensures b <==> v.Num?
  {
    var infinite, integer, float := true, true, t == Float;
    IsInfinite(v) == infinite || (integer && IsInt(v)) || (IsFloatValue(v) && (integer || float))
  }

  /** addEndPoint's `direction` check: a number (NaN is not), and then 0 or 1. */
  function Direction(d: JsVal): (r: Result<nat>)
    ensures r.Ok? <==> d == Num(Fin(0.0)) || d == Num(Fin(1.0))
    ensures r.Ok? ==> r.value < 2 && d == Num(Fin(r.value as real))
    ensures r.Err? ==> (r.error == Thrown(RangeError) <==> d.Num?)
    ensures r.Err? ==> r.error == Thrown(TypeError) || r.error == Thrown(RangeError)
  {
    if !d.Num? then Err(Thrown(TypeError))
    else if d == Num(Fin(0.0)) then Ok(0)
    else if d == Num(Fin(1.0)) then Ok(1)
    else Err(Thrown(RangeError))
  }

  /**
   * The endpoint pair after addEndPoint(interval, value, included, direction): the value must be
   * valid for the type, an undefined `included` means false and any other non-boolean is a
   * TypeError, then the direction is checked; on success only `ep[direction]` is replaced, by
   * `new Endpoint({value, included})`.
   */
  function WithEndPoint(ep: seq<Endpoint>, t: Type, value: JsVal, included: JsVal, direction: JsVal): (r: Result<seq<Endpoint>>)
    requires |ep| == 2
    ensures r.Ok? <==> value.Num? && (included.Undefined? || included.Bool?) && Direction(direction).Ok?
    ensures r.Ok? ==> |r.value| == 2
    ensures r.Ok? ==> var d := Direction(direction).value;
              r.value[d] == Endpoint(value.n, included.Bool? && included.b) && r.value[1 - d] == ep[1 - d]
    ensures !value.Num? ==> r == Err(Thrown(TypeError))
    ensures value.Num? && !(included.Undefined? || included.Bool?) ==> r == Err(Thrown(TypeError))
    ensures value.Num? && included.Undefined? ==> r.Ok? || r.error == Direction(direction).error
    ensures r.Err? ==> r.error.Thrown? && r.error.kind != PlainError
  {
    if !IsValidValueType(value, t) then Err(Thrown(TypeError))
    else
      var inc := if included.Undefined? then Ok(false)
                 else if included.Bool? then Ok(included.b)
                 else Err(Thrown(TypeError));
      if inc.Err? then Err(inc.error)
      else match Direction(direction)
        case Err(e) => Err(e)
        case Ok(d) =>
          match EndpointLegacy.Construct(EndpointSpec(value, Bool(inc.value), Undefined))
          case Err(e) => Err(e)
          case Ok(e) => Ok(ep[d := e])
  }

  /**
   * The arguments the constructor hands addEndPoint for one entry of `endpoints`: an object with a
   * defined `value` gives `(value, included || false)`; any other entry is passed itself as the
   * value with `included` true, which only a number survives. Reading `.value` of null throws, and
   * an object without a value is not a number.
   */
  function ItemArguments(item: EndpointItem): (r: Result<(JsVal, JsVal)>)
    ensures r.Err? ==> r.error == Thrown(TypeError)
    ensures item.Bare? && item.v.Num? ==> r == Ok((item.v, Bool(true)))
    ensures item.Object? && item.spec.value != Undefined ==> r.Ok? && r.value.0 == item.spec.value
    ensures r.Ok? ==> r.value.1.Bool? || Truthy(r.value.1)
  {
    match item
    case Object(spec) =>
      if spec.value != Undefined then Ok((spec.value, if Truthy(spec.included) then spec.included else Bool(false)))
      else Err(Thrown(TypeError))
    case Bare(v) =>
      if v == Null then Err(Thrown(TypeError)) else Ok((v, Bool(true)))
  }

  /** An entry of `endpoints` that addEndPoint accepts: a number value and a boolean inclusion. */
  predicate Accepted(item: EndpointItem) {
    var args := ItemArguments(item);
    args.Ok? && args.value.0.Num? && args.value.1.Bool?
  }

  /** The endpoint addEndPoint writes for an accepted entry. */
  function Written(item: EndpointItem): Endpoint
    requires Accepted(item)
  {
    var args := ItemArguments(item).value;
    Endpoint(args.0.n, args.1.b)
  }

  /**
   * The constructor's loop over `endpoints`, from index k on, each entry going to direction k:
   * it succeeds exactly when every remaining entry is accepted, keeps the endpoints before k,
   * and writes each remaining entry's endpoint at its own index.
   */
  function AddItems(ep: seq<Endpoint>, t: Type, items: seq<EndpointItem>, k: nat): (r: Result<seq<Endpoint>>)
    requires |ep| == 2 && |items| == 2 && k <= 2
    ensures r.Ok? <==> forall j :: k <= j < 2 ==> Accepted(items[j])
    ensures r.Ok? ==> |r.value| == 2
    ensures r.Ok? ==> forall j :: 0 <= j < k ==> r.value[j] == ep[j]
    ensures r.Ok? ==> forall j :: k <= j < 2 ==> r.value[j] == Written(items[j])
    ensures r.Err? ==> r.error.Thrown? && r.error.kind == TypeError
    decreases 2 - k
  {
    if k == 2 then Ok(ep)
    else match ItemArguments(items[k])
      case Err(e) => Err(e)
      case Ok(args) =>
        match WithEndPoint(ep, t, args.0, args.1, Num(Fin(k as real)))
        case Err(e) => Err(e)
        case Ok(next) => AddItems(next, t, items, k + 1)
  }

  /** The default endpoints: `new Endpoint({value: -Infinity, included: false})` and its +Infinity twin, both open. */
  function Defaults(): (ep: seq<Endpoint>)
    ensures |ep| == 2
    ensures EndpointLegacy.Construct(SpecOf(Endpoint(NegInf, false))) == Ok(ep[0])
    ensures EndpointLegacy.Construct(SpecOf(Endpoint(PosInf, false))) == Ok(ep[1])
  {
    [Endpoint(NegInf, false), Endpoint(PosInf, false)]
  }

  /**
   * `new Interval(config)`: type 'float' with the default endpoints, then the truthy `type`,
   * then a truthy `endpoints`, which must be an array of two entries. The `from`/`to` keys are
   * never read.
   */
  function Construct(c: Config): (r: Result<Intervals.Interval>)
    ensures c.endpoints.NoList? ==> (r.Ok? <==> !Truthy(c.ty) || ParseType(c.ty).Ok?)
    ensures c.endpoints.NoList? && r.Ok? ==> r.value.from == Defaults()[0] && r.value.to == Defaults()[1]
    ensures r.Ok? && Truthy(c.ty) ==> TypeName(r.value.ty) == c.ty
    ensures r.Ok? && !Truthy(c.ty) ==> r.value.ty == Float
    ensures c.endpoints.NotAnArray? || (c.endpoints.List? && |c.endpoints.items| != 2) ==> r.Err?
    ensures (!Truthy(c.ty) || ParseType(c.ty).Ok?) ==>
              (c.endpoints.NotAnArray? || (c.endpoints.List? && |c.endpoints.items| != 2) ==> r == Err(Thrown(TypeError)))
    ensures (!Truthy(c.ty) || ParseType(c.ty).Ok?) && c.endpoints.List? && |c.endpoints.items| == 2 ==>
              (r.Ok? <==> Accepted(c.endpoints.items[0]) && Accepted(c.endpoints.items[1]))
    ensures r.Ok? && c.endpoints.List? ==>
              |c.endpoints.items| == 2 && Accepted(c.endpoints.items[0]) && Accepted(c.endpoints.items[1])
              && r.value.from == Written(c.endpoints.items[0]) && r.value.to == Written(c.endpoints.items[1])
    ensures r.Err? ==> r.error == Thrown(TypeError) || r.error == Thrown(PlainError)
  {
    var ty := if Truthy(c.ty) then ParseType(c.ty) else Ok(Float);
    if ty.Err? then Err(ty.error)
    else match c.endpoints
      case NoList => Ok(Intervals.Interval(ty.value, Defaults()[0], Defaults()[1]))
      case NotAnArray => Err(Thrown(TypeError))
      case List(items) =>
        if |items| != 2 then Err(Thrown(TypeError))
        else match AddItems(Defaults(), ty.value, items, 0)
          case Err(e) => Err(e)
          case Ok(ep) => Ok(Intervals.Interval(ty.value, ep[0], ep[1]))
  }

  /** A config with only `type` and `endpoints: [from, to]`, as the operators build them. */
  function PairConfig(ty: Type, from: Endpoint, to: Endpoint): Config {
    Config(TypeName(ty), None, None, List([Object(SpecOf(from)), Object(SpecOf(to))]))
  }

  /** The `endpoints` key is read faithfully: a pair of endpoint objects comes back as the interval's endpoints. */
  lemma ConstructReadsPair(ty: Type, from: Endpoint, to: Endpoint)
    ensures Construct(PairConfig(ty, from, to)) == Ok(Intervals.Interval(ty, from, to))
  {
  }

  /** Bare numbers in `endpoints` become closed endpoints; a null entry is a TypeError. */
  lemma ConstructBareValues(a: Ext, b: Ext)
    ensures Construct(Config(Undefined, None, None, List([Bare(Num(a)), Bare(Num(b))])))
            == Ok(Intervals.Interval(Float, Endpoint(a, true), Endpoint(b, true)))
    ensures Construct(Config(Undefined, None, None, List([Bare(Num(a)), Bare(Null)]))) == Err(Thrown(TypeError))
  {
  }

  /** `new Interval()` is the open line (-Infinity, +Infinity) of type 'float', whose members are the finite numbers. */
  lemma FreshIsOpenLine()
    ensures Construct(Config(Undefined, None, None, NoList)).Ok?
    ensures var i := Construct(Config(Undefined, None, None, NoList)).value;
            i.ty == Float && IsOpen(i) && !IsEmpty(i) && !IsBounded(i)
            && forall x :: Member(i, x) <==> x.Fin?
  {
  }

  /** Interval.empty: `endpoints` (0, open) and (0, open), type 'float', with no member. */
  function Empty(): (i: Intervals.Interval)
    ensures Construct(Config(Undefined, None, None, List([Object(SpecOf(Endpoint(Fin(0.0), false))), Object(SpecOf(Endpoint(Fin(0.0), false)))]))) == Ok(i)
    ensures i.ty == Float && IsEmpty(i) && forall x :: !Member(i, x)
  {
    Intervals.Interval(Float, Endpoint(Fin(0.0), false), Endpoint(Fin(0.0), false))
  }

  /**
   * The property reads `value.value` and `value.included` of the `from`/`to` setters: an object
   * gives its two properties, null and undefined throw a TypeError, and any other primitive (a
   * bare number such as `5`, a boolean, a string) has neither property and reads both as undefined.
   */
  function SetterArguments(arg: EndpointItem): (r: Result<(JsVal, JsVal)>)
    ensures r.Err? <==> arg == Bare(Undefined) || arg == Bare(Null)
    ensures r.Err? ==> r.error == Thrown(TypeError)
    ensures arg.Object? ==> r == Ok((arg.spec.value, arg.spec.included))
    ensures arg.Bare? && r.Ok? ==> r.value == (Undefined, Undefined)
  {
    match arg
    case Object(spec) => Ok((spec.value, spec.included))
    case Bare(v) => if v.Undefined? || v.Null? then Err(Thrown(TypeError)) else Ok((Undefined, Undefined))
  }

  class Interval {
    var t: Type
    var ep: array<Endpoint>

    /** The endpoint array always holds two entries. */
    predicate Valid()
      reads this
    {
      ep.Length == 2
    }

    /** What the getters `type`, `from` (ep[0]) and `to` (ep[1]) read. */
    function Value(): Intervals.Interval
      reads this, ep
      requires Valid()
    {
      Intervals.Interval(t, ep[0], ep[1])
    }

    /** The field initialisers: type 'float' and the default endpoint pair. */
    constructor Init()
      ensures Valid() && fresh(ep) && t == Float && ep[..] == Defaults()
    {
      t := Float;
      ep := new Endpoint[] [Endpoint(NegInf, false), Endpoint(PosInf, false)];
    }

    /** addEndPoint(this, value, included, direction): writes `ep[direction]` in place, or throws and writes nothing. */
    method AddEndPoint(value: JsVal, included: JsVal, direction: JsVal) returns (o: Outcome)
      requires Valid()
      modifies ep
      ensures Valid()
      ensures WithEndPoint(old(ep[..]), t, value, included, direction).Ok? ==>
                o == Pass && ep[..] == WithEndPoint(old(ep[..]), t, value, included, direction).value
      ensures WithEndPoint(old(ep[..]), t, value, included, direction).Err? ==>
                o == Fail(WithEndPoint(old(ep[..]), t, value, included, direction).error) && ep[..] == old(ep[..])
    {
      var r := WithEndPoint(ep[..], t, value, included, direction);
      if r.Err? {
        return Fail(r.error);
      }
      var d := Direction(direction).value;
      ep[d] := r.value[d];
      assert ep[..] == r.value;
      return Pass;
    }

    /** The `type` setter: 'integer' or 'float' is stored; anything else throws a plain Error and keeps `t`. */
    method SetType(x: JsVal) returns (o: Outcome)
      modifies this
      ensures ParseType(x).Ok? ==> o == Pass && t == ParseType(x).value
      ensures ParseType(x).Err? ==> o == Fail(Thrown(PlainError)) && t == old(t)
      ensures ep == old(ep)
    {
      var p := ParseType(x);
      if p.Ok? {
        t := p.value;
        o := Pass;
      } else {
        o := Fail(p.error);
      }
    }

    /**
     * The `from` setter: addEndPoint(this, value.value, value.included, 0); a failure is rethrown
     * as a new error of the same class (TypeError or Error) carrying the cause as `inner`.
     */
    method SetFrom(value: EndpointItem) returns (o: Outcome)
      requires Valid()
      modifies ep
      ensures Valid()
      ensures var a := SetterArguments(value);
              a.Err? ==> o == Fail(Rewrapped(a.error)) && ep[..] == old(ep[..])
      ensures var a := SetterArguments(value);
              var w := if a.Ok? then WithEndPoint(old(ep[..]), t, a.value.0, a.value.1, Num(Fin(0.0))) else Err(Thrown(TypeError));
              a.Ok? ==> (w.Ok? ==> o == Pass && ep[..] == w.value)
                        && (w.Err? ==> o == Fail(Rewrapped(w.error)) && ep[..] == old(ep[..]))
      ensures value.Bare? ==> o == Fail(Rethrown(TypeError, Thrown(TypeError))) && ep[..] == old(ep[..])
      ensures o.Pass? ==> ep[1] == old(ep[1])
    {
      var a := SetterArguments(value);
      if a.Err? {
        return Fail(Rewrapped(a.error));
      }
      o := AddEndPoint(a.value.0, a.value.1, Num(Fin(0.0)));
      if o.Fail? {
        o := Fail(Rewrapped(o.error));
      }
    }

    /** The `to` setter: addEndPoint(this, value.value, value.included, 1), failures rethrown wrapped. */
    method SetTo(value: EndpointItem) returns (o: Outcome)
      requires Valid()
      modifies ep
      ensures Valid()
      ensures var a := SetterArguments(value);
              a.Err? ==> o == Fail(Rewrapped(a.error)) && ep[..] == old(ep[..])
      ensures var a := SetterArguments(value);
              var w := if a.Ok? then WithEndPoint(old(ep[..]), t, a.value.0, a.value.1, Num(Fin(1.0))) else Err(Thrown(TypeError));
              a.Ok? ==> (w.Ok? ==> o == Pass && ep[..] == w.value)
                        && (w.Err? ==> o == Fail(Rewrapped(w.error)) && ep[..] == old(ep[..]))
      ensures value.Bare? ==> o == Fail(Rethrown(TypeError, Thrown(TypeError))) && ep[..] == old(ep[..])
      ensures o.Pass? ==> ep[0] == old(ep[0])
    {
      var a := SetterArguments(value);
      if a.Err? {
        return Fail(Rewrapped(a.error));
      }
      o := AddEndPoint(a.value.0, a.value.1, Num(Fin(1.0)));
      if o.Fail? {
        o := Fail(Rewrapped(o.error));
      }
    }

    /** clear: a fresh default endpoint array, the open whole line; the type is kept. */
    method Clear()
      modifies this
      ensures Valid() && fresh(ep) && ep[..] == Defaults() && t == old(t)
      ensures IsOpen(Value()) && !IsEmpty(Value()) && !IsBounded(Value())
    {
      ep := new Endpoint[] [Endpoint(NegInf, false), Endpoint(PosInf, false)];
    }

    /** `new Interval(config)`, with the constructor's loop over the two `endpoints` entries. */
    static method New(c: Config) returns (res: Result<Interval>)
      ensures res.Ok? <==> Construct(c).Ok?
      ensures res.Ok? ==> fresh(res.value) && res.value.Valid() && res.value.Value() == Construct(c).value
      ensures res.Err? ==> res.error == Construct(c).error
    {
      var i := new Interval.Init();
      if Truthy(c.ty) {
        var o := i.SetType(c.ty);
        if o.Fail? {
          return Err(o.error);
        }
      }
      match c.endpoints {
        case NoList =>
        case NotAnArray =>
          return Err(Thrown(TypeError));
        case List(items) =>
          if |items| != 2 {
            return Err(Thrown(TypeError));
          }
          var idx := 0;
          while idx < 2
            invariant 0 <= idx <= 2
            invariant i.Valid() && fresh(i) && fresh(i.ep)
            invariant Truthy(c.ty) ==> ParseType(c.ty) == Ok(i.t)
            invariant !Truthy(c.ty) ==> i.t == Float
            invariant AddItems(i.ep[..], i.t, items, idx) == AddItems(Defaults(), i.t, items, 0)
          {
            var args := ItemArguments(items[idx]);
            if args.Err? {
              return Err(args.error);
            }
            var o := i.AddEndPoint(args.value.0, args.value.1, Num(Fin(idx as real)));
            if o.Fail? {
              return Err(o.error);
            }
            idx := idx + 1;
          }
      }
      return Ok(i);
    }
  }
}
