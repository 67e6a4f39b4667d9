/**
 * Membership and measures: isValueWithinInterval, `contains` (src/intervals.ts), the instance and
 * static `test` (src/interval.js, src/js/intervals.js) and diameter, midpoint and radius.
 */
module Membership {
  import opened Numbers
  import opened Results
  import opened Intervals
  import opened Classification

  /** `from.value < x || (from.included && from.value <= x)`: x satisfies a lower endpoint. */
  predicate AboveLower(e: Endpoint, x: Ext) {
    Less(e.value, x) || (e.included && LessEq(e.value, x))
  }

  /** `x < to.value || (to.included && x <= to.value)`: x satisfies an upper endpoint. */
  predicate BelowUpper(e: Endpoint, x: Ext) {
    Less(x, e.value) || (e.included && LessEq(x, e.value))
  }

  /**
   * isValueWithinInterval: above `from` (or equal to an included `from`) and below `to`
   * (or equal to an included `to`).
   */
  function Within(i: Interval, x: Ext): (b: bool)
    ensures b ==> LessEq(i.from.value, x) && LessEq(x, i.to.value)
    ensures Less(i.from.value, x) && Less(x, i.to.value) ==> b
    ensures x == i.from.value ==> (b ==> i.from.included)
    ensures x == i.to.value ==> (b ==> i.to.included)
  {
    AboveLower(i.from, x) && BelowUpper(i.to, x)
  }

  /**
   * The set an interval denotes: the values within its bounds, and for an integer interval
   * only the integral (or infinite) ones.
   */
  predicate Member(i: Interval, x: Ext) {
    Within(i, x) && (i.ty == Integer ==> IsInteger(x))
  }

  /** isLeftClosed means "has a minimum": a non-empty interval holds its lower value exactly when it is left-closed. */
  lemma LeftClosedIsMinimum(i: Interval)
    requires WellTyped(i) && !IsEmpty(i)
    ensures IsLeftClosed(i) <==> Member(i, i.from.value)
    ensures forall x :: Member(i, x) ==> LessEq(i.from.value, x)
  {
  }

  /** isRightClosed means "has a maximum": a non-empty interval holds its upper value exactly when it is right-closed. */
  lemma RightClosedIsMaximum(i: Interval)
    requires WellTyped(i) && !IsEmpty(i)
    ensures IsRightClosed(i) <==> Member(i, i.to.value)
    ensures forall x :: Member(i, x) ==> LessEq(x, i.to.value)
  {
  }

  /** An interval isEmpty classifies as empty has no member, provided integer intervals hold integral values. */
  lemma EmptyHasNoMember(i: Interval, x: Ext)
    requires WellTyped(i) && IsEmpty(i)
    ensures !Member(i, x)
  {
    if Member(i, x) && i.ty == Integer && i.from.value.Fin? && Inc(i.from.value) == i.to.value && x.Fin? {
      IntegralGap(i.from.value.r, x.r);
    }
  }

  /** An interval isEmpty does not classify as empty has a member. */
  lemma NonEmptyHasMember(i: Interval)
    requires WellTyped(i) && !IsEmpty(i)
    ensures exists x :: Member(i, x)
  {
    var a, b := i.from.value, i.to.value;
    var x: Ext;
    if i.from.included {
      x := a;
    } else if i.to.included {
      x := b;
    } else if a.Fin? && b.Fin? {
      if i.ty == Integer {
        IntegralGap(a.r, b.r);
        x := Fin(a.r + 1.0);
        assert (a.r + 1.0).Floor == a.r.Floor + 1;
      } else {
        x := Fin((a.r + b.r) / 2.0);
      }
    } else if a.Fin? {
      x := Fin(a.r + 1.0);
      assert (a.r + 1.0).Floor == a.r.Floor + 1;
    } else if b.Fin? {
      x := Fin(b.r - 1.0);
      assert (b.r - 1.0).Floor == b.r.Floor - 1;
    } else {
      x := Fin(0.0);
    }
    assert Member(i, x);
  }

  /** For well-typed intervals, isEmpty is exactly "has no member". */
  lemma EmptyIffNoMember(i: Interval)
    requires WellTyped(i)
    ensures IsEmpty(i) <==> forall x :: !Member(i, x)
  {
    if IsEmpty(i) {
      forall x ensures !Member(i, x) {
        EmptyHasNoMember(i, x);
      }
    } else {
      NonEmptyHasMember(i);
    }
  }

  /** A degenerate well-typed interval with a finite lower value has exactly one member. */
  lemma DegenerateHasOneMember(i: Interval)
    requires WellTyped(i) && IsDegenerate(i) && i.from.value.Fin?
    ensures exists m :: Member(i, m) && forall x :: Member(i, x) ==> x == m
  {
    var a := i.from.value;
    var m: Ext;
    if IsClosed(i) && a == i.to.value {
      m := a;
    } else if i.from.included {
      m := a;
      forall x | Member(i, x) ensures x == m {
        if x != a {
          IntegralGap(a.r, x.r);
        }
      }
    } else {
      m := i.to.value;
      forall x | Member(i, x) ensures x == m {
        if x != m {
          IntegralGap(a.r, x.r);
        }
      }
    }
    assert Member(i, m) && forall x :: Member(i, x) ==> x == m;
  }

  /**
   * `contains(value: number)` of src/intervals.ts: a TypeError on NaN or when the probe's
   * integer-ness differs from the type in either direction (so a float interval rejects whole
   * numbers); otherwise isValueWithinInterval.
   */
  function Contains(i: Interval, v: JsVal): (r: Result<bool>)
    requires v.Num? || v.NotANumber?
    ensures r.Err? ==> r.error == Thrown(TypeError)
    ensures v.NotANumber? ==> r.Err?
    ensures i.ty == Float && v.Num? && IsInteger(v.n) ==> r.Err?
    ensures i.ty == Integer && v.Num? ==> (r.Ok? <==> IsInteger(v.n))
    ensures i.ty == Float && v.Num? ==> (r.Ok? <==> !IsInteger(v.n))
    ensures r == Ok(true) ==> Member(i, v.n)
    ensures r.Ok? && Member(i, v.n) ==> r.value
  {
    if v.NotANumber? || IsInteger(v.n) != (i.ty == Integer) then Err(Thrown(TypeError))
    else Ok(Within(i, v.n))
  }

  /** `contains` never answers true on an interval isEmpty classifies as empty, though it has no empty check of its own. */
  lemma ContainsNeverOnEmpty(i: Interval, v: JsVal)
    requires v.Num? || v.NotANumber?
    requires WellTyped(i) && IsEmpty(i)
    ensures Contains(i, v) != Ok(true)
  {
    if v.Num? {
      EmptyHasNoMember(i, v.n);
    }
  }

  /** The open and the closed integer interval from -5 to 5, probed at -6, -5, 1, 5 and 6. */
  lemma ContainsExamples()
    ensures var open := Interval(Integer, Endpoint(Fin(-5.0), false), Endpoint(Fin(5.0), false));
            Contains(open, Num(Fin(1.0))) == Ok(true) && Contains(open, Num(Fin(-5.0))) == Ok(false)
            && Contains(open, Num(Fin(5.0))) == Ok(false) && Contains(open, Num(Fin(-6.0))) == Ok(false)
            && Contains(open, Num(Fin(6.0))) == Ok(false)
    ensures var closed := Interval(Integer, Endpoint(Fin(-5.0), true), Endpoint(Fin(5.0), true));
            Contains(closed, Num(Fin(1.0))) == Ok(true) && Contains(closed, Num(Fin(-5.0))) == Ok(true)
            && Contains(closed, Num(Fin(5.0))) == Ok(true) && Contains(closed, Num(Fin(-6.0))) == Ok(false)
            && Contains(closed, Num(Fin(6.0))) == Ok(false)
  {
  }

  /**
   * The instance `test(value)` of src/interval.js and src/js/intervals.js: false on an empty
   * interval, otherwise the bound checks (written there as conditionals on `included`).
   */
  function Test(i: Interval, x: Ext): (b: bool)
    ensures b ==> !IsEmpty(i) && Within(i, x)
    ensures !IsEmpty(i) && Within(i, x) ==> b
  {
    if IsEmpty(i) then false
    else (if i.from.included then LessEq(i.from.value, x) else Less(i.from.value, x))
         && (if i.to.included then LessEq(x, i.to.value) else Less(x, i.to.value))
  }

  /** On a float interval `test` is exactly membership; on an integer interval it is for integral probes. */
  lemma TestIsMembership(i: Interval, x: Ext)
    requires WellTyped(i) && (i.ty == Float || IsInteger(x))
    ensures Test(i, x) <==> Member(i, x)
  {
    if IsEmpty(i) {
      EmptyHasNoMember(i, x);
    }
  }

  /** The instance `test` on the open and the closed integer interval from -5 to 5. */
  lemma TestExamples()
    ensures var open := Interval(Integer, Endpoint(Fin(-5.0), false), Endpoint(Fin(5.0), false));
            Test(open, Fin(1.0)) && !Test(open, Fin(-5.0)) && !Test(open, Fin(5.0))
            && !Test(open, Fin(-6.0)) && !Test(open, Fin(6.0))
    ensures var closed := Interval(Integer, Endpoint(Fin(-5.0), true), Endpoint(Fin(5.0), true));
            Test(closed, Fin(1.0)) && Test(closed, Fin(-5.0)) && Test(closed, Fin(5.0))
            && !Test(closed, Fin(-6.0)) && !Test(closed, Fin(6.0))
  {
  }

  /** isFloat: a number that is not a whole finite number; `Infinity % 1` is NaN, so the infinities count. */
  function IsFloatValue(v: JsVal): (b: bool)
    ensures b ==> v.Num?
    ensures v == Num(NegInf) || v == Num(PosInf) ==> b
    ensures v.Num? && v.n.Fin? ==> (b <==> !IsInteger(v.n))
  {
    v.Num? && !(v.n.Fin? && IsInteger(v.n))
  }

  /**
   * The static `Interval.test(value, interval)` of src/interval.js and src/js/intervals.js:
   * a TypeError when getNumber yields no number (or throws), or when the interval is integer
   * and the probe isFloat; then false on an empty interval, otherwise isValueWithinInterval.
   */
  function StaticTest(i: Interval, v: JsVal): (r: Result<bool>)
    ensures r.Err? ==> r.error == Thrown(TypeError)
    ensures r.Ok? ==> v.Num? || v.Bool?
    ensures i.ty == Float && v.Num? ==> r == Ok(Test(i, v.n))
    ensures i.ty == Integer && v.Num? ==> (r.Ok? <==> v.n.Fin? && IsInteger(v.n))
  {
    match GetNumber(v)
    case Err(e) => Err(Thrown(TypeError))
    case Ok(None) => Err(Thrown(TypeError))
    case Ok(Some(x)) =>
      if i.ty == Integer && IsFloatValue(v) then Err(Thrown(TypeError))
      else if IsEmpty(i) then Ok(false)
      else Ok(Within(i, x))
  }

  /** On a well-typed interval, an answer of the static `test` is exactly membership. */
  lemma StaticTestIsMembership(i: Interval, v: JsVal)
    requires WellTyped(i) && v.Num? && StaticTest(i, v).Ok?
    ensures StaticTest(i, v).value <==> Member(i, v.n)
  {
    if IsEmpty(i) {
      EmptyHasNoMember(i, v.n);
    }
  }

  /** |x|. */
  function Abs(x: real): (a: real)
    ensures a >= 0.0 && (a == x || a == -x)
  {
    if x < 0.0 then -x else x
  }

  /**
   * diameter: 0 when empty, +Infinity when non-empty and unbounded, |from.value - to.value|
   * otherwise, which is to.value - from.value since a non-empty interval is not reversed.
   */
  function Diameter(i: Interval): (d: Ext)
    ensures IsEmpty(i) ==> d == Fin(0.0)
    ensures !IsEmpty(i) && !IsBounded(i) ==> d == PosInf
    ensures !IsEmpty(i) && IsBounded(i) ==>
              i.from.value.Fin? && i.to.value.Fin? && d == Fin(i.to.value.r - i.from.value.r)
    ensures d.Fin? ==> d.r >= 0.0
  {
    if IsEmpty(i) then Fin(0.0)
    else if !IsBounded(i) then PosInf
    else Fin(Abs(i.from.value.r - i.to.value.r))
  }

  /** No two finite values that pass `test` are further apart than the diameter. */
  lemma DiameterBoundsMembers(i: Interval, x: Ext, y: Ext)
    requires Test(i, x) && Test(i, y) && x.Fin? && y.Fin?
    ensures Diameter(i).PosInf? || Abs(x.r - y.r) <= Diameter(i).r
  {
    if !IsEmpty(i) && IsBounded(i) {
      assert i.from.value.r <= x.r <= i.to.value.r;
      assert i.from.value.r <= y.r <= i.to.value.r;
    }
  }

  /** midpoint: undefined (None) when empty or unbounded; otherwise (from.value + to.value) / 2, which always passes `test`. */
  function Midpoint(i: Interval): (m: Option<real>)
    ensures m.Some? <==> !IsEmpty(i) && IsBounded(i)
    ensures m.Some? ==> i.from.value.Fin? && i.to.value.Fin? && m.value == (i.from.value.r + i.to.value.r) / 2.0
    ensures m.Some? ==> Test(i, Fin(m.value))
  {
    if IsEmpty(i) || !IsBounded(i) then None
    else Some((i.from.value.r + i.to.value.r) / 2.0)
  }

  /** radius: 0 when empty or unbounded; otherwise half the diameter. */
  function Radius(i: Interval): (r: real)
    ensures r >= 0.0
    ensures IsEmpty(i) || !IsBounded(i) ==> r == 0.0
    ensures !IsEmpty(i) && IsBounded(i) ==> Diameter(i) == Fin(2.0 * r)
  {
    if IsEmpty(i) || !IsBounded(i) then 0.0
    else Abs(i.from.value.r - i.to.value.r) / 2.0
  }

  /**
   * On a closed bounded non-empty interval the measures are those of its extreme members: both
   * ends pass `test`, the diameter is the distance between them, the midpoint is equally far
   * from both, and the radius is that distance.
   */
  lemma MeasuresOfClosed(i: Interval)
    requires IsClosed(i) && IsBounded(i) && !IsEmpty(i)
    ensures Test(i, i.from.value) && Test(i, i.to.value)
    ensures forall x, y :: Test(i, x) && Test(i, y) && x.Fin? && y.Fin? ==> Abs(x.r - y.r) <= Diameter(i).r
    ensures Diameter(i) == Fin(Abs(i.to.value.r - i.from.value.r))
    ensures Midpoint(i).value - i.from.value.r == i.to.value.r - Midpoint(i).value == Radius(i)
  {
    forall x, y | Test(i, x) && Test(i, y) && x.Fin? && y.Fin?
      ensures Abs(x.r - y.r) <= Diameter(i).r
    {
      DiameterBoundsMembers(i, x, y);
    }
  }

  /** Every finite value within a bounded non-empty interval lies within the radius of the midpoint. */
  lemma MembersWithinRadius(i: Interval, x: Ext)
    requires Midpoint(i).Some? && Within(i, x) && x.Fin?
    ensures Abs(x.r - Midpoint(i).value) <= Radius(i)
  {
    assert i.from.value.r <= x.r <= i.to.value.r;
  }
}
