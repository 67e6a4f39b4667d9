/**
 * Places where the code disagrees with what it evidently means, each shown on a concrete
 * input against the as-written model, next to a corrected definition whose intended property
 * is proved for all inputs.
 */
module Findings {
  import opened Numbers
  import opened Results
  import opened Intervals
  import opened Classification
  import opened Membership
  import EndpointTs
  import IntervalTs
  import IntervalLegacy
  import Operators

  function Closed(ty: Type, a: real, b: real): Interval {
    Interval(ty, Endpoint(Fin(a), true), Endpoint(Fin(b), true))
  }

  // ---------------------------------------------------------------------------------------
  // The intersection of two intervals.

  /** The later of two lower endpoints, the flags ANDed on a tie. */
  function LaterLower(a: Endpoint, b: Endpoint): (e: Endpoint)
    ensures e.value == a.value || e.value == b.value
    ensures forall x :: AboveLower(e, x) <==> AboveLower(a, x) && AboveLower(b, x)
  {
    if Less(a.value, b.value) then b
    else if Less(b.value, a.value) then a
    else Endpoint(a.value, a.included && b.included)
  }

  /** The earlier of two upper endpoints, the flags ANDed on a tie. */
  function EarlierUpper(a: Endpoint, b: Endpoint): (e: Endpoint)
    ensures e.value == a.value || e.value == b.value
    ensures forall x :: BelowUpper(e, x) <==> BelowUpper(a, x) && BelowUpper(b, x)
  {
    if Less(a.value, b.value) then a
    else if Less(b.value, a.value) then b
    else Endpoint(a.value, a.included && b.included)
  }

  /** The intersection intended: the later lower endpoint and the earlier upper endpoint. */
  function Meet(a: Interval, b: Interval): (m: Interval)
    ensures m.ty == a.ty
    ensures a.ty == b.ty && WellTyped(a) && WellTyped(b) ==> WellTyped(m)
  {
    Interval(a.ty, LaterLower(a.from, b.from), EarlierUpper(a.to, b.to))
  }

  /** Of two intervals of one type, the members of Meet are exactly the common members. */
  lemma MeetIsIntersection(a: Interval, b: Interval, x: Ext)
    requires a.ty == b.ty
    ensures Member(Meet(a, b), x) <==> Member(a, x) && Member(b, x)
  {
  }

  /** The corrected binary intersection: a TypeError on a type mismatch, otherwise Meet. */
  function MeetOf(a: Interval, b: Interval): (r: Result<Interval>)
    ensures r.Err? <==> a.ty != b.ty
    ensures r.Err? ==> r.error == Thrown(TypeError)
    ensures r.Ok? ==> r.value.ty == a.ty && forall x :: Member(r.value, x) <==> Member(a, x) && Member(b, x)
  {
    if a.ty != b.ty then Err(Thrown(TypeError)) else Ok(Meet(a, b))
  }

  /**
   * binaryIntersection takes `to` from the operand that does not supply `from`:
   * [0,10] ∩ [2,3] comes out as [2,10], which holds 5, a value outside [2,3].
   */
  lemma IntersectionKeepsWrongUpperEnd(rev: Revision)
    requires rev != Umd
    ensures var r := Operators.BinaryIntersection(rev, Closed(Float, 0.0, 10.0), Closed(Float, 2.0, 3.0));
            r == Ok(Closed(Float, 2.0, 10.0)) && Member(r.value, Fin(5.0)) && !Member(Closed(Float, 2.0, 3.0), Fin(5.0))
  {
  }

  /**
   * On a tie of the lower values binaryIntersection takes a.to whole:
   * [0,10] ∩ [0,3] comes out as [0,10], which holds 5, a value outside [0,3].
   */
  lemma IntersectionTieKeepsWrongUpperEnd(rev: Revision, a: Interval, b: Interval)
    requires rev != Umd && a == Closed(Float, 0.0, 10.0) && b == Closed(Float, 0.0, 3.0)
    ensures var r := Operators.BinaryIntersection(rev, a, b);
            r == Ok(a) && Member(r.value, Fin(5.0)) && !Member(b, Fin(5.0))
  {
    assert Member(a, Fin(5.0)) && !Member(b, Fin(5.0));
    TieIntersectionIsFirst(rev, a, b);
  }

  /** On a tie of lower values with both ends closed, binaryIntersection returns `a` itself. */
  lemma TieIntersectionIsFirst(rev: Revision, a: Interval, b: Interval)
    requires rev != Umd && a.ty == b.ty && Operators.Intersects(a, b)
    requires a.from == b.from && a.from.included && a.to.included && b.to.included
    ensures Operators.BinaryIntersection(rev, a, b) == Ok(a)
  {
    var r := Operators.BinaryIntersection(rev, a, b);
    assert r.value.from == Operators.NewEndpoint(rev, a.from.value, true) == a.from;
    assert r.value.to == Operators.NewEndpoint(rev, a.to.value, true) == a.to;
  }

  /**
   * In src/js the intersecting case is built with the `endpoints` key, which the src/js
   * constructor ignores: [0,1] ∩ [0.5,2] comes out as the whole line, which holds 5.
   */
  lemma UmdIntersectionIsWholeLine()
    ensures var r := Operators.BinaryIntersection(Umd, Closed(Float, 0.0, 1.0), Closed(Float, 0.5, 2.0));
            r.Ok? && Member(r.value, Fin(5.0)) && !Member(Closed(Float, 0.0, 1.0), Fin(5.0))
  {
    assert Operators.Intersects(Closed(Float, 0.0, 1.0), Closed(Float, 0.5, 2.0));
  }

  // ---------------------------------------------------------------------------------------
  // Whether two intervals intersect.

  /** The test intended: the intersection is not empty. */
  predicate Overlaps(a: Interval, b: Interval) {
    !IsEmpty(Meet(a, b))
  }

  /** Of well-typed intervals of one type, Overlaps holds exactly when they share a member. */
  lemma OverlapsIffCommonMember(a: Interval, b: Interval)
    requires WellTyped(a) && WellTyped(b) && a.ty == b.ty
    ensures Overlaps(a, b) <==> exists x :: Member(a, x) && Member(b, x)
  {
    EmptyIffNoMember(Meet(a, b));
    if Overlaps(a, b) {
      var x :| Member(Meet(a, b), x);
      MeetIsIntersection(a, b, x);
    } else {
      forall x ensures !(Member(a, x) && Member(b, x)) {
        MeetIsIntersection(a, b, x);
      }
    }
  }

  /** Unlike intersects, Overlaps does not depend on the order of its operands. */
  lemma OverlapsIsSymmetric(a: Interval, b: Interval)
    requires WellTyped(a) && WellTyped(b) && a.ty == b.ty
    ensures Overlaps(a, b) <==> Overlaps(b, a)
  {
    OverlapsIffCommonMember(a, b);
    OverlapsIffCommonMember(b, a);
  }

  // ---------------------------------------------------------------------------------------
  // The union of two intervals.

  /** The union intended for intersecting operands: the smallest interval holding both. */
  function Join(a: Interval, b: Interval): (j: Interval)
    ensures j.ty == a.ty
    ensures j.from.value == Min(a.from.value, b.from.value) && j.to.value == Max(a.to.value, b.to.value)
  {
    Interval(a.ty, Operators.GetUnionFrom(Legacy, a.from, b.from), Operators.GetUnionTo(Legacy, a.to, b.to))
  }

  lemma AboveLowerUpward(e: Endpoint, x: Ext, y: Ext)
    requires AboveLower(e, x) && LessEq(x, y)
    ensures AboveLower(e, y)
  {
  }

  lemma BelowUpperDownward(e: Endpoint, x: Ext, y: Ext)
    requires BelowUpper(e, y) && LessEq(x, y)
    ensures BelowUpper(e, x)
  {
  }

  /**
   * Join holds every member of either operand, and when the operands share a member it holds
   * nothing else: it is then exactly their union.
   */
  lemma JoinIsUnion(a: Interval, b: Interval, x: Ext)
    requires a.ty == b.ty
    ensures Member(a, x) || Member(b, x) ==> Member(Join(a, b), x)
    ensures (exists c :: Member(a, c) && Member(b, c)) && Member(Join(a, b), x) ==> Member(a, x) || Member(b, x)
  {
    if (exists c :: Member(a, c) && Member(b, c)) && Member(Join(a, b), x) {
      var c :| Member(a, c) && Member(b, c);
      if LessEq(x, c) {
        BelowUpperDownward(a.to, x, c);
        BelowUpperDownward(b.to, x, c);
      } else {
        assert LessEq(c, x);
        AboveLowerUpward(a.from, c, x);
        AboveLowerUpward(b.from, c, x);
      }
    }
  }

  /**
   * The src/interval.js union takes `to` from the operand that starts later:
   * [0,10] ∪ [2,3] comes out as [0,3], which loses 5.
   */
  lemma LegacyUnionKeepsWrongUpperEnd()
    ensures var r := Operators.BinaryUnion(Legacy, Closed(Float, 0.0, 10.0), Closed(Float, 2.0, 3.0));
            r == Ok([Closed(Float, 0.0, 3.0)]) && Member(Closed(Float, 0.0, 10.0), Fin(5.0)) && !Member(r.value[0], Fin(5.0))
  {
    assert Operators.Intersects(Closed(Float, 0.0, 10.0), Closed(Float, 2.0, 3.0));
  }

  /**
   * The TypeScript and src/js unions are built with the `endpoints` key, which those constructors
   * ignore: [0,1] ∪ [1,2] comes out as the whole line, which holds 5.
   */
  lemma UnionIsWholeLine(rev: Revision)
    requires rev != Legacy
    ensures var r := Operators.BinaryUnion(rev, Closed(Float, 0.0, 1.0), Closed(Float, 1.0, 2.0));
            r.Ok? && |r.value| == 1 && Member(r.value[0], Fin(5.0))
            && !Member(Closed(Float, 0.0, 1.0), Fin(5.0)) && !Member(Closed(Float, 1.0, 2.0), Fin(5.0))
  {
    assert Operators.Intersects(Closed(Float, 0.0, 1.0), Closed(Float, 1.0, 2.0));
  }

  // ---------------------------------------------------------------------------------------
  // The complement.

  /**
   * The src/js complement is built with the `endpoints` key, which the src/js constructor
   * ignores: the complement of [0,1] holds 0.5, a member of [0,1].
   */
  lemma UmdComplementOverlapsInterval()
    ensures Operators.Covers(Operators.Complementary(Umd, Closed(Float, 0.0, 1.0)), Fin(0.5))
    ensures Member(Closed(Float, 0.0, 1.0), Fin(0.5))
  {
    assert Member(Operators.Pieces(Operators.Complementary(Umd, Closed(Float, 0.0, 1.0)))[0], Fin(0.5));
  }

  // ---------------------------------------------------------------------------------------
  // The n-ary intersection.

  /** The n-ary intersection intended: `undefined` for no argument, otherwise MeetOf folded from the left. */
  function MeetAll(args: seq<Interval>): (r: Result<Option<Interval>>)
    ensures r.Ok? <==> Operators.SameType(args)
    ensures r.Err? ==> r.error == Thrown(TypeError)
    ensures r.Ok? ==> (r.value.None? <==> |args| == 0)
    ensures r.Ok? && r.value.Some? ==> r.value.value.ty == args[0].ty
  {
    if |args| == 0 then Ok(None)
    else if |args| == 1 then Ok(Some(args[0]))
    else
      match MeetAll(args[..|args| - 1])
      case Err(e) =>
        assert !Operators.SameType(args) by {
          assert !Operators.SameType(args[..|args| - 1]);
        }
        Err(e)
      case Ok(m) =>
        var r := MeetOf(m.value, args[|args| - 1]);
        assert r.Ok? <==> Operators.SameType(args) by {
          assert Operators.SameType(args[..|args| - 1]);
          assert Operators.SameType(args) ==> args[|args| - 1].ty == args[0].ty;
        }
        if r.Err? then Err(r.error) else Ok(Some(r.value))
  }

  /** The members of MeetAll are exactly the values that are members of every argument. */
  lemma {:induction false} MeetAllIsIntersection(args: seq<Interval>, x: Ext)
    requires MeetAll(args).Ok? && |args| > 0
    ensures Member(MeetAll(args).value.value, x) <==> forall k :: 0 <= k < |args| ==> Member(args[k], x)
  {
    if |args| > 1 {
      var init := args[..|args| - 1];
      MeetAllIsIntersection(init, x);
      MeetIsIntersection(MeetAll(init).value.value, args[|args| - 1], x);
      if forall k :: 0 <= k < |init| ==> Member(init[k], x) {
        forall k | 0 <= k < |args| - 1 ensures Member(args[k], x) {
          assert init[k] == args[k];
        }
      }
      if forall k :: 0 <= k < |args| ==> Member(args[k], x) {
        forall k | 0 <= k < |init| ensures Member(init[k], x) {
          assert init[k] == args[k];
        }
      }
    }
  }

  /**
   * The intersection loop intersects neighbouring arguments: [0,1] ∩ [0.5,10] ∩ [5,10] comes out
   * as [5,10] in src/interval.js, which holds 5, outside [0,1]; the TypeScript version throws
   * for it.
   */
  lemma IntersectionPairsNeighbours()
    ensures var args := [Closed(Float, 0.0, 1.0), Closed(Float, 0.5, 10.0), Closed(Float, 5.0, 10.0)];
            Operators.IntersectionOf(Legacy, args) == Ok(Some(Closed(Float, 5.0, 10.0)))
            && Operators.IntersectionOf(Ts, args).Err?
            && Member(args[2], Fin(5.0)) && !Member(args[0], Fin(5.0))
  {
    var a, b, c := Closed(Float, 0.0, 1.0), Closed(Float, 0.5, 10.0), Closed(Float, 5.0, 10.0);
    assert Operators.Intersects(a, b);
    assert !IsEmpty(Operators.BinaryIntersection(Legacy, a, b).value);
    assert Operators.Intersects(b, c);
    assert Operators.BinaryIntersection(Legacy, b, c) == Ok(c);
    Operators.ThreeArguments(Legacy, a, b, c);
  }

  /** The intended intersection of the same three arguments does not hold 5. */
  lemma MeetAllOfNeighbours()
    ensures var args := [Closed(Float, 0.0, 1.0), Closed(Float, 0.5, 10.0), Closed(Float, 5.0, 10.0)];
            MeetAll(args).Ok? && !Member(MeetAll(args).value.value, Fin(5.0))
  {
    var args := [Closed(Float, 0.0, 1.0), Closed(Float, 0.5, 10.0), Closed(Float, 5.0, 10.0)];
    assert Operators.SameType(args);
    MeetAllIsIntersection(args, Fin(5.0));
    assert !Member(args[0], Fin(5.0));
  }

  // ---------------------------------------------------------------------------------------
  // The membership probe.

  /**
   * `contains` as intended: a TypeError on NaN or on a fractional probe of an integer interval
   * (as `Interval.test` of the other revisions does), otherwise isValueWithinInterval.
   */
  function ContainsCorrected(i: Interval, v: JsVal): (r: Result<bool>)
    requires v.Num? || v.NotANumber?
    ensures r.Err? ==> r.error == Thrown(TypeError)
    ensures r.Ok? <==> v.Num? && (i.ty == Integer ==> IsInteger(v.n))
    ensures r.Ok? ==> (r.value <==> Member(i, v.n))
  {
    if v.NotANumber? || (i.ty == Integer && !IsInteger(v.n)) then Err(Thrown(TypeError))
    else Ok(Within(i, v.n))
  }

  /** `contains` throws for the whole number 1 on the whole real line R. */
  lemma ContainsRejectsWholeNumbersOnFloats()
    ensures var r := Interval(Float, Endpoint(NegInf, false), Endpoint(PosInf, false));
            Contains(r, Num(Fin(1.0))).Err? && Member(r, Fin(1.0)) && ContainsCorrected(r, Num(Fin(1.0))) == Ok(true)
  {
  }

  // ---------------------------------------------------------------------------------------
  // The TypeScript Endpoint constructor.

  /** The constructor intended: `value` as before, `included` stored whenever it is given. */
  function ConstructCorrected(c: EndpointSpec): (r: Result<EndpointTs.Fields>)
    ensures r.Ok? <==> EndpointTs.Construct(c).Ok?
    ensures r.Ok? ==> r.value.v == EndpointTs.Construct(c).value.v
    ensures c.included != Undefined ==> r.Ok? ==> r.value.k == c.included
  {
    match EndpointTs.Construct(c)
    case Err(e) => Err(e)
    case Ok(f) => Ok(EndpointTs.Fields(f.v, if c.included != Undefined then c.included else Bool(true)))
  }

  /** The corrected constructor reads back every endpoint it is given. */
  lemma ConstructCorrectedRoundTrip(e: Endpoint)
    ensures ConstructCorrected(SpecOf(e)) == Ok(EndpointTs.Fields(e.value, Bool(e.included)))
  {
  }

  /** `new Endpoint({value: 1, included: false})` reports the endpoint included. */
  lemma EndpointDropsFalseInclusion()
    ensures EndpointTs.Construct(SpecOf(Endpoint(Fin(1.0), false))) == Ok(EndpointTs.Fields(Fin(1.0), Bool(true)))
    ensures ConstructCorrected(SpecOf(Endpoint(Fin(1.0), false))) == Ok(EndpointTs.Fields(Fin(1.0), Bool(false)))
  {
  }

  // ---------------------------------------------------------------------------------------
  // The TypeScript static intervals.

  /**
   * Interval.Empty is a base-class object without the classification getters, so complementary
   * skips both guarded branches: complementary(Interval.Empty) is (-Infinity, 0], which misses 1,
   * a value outside the empty set.
   */
  lemma StaticEmptyComplementIsHalfLine()
    ensures var c := Operators.ComplementaryOfObject(IntervalTs.StaticObject(IntervalTs.Empty()));
            c == Operators.One(Interval(Float, Endpoint(NegInf, false), Endpoint(Fin(0.0), true)))
            && !Operators.Covers(c, Fin(1.0)) && !Member(IntervalTs.Empty(), Fin(1.0))
  {
  }

  /**
   * `!Interval.Empty.isEmpty` holds, so intersects(Interval.Empty, [-1,1]) is true in TypeScript
   * (d1 = -1, d2 = 1) and union merges the two; the empty interval's fields meet nothing.
   */
  lemma StaticEmptyMeetsInterval()
    ensures Operators.IntersectsObjects(IntervalTs.StaticObject(IntervalTs.Empty()), IntervalTs.Instance(Closed(Float, -1.0, 1.0), true))
    ensures !Operators.Intersects(IntervalTs.Empty(), Closed(Float, -1.0, 1.0))
  {
  }

  /**
   * Built as subclass objects (`new this(...)`), the static intervals answer their getters: the
   * empty interval's complement then covers every finite value, and it intersects nothing.
   */
  lemma ClassifiedEmptyIsEmpty(b: IntervalTs.Instance, x: Ext)
    requires x.Fin?
    ensures Operators.Covers(Operators.ComplementaryOfObject(IntervalTs.Instance(IntervalTs.Empty(), true)), x)
    ensures !Operators.IntersectsObjects(IntervalTs.Instance(IntervalTs.Empty(), true), b)
  {
    Operators.EmptyComplement(Ts, IntervalTs.Empty(), x);
  }

  // ---------------------------------------------------------------------------------------
  // The value check of src/interval.js.

  /**
   * isValidValueType admits every number on an integer interval, since `(integer || float)` holds
   * for both tags: addEndPoint writes the integer interval (1.5, 2.5), which isEmpty classifies as
   * empty (an open integer unit gap) although the integer 2 lies within it and `contains(2)` is true.
   */
  lemma FractionalEndsOnIntegerInterval()
    ensures var e1 := IntervalLegacy.WithEndPoint(IntervalLegacy.Defaults(), Integer, Num(Fin(1.5)), Undefined, Num(Fin(0.0)));
            var e2 := if e1.Ok? then IntervalLegacy.WithEndPoint(e1.value, Integer, Num(Fin(2.5)), Undefined, Num(Fin(1.0))) else e1;
            e1.Ok? && e2.Ok? && e2.value == [Endpoint(Fin(1.5), false), Endpoint(Fin(2.5), false)]
  {
  }

  /** The interval the writes above produce: isEmpty and membership disagree on it. */
  lemma FractionalIntegerIntervalDisagrees()
    ensures var i := Interval(Integer, Endpoint(Fin(1.5), false), Endpoint(Fin(2.5), false));
            !WellTyped(i) && IsEmpty(i) && Within(i, Fin(2.0)) && IsInteger(Fin(2.0)) && Contains(i, Num(Fin(2.0))) == Ok(true)
  {
  }

  /** isValidValueType as its comments intend: infinities and integers on either tag, fractions only on 'float'. */
  function IsValidValueTypeCorrected(v: JsVal, t: Type): (b: bool)
    ensures b <==> v.Num? && (t == Integer ==> IsInteger(v.n))
    ensures b ==> IntervalLegacy.IsValidValueType(v, t)
  {
    IntervalLegacy.IsInfinite(v) || IntervalLegacy.IsInt(v) || (IsFloatValue(v) && t == Float)
  }

  /** With the corrected check in front, addEndPoint keeps the ends of an integer interval integral. */
  lemma CorrectedCheckKeepsWellTyped(ep: seq<Endpoint>, t: Type, value: JsVal, included: JsVal, direction: JsVal)
    requires |ep| == 2 && WellTyped(Interval(t, ep[0], ep[1]))
    requires IsValidValueTypeCorrected(value, t)
    ensures var r := IntervalLegacy.WithEndPoint(ep, t, value, included, direction);
            r.Ok? ==> WellTyped(Interval(t, r.value[0], r.value[1]))
  {
  }
}
