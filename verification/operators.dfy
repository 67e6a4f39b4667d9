/**
 * The binary operators: complementary, intersects, binary intersection, the union endpoint
 * helpers and binary union, as src/intervals.operators.ts (with its tsc output),
 * src/js/intervals.operators.js and src/interval.js:715-904 define them. The three revisions
 * share their branch structure; they differ in the Endpoint they build tie endpoints with and in
 * the config key (`from`/`to` or `endpoints`) they build results with, which each revision's
 * Interval constructor reads differently.
 */
module Operators {
  import opened Numbers
  import opened Results
  import opened Intervals
  import opened Classification
  import opened Membership
  import EndpointTs
  import EndpointUmd
  import EndpointLegacy
  import IntervalTs
  import IntervalUmd
  import IntervalLegacy

  /** The config an operator hands `new Interval`: the `from`/`to` keys, or the `endpoints: [from, to]` key. */
  datatype Built = FromTo(ty: Type, from: Endpoint, to: Endpoint) | Pair(ty: Type, from: Endpoint, to: Endpoint)

  /** The config object literal a Built stands for. */
  function ConfigOf(b: Built): Config {
    match b
    case FromTo(ty, f, t) => Config(TypeName(ty), Some(SpecOf(f)), Some(SpecOf(t)), NoList)
    case Pair(ty, f, t) => Config(TypeName(ty), None, None, List([Object(SpecOf(f)), Object(SpecOf(t))]))
  }

  /**
   * `new Interval(config)` in a revision: the TypeScript and src/js constructors read only
   * `from`/`to` and give an `endpoints` config their default whole line; src/interval.js reads
   * only `endpoints` and gives a `from`/`to` config its default open line.
   */
  function Build(rev: Revision, b: Built): (i: Interval)
    ensures rev == Ts ==> IntervalTs.Construct(ConfigOf(b)) == Ok(i)
    ensures rev == Umd ==> IntervalUmd.Construct(ConfigOf(b)) == Ok(i)
    ensures rev == Legacy ==> IntervalLegacy.Construct(ConfigOf(b)) == Ok(i)
    ensures i.ty == b.ty
  {
    match b
    case FromTo(ty, f, t) =>
      if rev == Legacy then Interval(ty, Endpoint(NegInf, false), Endpoint(PosInf, false))
      else Interval(ty, f, t)
    case Pair(ty, f, t) =>
      if rev == Ts then Interval(ty, IntervalTs.DefaultFrom(), IntervalTs.DefaultTo())
      else if rev == Umd then Interval(ty, IntervalUmd.DefaultFrom(), IntervalUmd.DefaultTo())
      else Interval(ty, f, t)
  }

  /** `new Endpoint({value, included})` in a revision: the TypeScript Endpoint drops a false inclusion. */
  function NewEndpoint(rev: Revision, v: Ext, b: bool): (e: Endpoint)
    ensures rev == Ts ==> EndpointTs.Construct(SpecOf(Endpoint(v, b))) == Ok(EndpointTs.Fields(e.value, Bool(e.included)))
    ensures rev == Umd ==> EndpointUmd.Construct(SpecOf(Endpoint(v, b))) == Ok(e)
    ensures rev == Legacy ==> EndpointLegacy.Construct(SpecOf(Endpoint(v, b))) == Ok(e)
    ensures e.value == v
  {
    if rev == Ts then Endpoint(v, true) else Endpoint(v, b)
  }

  /** The whole line (-Infinity, +Infinity), both ends open, of a type. */
  function Line(ty: Type): Interval {
    Interval(ty, Endpoint(NegInf, false), Endpoint(PosInf, false))
  }

  /** Interval.Empty (src/intervals.ts) or Interval.empty (the other revisions): (0,0) open, type 'float'. */
  function EmptyOf(rev: Revision): (i: Interval)
    ensures i == Interval(Float, Endpoint(Fin(0.0), false), Endpoint(Fin(0.0), false))
    ensures IsEmpty(i)
  {
    match rev
    case Ts => IntervalTs.Empty()
    case Umd => IntervalUmd.Empty()
    case Legacy => IntervalLegacy.Empty()
  }

  /** complementary returns either a bare interval or an array of intervals. */
  datatype Complement = One(i: Interval) | Many(s: seq<Interval>)

  /** The intervals a complement holds. */
  function Pieces(c: Complement): seq<Interval> {
    match c
    case One(i) => [i]
    case Many(s) => s
  }

  /**
   * complementary:
   * an empty interval maps to the whole line of its type (wrapped in an array in TypeScript);
   * a bounded one to the two half-lines outside it, each finite end's inclusion negated;
   * any other to the one half-line on the other side of its finite end (the TypeScript version
   * sets `from`, `to` and then `type` on a fresh Interval, which reads the same as passing them
   * to the constructor). src/intervals.ts builds the empty case with `endpoints`; src/js builds
   * every case with `endpoints`.
   */
  function Complementary(rev: Revision, i: Interval): (c: Complement)
    ensures IsEmpty(i) ==> (c.Many? <==> rev == Ts) && |Pieces(c)| == 1
    ensures !IsEmpty(i) && IsBounded(i) ==> c.Many? && |Pieces(c)| == 2
    ensures !IsEmpty(i) && !IsBounded(i) ==> c.One?
    ensures forall k :: 0 <= k < |Pieces(c)| ==> Pieces(c)[k].ty == i.ty
  {
    ComplementBranches(rev, i, IsEmpty(i), IsBounded(i))
  }

  /** The branches of complementary, given what its `isEmpty` and `isBounded` guards read. */
  function ComplementBranches(rev: Revision, i: Interval, empty: bool, bounded: bool): Complement {
    var lowest, highest := Endpoint(NegInf, false), Endpoint(PosInf, false);
    if empty then
      var whole := Build(rev, Pair(i.ty, lowest, highest));
      if rev == Ts then Many([whole]) else One(whole)
    else if bounded then
      var below := Endpoint(i.from.value, !i.from.included);
      var above := Endpoint(i.to.value, !i.to.included);
      if rev == Ts then Many([Build(Ts, FromTo(i.ty, lowest, below)), Build(Ts, FromTo(i.ty, above, highest))])
      else Many([Build(rev, Pair(i.ty, lowest, below)), Build(rev, Pair(i.ty, above, highest))])
    else
      var ends := if i.from.value == NegInf then (Endpoint(i.to.value, !i.to.included), highest)
                  else (lowest, Endpoint(i.from.value, !i.from.included));
      if rev == Ts then One(Build(Ts, FromTo(i.ty, ends.0, ends.1)))
      else One(Build(rev, Pair(i.ty, ends.0, ends.1)))
  }

  /**
   * The TypeScript complementary on an object: on a subclass object it is `Complementary`; on a
   * static interval both guards read undefined, so it takes the half-line branch whatever the
   * fields are, and `complementary(Interval.Empty)` is (-Infinity, 0].
   */
  function ComplementaryOfObject(o: IntervalTs.Instance): (c: Complement)
    ensures o.classified ==> c == Complementary(Ts, o.value)
    ensures !o.classified && o.value.from.value != NegInf ==>
              c == One(Interval(o.value.ty, Endpoint(NegInf, false), Endpoint(o.value.from.value, !o.value.from.included)))
    ensures !o.classified && o.value.from.value == NegInf ==>
              c == One(Interval(o.value.ty, Endpoint(o.value.to.value, !o.value.to.included), Endpoint(PosInf, false)))
  {
    ComplementBranches(Ts, o.value, IntervalTs.Answers(o, IsEmpty(o.value)), IntervalTs.Answers(o, IsBounded(o.value)))
  }

  /** x is a member of one of the pieces of a complement. */
  predicate Covers(c: Complement, x: Ext) {
    exists k :: 0 <= k < |Pieces(c)| && Member(Pieces(c)[k], x)
  }

  /**
   * In src/intervals.ts and src/interval.js the complement is the set complement: a finite value
   * of the interval's type is in one of the pieces exactly when it is not in the interval.
   */
  lemma ComplementIsSetComplement(rev: Revision, i: Interval, x: Ext)
    requires rev != Umd && WellTyped(i)
    requires x.Fin? && (i.ty == Integer ==> IsInteger(x))
    ensures Covers(Complementary(rev, i), x) <==> !Member(i, x)
  {
    if IsEmpty(i) {
      EmptyComplement(rev, i, x);
    } else if IsBounded(i) {
      BoundedComplement(rev, i, x);
    } else {
      OneSidedComplement(rev, i, x);
    }
  }

  /** The complement of an empty interval holds every finite value of its type. */
  lemma EmptyComplement(rev: Revision, i: Interval, x: Ext)
    requires rev != Umd && WellTyped(i) && IsEmpty(i)
    requires x.Fin? && (i.ty == Integer ==> IsInteger(x))
    ensures Covers(Complementary(rev, i), x) && !Member(i, x)
  {
    EmptyHasNoMember(i, x);
    var c := Complementary(rev, i);
    assert Pieces(c)[0].from.value == NegInf && Pieces(c)[0].to.value == PosInf;
    assert Member(Pieces(c)[0], x);
  }

  /** The two half-lines outside a bounded interval hold exactly the finite values it misses. */
  lemma BoundedComplement(rev: Revision, i: Interval, x: Ext)
    requires rev != Umd && !IsEmpty(i) && IsBounded(i)
    requires x.Fin? && (i.ty == Integer ==> IsInteger(x))
    ensures Covers(Complementary(rev, i), x) <==> !Member(i, x)
  {
    var c := Complementary(rev, i);
    var lowest, highest := Endpoint(NegInf, false), Endpoint(PosInf, false);
    assert Pieces(c) == [Interval(i.ty, lowest, Endpoint(i.from.value, !i.from.included)),
                         Interval(i.ty, Endpoint(i.to.value, !i.to.included), highest)];
    if !Member(i, x) {
      if !Member(Pieces(c)[0], x) {
        assert Member(Pieces(c)[1], x);
      }
    }
  }

  /** The half-line on the other side of a one-sided interval holds exactly the finite values it misses. */
  lemma OneSidedComplement(rev: Revision, i: Interval, x: Ext)
    requires rev != Umd && !IsEmpty(i) && !IsBounded(i)
    requires x.Fin? && (i.ty == Integer ==> IsInteger(x))
    ensures Covers(Complementary(rev, i), x) <==> !Member(i, x)
  {
    var c := Complementary(rev, i);
    if !Member(i, x) {
      assert Member(Pieces(c)[0], x);
    }
  }

  /** In src/js every piece of a complement is the open whole line of the interval's type. */
  lemma UmdComplementIsWholeLine(i: Interval)
    ensures forall k :: 0 <= k < |Pieces(Complementary(Umd, i))| ==> Pieces(Complementary(Umd, i))[k] == Line(i.ty)
  {
  }

  /** A half-line whose infinite end is open comes back to itself after two complements. */
  lemma ComplementTwiceOneSided(rev: Revision, i: Interval)
    requires rev != Umd
    requires (i.from == Endpoint(NegInf, false) && i.to.value.Fin?) || (i.to == Endpoint(PosInf, false) && i.from.value.Fin?)
    ensures Complementary(rev, i).One?
    ensures Complementary(rev, Complementary(rev, i).i) == One(i)
  {
  }

  /** The complement of any whole line (open or closed) is from = to = +Infinity with `to` open: an empty interval. */
  lemma ComplementOfLineIsEmpty(rev: Revision, i: Interval)
    requires rev != Umd && i.from.value == NegInf && i.to.value == PosInf
    ensures Complementary(rev, i).One?
    ensures Complementary(rev, i).i.from.value == PosInf && Complementary(rev, i).i.to == Endpoint(PosInf, false)
    ensures IsEmpty(Complementary(rev, i).i)
  {
  }

  /**
   * intersects (the same in every revision): neither argument empty, and d1 = a.from - b.to and
   * d2 = a.to - b.from either vanish at an included end or differ in the sign test `<= 0`.
   * Overlapping open interiors always intersect; values strictly apart never do.
   */
  function Intersects(a: Interval, b: Interval): (r: bool)
    ensures r ==> !IsEmpty(a) && !IsEmpty(b)
    ensures !IsEmpty(a) && !IsEmpty(b) && Less(a.from.value, b.to.value) && Less(b.from.value, a.to.value) ==> r
    ensures Less(a.to.value, b.from.value) || Less(b.to.value, a.from.value) ==> !r
  {
    !IsEmpty(a) && !IsEmpty(b) && EndsMeet(a, b)
  }

  /** The test of intersects past its two `!isEmpty` guards, on d1 = a.from - b.to and d2 = a.to - b.from. */
  predicate EndsMeet(a: Interval, b: Interval) {
    var d1 := Minus(a.from.value, b.to.value);
    var d2 := Minus(a.to.value, b.from.value);
    (d1 == Zero && (a.from.included || b.to.included))
    || (d2 == Zero && (a.to.included || b.from.included))
    || (AtMostZero(d1) != AtMostZero(d2))
  }

  /**
   * intersects on two TypeScript objects: `!a.isEmpty` holds on a static interval, whose getter reads
   * undefined, so `Interval.Empty` meets every interval whose ends the d1/d2 test lets through.
   */
  function IntersectsObjects(a: IntervalTs.Instance, b: IntervalTs.Instance): (r: bool)
    ensures a.classified && b.classified ==> (r <==> Intersects(a.value, b.value))
    ensures !a.classified && !b.classified ==> (r <==> EndsMeet(a.value, b.value))
    ensures r ==> EndsMeet(a.value, b.value)
  {
    !IntervalTs.Answers(a, IsEmpty(a.value)) && !IntervalTs.Answers(b, IsEmpty(b.value)) && EndsMeet(a.value, b.value)
  }

  /** Intervals sharing a finite member always intersect: intersects has no false negatives. */
  lemma CommonMemberIntersects(a: Interval, b: Interval, x: Ext)
    requires WellTyped(a) && WellTyped(b) && x.Fin? && Member(a, x) && Member(b, x)
    ensures Intersects(a, b)
  {
    if IsEmpty(a) {
      EmptyHasNoMember(a, x);
    } else if IsEmpty(b) {
      EmptyHasNoMember(b, x);
    }
  }

  /** intersects is not symmetric: (5,10) intersects (0,5), but (0,5) does not intersect (5,10). */
  lemma IntersectsIsAsymmetric()
    ensures var a := Interval(Float, Endpoint(Fin(5.0), false), Endpoint(Fin(10.0), false));
            var b := Interval(Float, Endpoint(Fin(0.0), false), Endpoint(Fin(5.0), false));
            Intersects(a, b) && !Intersects(b, a) && forall x :: !(Member(a, x) && Member(b, x))
  {
  }

  /**
   * Binary intersection: a TypeError on a type mismatch; the revision's empty interval when the
   * arguments do not intersect; otherwise `from` is the lower endpoint with the larger value and
   * `to` is the upper endpoint of the *other* operand, both chosen by the sign of
   * d = a.from - b.from, with the flags ANDed on a tie (d zero or NaN).
   */
  function BinaryIntersection(rev: Revision, a: Interval, b: Interval): (r: Result<Interval>)
    ensures r.Err? <==> a.ty != b.ty
    ensures r.Err? ==> r.error == Thrown(TypeError)
    ensures r.Ok? && !Intersects(a, b) ==> r.value == EmptyOf(rev)
    ensures r.Ok? && Intersects(a, b) ==> r.value.ty == a.ty
    ensures r.Ok? && Intersects(a, b) && rev != Umd && Less(b.from.value, a.from.value) ==>
              r.value.from == a.from && r.value.to == b.to
    ensures r.Ok? && Intersects(a, b) && rev != Umd && Less(a.from.value, b.from.value) ==>
              r.value.from == b.from && r.value.to == a.to
    ensures r.Ok? && Intersects(a, b) && rev != Umd && (a.from.value == b.from.value) ==>
              r.value.from == NewEndpoint(rev, a.from.value, a.from.included && b.from.included)
              && r.value.to == NewEndpoint(rev, a.to.value, a.to.included && b.to.included)
    ensures r.Ok? && Intersects(a, b) && rev == Umd ==> r.value == Line(a.ty)
  {
    if a.ty != b.ty then Err(Thrown(TypeError))
    else if !Intersects(a, b) then Ok(EmptyOf(rev))
    else
      var d := Minus(a.from.value, b.from.value);
      var from := if d == Pos then a.from else if d == Neg then b.from
                  else NewEndpoint(rev, a.from.value, a.from.included && b.from.included);
      var to := if d == Neg then a.to else if d == Pos then b.to
                else NewEndpoint(rev, a.to.value, a.to.included && b.to.included);
      var ty := if a.ty == Float || b.ty == Float then Float else Integer;
      Ok(Build(rev, if rev == Ts then FromTo(ty, from, to) else Pair(ty, from, to)))
  }

  /** getUnionFromIncluded: the inclusion of the smaller lower value, ORed on a tie. */
  function GetUnionFromIncluded(a: Endpoint, b: Endpoint): (inc: bool)
    ensures inc <==> (LessEq(a.value, b.value) && a.included) || (LessEq(b.value, a.value) && b.included)
  {
    if Less(a.value, b.value) then a.included
    else if Less(b.value, a.value) then b.included
    else a.included || b.included
  }

  /**
   * getUnionFrom: `new Endpoint({value: Math.min(...), included: getUnionFromIncluded(...)})`.
   * Outside TypeScript, a value satisfies the result exactly when it satisfies either argument
   * as a lower endpoint; the TypeScript Endpoint reports the result included regardless.
   */
  function GetUnionFrom(rev: Revision, a: Endpoint, b: Endpoint): (e: Endpoint)
    ensures e.value == Min(a.value, b.value)
    ensures rev != Ts ==> forall x :: AboveLower(e, x) <==> AboveLower(a, x) || AboveLower(b, x)
    ensures rev == Ts ==> e.included
  {
    NewEndpoint(rev, Min(a.value, b.value), GetUnionFromIncluded(a, b))
  }

  /** getUnionToIncluded: the inclusion of the larger upper value, ORed on a tie. */
  function GetUnionToIncluded(a: Endpoint, b: Endpoint): (inc: bool)
    ensures inc <==> (LessEq(b.value, a.value) && a.included) || (LessEq(a.value, b.value) && b.included)
  {
    if Less(a.value, b.value) then b.included
    else if Less(b.value, a.value) then a.included
    else a.included || b.included
  }

  /**
   * getUnionTo: `new Endpoint({value: Math.max(...), included: getUnionToIncluded(...)})`.
   * Outside TypeScript, a value satisfies the result exactly when it satisfies either argument
   * as an upper endpoint; the TypeScript Endpoint reports the result included regardless.
   */
  function GetUnionTo(rev: Revision, a: Endpoint, b: Endpoint): (e: Endpoint)
    ensures e.value == Max(a.value, b.value)
    ensures rev != Ts ==> forall x :: BelowUpper(e, x) <==> BelowUpper(a, x) || BelowUpper(b, x)
    ensures rev == Ts ==> e.included
  {
    NewEndpoint(rev, Max(a.value, b.value), GetUnionToIncluded(a, b))
  }

  /** getUnionFrom and getUnionTo do not depend on the order of their arguments. */
  lemma UnionEndpointsCommute(rev: Revision, a: Endpoint, b: Endpoint)
    ensures GetUnionFrom(rev, a, b) == GetUnionFrom(rev, b, a)
    ensures GetUnionTo(rev, a, b) == GetUnionTo(rev, b, a)
  {
  }

  /**
   * Binary union: a TypeError on a type mismatch; both arguments unchanged when they do not
   * intersect; otherwise one interval. src/intervals.ts and src/js compute it from getUnionFrom
   * and getUnionTo but build it with `endpoints`, which their constructors ignore, so they return
   * the default whole line of the type (closed in TypeScript, open in src/js). src/interval.js
   * reads `endpoints`, and takes `from` as the smaller lower endpoint but `to` from the operand
   * that starts later, both by the sign of d = a.from - b.from, with the flags ORed on a tie.
   */
  function BinaryUnion(rev: Revision, a: Interval, b: Interval): (r: Result<seq<Interval>>)
    ensures r.Err? <==> a.ty != b.ty
    ensures r.Err? ==> r.error == Thrown(TypeError)
    ensures r.Ok? && !Intersects(a, b) ==> r.value == [a, b]
    ensures r.Ok? && Intersects(a, b) ==> |r.value| == 1 && r.value[0].ty == a.ty
    ensures r.Ok? && Intersects(a, b) && rev == Ts ==> r.value[0] == Interval(a.ty, Endpoint(NegInf, true), Endpoint(PosInf, true))
    ensures r.Ok? && Intersects(a, b) && rev == Umd ==> r.value[0] == Line(a.ty)
    ensures r.Ok? && Intersects(a, b) && rev == Legacy && Less(a.from.value, b.from.value) ==>
              r.value[0] == Interval(a.ty, a.from, b.to)
    ensures r.Ok? && Intersects(a, b) && rev == Legacy && Less(b.from.value, a.from.value) ==>
              r.value[0] == Interval(a.ty, b.from, a.to)
    ensures r.Ok? && Intersects(a, b) && rev == Legacy && a.from.value == b.from.value ==>
              r.value[0] == Interval(a.ty, Endpoint(a.from.value, a.from.included || b.from.included),
                                     Endpoint(a.to.value, a.to.included || b.to.included))
  {
    if a.ty != b.ty then Err(Thrown(TypeError))
    else if !Intersects(a, b) then Ok([a, b])
    else
      var ty := if a.ty == Float || b.ty == Float then Float else Integer;
      if rev == Legacy then
        var d := Minus(a.from.value, b.from.value);
        var from := if d == Neg then a.from else if d == Pos then b.from
                    else NewEndpoint(rev, a.from.value, a.from.included || b.from.included);
        var to := if d == Pos then a.to else if d == Neg then b.to
                  else NewEndpoint(rev, a.to.value, a.to.included || b.to.included);
        var joined := Build(rev, Pair(ty, from, to));
        assert joined == Interval(ty, from, to);
        Ok([joined])
      else
        Ok([Build(rev, Pair(ty, GetUnionFrom(rev, a.from, b.from), GetUnionTo(rev, a.to, b.to)))])
  }

  /** A JavaScript variable that holds `undefined`, `null` or an Interval. */
  datatype Slot = Undef | NullValue | Val(i: Interval)

  /** The intersection of the neighbouring arguments args[j - 1] and args[j]. */
  function Neighbours(rev: Revision, args: seq<Interval>, j: nat): Result<Interval>
    requires 1 <= j < |args|
  {
    BinaryIntersection(rev, args[j - 1], args[j])
  }

  /** The loop goes on past argument j: the neighbours meet in a non-empty interval. */
  predicate GoesOn(rev: Revision, args: seq<Interval>, j: nat)
    requires 1 <= j < |args|
  {
    Neighbours(rev, args, j).Ok? && !IsEmpty(Neighbours(rev, args, j).value)
  }

  /**
   * Started at argument k, the loop stops at argument j: it went on past every argument before j,
   * and j is the last argument, or its neighbours throw or meet in an empty interval.
   */
  predicate StopsAt(rev: Revision, args: seq<Interval>, k: nat, j: nat)
    requires 1 <= k <= j < |args|
  {
    (forall i :: k <= i < j ==> GoesOn(rev, args, i)) && (j == |args| - 1 || !GoesOn(rev, args, j))
  }

  /** A binary intersection as the loop returns it: its error, or the interval itself. */
  function Lift(x: Result<Interval>): Result<Option<Interval>> {
    if x.Err? then Err(x.error) else Ok(Some(x.value))
  }

  /** When the loop goes on past argument k, it stops wherever it would have stopped starting at k + 1. */
  lemma StopsLater(rev: Revision, args: seq<Interval>, k: nat)
    requires 1 <= k && k + 1 < |args| && GoesOn(rev, args, k)
    ensures forall j :: k + 1 <= j < |args| && StopsAt(rev, args, k + 1, j) ==> StopsAt(rev, args, k, j)
  {
    forall j | k + 1 <= j < |args| && StopsAt(rev, args, k + 1, j)
      ensures StopsAt(rev, args, k, j)
    {
      forall i | k <= i < j
        ensures GoesOn(rev, args, i)
      {
        if i != k {
          assert k + 1 <= i < j;
        }
      }
    }
  }

  /**
   * What the intersection loop returns once it reaches argument k >= 1 with args[k - 1] in
   * `current` (src/interval.js and src/js): it intersects the neighbours args[k - 1] and args[k],
   * stops on an error or an empty result, and otherwise moves one argument on. So the result is
   * the neighbours' intersection where the loop first stops, which is the last pair's when it
   * never stops early.
   */
  function Chain(rev: Revision, args: seq<Interval>, k: nat): (r: Result<Option<Interval>>)
    requires 1 <= k < |args|
    ensures r.Err? ==> r.error == Thrown(TypeError)
    ensures r.Ok? ==> r.value.Some?
    ensures r.Ok? ==>
              IsEmpty(r.value.value) || BinaryIntersection(rev, args[|args| - 2], args[|args| - 1]) == Ok(r.value.value)
    ensures (forall j :: k <= j < |args| ==> args[j].ty == args[k - 1].ty) ==> r.Ok?
    ensures exists j :: k <= j < |args| && StopsAt(rev, args, k, j) && r == Lift(Neighbours(rev, args, j))
    ensures (forall j :: k <= j < |args| - 1 ==> GoesOn(rev, args, j)) ==> r == Lift(Neighbours(rev, args, |args| - 1))
    ensures r.Ok? && IsEmpty(r.value.value) ==> exists j :: k <= j < |args| && Neighbours(rev, args, j) == Ok(r.value.value)
    ensures args[k - 1].ty != args[k].ty ==> r == Err(Thrown(TypeError))
    decreases |args| - k
  {
    var x := BinaryIntersection(rev, args[k - 1], args[k]);
    if x.Err? then
      assert StopsAt(rev, args, k, k);
      Err(x.error)
    else if IsEmpty(x.value) || k + 1 == |args| then
      assert StopsAt(rev, args, k, k);
      Ok(Some(x.value))
    else
      StopsLater(rev, args, k);
      Chain(rev, args, k + 1)
  }

  /**
   * Interval.intersection(...intervals): `undefined` for no argument; for one argument,
   * `undefined` outside TypeScript and a TypeError in TypeScript, whose loop starts from
   * `current = null` and so calls binaryIntersection(null, first); otherwise the chain of
   * neighbouring intersections.
   */
  function IntersectionOf(rev: Revision, args: seq<Interval>): (r: Result<Option<Interval>>)
    ensures |args| == 0 ==> r == Ok(None)
    ensures rev == Ts && |args| > 0 ==> r == Err(Thrown(TypeError))
    ensures rev != Ts && |args| == 1 ==> r == Ok(None)
    ensures r.Err? ==> r.error == Thrown(TypeError)
    ensures r.Ok? && r.value.Some? ==> rev != Ts && |args| >= 2
    ensures r.Ok? && r.value.Some? ==>
              IsEmpty(r.value.value) || BinaryIntersection(rev, args[|args| - 2], args[|args| - 1]) == Ok(r.value.value)
    ensures rev != Ts && |args| >= 2 && (forall j :: 0 <= j < |args| ==> args[j].ty == args[0].ty) ==> r.Ok? && r.value.Some?
    ensures rev != Ts && |args| >= 2 ==>
              exists j :: 1 <= j < |args| && StopsAt(rev, args, 1, j) && r == Lift(Neighbours(rev, args, j))
    ensures rev != Ts && |args| >= 2 && (forall j :: 1 <= j < |args| - 1 ==> GoesOn(rev, args, j)) ==>
              r == Lift(Neighbours(rev, args, |args| - 1))
    ensures rev != Ts && |args| == 2 ==> r == Lift(BinaryIntersection(rev, args[0], args[1]))
    ensures rev != Ts && |args| >= 2 && args[0].ty != args[1].ty ==> r == Err(Thrown(TypeError))
    ensures r.Ok? && r.value.Some? && IsEmpty(r.value.value) ==>
              exists j :: 1 <= j < |args| && Neighbours(rev, args, j) == Ok(r.value.value)
  {
    if |args| == 0 then Ok(None)
    else if rev == Ts then Err(Thrown(TypeError))
    else if |args| == 1 then Ok(None)
    else Chain(rev, args, 1)
  }

  /** The loop stops at one argument only. */
  lemma StopsOnce(rev: Revision, args: seq<Interval>, k: nat, j: nat, j': nat)
    requires 1 <= k <= j < |args| && 1 <= k <= j' < |args|
    requires StopsAt(rev, args, k, j) && StopsAt(rev, args, k, j')
    ensures j == j'
  {
  }

  /** So the chain's result is the neighbours' intersection at whichever argument the loop stops. */
  lemma ChainIsFirstStop(rev: Revision, args: seq<Interval>, k: nat, j: nat)
    requires 1 <= k <= j < |args| && StopsAt(rev, args, k, j)
    ensures Chain(rev, args, k) == Lift(Neighbours(rev, args, j))
  {
    var j' :| k <= j' < |args| && StopsAt(rev, args, k, j') && Chain(rev, args, k) == Lift(Neighbours(rev, args, j'));
    StopsOnce(rev, args, k, j, j');
  }

  /** One step of the chain: the neighbours' intersection either ends it or hands on to the next argument. */
  lemma ChainStep(rev: Revision, args: seq<Interval>, k: nat)
    requires 1 <= k < |args|
    ensures var x := BinaryIntersection(rev, args[k - 1], args[k]);
            Chain(rev, args, k) == if x.Err? then Err(x.error)
                                   else if IsEmpty(x.value) || k + 1 == |args| then Ok(Some(x.value))
                                   else Chain(rev, args, k + 1)
  {
  }

  /**
   * The intersection loop as written: `result` takes the previous *argument* before each
   * binaryIntersection, so each step intersects two neighbouring arguments rather than
   * folding the running result.
   */
  method Intersection(rev: Revision, args: seq<Interval>) returns (r: Result<Option<Interval>>)
    ensures r == IntersectionOf(rev, args)
  {
    var stack := args;
    var current: Slot := if rev == Ts then NullValue else Undef;
    var result: Slot := Undef;
    ghost var n := 0;  // the arguments shifted off so far
    while |stack| > 0
      invariant n <= |args| && stack == args[n..]
      invariant rev == Ts ==> n == 0 && current == NullValue && result == Undef
      invariant rev != Ts && n == 0 ==> current == Undef
      invariant rev != Ts && 0 < n ==> current == Val(args[n - 1])
      invariant rev != Ts && n <= 1 ==> result == Undef
      invariant rev != Ts && |args| >= 2 && 0 < n < |args| ==> IntersectionOf(rev, args) == Chain(rev, args, n)
      invariant rev != Ts && 2 <= n ==> result.Val? && (n == |args| ==> IntersectionOf(rev, args) == Ok(Some(result.i)))
    {
      result := current;
      current := Val(stack[0]);
      stack := stack[1..];
      n := n + 1;
      if result == Undef {
        continue;
      }
      if result == NullValue {
        // binaryIntersection(null, current) reads `null.type`
        return Err(Thrown(TypeError));
      }
      ghost var k := n - 1;
      assert result.i == args[k - 1] && current.i == args[k];
      var x := BinaryIntersection(rev, result.i, current.i);
      ChainStep(rev, args, k);
      if x.Err? {
        return Err(x.error);
      }
      result := Val(x.value);
      if IsEmpty(x.value) {
        // the loop breaks and returns this empty interval
        return Ok(Some(x.value));
      }
    }
    r := Ok(if result.Val? then Some(result.i) else None);
  }

  /**
   * With three arguments of one type, the result is B ∩ C whenever A ∩ B is not empty:
   * the first argument only matters through its neighbour.
   */
  lemma ThreeArguments(rev: Revision, a: Interval, b: Interval, c: Interval)
    requires rev != Ts && a.ty == b.ty == c.ty
    requires !IsEmpty(BinaryIntersection(rev, a, b).value)
    ensures IntersectionOf(rev, [a, b, c]) == Ok(Some(BinaryIntersection(rev, b, c).value))
  {
    var args := [a, b, c];
    assert args[0] == a && args[1] == b && args[2] == c;
    assert Chain(rev, args, 2) == Ok(Some(BinaryIntersection(rev, b, c).value));
  }

  /** Every argument has type t. */
  predicate OfType(s: seq<Interval>, t: Type) {
    forall k :: 0 <= k < |s| ==> s[k].ty == t
  }

  /** All arguments share one type. */
  predicate SameType(s: seq<Interval>) {
    |s| == 0 || OfType(s, s[0].ty)
  }

  /** No argument intersects a later one. */
  predicate Separated(s: seq<Interval>) {
    forall i, j :: 0 <= i < j < |s| ==> !Intersects(s[i], s[j])
  }

  /** Some argument has type t. */
  predicate HasType(s: seq<Interval>, t: Type) {
    exists k :: 0 <= k < |s| && s[k].ty == t
  }

  /** Removing one element keeps the remaining ones separated. */
  lemma {:induction false} SeparatedWithout(s: seq<Interval>, k: nat)
    requires Separated(s) && k < |s|
    ensures Separated(s[..k] + s[k + 1..])
  {
    var t := s[..k] + s[k + 1..];
    forall i, j | 0 <= i < j < |t|
      ensures !Intersects(t[i], t[j])
    {
      var i', j' := if i < k then i else i + 1, if j < k then j else j + 1;
      assert t[i] == s[i'] && t[j] == s[j'];
    }
  }

  /** Some interval of s holds x. */
  predicate InSome(s: seq<Interval>, x: Ext) {
    exists j :: 0 <= j < |s| && Member(s[j], x)
  }

  /**
   * Outside src/interval.js a merge is the whole line of the pair's type (the constructors
   * ignore `endpoints`), so it holds every member of either interval.
   */
  lemma MergeHoldsBoth(rev: Revision, a: Interval, b: Interval)
    requires rev != Legacy && a.ty == b.ty && Intersects(a, b)
    ensures BinaryUnion(rev, a, b).Ok? && |BinaryUnion(rev, a, b).value| == 1
    ensures forall x: Ext :: x.Fin? && (Member(a, x) || Member(b, x)) ==> Member(BinaryUnion(rev, a, b).value[0], x)
  {
    var m := BinaryUnion(rev, a, b).value[0];
    assert m.ty == a.ty && m.from.value == NegInf && m.to.value == PosInf by {
      if rev == Ts {
        assert m == Interval(a.ty, Endpoint(NegInf, true), Endpoint(PosInf, true));
      } else {
        assert m == Line(a.ty);
      }
    }
    forall x: Ext | x.Fin? && (Member(a, x) || Member(b, x))
      ensures Member(m, x)
    {
      assert a.ty == Integer ==> IsInteger(x);
    }
  }

  /**
   * What the union loop keeps true of its kept intervals and its work stack: nothing is lost
   * (some interval is left while there were arguments, and outside src/interval.js every member
   * of an argument is held by a kept or a pending interval).
   */
  ghost predicate UnionState(rev: Revision, args: seq<Interval>, result: seq<Interval>, stack: seq<Interval>) {
    && |result| + |stack| <= |args|
    && (|args| > 0 ==> |result| + |stack| > 0)
    && (rev != Legacy ==> forall k, x: Ext :: 0 <= k < |args| && x.Fin? && Member(args[k], x) ==> InSome(result, x) || InSome(stack, x))
    && SameType(result) && Separated(result)
    && (forall k :: 0 <= k < |args| ==> HasType(result, args[k].ty) || HasType(stack, args[k].ty))
    && (SameType(args) && |args| > 0 ==> OfType(result, args[0].ty) && OfType(stack, args[0].ty))
    && (SameType(args) && Separated(args) ==> result + stack == args)
  }

  /** Keeping the current interval, which meets no kept one, preserves the loop state. */
  lemma KeepStep(rev: Revision, args: seq<Interval>, result: seq<Interval>, stack: seq<Interval>)
    requires UnionState(rev, args, result, stack) && |stack| > 0
    requires forall j :: 0 <= j < |result| ==> result[j].ty == stack[0].ty && !Intersects(result[j], stack[0])
    ensures UnionState(rev, args, result + [stack[0]], stack[1..])
  {
    var result', stack' := result + [stack[0]], stack[1..];
    forall x: Ext | InSome(result, x) || InSome(stack, x)
      ensures InSome(result', x) || InSome(stack', x)
    {
      if InSome(result, x) {
        var j :| 0 <= j < |result| && Member(result[j], x);
        assert result'[j] == result[j];
      } else {
        var j :| 0 <= j < |stack| && Member(stack[j], x);
        if j == 0 {
          assert result'[|result|] == stack[0];
        } else {
          assert stack'[j - 1] == stack[j];
        }
      }
    }
    forall k | 0 <= k < |args|
      ensures HasType(result', args[k].ty) || HasType(stack', args[k].ty)
    {
      if HasType(result, args[k].ty) {
        var j :| 0 <= j < |result| && result[j].ty == args[k].ty;
        assert result'[j] == result[j];
      } else {
        var j :| 0 <= j < |stack| && stack[j].ty == args[k].ty;
        if j == 0 {
          assert result'[|result|] == stack[0];
        } else {
          assert stack'[j - 1] == stack[j];
        }
      }
    }
    assert SameType(result') by {
      if |result| > 0 {
        assert result'[0] == result[0];
      }
    }
    if SameType(args) && Separated(args) {
      assert result' + stack' == result + stack;
    }
  }

  /** A value held by a kept or pending interval is still held once result[k] and stack[0] give way to a merge holding both. */
  lemma MergeKeepsMember(result: seq<Interval>, stack: seq<Interval>, k: nat, m: Interval, x: Ext)
    requires |stack| > 0 && k < |result|
    requires Member(result[k], x) || Member(stack[0], x) ==> Member(m, x)
    requires InSome(result, x) || InSome(stack, x)
    ensures InSome(result[..k] + result[k + 1..], x) || InSome(stack[1..] + [m], x)
  {
    var result', stack' := result[..k] + result[k + 1..], stack[1..] + [m];
    assert stack'[|stack'| - 1] == m;
    if InSome(result, x) {
      var j :| 0 <= j < |result| && Member(result[j], x);
      if j < k {
        assert result'[j] == result[j];
      } else if j > k {
        assert result'[j - 1] == result[j];
      }
    } else {
      var j :| 0 <= j < |stack| && Member(stack[j], x);
      if j > 0 {
        assert stack'[j - 1] == stack[j];
      }
    }
  }

  /** Replacing a kept interval and the current one by their merge preserves the loop state. */
  lemma MergeStep(rev: Revision, args: seq<Interval>, result: seq<Interval>, stack: seq<Interval>, k: nat, m: Interval)
    requires UnionState(rev, args, result, stack) && |stack| > 0 && k < |result|
    requires result[k].ty == stack[0].ty == m.ty && Intersects(result[k], stack[0])
    requires rev != Legacy ==> forall x: Ext :: x.Fin? && (Member(result[k], x) || Member(stack[0], x)) ==> Member(m, x)
    ensures UnionState(rev, args, result[..k] + result[k + 1..], stack[1..] + [m])
  {
    var result', stack' := result[..k] + result[k + 1..], stack[1..] + [m];
    assert stack'[|stack'| - 1] == m;
    if rev != Legacy {
      forall x: Ext | x.Fin? && (InSome(result, x) || InSome(stack, x))
        ensures InSome(result', x) || InSome(stack', x)
      {
        MergeKeepsMember(result, stack, k, m, x);
      }
    }
    forall i | 0 <= i < |args|
      ensures HasType(result', args[i].ty) || HasType(stack', args[i].ty)
    {
      if args[i].ty == m.ty {
        assert stack'[|stack'| - 1] == m;
      } else {
        // every kept interval has the merge's type, so this type is on the stack
        assert !HasType(result, args[i].ty);
        var j :| 0 <= j < |stack| && stack[j].ty == args[i].ty;
        assert stack'[j - 1] == stack[j];
      }
    }
    SeparatedWithout(result, k);
    assert SameType(result') by {
      if |result'| > 0 {
        assert result'[0] in result;
      }
    }
    // were the arguments separated, result + stack would be them, and result[k] would not meet stack[0]
    assert result[k] == (result + stack)[k] && stack[0] == (result + stack)[|result|];
  }

  /** Of arguments of one type, a kept interval and the current one have the same type. */
  lemma MismatchedTypes(rev: Revision, args: seq<Interval>, result: seq<Interval>, stack: seq<Interval>, k: nat)
    requires UnionState(rev, args, result, stack) && |stack| > 0 && k < |result|
    ensures SameType(args) ==> result[k].ty == stack[0].ty
  {
    if SameType(args) {
      assert result[k].ty == args[0].ty && stack[0].ty == args[0].ty;
    }
  }

  /** Once the stack is empty, the arguments' types are the kept intervals' single type. */
  /** Before the first turn nothing is kept and every argument is pending. */
  lemma InitialState(rev: Revision, args: seq<Interval>)
    ensures UnionState(rev, args, [], args)
  {
    forall k, x: Ext | 0 <= k < |args| && x.Fin? && Member(args[k], x)
      ensures InSome(args, x)
    {
    }
    forall k | 0 <= k < |args|
      ensures HasType(args, args[k].ty)
    {
    }
  }

  /**
   * Once the stack is empty, the arguments have a single type, and the kept intervals are what
   * the union returns: separated, no more than the arguments and at least one of them, and,
   * outside src/interval.js, holding every member of every argument.
   */
  lemma FinalState(rev: Revision, args: seq<Interval>, result: seq<Interval>)
    requires UnionState(rev, args, result, [])
    ensures SameType(args)
    ensures |result| <= |args| && (|args| > 0 ==> |result| > 0 && OfType(result, args[0].ty))
    ensures Separated(result) && (Separated(args) ==> result == args)
    ensures rev != Legacy ==> forall k, x: Ext :: 0 <= k < |args| && x.Fin? && Member(args[k], x) ==> InSome(result, x)
  {
    assert result + [] == result;
    if |args| > 0 {
      assert HasType(result, args[0].ty);
      forall k | 0 <= k < |args|
        ensures args[k].ty == args[0].ty
      {
        assert HasType(result, args[k].ty);
      }
    }
  }

  /**
   * Interval.union(...intervals): each argument is merged with the first kept interval it
   * intersects (the merge goes back on the work stack) or else kept. Every binaryUnion call
   * compares a kept interval with the current one, so any two arguments of different types make
   * it throw; the intervals it returns are pairwise non-intersecting, no more than the arguments,
   * and exactly the arguments when no argument intersects a later one.
   */
  method Union(rev: Revision, args: seq<Interval>) returns (r: Result<seq<Interval>>)
    ensures r.Err? ==> r.error == Thrown(TypeError)
    ensures r.Ok? <==> SameType(args)
    ensures r.Ok? ==> |r.value| <= |args| && (|args| > 0 ==> OfType(r.value, args[0].ty))
    ensures r.Ok? ==> Separated(r.value)
    ensures SameType(args) && Separated(args) ==> r == Ok(args)
    ensures r.Ok? && |args| > 0 ==> |r.value| > 0
    ensures r.Ok? && rev != Legacy ==>
              forall k, x: Ext :: 0 <= k < |args| && x.Fin? && Member(args[k], x) ==> InSome(r.value, x)
  {
    var result: seq<Interval> := [];
    var stack := args;
    InitialState(rev, args);
    while |stack| > 0
      invariant UnionState(rev, args, result, stack)
      decreases 2 * |stack| + |result|
    {
      var current := stack[0];
      ghost var pending := stack;
      stack := stack[1..];
      var k := 0;
      while k < |result|
        invariant 0 <= k <= |result|
        invariant forall j :: 0 <= j < k ==> result[j].ty == current.ty && !Intersects(result[j], current)
        decreases |result| - k
      {
        var united := BinaryUnion(rev, result[k], current);
        if united.Err? {
          MismatchedTypes(rev, args, result, pending, k);
          return Err(united.error);
        }
        if |united.value| == 1 {
          if rev != Legacy {
            MergeHoldsBoth(rev, result[k], current);
          }
          MergeStep(rev, args, result, pending, k, united.value[0]);
          result := result[..k] + result[k + 1..];
          stack := stack + [united.value[0]];
          k := -1;
          break;
        }
        k := k + 1;
      }
      if k >= |result| {
        KeepStep(rev, args, result, pending);
        result := result + [current];
      }
    }
    FinalState(rev, args, result);
    r := Ok(result);
  }
}
