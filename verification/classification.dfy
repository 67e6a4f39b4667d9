/**
 * The nine classification getters. src/intervals.classification.ts, its tsc output
 * src/intervals.classification.js, src/js/intervals.classification.js and src/interval.js:625-712
 * define them with the same expressions, so one definition serves every revision.
 */
module Classification {
  import opened Numbers
  import opened Intervals

  /** isLeftBounded: from.value > -Infinity, which holds for every lower value but -Infinity itself. */
  function IsLeftBounded(i: Interval): (b: bool)
    ensures b <==> i.from.value != NegInf
  {
    Less(NegInf, i.from.value)
  }

  /** isRightBounded: to.value < +Infinity, which holds for every upper value but +Infinity itself. */
  function IsRightBounded(i: Interval): (b: bool)
    ensures b <==> i.to.value != PosInf
  {
    Less(i.to.value, PosInf)
  }

  /**
   * isBounded: from.value > -Infinity and to.value < +Infinity. Two finite values are bounded;
   * a bounded interval whose values are not reversed has two finite values.
   */
  function IsBounded(i: Interval): (b: bool)
    ensures b <==> IsLeftBounded(i) && IsRightBounded(i)
    ensures i.from.value.Fin? && i.to.value.Fin? ==> b
    ensures b && !Less(i.to.value, i.from.value) ==> i.from.value.Fin? && i.to.value.Fin?
  {
    Less(NegInf, i.from.value) && Less(i.to.value, PosInf)
  }

  /** isLeftClosed: the interval has a minimum. */
  predicate IsLeftClosed(i: Interval) {
    i.from.included
  }

  /** isRightClosed: the interval has a maximum. */
  predicate IsRightClosed(i: Interval) {
    i.to.included
  }

  /** isClosed: both endpoints included. */
  function IsClosed(i: Interval): (b: bool)
    ensures b <==> IsLeftClosed(i) && IsRightClosed(i)
  {
    i.from.included && i.to.included
  }

  /** isOpen: neither endpoint included; no interval is both open and closed. */
  function IsOpen(i: Interval): (b: bool)
    ensures b <==> !IsLeftClosed(i) && !IsRightClosed(i)
    ensures b ==> !IsClosed(i)
  {
    !i.from.included && !i.to.included
  }

  /**
   * isDegenerate: [a,a], or an integer interval one unit wide with exactly one end included.
   * For equal finite values it holds exactly when both ends are included; on floats the unit-gap
   * rule never fires.
   */
  function IsDegenerate(i: Interval): (b: bool)
    ensures i.from.value == i.to.value && i.from.value.Fin? ==> (b <==> IsClosed(i))
    ensures i.ty == Float ==> (b <==> IsClosed(i) && i.from.value == i.to.value)
    ensures i.ty == Integer && i.from.value.Fin? && Inc(i.from.value) == i.to.value ==>
              (b <==> i.from.included != i.to.included)
  {
    (IsClosed(i) && i.from.value == i.to.value)
    || (i.ty == Integer && Inc(i.from.value) == i.to.value && i.from.included != i.to.included)
  }

  /**
   * isEmpty: reversed values; equal values without both ends included; or an integer interval
   * one unit wide with both ends open. Reversed values are empty whatever the flags, equal values
   * are empty unless both ends are included, and on floats the unit-gap rule never fires.
   */
  function IsEmpty(i: Interval): (b: bool)
    ensures Less(i.to.value, i.from.value) ==> b
    ensures i.from.value == i.to.value ==> (b <==> !IsClosed(i))
    ensures i.ty == Float ==> (b <==> Less(i.to.value, i.from.value) || (i.from.value == i.to.value && !IsClosed(i)))
    ensures i.ty == Integer && i.from.value.Fin? && Inc(i.from.value) == i.to.value ==> (b <==> IsOpen(i))
  {
    Less(i.to.value, i.from.value)
    || (i.from.value == i.to.value && (!i.from.included || !i.to.included))
    || (i.ty == Integer && Inc(i.from.value) == i.to.value && !i.from.included && !i.to.included)
  }

  /** With a finite lower value, no interval is both empty and degenerate. */
  lemma EmptyExcludesDegenerate(i: Interval)
    requires i.from.value.Fin?
    ensures !(IsEmpty(i) && IsDegenerate(i))
  {
  }

  /** Because -Infinity + 1 = -Infinity, the integer interval (-Infinity, -Infinity] is both empty and degenerate. */
  lemma MinusInfinityEmptyAndDegenerate()
    ensures var i := Interval(Integer, Endpoint(NegInf, false), Endpoint(NegInf, true));
            IsEmpty(i) && IsDegenerate(i)
  {
  }

  /** [2,1] is empty; the integer interval (1,2] is degenerate and not empty; the float (1,2] is neither. */
  lemma ClassificationExamples()
    ensures IsEmpty(Interval(Float, Endpoint(Fin(2.0), true), Endpoint(Fin(1.0), true)))
    ensures IsDegenerate(Interval(Integer, Endpoint(Fin(1.0), false), Endpoint(Fin(2.0), true)))
    ensures !IsEmpty(Interval(Integer, Endpoint(Fin(1.0), false), Endpoint(Fin(2.0), true)))
    ensures !IsDegenerate(Interval(Float, Endpoint(Fin(1.0), false), Endpoint(Fin(2.0), true)))
    ensures IsEmpty(Interval(Integer, Endpoint(Fin(1.0), false), Endpoint(Fin(2.0), false)))
  {
  }
}
