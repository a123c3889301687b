/**
 * Intervals of the ray parameter (src/interval.rs). Bounds may be infinite, as the
 * source's `f32::INFINITY` bounds are; the value tested against an interval is finite.
 */
module Intervals {

  /** A real extended with the two infinities. */
  datatype Ext = NegInf | Finite(value: real) | PosInf

  /** `a <= b` on the extended reals. */
  predicate AtMost(a: Ext, b: Ext) {
    match (a, b)
    case (NegInf, _) => true
    case (_, PosInf) => true
    case (Finite(x), Finite(y)) => x <= y
    case _ => false
  }

  /** `a < b` on the extended reals. */
  predicate Below(a: Ext, b: Ext) {
    AtMost(a, b) && a != b
  }

  datatype Interval = Interval(min: Ext, max: Ext)
  {
    /** `min <= x <= max`. */
    predicate Contains(x: real) {
      AtMost(min, Finite(x)) && AtMost(Finite(x), max)
    }

    /** `min < x < max`. */
    predicate Surrounds(x: real) {
      Below(min, Finite(x)) && Below(Finite(x), max)
    }

    /** `min` below the interval, `max` above it, `x` itself inside. */
    function Clamp(x: real): (r: Ext)
      ensures r == min || r == max || r == Finite(x)
    {
      if Below(Finite(x), min) then min
      else if Below(max, Finite(x)) then max
      else Finite(x)
    }
  }

  /** `Interval::default()`: from plus to minus infinity, which holds no value. */
  function Default(): (i: Interval)
    ensures forall x :: !i.Contains(x) && !i.Surrounds(x)
  {
    Interval(PosInf, NegInf)
  }

  /** `Interval::empty()`: the same bounds as the default, built through `new`. */
  function Empty(): (i: Interval)
    ensures forall x :: !i.Contains(x) && !i.Surrounds(x)
  {
    New(PosInf, NegInf)
  }

  /** `Interval::universe()`: from minus to plus infinity, which surrounds every value. */
  function Universe(): (i: Interval)
    ensures forall x :: i.Contains(x) && i.Surrounds(x)
  {
    New(NegInf, PosInf)
  }

  /** `Interval::new`. */
  function New(min: Ext, max: Ext): (i: Interval)
    ensures i.min == min && i.max == max
  {
    Interval(min, max)
  }

  lemma AtMostTotal(a: Ext, b: Ext)
    ensures AtMost(a, b) || AtMost(b, a)
    ensures AtMost(a, b) && AtMost(b, a) ==> a == b
  {
  }

  lemma AtMostTransitive(a: Ext, b: Ext, c: Ext)
    requires AtMost(a, b) && AtMost(b, c)
    ensures AtMost(a, c)
  {
  }

  /** A surrounded value is contained; the converse fails only at the two ends. */
  lemma SurroundsContains(i: Interval, x: real)
    ensures i.Surrounds(x) ==> i.Contains(x)
    ensures i.Contains(x) && !i.Surrounds(x) ==> i.min == Finite(x) || i.max == Finite(x)
  {
  }

  /** The empty and default intervals hold nothing; the universe surrounds every value. */
  lemma EmptyAndUniverse(x: real)
    ensures Default() == Empty()
    ensures !Empty().Contains(x) && !Empty().Surrounds(x)
    ensures Universe().Surrounds(x) && Universe().Contains(x)
  {
  }

  /**
   * Clamping keeps a contained value and only a contained value; on a non-empty interval
   * the result lies within the bounds, and clamping it again changes nothing.
   */
  lemma {:induction false} ClampSpec(i: Interval, x: real)
    ensures i.Clamp(x) == Finite(x) <==> i.Contains(x)
    ensures AtMost(i.min, i.max) ==> AtMost(i.min, i.Clamp(x)) && AtMost(i.Clamp(x), i.max)
    ensures AtMost(i.min, i.max) && i.Clamp(x).Finite? ==> i.Clamp(i.Clamp(x).value) == i.Clamp(x)
  {
    AtMostTotal(Finite(x), i.min);
    AtMostTotal(Finite(x), i.max);
    if AtMost(i.min, i.max) {
      if Below(Finite(x), i.min) {
        AtMostTotal(i.min, i.max);
      } else if Below(i.max, Finite(x)) {
        AtMostTotal(i.min, i.max);
      }
    }
  }

  /** Narrowing the upper end to `c` surrounds exactly the old values below `c`. */
  lemma SurroundsNarrowed(i: Interval, c: Ext, x: real)
    requires AtMost(c, i.max)
    ensures Interval(i.min, c).Surrounds(x) <==> i.Surrounds(x) && Below(Finite(x), c)
  {
  }
}
