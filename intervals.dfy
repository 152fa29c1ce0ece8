/** Numeric ranges `[min, max]` whose bounds may be infinite (src/core/math/interval.rs). */
module Intervals {

  /** An f64 bound: a finite value or one of the two infinities. */
  datatype Ext = NegInf | Fin(v: real) | PosInf

  /** Strict order on extended reals. */
  predicate Lt(a: Ext, b: Ext) {
    match (a, b)
    case (NegInf, NegInf) => false
    case (NegInf, _) => true
    case (Fin(x), Fin(y)) => x < y
    case (Fin(_), PosInf) => true
    case (_, _) => false
  }

  predicate Le(a: Ext, b: Ext) {
    a == b || Lt(a, b)
  }

  datatype Interval = Interval(min: Ext, max: Ext)

  /** `value >= min && value <= max`, over the order extended by the infinities. */
  predicate Contains(i: Interval, value: real)
    ensures Contains(i, value) <==> Le(i.min, Fin(value)) && Le(Fin(value), i.max)
    ensures i.min.Fin? && i.max.Fin? ==> (Contains(i, value) <==> i.min.v <= value <= i.max.v)
  {
    !Lt(Fin(value), i.min) && !Lt(i.max, Fin(value))
  }

  /** `min < value < max` */
  predicate Surrounds(i: Interval, value: real)
    ensures i.min.Fin? && i.max.Fin? ==> (Surrounds(i, value) <==> i.min.v < value < i.max.v)
    ensures i.min == NegInf && i.max == PosInf ==> Surrounds(i, value)
  {
    Lt(i.min, Fin(value)) && Lt(Fin(value), i.max)
  }

  /** Clamp a value into the interval; the result is a bound when the value lies outside. */
  function Clamp(i: Interval, value: real): (r: Ext)
    ensures Contains(i, value) ==> r == Fin(value)
    ensures Lt(Fin(value), i.min) ==> r == i.min
    ensures !Lt(Fin(value), i.min) && Lt(i.max, Fin(value)) ==> r == i.max
  {
    if Lt(Fin(value), i.min) then i.min
    else if Lt(i.max, Fin(value)) then i.max
    else Fin(value)
  }

  /** The sentinel that nothing satisfies: `(+inf, -inf)`. */
  function Empty(): (i: Interval)
    ensures forall v: real :: !Contains(i, v) && !Surrounds(i, v)
  {
    Interval(PosInf, NegInf)
  }

  /** The sentinel without restriction: `(-inf, +inf)`. */
  function Universe(): (i: Interval)
    ensures forall v: real :: Contains(i, v) && Surrounds(i, v)
  {
    Interval(NegInf, PosInf)
  }

  /** With finite bounds, `contains` is the closed range and `surrounds` the open one. */
  lemma FiniteBounds(a: real, b: real, v: real)
    ensures Contains(Interval(Fin(a), Fin(b)), v) <==> a <= v <= b
    ensures Surrounds(Interval(Fin(a), Fin(b)), v) <==> a < v < b
  {
  }

  /** `surrounds` is strictly stronger than `contains`: it excludes a finite minimum. */
  lemma SurroundsImpliesContains(i: Interval, v: real)
    ensures Surrounds(i, v) ==> Contains(i, v)
    ensures i.min == Fin(v) ==> !Surrounds(i, v) && (Le(Fin(v), i.max) ==> Contains(i, v))
  {
  }

  /** Any interval whose minimum exceeds its maximum is empty. */
  lemma InvertedIsEmpty(i: Interval, v: real)
    requires Lt(i.max, i.min)
    ensures !Contains(i, v) && !Surrounds(i, v)
  {
  }

  /** On a non-empty interval (`min <= max`, neither bound the wrong infinity), clamping
      lands inside it and is idempotent. */
  lemma ClampInside(i: Interval, v: real)
    requires Le(i.min, i.max) && i.min != PosInf && i.max != NegInf
    ensures Clamp(i, v).Fin?
    ensures Contains(i, Clamp(i, v).v)
    ensures Clamp(i, Clamp(i, v).v) == Clamp(i, v)
  {
  }
}
