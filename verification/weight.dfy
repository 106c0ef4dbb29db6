/** Travel times and the positive-infinity sentinel of the weight grids. */
module Weight {

  /** A travel time as the source stores it: a non-negative number. */
  type Time = r: real | 0.0 <= r

  /** A cell of a weight grid: a finite time, or `Inf` for "no connection".
      `Inf` plays the part of `Double.POSITIVE_INFINITY` / `np.inf`. */
  datatype Weight = Fin(t: Time) | Inf

  const Zero: Weight := Fin(0.0)

  /** IEEE addition on non-negative values and positive infinity:
      infinity absorbs every other summand. */
  function Add(a: Weight, b: Weight): Weight
  {
    if a.Fin? && b.Fin? then Fin(a.t + b.t) else Inf
  }

  /** IEEE `<`: nothing is below `Inf`, and `Inf` is below nothing. */
  predicate Less(a: Weight, b: Weight)
  {
    a.Fin? && (b.Inf? || a.t < b.t)
  }

  /** The total order induced by `Less`. */
  predicate LessEq(a: Weight, b: Weight)
  {
    !Less(b, a)
  }

  /** `Math.max` on two finite times. */
  function MaxTime(a: Time, b: Time): Time
  {
    if a < b then b else a
  }

  lemma LessEqTrans(a: Weight, b: Weight, c: Weight)
    requires LessEq(a, b) && LessEq(b, c)
    ensures LessEq(a, c)
  {
  }

  lemma AddMonotone(a: Weight, b: Weight, c: Weight, d: Weight)
    requires LessEq(a, b) && LessEq(c, d)
    ensures LessEq(Add(a, c), Add(b, d))
  {
  }

  lemma AddAssoc(a: Weight, b: Weight, c: Weight)
    ensures Add(Add(a, b), c) == Add(a, Add(b, c))
  {
  }

  /** Adding a non-negative weight never makes a sum smaller. */
  lemma AddGrows(a: Weight, b: Weight)
    ensures LessEq(a, Add(a, b)) && LessEq(b, Add(a, b))
  {
  }
}
