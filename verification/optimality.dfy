/** What the closure computes, beyond the facts its loop keeps: it is the
    largest grid below the start grid that satisfies the triangle
    inequality, no entry of it exceeds the cost of a walk along the start
    grid, and every hop it stores pays for itself along the start grid. */
module Optimality {
  import opened Weight
  import opened ShortestPaths

  /** `l` is nowhere above `d` in the n-by-n block. */
  predicate Minorant(l: Grid, d: Grid, n: nat)
    requires Square(l, n) && Square(d, |d|) && n <= |d|
  {
    forall i, j :: 0 <= i < n && 0 <= j < n ==> LessEq(l[i][j], d[i][j])
  }

  /** The outer loop never goes below a grid that lies under its start and
      satisfies the triangle inequality. */
  lemma {:induction false} RelaxAbove(s: Tables, n: nat, k: nat, l: Grid)
    requires Shaped(s, n) && k <= n && Square(l, n) && Triangle(l, n) && Minorant(l, s.dist, n)
    ensures Minorant(l, Relax(s, n, k).dist, n)
    decreases k
  {
    if k > 0 {
      RelaxAbove(s, n, k - 1, l);
      RelaxAboveStep(s, n, k, l);
    }
  }

  /** One more round of the outer loop never goes below a grid that lies
      under it and satisfies the triangle inequality: the sum through the
      pivot is above it too. */
  lemma RelaxAboveStep(s: Tables, n: nat, k: nat, l: Grid)
    requires Shaped(s, n) && 0 < k <= n && Square(l, n) && Triangle(l, n)
    requires Minorant(l, Relax(s, n, k - 1).dist, n)
    ensures Minorant(l, Relax(s, n, k).dist, n)
  {
    var r := Relax(s, n, k - 1);
    var e := Relax(s, n, k);
    assert e == Pass(r, k - 1, n);
    forall i, j | 0 <= i < n && 0 <= j < n
      ensures LessEq(l[i][j], e.dist[i][j])
    {
      assert Via(l, i, j, k - 1);
      AddMonotone(l[i][k - 1], r.dist[i][k - 1], l[k - 1][j], r.dist[k - 1][j]);
    }
  }

  /** The closure is the largest grid below the start that satisfies the
      triangle inequality: it is one such grid, and it is above every other. */
  lemma ClosureGreatest(s: Tables, n: nat, l: Grid)
    requires Shaped(s, n) && Square(l, n) && Triangle(l, n) && Minorant(l, s.dist, n)
    ensures Minorant(l, Closure(s, n).dist, n)
  {
    RelaxAbove(s, n, n, l);
  }

  /** Every id of `p` is below n. */
  predicate Ids(p: seq<nat>, n: nat)
  {
    forall m :: 0 <= m < |p| ==> p[m] < n
  }

  /** The cost of walking the ids of `p` in order along `d`: the sum of the
      entries between consecutive ids, and 0 for fewer than two ids. */
  function Cost(d: Grid, p: seq<nat>): (c: Weight)
    requires Square(d, |d|) && Ids(p, |d|)
    ensures |p| == 2 ==> c == Add(d[p[0]][p[1]], Zero)
    decreases |p|
  {
    if |p| < 2 then Zero else Add(d[p[0]][p[1]], Cost(d, p[1..]))
  }

  /** A grid below `d0` that satisfies the triangle inequality is below the
      cost of every walk of at least one step along `d0`. */
  lemma {:induction false} BelowCost(d0: Grid, d: Grid, n: nat, p: seq<nat>)
    requires Square(d0, |d0|) && Square(d, |d0|) && n <= |d0|
    requires NoIncrease(d0, d) && Triangle(d, n)
    requires |p| >= 2 && Ids(p, n)
    ensures LessEq(d[p[0]][p[|p| - 1]], Cost(d0, p))
    decreases |p|
  {
    var last := p[|p| - 1];
    if |p| > 2 {
      var q := p[1..];
      BelowCost(d0, d, n, q);
      assert q[0] == p[1] && q[|q| - 1] == last;
      assert Via(d, p[0], last, p[1]);
      AddMonotone(d[p[0]][p[1]], d0[p[0]][p[1]], d[p[1]][last], Cost(d0, q));
      LessEqTrans(d[p[0]][last], Add(d[p[0]][p[1]], d[p[1]][last]), Cost(d0, p));
    }
  }

  /** The distance still to go from hop h toward j: nothing once h is j. */
  function Rest(d: Grid, h: nat, j: nat): Weight
    requires Square(d, |d|) && h < |d| && j < |d|
  {
    if h == j then Zero else d[h][j]
  }

  /** Every real hop pays for itself: the step from i to its hop h along
      `d0`, plus the distance still to go from h, is at most the entry for
      (i, j). */
  predicate HopsPay(d0: Grid, s: Tables, n: nat)
    requires Shaped(s, n) && Square(d0, |s.dist|)
  {
    forall i, j :: 0 <= i < n && 0 <= j < n ==> Pays(d0, s, n, i, j)
  }

  /** The hop stored for (i, j), when real, pays for itself. */
  predicate Pays(d0: Grid, s: Tables, n: nat, i: nat, j: nat)
    requires Shaped(s, n) && Square(d0, |s.dist|) && i < n && j < n
  {
    0 <= s.next[i][j] < n ==> LessEq(Add(d0[i][s.next[i][j]], Rest(s.dist, s.next[i][j], j)), s.dist[i][j])
  }

  /** The hop stored for two different cities never points back at the first. */
  predicate NoSelfHop(s: Tables, n: nat)
    requires Shaped(s, n)
  {
    forall i, j {:trigger s.next[i][j]} :: 0 <= i < n && 0 <= j < n && i != j ==> s.next[i][j] != i
  }

  /** A pass keeps every hop paying for itself. An improved cell takes the
      hop h toward k, which paid for the way to k; the way on from h to j
      is at most the way through k. */
  lemma PassPay(d0: Grid, s: Tables, k: nat, n: nat)
    requires Shaped(s, n) && k < n && Square(d0, |s.dist|) && HopsPay(d0, s, n)
    ensures HopsPay(d0, Pass(s, k, n), n)
  {
    var e := Pass(s, k, n);
    PassFixesPivot(s, k, n);
    PassBounds(s, k, n);
    forall i, j | 0 <= i < n && 0 <= j < n
      ensures Pays(d0, e, n, i, j)
    {
      var h := e.next[i][j];
      if 0 <= h < n {
        if Improves(s, k, i, j) {
          assert h == s.next[i][k];
          assert Pays(d0, s, n, i, k);
          if h != j && h != k {
            assert LessEq(e.dist[h][j], Add(s.dist[h][k], s.dist[k][j]));
          }
        } else {
          assert Pays(d0, s, n, i, j);
        }
      }
    }
  }

  /** A pass never stores a hop pointing back at its own row: the pass
      with pivot i does not improve row i. */
  lemma PassNoSelfHop(s: Tables, k: nat, n: nat)
    requires Shaped(s, n) && k < n && NoSelfHop(s, n)
    ensures NoSelfHop(Pass(s, k, n), n)
  {
    PassFixesPivot(s, k, n);
  }

  /** The outer loop keeps every hop paying for itself. */
  lemma {:induction false} RelaxPay(d0: Grid, s: Tables, n: nat, k: nat)
    requires Shaped(s, n) && k <= n && Square(d0, |s.dist|) && HopsPay(d0, s, n)
    ensures HopsPay(d0, Relax(s, n, k), n)
    decreases k
  {
    if k > 0 {
      RelaxPay(d0, s, n, k - 1);
      PassPay(d0, Relax(s, n, k - 1), k - 1, n);
    }
  }

  /** The outer loop never stores a hop pointing back at its own row. */
  lemma {:induction false} RelaxNoSelfHop(s: Tables, n: nat, k: nat)
    requires Shaped(s, n) && k <= n && NoSelfHop(s, n)
    ensures NoSelfHop(Relax(s, n, k), n)
    decreases k
  {
    if k > 0 {
      RelaxNoSelfHop(s, n, k - 1);
      RelaxNoSelfHopStep(s, n, k);
    }
  }

  /** One more round of the outer loop stores no hop pointing back at its row. */
  lemma RelaxNoSelfHopStep(s: Tables, n: nat, k: nat)
    requires Shaped(s, n) && 0 < k <= n && NoSelfHop(Relax(s, n, k - 1), n)
    ensures NoSelfHop(Relax(s, n, k), n)
  {
    PassNoSelfHop(Relax(s, n, k - 1), k - 1, n);
  }

  /** The hops of the closure pay for themselves along the start grid and
      never point back at their own row, when those of the start did. */
  lemma ClosureHops(s: Tables, n: nat)
    requires Shaped(s, n) && HopsPay(s.dist, s, n) && NoSelfHop(s, n)
    ensures HopsPay(s.dist, Closure(s, n), n) && NoSelfHop(Closure(s, n), n)
  {
    RelaxPay(s.dist, s, n, n);
    RelaxNoSelfHop(s, n, n);
  }

  /** Every finite entry between two different cities is positive. */
  predicate Positive(d: Grid, n: nat)
    requires Square(d, |d|) && n <= |d|
  {
    forall i, j :: 0 <= i < n && 0 <= j < n && i != j && d[i][j].Fin? ==> d[i][j].t > 0.0
  }

  /** With positive times, the hop from `at` toward j either is j or leads
      to a city strictly closer to j. */
  lemma HopDescends(d0: Grid, t: Tables, n: nat, at: nat, j: nat)
    requires Shaped(t, n) && Square(d0, |t.dist|) && Positive(d0, n)
    requires HopsPay(d0, t, n) && NoSelfHop(t, n) && HopsSound(t, n) && HopsCover(t, n)
    requires at < n && j < n && at != j && t.dist[at][j].Fin?
    ensures 0 <= t.next[at][j] < n && t.next[at][j] != at
    ensures t.next[at][j] != j ==> t.dist[t.next[at][j]][j].Fin? && t.dist[t.next[at][j]][j].t < t.dist[at][j].t
  {
    assert Pays(d0, t, n, at, j);
  }

  /** A set of ids below n has at most n elements. */
  lemma {:induction false} BoundedCard(s: set<int>, n: nat)
    requires forall x :: x in s ==> 0 <= x < n
    ensures |s| <= n
    decreases n
  {
    if n == 0 {
      assert forall x :: x !in s;
      assert s == {};
    } else {
      BoundedCard(s - {n - 1}, n - 1);
    }
  }

  /** A subset has no more elements than its superset. */
  lemma SubsetCard(a: set<int>, b: set<int>)
    requires a <= b
    ensures |a| <= |b|
  {
    assert b == a + (b - a);
    assert a * (b - a) == {};
  }

  /** The cities strictly closer to j than `v`. */
  function Closer(t: Tables, n: nat, j: nat, v: real): (c: set<int>)
    requires Shaped(t, n) && j < n
    ensures forall x :: x in c ==> 0 <= x < n
  {
    set x | 0 <= x < n && t.dist[x][j].Fin? && t.dist[x][j].t < v
  }

  /** A city at finite distance from j has at most n - 1 cities closer to
      j: itself is not among them. */
  lemma CloserBound(t: Tables, n: nat, at: nat, j: nat)
    requires Shaped(t, n) && at < n && j < n && t.dist[at][j].Fin?
    ensures |Closer(t, n, j, t.dist[at][j].t)| < n
  {
    var c := Closer(t, n, j, t.dist[at][j].t);
    BoundedCard(c + {at}, n);
  }

  /** One hop toward j removes at least the hop itself from the cities closer to j. */
  lemma CloserShrinks(t: Tables, n: nat, at: nat, h: nat, j: nat)
    requires Shaped(t, n) && at < n && h < n && j < n && t.dist[at][j].Fin? && t.dist[h][j].Fin?
    requires t.dist[h][j].t < t.dist[at][j].t
    ensures |Closer(t, n, j, t.dist[h][j].t)| < |Closer(t, n, j, t.dist[at][j].t)|
  {
    var a := Closer(t, n, j, t.dist[h][j].t);
    var b := Closer(t, n, j, t.dist[at][j].t);
    SubsetCard(a + {h}, b);
  }
}
