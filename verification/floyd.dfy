/** The Floyd-Warshall recurrence shared by the Java engine (`Grafo.floyd`)
    and the Python script (`floyd_warshall`): a distance grid and a next-hop
    grid, relaxed through every pivot k in [0, n), k outermost. */
module ShortestPaths {
  import opened Weight

  type Grid = seq<seq<Weight>>
  type Hops = seq<seq<int>>

  /** `g` is a c-by-c grid. */
  predicate Square<T>(g: seq<seq<T>>, c: nat)
  {
    |g| == c && forall i :: 0 <= i < c ==> |g[i]| == c
  }

  /** The c-by-c grid holding `v` everywhere. */
  function Fill<T>(c: nat, v: T): (r: seq<seq<T>>)
    ensures Square(r, c)
    ensures forall i, j :: 0 <= i < c && 0 <= j < c ==> r[i][j] == v
  {
    seq(c, i => seq(c, j => v))
  }

  /** `g` with cell [i][j] replaced by `v`. */
  function SetCell<T>(g: seq<seq<T>>, i: nat, j: nat, v: T): (r: seq<seq<T>>)
    requires Square(g, |g|) && i < |g| && j < |g|
    ensures Square(r, |g|)
    ensures r[i][j] == v
    ensures forall a, b :: 0 <= a < |g| && 0 <= b < |g| && (a != i || b != j) ==> r[a][b] == g[a][b]
  {
    g[i := g[i][j := v]]
  }

  /** Two c-by-c grids that agree on every cell are equal. */
  lemma SquareExt<T>(a: seq<seq<T>>, b: seq<seq<T>>, c: nat)
    requires Square(a, c) && Square(b, c)
    requires forall i, j :: 0 <= i < c && 0 <= j < c ==> a[i][j] == b[i][j]
    ensures a == b
  {
    forall i | 0 <= i < c
      ensures a[i] == b[i]
    {
      assert forall j :: 0 <= j < c ==> a[i][j] == b[i][j];
    }
  }

  /** The distance grid and the next-hop grid the recurrence works on. */
  datatype Tables = Tables(dist: Grid, next: Hops)

  /** Both grids are c-by-c, c = |dist|, and the first n ids are the ones relaxed. */
  predicate Shaped(s: Tables, n: nat)
  {
    Square(s.dist, |s.dist|) && Square(s.next, |s.dist|) && n <= |s.dist|
  }

  /** Going from i to j through k is strictly shorter than the current entry. */
  predicate Improves(s: Tables, k: nat, i: nat, j: nat)
    requires Shaped(s, 0) && i < |s.dist| && j < |s.dist| && k < |s.dist|
  {
    Less(Add(s.dist[i][k], s.dist[k][j]), s.dist[i][j])
  }

  /** One round of the outer loop, with pivot k: every cell of the n-by-n block
      that improves through k takes the sum and the first hop toward k. */
  function Pass(s: Tables, k: nat, n: nat): (r: Tables)
    requires Shaped(s, n) && k < n
    ensures Shaped(r, n) && |r.dist| == |s.dist|
  {
    var c := |s.dist|;
    Tables(
      seq(c, i requires 0 <= i < c =>
        seq(c, j requires 0 <= j < c =>
          if i < n && j < n && Improves(s, k, i, j) then Add(s.dist[i][k], s.dist[k][j]) else s.dist[i][j])),
      seq(c, i requires 0 <= i < c =>
        seq(c, j requires 0 <= j < c =>
          if i < n && j < n && Improves(s, k, i, j) then s.next[i][k] else s.next[i][j])))
  }

  /** Going from i to j directly is no longer than going through m. */
  predicate Via(d: Grid, i: nat, j: nat, m: nat)
    requires Square(d, |d|) && i < |d| && j < |d| && m < |d|
  {
    LessEq(d[i][j], Add(d[i][m], d[m][j]))
  }

  /** d[i][j] <= d[i][m] + d[m][j] for every i, j < n and every pivot m < k. */
  predicate TriangleUpTo(d: Grid, n: nat, k: nat)
    requires Square(d, |d|) && n <= |d| && k <= n
  {
    forall i, j, m :: 0 <= i < n && 0 <= j < n && 0 <= m < k ==> Via(d, i, j, m)
  }

  /** The triangle inequality over the whole n-by-n block. */
  predicate Triangle(d: Grid, n: nat)
    requires Square(d, |d|) && n <= |d|
  {
    TriangleUpTo(d, n, n)
  }

  /** No cell of `e` is larger than the same cell of `d`. */
  predicate NoIncrease(d: Grid, e: Grid)
    requires Square(d, |d|) && Square(e, |d|)
  {
    forall i, j {:trigger e[i][j]} :: 0 <= i < |d| && 0 <= j < |d| ==> LessEq(e[i][j], d[i][j])
  }

  /** `r` agrees with `s` on every cell outside the n-by-n block. */
  predicate SameOutside(s: Tables, r: Tables, n: nat)
    requires Shaped(s, n) && Shaped(r, n) && |r.dist| == |s.dist|
  {
    && (forall i, j {:trigger r.dist[i][j]} :: 0 <= i < |s.dist| && 0 <= j < |s.dist| && (n <= i || n <= j) ==>
         r.dist[i][j] == s.dist[i][j])
    && (forall i, j {:trigger r.next[i][j]} :: 0 <= i < |s.dist| && 0 <= j < |s.dist| && (n <= i || n <= j) ==>
         r.next[i][j] == s.next[i][j])
  }

  /** Every hop in the block is an id below n or the sentinel -1,
      and a real hop is only stored for a finite distance. */
  predicate HopsSound(s: Tables, n: nat)
    requires Shaped(s, n)
  {
    forall i, j {:trigger s.next[i][j]} :: 0 <= i < n && 0 <= j < n ==>
      -1 <= s.next[i][j] < n && (s.next[i][j] != -1 ==> s.dist[i][j].Fin?)
  }

  /** Off the diagonal, a finite distance always has a real hop. */
  predicate HopsCover(s: Tables, n: nat)
    requires Shaped(s, n)
  {
    forall i, j {:trigger s.next[i][j]} :: 0 <= i < n && 0 <= j < n && i != j && s.dist[i][j].Fin? ==> s.next[i][j] != -1
  }

  /** On the diagonal, a finite distance always has a real hop. */
  predicate DiagCover(s: Tables, n: nat)
    requires Shaped(s, n)
  {
    forall i {:trigger s.next[i][i]} :: 0 <= i < n && s.dist[i][i].Fin? ==> s.next[i][i] != -1
  }

  /** A real hop other than the target itself leads to a city from which
      the target is at finite distance: chasing hops from a finite cell never
      meets -1. */
  predicate HopsProgress(s: Tables, n: nat)
    requires Shaped(s, n)
  {
    forall i, j {:trigger s.next[i][j]} :: 0 <= i < n && 0 <= j < n && 0 <= s.next[i][j] < n && s.next[i][j] != j ==>
      s.dist[s.next[i][j]][j].Fin?
  }

  /** Row k and column k do not move during the pass with pivot k,
      because no weight is negative. */
  lemma PassFixesPivot(s: Tables, k: nat, n: nat)
    requires Shaped(s, n) && k < n
    ensures forall r :: 0 <= r < n ==>
      && !Improves(s, k, r, k) && !Improves(s, k, k, r)
      && Pass(s, k, n).dist[r][k] == s.dist[r][k] && Pass(s, k, n).dist[k][r] == s.dist[k][r]
      && Pass(s, k, n).next[r][k] == s.next[r][k] && Pass(s, k, n).next[k][r] == s.next[k][r]
  {
  }

  /** A cell after a pass is no larger than before, and no larger than the
      path through the pivot. */
  lemma PassBounds(s: Tables, k: nat, n: nat)
    requires Shaped(s, n) && k < n
    ensures NoIncrease(s.dist, Pass(s, k, n).dist)
    ensures forall i, j :: 0 <= i < n && 0 <= j < n ==>
      LessEq(Pass(s, k, n).dist[i][j], Add(s.dist[i][k], s.dist[k][j]))
  {
  }

  /** The four-way case split of the triangle step: whichever of the two
      candidates e[i][m] and e[m][j] took, e[i][j] stays below their sum. */
  lemma TriangleCases(dij: Weight, dik: Weight, dkj: Weight, dim: Weight, dmj: Weight,
                      dkm: Weight, dmk: Weight, eij: Weight, eim: Weight, emj: Weight)
    requires LessEq(eij, dij) && LessEq(eij, Add(dik, dkj))
    requires LessEq(dij, Add(dim, dmj))
    requires LessEq(dkj, Add(dkm, dmj))
    requires LessEq(dik, Add(dim, dmk))
    requires eim == dim || eim == Add(dik, dkm)
    requires emj == dmj || emj == Add(dmk, dkj)
    ensures LessEq(eij, Add(eim, emj))
  {
    if eim == dim && emj == dmj {
      LessEqTrans(eij, dij, Add(dim, dmj));
    } else if eim == dim {
      // e[i][j] <= d[i][k] + d[k][j] <= (d[i][m] + d[m][k]) + d[k][j]
      AddMonotone(dik, Add(dim, dmk), dkj, dkj);
      AddAssoc(dim, dmk, dkj);
      LessEqTrans(eij, Add(dik, dkj), Add(eim, emj));
    } else if emj == dmj {
      // e[i][j] <= d[i][k] + d[k][j] <= d[i][k] + (d[k][m] + d[m][j])
      AddMonotone(dik, dik, dkj, Add(dkm, dmj));
      AddAssoc(dik, dkm, dmj);
      LessEqTrans(eij, Add(dik, dkj), Add(eim, emj));
    } else {
      // e[i][j] <= d[i][k] + d[k][j] <= d[i][k] + d[k][m] + d[m][k] + d[k][j]
      AddGrows(dkj, Add(dkm, dmk));
      AddMonotone(dik, dik, dkj, Add(Add(dkm, dmk), dkj));
      AddAssoc(dkm, dmk, dkj);
      AddAssoc(dik, dkm, Add(dmk, dkj));
      LessEqTrans(eij, Add(dik, dkj), Add(eim, emj));
    }
  }

  /** The pass with pivot k - 1 extends the triangle inequality from the
      pivots below k - 1 to the pivots below k. */
  lemma {:induction false} PassTriangle(s: Tables, k: nat, n: nat)
    requires Shaped(s, n) && 0 < k <= n && TriangleUpTo(s.dist, n, k - 1)
    ensures TriangleUpTo(Pass(s, k - 1, n).dist, n, k)
  {
    var p := k - 1;
    var d := s.dist;
    var e := Pass(s, p, n).dist;
    PassFixesPivot(s, p, n);
    PassBounds(s, p, n);
    forall i, j, m | 0 <= i < n && 0 <= j < n && 0 <= m < k
      ensures Via(e, i, j, m)
    {
      if m == p {
        assert e[i][p] == d[i][p] && e[p][j] == d[p][j];
      } else {
        assert Via(d, i, j, m) && Via(d, p, j, m) && Via(d, i, p, m);
        TriangleCases(d[i][j], d[i][p], d[p][j], d[i][m], d[m][j], d[p][m], d[m][p],
                      e[i][j], e[i][m], e[m][j]);
      }
    }
  }

  /** A pass keeps every hop a valid id or -1, real hops on finite cells only. */
  lemma PassSound(s: Tables, k: nat, n: nat)
    requires Shaped(s, n) && k < n && HopsSound(s, n)
    ensures HopsSound(Pass(s, k, n), n)
  {
    PassFixesPivot(s, k, n);
  }

  /** A pass keeps a real hop on every finite cell, on the diagonal too when
      it started that way. */
  lemma PassCover(s: Tables, k: nat, n: nat)
    requires Shaped(s, n) && k < n && HopsCover(s, n)
    ensures HopsCover(Pass(s, k, n), n)
    ensures DiagCover(s, n) ==> DiagCover(Pass(s, k, n), n)
  {
    PassFixesPivot(s, k, n);
  }

  /** A pass keeps every hop pointing at a city with a finite way on: an
      improved cell takes the hop toward k, from which k, and then j, is
      reachable. */
  lemma PassProgress(s: Tables, k: nat, n: nat)
    requires Shaped(s, n) && k < n && HopsProgress(s, n)
    ensures HopsProgress(Pass(s, k, n), n)
  {
    var e := Pass(s, k, n);
    PassFixesPivot(s, k, n);
    PassBounds(s, k, n);
    forall i, j | 0 <= i < n && 0 <= j < n && 0 <= e.next[i][j] < n && e.next[i][j] != j
      ensures e.dist[e.next[i][j]][j].Fin?
    {
      var h := e.next[i][j];
      if Improves(s, k, i, j) {
        assert h == s.next[i][k] && s.dist[i][k].Fin? && s.dist[k][j].Fin?;
        if h == k {
          assert e.dist[k][j] == s.dist[k][j];
        } else {
          assert s.dist[h][k].Fin?;
          assert LessEq(e.dist[h][j], Add(s.dist[h][k], s.dist[k][j]));
        }
      } else {
        assert h == s.next[i][j] && s.dist[h][j].Fin?;
        assert LessEq(e.dist[h][j], s.dist[h][j]);
      }
    }
  }

  /** A grid that already satisfies the triangle inequality is left alone. */
  lemma PassIdle(s: Tables, k: nat, n: nat)
    requires Shaped(s, n) && k < n
    ensures Triangle(s.dist, n) ==> Pass(s, k, n) == s
  {
    if Triangle(s.dist, n) {
      var r := Pass(s, k, n);
      forall i, j | 0 <= i < n && 0 <= j < n
        ensures !Improves(s, k, i, j)
      {
        assert Via(s.dist, i, j, k);
      }
      SquareExt(r.dist, s.dist, |s.dist|);
      SquareExt(r.next, s.next, |s.dist|);
    }
  }

  /** What the outer loop promises after pivots 0 .. k-1, starting from `s`:
      the shape and the cells outside the block are kept, no cell grows,
      the triangle inequality holds through every pivot passed, the hop
      invariants survive, and a grid already closed is not touched. */
  predicate Relaxed(s: Tables, r: Tables, n: nat, k: nat)
    requires Shaped(s, n) && k <= n
  {
    && Shaped(r, n) && |r.dist| == |s.dist|
    && SameOutside(s, r, n)
    && NoIncrease(s.dist, r.dist)
    && TriangleUpTo(r.dist, n, k)
    && (HopsSound(s, n) ==> HopsSound(r, n))
    && (HopsCover(s, n) ==> HopsCover(r, n))
    && (HopsCover(s, n) && DiagCover(s, n) ==> DiagCover(r, n))
    && (HopsProgress(s, n) ==> HopsProgress(r, n))
    && (Triangle(s.dist, n) ==> r == s)
  }

  /** The outer loop run for pivots 0 .. k-1. */
  function Relax(s: Tables, n: nat, k: nat): (r: Tables)
    requires Shaped(s, n) && k <= n
    ensures Shaped(r, n) && |r.dist| == |s.dist|
    decreases k
  {
    if k == 0 then s else Pass(Relax(s, n, k - 1), k - 1, n)
  }

  /** The facts the outer loop keeps, pivot by pivot. */
  lemma RelaxFacts(s: Tables, n: nat, k: nat)
    requires Shaped(s, n) && k <= n
    ensures Relaxed(s, Relax(s, n, k), n, k)
  {
    RelaxOutside(s, n, k);
    RelaxNoIncrease(s, n, k);
    RelaxTriangle(s, n, k);
    if HopsSound(s, n) {
      RelaxSound(s, n, k);
    }
    if HopsCover(s, n) {
      RelaxCover(s, n, k);
    }
    if HopsProgress(s, n) {
      RelaxProgress(s, n, k);
    }
    RelaxIdle(s, n, k);
  }

  /** The outer loop keeps the cells outside the block. */
  lemma {:induction false} RelaxOutside(s: Tables, n: nat, k: nat)
    requires Shaped(s, n) && k <= n
    ensures SameOutside(s, Relax(s, n, k), n)
    decreases k
  {
    if k > 0 {
      var p := Relax(s, n, k - 1);
      RelaxOutside(s, n, k - 1);
      PassOutside(p, k - 1, n);
      SameOutsideTrans(s, p, Pass(p, k - 1, n), n);
    }
  }

  /** The outer loop lowers no cell. */
  lemma {:induction false} RelaxNoIncrease(s: Tables, n: nat, k: nat)
    requires Shaped(s, n) && k <= n
    ensures NoIncrease(s.dist, Relax(s, n, k).dist)
    decreases k
  {
    if k > 0 {
      var p := Relax(s, n, k - 1);
      RelaxNoIncrease(s, n, k - 1);
      PassBounds(p, k - 1, n);
      NoIncreaseTrans(s.dist, p.dist, Pass(p, k - 1, n).dist);
    }
  }

  /** After pivots 0 .. k-1 the triangle inequality holds through each of them. */
  lemma {:induction false} RelaxTriangle(s: Tables, n: nat, k: nat)
    requires Shaped(s, n) && k <= n
    ensures TriangleUpTo(Relax(s, n, k).dist, n, k)
    decreases k
  {
    if k > 0 {
      RelaxTriangle(s, n, k - 1);
      PassTriangle(Relax(s, n, k - 1), k, n);
    }
  }

  /** The outer loop keeps every hop a valid id or -1, real hops on finite cells only. */
  lemma {:induction false} RelaxSound(s: Tables, n: nat, k: nat)
    requires Shaped(s, n) && k <= n && HopsSound(s, n)
    ensures HopsSound(Relax(s, n, k), n)
    decreases k
  {
    if k > 0 {
      RelaxSound(s, n, k - 1);
      PassSound(Relax(s, n, k - 1), k - 1, n);
    }
  }

  /** The outer loop keeps a real hop on every finite cell, on the diagonal
      too when it started that way. */
  lemma {:induction false} RelaxCover(s: Tables, n: nat, k: nat)
    requires Shaped(s, n) && k <= n && HopsCover(s, n)
    ensures HopsCover(Relax(s, n, k), n)
    ensures DiagCover(s, n) ==> DiagCover(Relax(s, n, k), n)
    decreases k
  {
    if k > 0 {
      RelaxCover(s, n, k - 1);
      PassCover(Relax(s, n, k - 1), k - 1, n);
    }
  }

  /** The outer loop keeps every hop pointing at a city with a finite way on. */
  lemma {:induction false} RelaxProgress(s: Tables, n: nat, k: nat)
    requires Shaped(s, n) && k <= n && HopsProgress(s, n)
    ensures HopsProgress(Relax(s, n, k), n)
    decreases k
  {
    if k > 0 {
      RelaxProgress(s, n, k - 1);
      PassProgress(Relax(s, n, k - 1), k - 1, n);
    }
  }

  /** Tables already closed under the triangle inequality come out unchanged. */
  lemma {:induction false} RelaxIdle(s: Tables, n: nat, k: nat)
    requires Shaped(s, n) && k <= n
    ensures Triangle(s.dist, n) ==> Relax(s, n, k) == s
    decreases k
  {
    if k > 0 {
      RelaxIdle(s, n, k - 1);
      PassIdle(s, k - 1, n);
    }
  }

  /** A cell at 0 never improves, since no sum of non-negative times is below
      0: a pass keeps its distance and its hop. */
  lemma PassKeepsZero(s: Tables, k: nat, n: nat, x: nat, y: nat)
    requires Shaped(s, n) && k < n && x < |s.dist| && y < |s.dist| && s.dist[x][y] == Zero
    ensures Pass(s, k, n).dist[x][y] == Zero && Pass(s, k, n).next[x][y] == s.next[x][y]
  {
    if x < n && y < n {
      assert !Improves(s, k, x, y);
    }
  }

  /** The outer loop keeps a cell at 0 and its hop as they were. */
  lemma {:induction false} RelaxKeepsZero(s: Tables, n: nat, k: nat, x: nat, y: nat)
    requires Shaped(s, n) && k <= n && x < |s.dist| && y < |s.dist| && s.dist[x][y] == Zero
    ensures Relax(s, n, k).dist[x][y] == Zero && Relax(s, n, k).next[x][y] == s.next[x][y]
    decreases k
  {
    if k > 0 {
      RelaxKeepsZero(s, n, k - 1, x, y);
      PassKeepsZero(Relax(s, n, k - 1), k - 1, n, x, y);
    }
  }

  /** A pass leaves every cell outside the n-by-n block alone. */
  lemma PassOutside(s: Tables, k: nat, n: nat)
    requires Shaped(s, n) && k < n
    ensures SameOutside(s, Pass(s, k, n), n)
  {
  }

  /** `SameOutside` composes. */
  lemma SameOutsideTrans(s: Tables, p: Tables, r: Tables, n: nat)
    requires Shaped(s, n) && Shaped(p, n) && Shaped(r, n) && |p.dist| == |s.dist| && |r.dist| == |s.dist|
    requires SameOutside(s, p, n) && SameOutside(p, r, n)
    ensures SameOutside(s, r, n)
  {
  }

  /** `NoIncrease` composes. */
  lemma NoIncreaseTrans(a: Grid, b: Grid, e: Grid)
    requires Square(a, |a|) && Square(b, |a|) && Square(e, |a|)
    requires NoIncrease(a, b) && NoIncrease(b, e)
    ensures NoIncrease(a, e)
  {
    forall i, j | 0 <= i < |a| && 0 <= j < |a|
      ensures LessEq(e[i][j], a[i][j])
    {
      LessEqTrans(e[i][j], b[i][j], a[i][j]);
    }
  }

  /** The whole outer loop: every pivot in [0, n). */
  function Closure(s: Tables, n: nat): (r: Tables)
    requires Shaped(s, n)
    ensures Relaxed(s, r, n, n)
  {
    RelaxFacts(s, n, n);
    Relax(s, n, n)
  }

  /** The innermost loop of the in-place recurrence: row i, pivot k, cells
      overwritten as soon as they improve. */
  method RowInPlace(d0: Grid, nx0: Hops, k: nat, i: nat, n: nat) returns (d: Grid, nx: Hops)
    requires Shaped(Tables(d0, nx0), n) && k < n && i < n
    ensures Square(d, |d0|) && Square(nx, |d0|)
    ensures forall a, b :: 0 <= a < |d0| && 0 <= b < |d0| && a != i ==> d[a][b] == d0[a][b] && nx[a][b] == nx0[a][b]
    ensures forall b :: 0 <= b < |d0| ==>
      d[i][b] == Pass(Tables(d0, nx0), k, n).dist[i][b] && nx[i][b] == Pass(Tables(d0, nx0), k, n).next[i][b]
  {
    ghost var target := Pass(Tables(d0, nx0), k, n);
    PassFixesPivot(Tables(d0, nx0), k, n);
    var c := |d0|;
    d, nx := d0, nx0;
    var j := 0;
    while j < n
      invariant j <= n
      invariant Square(d, c) && Square(nx, c)
      invariant forall a, b :: 0 <= a < c && 0 <= b < c && a != i ==> d[a][b] == d0[a][b] && nx[a][b] == nx0[a][b]
      invariant forall b :: 0 <= b < c ==>
        d[i][b] == (if b < j then target.dist[i][b] else d0[i][b]) &&
        nx[i][b] == (if b < j then target.next[i][b] else nx0[i][b])
    {
      assert d[i][k] == d0[i][k] && d[k][j] == d0[k][j] && nx[i][k] == nx0[i][k];
      if Less(Add(d[i][k], d[k][j]), d[i][j]) {
        d := d[i := d[i][j := Add(d[i][k], d[k][j])]];
        nx := nx[i := nx[i][j := nx[i][k]]];
      }
      j := j + 1;
    }
  }

  /** The two inner loops of the in-place recurrence: one full round with
      pivot k. Row k never changes during it, so the rows done so far do not
      disturb the ones still to come. */
  method PassInPlace(d0: Grid, nx0: Hops, k: nat, n: nat) returns (d: Grid, nx: Hops)
    requires Shaped(Tables(d0, nx0), n) && k < n
    ensures Tables(d, nx) == Pass(Tables(d0, nx0), k, n)
  {
    ghost var target := Pass(Tables(d0, nx0), k, n);
    PassFixesPivot(Tables(d0, nx0), k, n);
    var c := |d0|;
    d, nx := d0, nx0;
    var i := 0;
    while i < n
      invariant i <= n
      invariant Square(d, c) && Square(nx, c)
      invariant forall a, b :: 0 <= a < c && 0 <= b < c ==>
        d[a][b] == (if a < i then target.dist[a][b] else d0[a][b]) &&
        nx[a][b] == (if a < i then target.next[a][b] else nx0[a][b])
    {
      ghost var cur := Tables(d, nx);
      d, nx := RowInPlace(d, nx, k, i, n);
      forall b | 0 <= b < c
        ensures d[i][b] == target.dist[i][b] && nx[i][b] == target.next[i][b]
      {
        assert cur.dist[k][b] == d0[k][b];
        assert cur.dist[i][k] == d0[i][k] && cur.dist[i][b] == d0[i][b] && cur.next[i][k] == nx0[i][k];
      }
      i := i + 1;
    }
    SquareExt(d, target.dist, c);
    SquareExt(nx, target.next, c);
  }

  /** The in-place triple loop of `Grafo.floyd` and of `floyd_warshall`:
      k outermost, each cell overwritten as soon as it improves. It computes
      exactly the pass-by-pass closure. */
  method RelaxInPlace(d0: Grid, nx0: Hops, n: nat) returns (d: Grid, nx: Hops)
    requires Shaped(Tables(d0, nx0), n)
    ensures Tables(d, nx) == Closure(Tables(d0, nx0), n)
  {
    d, nx := d0, nx0;
    var k := 0;
    while k < n
      invariant k <= n
      invariant Tables(d, nx) == Relax(Tables(d0, nx0), n, k)
    {
      d, nx := PassInPlace(d, nx, k, n);
      k := k + 1;
    }
  }
}
