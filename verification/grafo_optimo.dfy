/** What a route of the Java `Grafo` means after `floyd`: it is a walk along
    the grid of the current condition whose cost is the reported time, no
    walk between the two cities costs less, and with positive times the loop
    of `obtenerRuta` always finishes. */
module GrafoOptimo {
  import opened Wrappers
  import opened Weight
  import opened ShortestPaths
  import opened Optimality
  import opened Rutas
  import opened Grafo

  /** The hops the first loop of `floyd` sets pay for themselves: each is
      the direct edge. None of them points back at its own row. */
  lemma ReiniciarPaga(d: Grid, nx: Hops, n: nat)
    requires Square(d, |d|) && Square(nx, |d|) && n <= |d|
    ensures HopsPay(d, Reiniciar(d, nx, n), n) && NoSelfHop(Reiniciar(d, nx, n), n)
  {
    var t := Reiniciar(d, nx, n);
    forall i, j | 0 <= i < n && 0 <= j < n
      ensures Pays(d, t, n, i, j)
    {
    }
  }

  /** After `floyd` every hop pays for itself along the grid it started from,
      and none points back at its own row. */
  lemma FloydPaga(g: Grafo)
    requires Valid(g)
    ensures HopsPay(g.Actual(), Tablas(g), |g.nombres|) && NoSelfHop(Tablas(g), |g.nombres|)
  {
    var n := |g.nombres|;
    ReiniciarPaga(g.Actual(), g.next, n);
    ClosureHops(Reiniciar(g.Actual(), g.next, n), n);
  }

  /** The hop chain from `at` to j, as `obtenerRuta` appends it, followed by
      j, costs no more along `d0` than the entry for (at, j) (nothing when at
      is j), once every hop pays for itself. */
  lemma {:induction false} CadenaPaga(d0: Grid, t: Tables, n: nat, at: nat, j: nat, ids: seq<nat>)
    requires Shaped(t, n) && Saltos(t.next, n) && Square(d0, |t.dist|) && HopsPay(d0, t, n)
    requires at < n && j < n && Walk(t.next, n, at, j, |ids|) == j
    requires forall m :: 0 <= m < |ids| ==> ids[m] == Walk(t.next, n, at, j, m) && ids[m] != j && ids[m] < n
    ensures Ids(ids + [j], |d0|) && LessEq(Cost(d0, ids + [j]), Rest(t.dist, at, j))
    decreases |ids|
  {
    var p := ids + [j];
    assert Ids(p, |d0|) by {
      assert forall m :: 0 <= m < |ids| ==> p[m] == ids[m];
    }
    if |ids| > 0 {
      var h := t.next[at][j];
      var rest := ids[1..];
      CadenaCola(t.next, n, at, j, ids);
      CadenaPaga(d0, t, n, h, j, rest);
      CostCons(d0, at, rest + [j]);
      assert p == [at] + (rest + [j]);
      assert Pays(d0, t, n, at, j);
      AddMonotone(d0[at][h], d0[at][h], Cost(d0, rest + [j]), Rest(t.dist, h, j));
    }
  }

  /** A non-empty hop chain starts at `at`, and its tail is the hop chain
      from the hop of `at`. */
  lemma CadenaCola(nx: Hops, n: nat, at: nat, j: nat, ids: seq<nat>)
    requires Square(nx, |nx|) && n <= |nx| && Saltos(nx, n) && at < n && j < n && |ids| > 0
    requires Walk(nx, n, at, j, |ids|) == j
    requires forall m :: 0 <= m < |ids| ==> ids[m] == Walk(nx, n, at, j, m) && ids[m] != j && ids[m] < n
    ensures ids[0] == at && 0 <= nx[at][j] < n
    ensures Walk(nx, n, nx[at][j], j, |ids| - 1) == j
    ensures forall m :: 0 <= m < |ids| - 1 ==> ids[1..][m] == Walk(nx, n, nx[at][j], j, m) && ids[1..][m] != j && ids[1..][m] < n
  {
    assert ids[0] == Walk(nx, n, at, j, 0);
    WalkStep(nx, n, at, j);
    assert Walk(nx, n, at, j, 0 + 1) == nx[at][j];
    if |ids| > 1 {
      assert ids[1] == Walk(nx, n, at, j, 1);
    }
    assert Walk(nx, n, at, j, (|ids| - 1) + 1) == Walk(nx, n, nx[at][j], j, |ids| - 1);
    forall m | 0 <= m < |ids| - 1
      ensures ids[1..][m] == Walk(nx, n, nx[at][j], j, m)
    {
      assert Walk(nx, n, at, j, m + 1) == Walk(nx, n, nx[at][j], j, m);
    }
  }

  /** The cost of a walk with one more city in front. */
  lemma CostCons(d0: Grid, at: nat, q: seq<nat>)
    requires Square(d0, |d0|) && at < |d0| && |q| > 0 && Ids(q, |d0|)
    ensures Ids([at] + q, |d0|) && Cost(d0, [at] + q) == Add(d0[at][q[0]], Cost(d0, q))
  {
    var p := [at] + q;
    assert forall m :: 0 < m < |p| ==> p[m] == q[m - 1];
    assert p[1..] == q;
  }

  /** The ids of the cities of a route. */
  function Posiciones(ciudades: map<string, nat>, camino: seq<string>): (p: seq<nat>)
    requires forall m :: 0 <= m < |camino| ==> camino[m] in ciudades
    ensures |p| == |camino| && forall m :: 0 <= m < |p| ==> ciudades[camino[m]] == p[m]
  {
    seq(|camino|, m requires 0 <= m < |camino| => ciudades[camino[m]])
  }

  /** A walk of at least one step from i to j through cities in use. */
  predicate Camino(p: seq<nat>, n: nat, i: nat, j: nat)
  {
    |p| >= 2 && Ids(p, n) && p[0] == i && p[|p| - 1] == j
  }

  /** The ids of a route `obtenerRuta` hands out are its hop chain followed
      by the destination, and its time is the current grid's entry. */
  lemma RutaCadena(g: Grafo, origen: string, destino: string) returns (ids: seq<nat>)
    requires Valid(g) && ObtenerRuta(g, origen, destino).Halts? && ObtenerRuta(g, origen, destino).value.Some?
    ensures origen in g.ciudades && destino in g.ciudades
    ensures var rt := ObtenerRuta(g, origen, destino).value.value;
      var i, j := g.ciudades[origen], g.ciudades[destino];
      && (forall m :: 0 <= m < |rt.camino| ==> rt.camino[m] in g.ciudades)
      && Posiciones(g.ciudades, rt.camino) == ids + [j]
      && g.Actual()[i][j] == Fin(rt.tiempo)
      && Walk(g.next, |g.nombres|, i, j, |ids|) == j
      && forall m :: 0 <= m < |ids| ==> ids[m] == Walk(g.next, |g.nombres|, i, j, m) && ids[m] != j && ids[m] < |g.nombres|
  {
    var n := |g.nombres|;
    var i, j := g.ciudades[origen], g.ciudades[destino];
    var c := Chase(g.next, n, i, j, n);
    ids := c.value.value;
    var rt := ObtenerRuta(g, origen, destino).value.value;
    assert rt == Ruta(Nombres(g, ids) + [destino], g.Actual()[i][j].t);
    assert Posiciones(g.ciudades, rt.camino) == ids + [j];
  }

  /** A route `obtenerRuta` hands out after `floyd`, between two different
      cities, walks the grid `floyd` started from at exactly its reported
      time, and no walk between the two cities costs less. */
  lemma RutaMinima(g: Grafo, origen: string, destino: string)
    requires Valid(g) && origen in g.ciudades && destino in g.ciudades && origen != destino
    ensures var r := ObtenerRuta(Floyd(g), origen, destino);
      r.Halts? && r.value.Some? ==>
        var rt := r.value.value;
        var i, j := g.ciudades[origen], g.ciudades[destino];
        && (forall m :: 0 <= m < |rt.camino| ==> rt.camino[m] in g.ciudades)
        && Camino(Posiciones(g.ciudades, rt.camino), |g.nombres|, i, j)
        && Cost(g.Actual(), Posiciones(g.ciudades, rt.camino)) == Fin(rt.tiempo)
        && forall q :: Camino(q, |g.nombres|, i, j) ==> LessEq(Fin(rt.tiempo), Cost(g.Actual(), q))
  {
    var f := Floyd(g);
    var r := ObtenerRuta(f, origen, destino);
    if r.Halts? && r.value.Some? {
      var n := |g.nombres|;
      var i, j := g.ciudades[origen], g.ciudades[destino];
      var rt := r.value.value;
      var ids := RutaCadena(f, origen, destino);
      var p := ids + [j];
      FloydPaga(g);
      FloydFacts(g);
      CadenaPaga(g.Actual(), Tablas(g), n, i, j, ids);
      BelowCost(g.Actual(), f.Actual(), n, p);
      forall q | Camino(q, n, i, j)
        ensures LessEq(Fin(rt.tiempo), Cost(g.Actual(), q))
      {
        BelowCost(g.Actual(), f.Actual(), n, q);
      }
    }
  }

  /** From a city at finite distance from j, the hop chain reaches j within
      one step more than there are cities closer to j: every hop with
      positive times is strictly closer. */
  lemma {:induction false} Llega(d0: Grid, t: Tables, n: nat, at: nat, j: nat, m: nat)
    requires Shaped(t, n) && Saltos(t.next, n) && Square(d0, |t.dist|) && Positive(d0, n)
    requires HopsPay(d0, t, n) && NoSelfHop(t, n) && HopsSound(t, n) && HopsCover(t, n) && j < n
    requires at == j || (at < n && t.dist[at][j].Fin? && |Closer(t, n, j, t.dist[at][j].t)| < m)
    ensures Walk(t.next, n, at, j, m) == j
    decreases m
  {
    if at != j {
      HopDescends(d0, t, n, at, j);
      var h := t.next[at][j];
      if h != j {
        CloserShrinks(t, n, at, h, j);
        Llega(d0, t, n, h, j, m - 1);
      }
      WalkStep(t.next, n, at, j);
      assert Walk(t.next, n, at, j, (m - 1) + 1) == Walk(t.next, n, h, j, m - 1);
    }
  }

  /** With positive times between different cities, `obtenerRuta` after
      `floyd` finishes with a route for every pair at finite distance. */
  lemma FloydTermina(g: Grafo, origen: string, destino: string)
    requires Valid(g) && origen in g.ciudades && destino in g.ciudades
    requires Positive(g.Actual(), |g.nombres|)
    requires Floyd(g).Actual()[g.ciudades[origen]][g.ciudades[destino]].Fin?
    ensures ObtenerRuta(Floyd(g), origen, destino).Halts?
    ensures ObtenerRuta(Floyd(g), origen, destino).value.Some?
  {
    var n := |g.nombres|;
    var f := Floyd(g);
    var i, j := g.ciudades[origen], g.ciudades[destino];
    var s := Reiniciar(g.Actual(), g.next, n);
    var t := Tablas(g);
    assert Relaxed(s, t, n, n);
    FloydPaga(g);
    if i != j {
      CloserBound(t, n, i, j);
    }
    Llega(g.Actual(), t, n, i, j, n);
    FloydSinNulo(g, origen, destino);
  }

  /** With positive times, `obtenerRuta` after `floyd` finds a route between
      two different cities exactly when some walk joins them at finite cost. */
  lemma FloydAlcanza(g: Grafo, origen: string, destino: string)
    requires Valid(g) && origen in g.ciudades && destino in g.ciudades && origen != destino
    requires Positive(g.Actual(), |g.nombres|)
    ensures var r := ObtenerRuta(Floyd(g), origen, destino);
      (r.Halts? && r.value.Some?) <==>
      exists q :: Camino(q, |g.nombres|, g.ciudades[origen], g.ciudades[destino]) && Cost(g.Actual(), q).Fin?
  {
    var n := |g.nombres|;
    var i, j := g.ciudades[origen], g.ciudades[destino];
    var f := Floyd(g);
    var r := ObtenerRuta(f, origen, destino);
    FloydFacts(g);
    RutaMinima(g, origen, destino);
    if r.Halts? && r.value.Some? {
      var q := Posiciones(g.ciudades, r.value.value.camino);
      assert Camino(q, n, i, j) && Cost(g.Actual(), q).Fin?;
    }
    if exists q :: Camino(q, n, i, j) && Cost(g.Actual(), q).Fin? {
      var q :| Camino(q, n, i, j) && Cost(g.Actual(), q).Fin?;
      BelowCost(g.Actual(), f.Actual(), n, q);
      FloydTermina(g, origen, destino);
    }
  }

  /** Walking m + t steps is walking t steps from where the first m ended. */
  lemma {:induction false} WalkCompose(nx: Hops, n: nat, at: int, j: nat, m: nat, t: nat)
    requires Square(nx, |nx|) && n <= |nx| && Saltos(nx, n) && j < n && -1 <= at < n
    ensures Walk(nx, n, at, j, m + t) == Walk(nx, n, Walk(nx, n, at, j, m), j, t)
    decreases m
  {
    if m > 0 && at != j && at != -1 {
      WalkCompose(nx, n, nx[at][j], j, m - 1, t);
    }
  }

  /** The positions of the first k steps of the hop chain. */
  function Visitadas(nx: Hops, n: nat, at: int, j: nat, k: nat): (v: set<int>)
    requires Square(nx, |nx|) && n <= |nx| && Saltos(nx, n) && j < n && -1 <= at < n
    ensures forall m :: 0 <= m < k ==> Walk(nx, n, at, j, m) in v
    ensures forall x :: x in v ==> -1 <= x < n
    ensures (forall m :: 0 <= m < k ==> Walk(nx, n, at, j, m) != -1) ==> -1 !in v
    decreases k
  {
    if k == 0 then {} else Visitadas(nx, n, at, j, k - 1) + {Walk(nx, n, at, j, k - 1)}
  }

  /** A city the first k steps never stand on is not among their positions. */
  lemma {:induction false} Ausente(nx: Hops, n: nat, at: int, j: nat, k: nat, w: int)
    requires Square(nx, |nx|) && n <= |nx| && Saltos(nx, n) && j < n && -1 <= at < n
    ensures (forall m :: 0 <= m < k ==> Walk(nx, n, at, j, m) != w) ==> w !in Visitadas(nx, n, at, j, k)
    decreases k
  {
    if k > 0 {
      Ausente(nx, n, at, j, k - 1, w);
    }
  }

  /** A chain whose first k positions are all different visits k cities. */
  lemma {:induction false} VisitadasCard(nx: Hops, n: nat, at: int, j: nat, k: nat)
    requires Square(nx, |nx|) && n <= |nx| && Saltos(nx, n) && j < n && -1 <= at < n
    ensures (forall a, b :: 0 <= a < b < k ==> Walk(nx, n, at, j, a) != Walk(nx, n, at, j, b)) ==>
      |Visitadas(nx, n, at, j, k)| == k
    decreases k
  {
    if k > 0 && forall a, b :: 0 <= a < b < k ==> Walk(nx, n, at, j, a) != Walk(nx, n, at, j, b) {
      VisitadasCard(nx, n, at, j, k - 1);
      Ausente(nx, n, at, j, k - 1, Walk(nx, n, at, j, k - 1));
    }
  }

  /** Pigeonhole: a chain that stays among the n cities for n + 1 positions
      comes back to one of them. */
  lemma Repite(nx: Hops, n: nat, at: int, j: nat) returns (a: nat, b: nat)
    requires Square(nx, |nx|) && n <= |nx| && Saltos(nx, n) && j < n && -1 <= at < n
    requires forall m :: 0 <= m <= n ==> Walk(nx, n, at, j, m) != -1
    ensures a < b <= n && Walk(nx, n, at, j, a) == Walk(nx, n, at, j, b)
  {
    if forall a, b :: 0 <= a < b < n + 1 ==> Walk(nx, n, at, j, a) != Walk(nx, n, at, j, b) {
      VisitadasCard(nx, n, at, j, n + 1);
      BoundedCard(Visitadas(nx, n, at, j, n + 1), n);
      assert false;
    }
    a, b :| 0 <= a < b < n + 1 && Walk(nx, n, at, j, a) == Walk(nx, n, at, j, b);
  }

  /** Once the chain comes back to a position it repeats: every later
      position is one of the first b. */
  lemma {:induction false} Periodo(nx: Hops, n: nat, at: int, j: nat, a: nat, b: nat, m: nat)
    requires Square(nx, |nx|) && n <= |nx| && Saltos(nx, n) && j < n && -1 <= at < n
    requires a < b && Walk(nx, n, at, j, a) == Walk(nx, n, at, j, b)
    ensures exists k :: 0 <= k < b && Walk(nx, n, at, j, m) == Walk(nx, n, at, j, k)
    decreases m
  {
    if m < b {
      assert Walk(nx, n, at, j, m) == Walk(nx, n, at, j, m);
    } else {
      WalkCompose(nx, n, at, j, b, m - b);
      WalkCompose(nx, n, at, j, a, m - b);
      Periodo(nx, n, at, j, a, b, a + (m - b));
    }
  }

  /** A route the model reports as `Diverges` is one the Java loop never
      finishes: the hop chain reaches neither the destination nor -1 after
      any number of steps. */
  lemma Interminable(g: Grafo, origen: string, destino: string, m: nat)
    requires Valid(g) && origen in g.ciudades && destino in g.ciudades
    ensures var n, i, j := |g.ciudades|, g.ciudades[origen], g.ciudades[destino];
      ObtenerRuta(g, origen, destino).Diverges? ==>
        Walk(g.next, n, i, j, m) != j && Walk(g.next, n, i, j, m) != -1
  {
    var n, i, j := |g.ciudades|, g.ciudades[origen], g.ciudades[destino];
    if ObtenerRuta(g, origen, destino).Diverges? {
      assert Chase(g.next, n, i, j, n).Diverges?;
      var a, b := Repite(g.next, n, i, j);
      Periodo(g.next, n, i, j, a, b, m);
    }
  }
}
