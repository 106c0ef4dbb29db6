/** The networkx variant of the route planner: a directed graph whose every
    edge carries four times and the weather condition in force on that edge,
    and the pure helpers that turn it into distance and next-hop grids, run
    Floyd-Warshall, rebuild a route and pick a center. */
module GrafoPy {
  import opened Wrappers
  import opened Weight
  import opened ShortestPaths
  import opened Clima
  import opened Lex

  /** The attributes stored on one edge: a time per condition and the
      condition currently in force on it (`clima_actual`). */
  datatype Arista = Arista(normal: Time, lluvia: Time, nieve: Time, tormenta: Time, climaActual: CondicionClimatica)
  {
    /** `datos[datos['clima_actual']]`: the time of the condition in force. */
    function Tiempo(): Time
    {
      match climaActual
      case Normal => normal
      case Lluvia => lluvia
      case Nieve => nieve
      case Tormenta => tormenta
    }
  }

  /** The four times handed to `agregar_conexion`. */
  datatype Tiempos = Tiempos(normal: Time, lluvia: Time, nieve: Time, tormenta: Time)

  /** A networkx `DiGraph`: its nodes in insertion order and at most one edge
      per ordered pair of nodes (`add_edge` overwrites). */
  datatype DiGraph = DiGraph(nodos: seq<string>, aristas: map<(string, string), Arista>)

  /** What networkx keeps true: no node twice, and both ends of every edge are nodes. */
  predicate Bien(gr: DiGraph)
  {
    && Distinct(gr.nodos)
    && forall e :: e in gr.aristas ==> e.0 in gr.nodos && e.1 in gr.nodos
  }

  /** The error numpy raises: `argmin` of an empty sequence. */
  datatype PyError = ValueError

  /** What `matrices_distancia_ruta` returns: the sorted city list, the map
      from a city to its position, the distance grid and the next-hop grid. */
  datatype Matrices = Matrices(ciudades: seq<string>, indice: map<string, nat>, dist: Grid, siguiente: Hops)

  /** `indice` is `{ciudad: i for i, ciudad in enumerate(ciudades)}`. */
  predicate Indexa(ciudades: seq<string>, indice: map<string, nat>)
  {
    && (forall x :: x in indice ==> indice[x] < |ciudades| && ciudades[indice[x]] == x)
    && (forall i :: 0 <= i < |ciudades| ==> ciudades[i] in indice && indice[ciudades[i]] == i)
  }

  /** The starting distance from a to b: the edge's time under its own
      condition, else 0 from a city to itself, else INF. An edge a -> a
      overwrites the 0 of the diagonal. */
  function PesoInicial(gr: DiGraph, a: string, b: string): Weight
  {
    if (a, b) in gr.aristas then Fin(gr.aristas[(a, b)].Tiempo())
    else if a == b then Zero
    else Inf
  }

  /** The starting next hop from a to b, where b sits at position j: j for
      an edge, -1 otherwise (also on the diagonal). */
  function SaltoInicial(gr: DiGraph, a: string, b: string, j: nat): int
  {
    if (a, b) in gr.aristas then j else -1
  }

  /** The positions of a list of distinct names. */
  function Posiciones(c: seq<string>): (m: map<string, nat>)
    requires Ascending(c)
    ensures Indexa(c, m)
  {
    assert forall i, j :: 0 <= i < j < |c| ==> c[i] != c[j] by {
      forall i, j | 0 <= i < j < |c| ensures c[i] != c[j] {
        if c[i] == c[j] {
          BelowIrreflexive(c[i]);
        }
      }
    }
    map i | 0 <= i < |c| :: c[i] := i
  }

  /** `matrices_distancia_ruta`. */
  function MatricesDistanciaRuta(gr: DiGraph): (m: Matrices)
    requires Bien(gr)
    ensures Ascending(m.ciudades) && multiset(m.ciudades) == multiset(gr.nodos)
    ensures Indexa(m.ciudades, m.indice)
    ensures Square(m.dist, |m.ciudades|) && Square(m.siguiente, |m.ciudades|)
    ensures forall a, b :: a in m.indice && b in m.indice ==>
      && m.dist[m.indice[a]][m.indice[b]] == PesoInicial(gr, a, b)
      && m.siguiente[m.indice[a]][m.indice[b]] == SaltoInicial(gr, a, b, m.indice[b])
  {
    var c := Sort(gr.nodos);
    var indice := Posiciones(c);
    var dist := TablaPesos(gr, c);
    var siguiente := TablaSaltos(gr, c);
    assert forall a, b :: a in indice && b in indice ==>
      && dist[indice[a]][indice[b]] == PesoInicial(gr, a, b)
      && siguiente[indice[a]][indice[b]] == SaltoInicial(gr, a, b, indice[b])
    by {
      forall a, b | a in indice && b in indice
        ensures dist[indice[a]][indice[b]] == PesoInicial(gr, a, b)
        ensures siguiente[indice[a]][indice[b]] == SaltoInicial(gr, a, b, indice[b])
      {
        assert c[indice[a]] == a && c[indice[b]] == b;
      }
    }
    Matrices(c, indice, dist, siguiente)
  }

  /** The starting distance grid over the cities in the order of `c`. */
  function TablaPesos(gr: DiGraph, c: seq<string>): (d: Grid)
    ensures Square(d, |c|)
    ensures forall i, j :: 0 <= i < |c| && 0 <= j < |c| ==> d[i][j] == PesoInicial(gr, c[i], c[j])
  {
    seq(|c|, i requires 0 <= i < |c| => seq(|c|, j requires 0 <= j < |c| => PesoInicial(gr, c[i], c[j])))
  }

  /** The starting next-hop grid over the cities in the order of `c`. */
  function TablaSaltos(gr: DiGraph, c: seq<string>): (h: Hops)
    ensures Square(h, |c|)
    ensures forall i, j :: 0 <= i < |c| && 0 <= j < |c| ==> h[i][j] == SaltoInicial(gr, c[i], c[j], j)
  {
    seq(|c|, i requires 0 <= i < |c| => seq(|c|, j requires 0 <= j < |c| => SaltoInicial(gr, c[i], c[j], j)))
  }

  /** Every city of the graph, and nothing else, has a position. */
  lemma CiudadesSonNodos(gr: DiGraph)
    requires Bien(gr)
    ensures forall x :: x in MatricesDistanciaRuta(gr).indice <==> x in gr.nodos
    ensures |MatricesDistanciaRuta(gr).ciudades| == |gr.nodos|
  {
    var m := MatricesDistanciaRuta(gr);
    forall x
      ensures x in m.ciudades <==> x in gr.nodos
    {
      assert x in m.ciudades <==> x in multiset(m.ciudades);
      assert x in gr.nodos <==> x in multiset(gr.nodos);
    }
    assert |multiset(m.ciudades)| == |m.ciudades| && |multiset(gr.nodos)| == |gr.nodos|;
  }

  /** The starting tables. */
  function Iniciales(m: Matrices): Tables
  {
    Tables(m.dist, m.siguiente)
  }

  /** The starting tables already keep the invariant the recurrence
      preserves: a hop exists exactly where an edge gives a finite time off
      the diagonal, and every hop is a position or -1. */
  lemma InicialesSanas(gr: DiGraph)
    requires Bien(gr)
    ensures var m := MatricesDistanciaRuta(gr);
      var n := |m.ciudades|;
      && Shaped(Iniciales(m), n) && HopsSound(Iniciales(m), n) && HopsCover(Iniciales(m), n)
      && HopsProgress(Iniciales(m), n)
  {
    var m := MatricesDistanciaRuta(gr);
    var n := |m.ciudades|;
    forall i, j | 0 <= i < n && 0 <= j < n
      ensures -1 <= m.siguiente[i][j] < n
      ensures m.siguiente[i][j] != -1 ==> m.dist[i][j].Fin?
      ensures i != j && m.dist[i][j].Fin? ==> m.siguiente[i][j] != -1
      ensures m.siguiente[i][j] == -1 || m.siguiente[i][j] == j
    {
      var a, b := m.ciudades[i], m.ciudades[j];
      assert m.indice[a] == i && m.indice[b] == j;
      if a == b {
        BelowIrreflexive(a);
      }
    }
  }

  /** `floyd_warshall`: the shared recurrence over the whole n-by-n grid. */
  function FloydWarshall(dist: Grid, siguiente: Hops, n: nat): (r: Tables)
    requires Square(dist, n) && Square(siguiente, n)
    ensures Shaped(r, n) && |r.dist| == n
    ensures NoIncrease(dist, r.dist) && Triangle(r.dist, n)
    ensures HopsSound(Tables(dist, siguiente), n) ==> HopsSound(r, n)
    ensures HopsSound(Tables(dist, siguiente), n) && HopsCover(Tables(dist, siguiente), n) ==> HopsCover(r, n)
    ensures HopsProgress(Tables(dist, siguiente), n) ==> HopsProgress(r, n)
    ensures Triangle(dist, n) ==> r == Tables(dist, siguiente)
  {
    Closure(Tables(dist, siguiente), n)
  }

  /** With non-negative times and no edge from a city to itself, the
      diagonal stays 0 through `floyd_warshall`. */
  lemma DiagonalCero(gr: DiGraph)
    requires Bien(gr)
    requires forall a :: (a, a) !in gr.aristas
    ensures var m := MatricesDistanciaRuta(gr);
      var r := FloydWarshall(m.dist, m.siguiente, |m.ciudades|);
      forall i :: 0 <= i < |m.ciudades| ==> r.dist[i][i] == Zero
  {
    var m := MatricesDistanciaRuta(gr);
    var r := FloydWarshall(m.dist, m.siguiente, |m.ciudades|);
    forall i | 0 <= i < |m.ciudades|
      ensures r.dist[i][i] == Zero
    {
      assert m.indice[m.ciudades[i]] == i;
      assert m.dist[i][i] == Zero;
      assert LessEq(r.dist[i][i], m.dist[i][i]);
    }
  }

  /** A city without an edge to itself keeps distance 0 and the hop -1 on
      its diagonal cell through the recomputation, so `reconstruir_ruta`
      from it to itself is `[]`. */
  lemma DiagonalSinRuta(gr: DiGraph, x: string)
    requires Bien(gr) && x in gr.nodos && (x, x) !in gr.aristas
    ensures var m := Recalcular(gr);
      && x in m.indice
      && m.dist[m.indice[x]][m.indice[x]] == Zero && m.siguiente[m.indice[x]][m.indice[x]] == -1
      && ReconstruirRuta(m.indice[x], m.indice[x], m.siguiente, m.ciudades) == Halts([])
  {
    var m0 := MatricesDistanciaRuta(gr);
    var n := |m0.ciudades|;
    assert x in multiset(m0.ciudades);
    assert x in m0.indice;
    var i := m0.indice[x];
    assert m0.dist[i][i] == Zero && m0.siguiente[i][i] == -1;
    RelaxKeepsZero(Tables(m0.dist, m0.siguiente), n, n, i, i);
  }

  /** Python's `lista[x]` for x in [-1, n): -1 means the last element. */
  function Fila(x: int, n: nat): (k: nat)
    requires -1 <= x < n && 0 < n
    ensures k < n
    ensures x >= 0 ==> k == x
  {
    if x == -1 then n - 1 else x
  }

  /** Every hop in the grid is a position or the sentinel -1. */
  predicate EnRango(siguiente: Hops, n: nat)
    requires Square(siguiente, n)
  {
    forall i, j :: 0 <= i < n && 0 <= j < n ==> -1 <= siguiente[i][j] < n
  }

  /** The hop invariant bounds every hop. */
  lemma SoundEnRango(t: Tables, n: nat)
    requires Shaped(t, n) && |t.dist| == n && HopsSound(t, n)
    ensures EnRango(t.next, n)
  {
    forall i, j | 0 <= i < n && 0 <= j < n
      ensures -1 <= t.next[i][j] < n
    {
      assert HopsSound(t, n);
    }
  }

  /** The value of `origen_id` after m turns of the `while` loop of
      `reconstruir_ruta` toward d, starting from `at`. A -1 read from the
      grid is kept: it differs from d, and it indexes the last row. */
  function Paso(siguiente: Hops, n: nat, at: int, d: nat, m: nat): (w: int)
    requires Square(siguiente, n) && EnRango(siguiente, n) && d < n && -1 <= at < n
    ensures -1 <= w < n
    decreases m
  {
    if m == 0 || at == d then at else Paso(siguiente, n, siguiente[Fila(at, n)][d], d, m - 1)
  }

  /** The names the `while` loop appends from `at` on: one per turn, the
      name at the new `origen_id`; Diverges when `fuel` turns did not reach d. */
  function Bucle(siguiente: Hops, ciudades: seq<string>, at: int, d: nat, fuel: nat): (r: Halting<seq<string>>)
    requires Square(siguiente, |ciudades|) && EnRango(siguiente, |ciudades|) && d < |ciudades| && -1 <= at < |ciudades|
    ensures r.Halts? ==>
      && |r.value| <= fuel
      && Paso(siguiente, |ciudades|, at, d, |r.value|) == d
      && forall m :: 0 <= m < |r.value| ==>
           && Paso(siguiente, |ciudades|, at, d, m) != d
           && r.value[m] == ciudades[Fila(Paso(siguiente, |ciudades|, at, d, m + 1), |ciudades|)]
    ensures r.Diverges? ==> forall m :: 0 <= m <= fuel ==> Paso(siguiente, |ciudades|, at, d, m) != d
    decreases fuel
  {
    var n := |ciudades|;
    if at == d then Halts([])
    else if fuel == 0 then Diverges
    else
      var sig := siguiente[Fila(at, n)][d];
      PasoStep(siguiente, n, at, d);
      match Bucle(siguiente, ciudades, sig, d, fuel - 1)
      case Halts(p) => Halts([ciudades[Fila(sig, n)]] + p)
      case Diverges => Diverges
  }

  /** One turn of the loop from a state other than d. */
  lemma PasoStep(siguiente: Hops, n: nat, at: int, d: nat)
    requires Square(siguiente, n) && EnRango(siguiente, n) && d < n && -1 <= at < n && at != d
    ensures forall m: nat :: Paso(siguiente, n, at, d, m + 1) == Paso(siguiente, n, siguiente[Fila(at, n)][d], d, m)
  {
  }

  /** `reconstruir_ruta`, with n + 1 turns of fuel (the loop has n + 1
      states, -1 included): [] when there is no first hop, else the origin's
      name followed by the names the loop appends. */
  function ReconstruirRuta(origen: nat, destino: nat, siguiente: Hops, ciudades: seq<string>): (r: Halting<seq<string>>)
    requires Square(siguiente, |ciudades|) && EnRango(siguiente, |ciudades|)
    requires origen < |ciudades| && destino < |ciudades|
    ensures r == Halts([]) <==> siguiente[origen][destino] == -1
    ensures r.Halts? && r.value != [] ==>
      && r.value[0] == ciudades[origen]
      && r.value[|r.value| - 1] == ciudades[destino]
      && forall m :: 0 <= m < |r.value| ==>
           r.value[m] == ciudades[Fila(Paso(siguiente, |ciudades|, origen, destino, m), |ciudades|)]
    ensures r.Diverges? ==> forall m :: 0 <= m <= |ciudades| + 1 ==> Paso(siguiente, |ciudades|, origen, destino, m) != destino
  {
    var n := |ciudades|;
    if siguiente[origen][destino] == -1 then Halts([])
    else
      match Bucle(siguiente, ciudades, origen, destino, n + 1)
      case Halts(p) =>
        var ruta := [ciudades[origen]] + p;
        assert forall m :: 0 < m < |ruta| ==> ruta[m] == p[m - 1];
        Halts(ruta)
      case Diverges => Diverges
  }

  /** From a position at finite distance from d, the loop of
      `reconstruir_ruta` only visits positions at finite distance from d,
      and d itself. */
  lemma {:induction false} PasoFinito(t: Tables, n: nat, at: int, d: nat, m: nat)
    requires Shaped(t, n) && |t.dist| == n && EnRango(t.next, n) && HopsCover(t, n) && HopsProgress(t, n) && d < n
    requires at == d || (0 <= at < n && t.dist[at][d].Fin?)
    ensures var w := Paso(t.next, n, at, d, m);
      w == d || (0 <= w < n && t.dist[w][d].Fin?)
    decreases m
  {
    if m > 0 && at != d {
      PasoFinito(t, n, t.next[at][d], d, m - 1);
    }
  }

  /** On the grids `agregar_conexion` recomputes, two different cities at
      finite distance get a non-empty route, and the loop never reads a -1:
      Python's wrap to the last city is never used. */
  lemma SinEnvolver(gr: DiGraph, a: string, b: string)
    requires Bien(gr) && a != b
    ensures var m := Recalcular(gr);
      a in m.indice && b in m.indice && m.dist[m.indice[a]][m.indice[b]].Fin? ==>
        && ReconstruirRuta(m.indice[a], m.indice[b], m.siguiente, m.ciudades) != Halts([])
        && forall k :: 0 <= k <= |m.ciudades| + 1 ==> Paso(m.siguiente, |m.ciudades|, m.indice[a], m.indice[b], k) != -1
  {
    var m := Recalcular(gr);
    var n := |m.ciudades|;
    var t := Tables(m.dist, m.siguiente);
    if a in m.indice && b in m.indice && m.dist[m.indice[a]][m.indice[b]].Fin? {
      var i, j := m.indice[a], m.indice[b];
      assert i != j by {
        assert m.ciudades[i] == a && m.ciudades[j] == b;
      }
      forall k | 0 <= k <= n + 1
        ensures Paso(m.siguiente, n, i, j, k) != -1
      {
        PasoFinito(t, n, i, j, k);
      }
    }
  }

  /** The largest finite entry of column j over rows [i, n) that exceeds
      `acc`, or `acc` when there is none: the inner loop of
      `calcular_centro_grafo`. */
  function MaxColumna(dist: Grid, n: nat, j: nat, i: nat, acc: Time): (m: Time)
    requires Square(dist, n) && j < n && i <= n
    ensures acc <= m
    ensures forall r :: i <= r < n && dist[r][j].Fin? ==> dist[r][j].t <= m
    ensures m == acc || exists r :: i <= r < n && dist[r][j] == Fin(m)
    decreases n - i
  {
    if i == n then acc
    else MaxColumna(dist, n, j, i + 1, if dist[i][j].Fin? && dist[i][j].t > acc then dist[i][j].t else acc)
  }

  /** The eccentricity `calcular_centro_grafo` gives column j: the largest
      finite distance into j, and INF when that largest value is 0. */
  function ExcentricidadColumna(dist: Grid, n: nat, j: nat): (e: Weight)
    requires Square(dist, n) && j < n
    ensures e.Inf? <==> forall r :: 0 <= r < n && dist[r][j].Fin? ==> dist[r][j].t == 0.0
    ensures e.Fin? ==>
      && 0.0 < e.t
      && (forall r :: 0 <= r < n && dist[r][j].Fin? ==> dist[r][j].t <= e.t)
      && exists r :: 0 <= r < n && dist[r][j] == e
  {
    var m := MaxColumna(dist, n, j, 0, 0.0);
    if m != 0.0 then Fin(m) else Inf
  }

  /** The list `excentricidades`, one entry per column. */
  function Excentricidades(dist: Grid, n: nat): (es: seq<Weight>)
    requires Square(dist, n)
    ensures |es| == n
    ensures forall j :: 0 <= j < n ==> es[j] == ExcentricidadColumna(dist, n, j)
  {
    seq(n, j requires 0 <= j < n => ExcentricidadColumna(dist, n, j))
  }

  /** k holds a minimal value and no earlier position does: what `np.argmin`
      answers. */
  predicate PrimerMinimo(es: seq<Weight>, k: nat)
  {
    && k < |es|
    && (forall m :: 0 <= m < |es| ==> LessEq(es[k], es[m]))
    && (forall m :: 0 <= m < k ==> Less(es[k], es[m]))
  }

  /** At most one position is the first minimum. */
  lemma PrimerMinimoUnico(es: seq<Weight>, k1: nat, k2: nat)
    requires PrimerMinimo(es, k1) && PrimerMinimo(es, k2)
    ensures k1 == k2
  {
    assert LessEq(es[k1], es[k2]) && LessEq(es[k2], es[k1]);
  }

  /** The scan for the first minimum from position i, with the best so far at k. */
  function ArgMinDesde(es: seq<Weight>, i: nat, k: nat): (r: nat)
    requires k < i <= |es|
    requires forall m :: 0 <= m < i ==> LessEq(es[k], es[m])
    requires forall m :: 0 <= m < k ==> Less(es[k], es[m])
    ensures PrimerMinimo(es, r)
    decreases |es| - i
  {
    if i == |es| then k
    else if Less(es[i], es[k]) then
      assert forall m :: 0 <= m < i ==> Less(es[i], es[m]) by {
        forall m | 0 <= m < i ensures Less(es[i], es[m]) {
          assert LessEq(es[k], es[m]);
        }
      }
      ArgMinDesde(es, i + 1, i)
    else ArgMinDesde(es, i + 1, k)
  }

  /** `np.argmin` on a non-empty list. */
  function ArgMin(es: seq<Weight>): (k: nat)
    requires |es| > 0
    ensures PrimerMinimo(es, k)
  {
    ArgMinDesde(es, 1, 0)
  }

  /** `calcular_centro_grafo`: the name and eccentricity of the first column
      of least eccentricity; no city at all raises numpy's ValueError. */
  function CalcularCentroGrafo(ciudades: seq<string>, dist: Grid): (r: Result<(string, Weight), PyError>)
    requires Square(dist, |ciudades|)
    ensures r.Failure? <==> |ciudades| == 0
    ensures r.Success? ==> exists k: nat ::
      && PrimerMinimo(Excentricidades(dist, |ciudades|), k)
      && r.value == (ciudades[k], Excentricidades(dist, |ciudades|)[k])
  {
    var n := |ciudades|;
    if n == 0 then Failure(ValueError)
    else
      var es := Excentricidades(dist, n);
      var k := ArgMin(es);
      Success((ciudades[k], es[k]))
  }

  /** With one city the center is that city. */
  lemma CentroUnaCiudad(nombre: string, dist: Grid)
    requires Square(dist, 1)
    ensures CalcularCentroGrafo([nombre], dist).Success?
    ensures CalcularCentroGrafo([nombre], dist).value.0 == nombre
  {
  }

  /** The node list after adding `x` when it is missing. */
  function AgregarNodo(nodos: seq<string>, x: string): (r: seq<string>)
    ensures x in r
    ensures forall y :: y in r <==> y in nodos || y == x
    ensures |nodos| <= |r| && r[..|nodos|] == nodos
  {
    if x in nodos then nodos else nodos + [x]
  }

  /** The edge-map update of `agregar_conexion`: both cities become nodes
      if they were not, and the edge from the first to the second is set,
      or overwritten, with the four times and condition normal. */
  function Conectar(gr: DiGraph, ciudad1: string, ciudad2: string, t: Tiempos): (r: DiGraph)
    requires Bien(gr)
    ensures Bien(r)
    ensures forall x :: x in r.nodos <==> x in gr.nodos || x == ciudad1 || x == ciudad2
    ensures |gr.nodos| <= |r.nodos| && r.nodos[..|gr.nodos|] == gr.nodos
    ensures (ciudad1, ciudad2) in r.aristas
    ensures r.aristas[(ciudad1, ciudad2)] == Arista(t.normal, t.lluvia, t.nieve, t.tormenta, Normal)
    ensures forall e :: e != (ciudad1, ciudad2) ==>
      (e in r.aristas <==> e in gr.aristas) && (e in gr.aristas ==> r.aristas[e] == gr.aristas[e])
  {
    var nodos := AgregarNodo(AgregarNodo(gr.nodos, ciudad1), ciudad2);
    assert Distinct(nodos) by {
      var uno := AgregarNodo(gr.nodos, ciudad1);
      assert Distinct(uno) by {
        if ciudad1 !in gr.nodos {
          assert forall i :: 0 <= i < |gr.nodos| ==> uno[i] == gr.nodos[i];
        }
      }
      if ciudad2 !in uno {
        assert forall i :: 0 <= i < |uno| ==> nodos[i] == uno[i];
      }
    }
    DiGraph(nodos, gr.aristas[(ciudad1, ciudad2) := Arista(t.normal, t.lluvia, t.nieve, t.tormenta, Normal)])
  }

  /** The recomputation at the end of `agregar_conexion`: the grids rebuilt
      from the graph, then closed under the recurrence. */
  function Recalcular(gr: DiGraph): (m: Matrices)
    requires Bien(gr)
    ensures Ascending(m.ciudades) && multiset(m.ciudades) == multiset(gr.nodos) && Indexa(m.ciudades, m.indice)
    ensures Square(m.dist, |m.ciudades|) && Square(m.siguiente, |m.ciudades|)
    ensures Triangle(m.dist, |m.ciudades|)
    ensures forall a, b :: a in m.indice && b in m.indice ==> LessEq(m.dist[m.indice[a]][m.indice[b]], PesoInicial(gr, a, b))
    ensures EnRango(m.siguiente, |m.ciudades|)
    ensures var t := Tables(m.dist, m.siguiente);
      Shaped(t, |m.ciudades|) && HopsSound(t, |m.ciudades|) && HopsCover(t, |m.ciudades|) && HopsProgress(t, |m.ciudades|)
  {
    var m0 := MatricesDistanciaRuta(gr);
    var n := |m0.ciudades|;
    InicialesSanas(gr);
    var t := FloydWarshall(m0.dist, m0.siguiente, n);
    SoundEnRango(t, n);
    var m := m0.(dist := t.dist, siguiente := t.next);
    assert forall a, b :: a in m.indice && b in m.indice ==> LessEq(m.dist[m.indice[a]][m.indice[b]], PesoInicial(gr, a, b)) by {
      forall a, b | a in m.indice && b in m.indice
        ensures LessEq(m.dist[m.indice[a]][m.indice[b]], PesoInicial(gr, a, b))
      {
        assert LessEq(t.dist[m.indice[a]][m.indice[b]], m0.dist[m.indice[a]][m.indice[b]]);
      }
    }
    m
  }

  /** `agregar_conexion`: the updated graph and its recomputed grids. */
  function AgregarConexion(gr: DiGraph, ciudad1: string, ciudad2: string, t: Tiempos): (r: (DiGraph, Matrices))
    requires Bien(gr)
    ensures Bien(r.0) && ciudad1 in r.1.indice && ciudad2 in r.1.indice && Indexa(r.1.ciudades, r.1.indice)
    ensures Square(r.1.dist, |r.1.ciudades|)
    ensures LessEq(r.1.dist[r.1.indice[ciudad1]][r.1.indice[ciudad2]], Fin(t.normal))
    ensures Triangle(r.1.dist, |r.1.ciudades|)
  {
    var g := Conectar(gr, ciudad1, ciudad2, t);
    var m := Recalcular(g);
    CiudadesSonNodos(g);
    assert PesoInicial(g, ciudad1, ciudad2) == Fin(t.normal);
    (g, m)
  }
}
