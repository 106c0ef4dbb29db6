/** The fixture of the Java tests: four cities in a graph of capacity 10,
    four connections, then `floyd`, under the normal condition. The lemmas
    here derive what the tests expect of that state from the model alone,
    for any starting capacity, 10 among them. */
module Escenario {
  import opened Wrappers
  import opened Weight
  import opened ShortestPaths
  import opened Optimality
  import opened Clima
  import opened Rutas
  import opened Grafo
  import opened GrafoOptimo

  const G: string := "Guatemala"
  const Q: string := "Quetzaltenango"
  const A: string := "Antigua"
  const E: string := "Escuintla"

  /** The fixture's four `agregarCiudad` calls, in order. */
  const Nombres4: seq<string> := [G, Q, A, E]

  /** The first k cities of the fixture registered in a fresh graph of
      capacity `cap`. */
  function Ciudades(cap: nat, k: nat): Grafo
    requires k <= |Nombres4|
    decreases k
  {
    if k == 0 then New(cap) else AgregarCiudad(Ciudades(cap, k - 1), Nombres4[k - 1])
  }

  /** One `agregarConexion` call of the fixture: the two names and the four
      weather times. */
  datatype Conexion = Conexion(origen: string, destino: string,
                               tNormal: Weight, tLluvia: Weight, tNieve: Weight, tTormenta: Weight)

  /** The fixture's four `agregarConexion` calls, in order. */
  const Conexiones: seq<Conexion> := [
    Conexion(G, Q, Fin(5.0), Fin(6.0), Fin(7.0), Fin(10.0)),
    Conexion(Q, A, Fin(3.0), Fin(4.0), Fin(5.0), Fin(8.0)),
    Conexion(A, E, Fin(2.0), Fin(3.0), Fin(4.0), Fin(6.0)),
    Conexion(G, E, Fin(15.0), Fin(18.0), Fin(20.0), Fin(25.0))
  ]

  /** The four cities with the first k connections added. */
  function Conectado(cap: nat, k: nat): (g: Grafo)
    requires k <= |Conexiones|
    ensures Valid(g)
    decreases k
  {
    if k == 0 then Ciudades(cap, 4)
    else
      var c := Conexiones[k - 1];
      AgregarConexion(Conectado(cap, k - 1), c.origen, c.destino, c.tNormal, c.tLluvia, c.tNieve, c.tTormenta)
  }

  /** The state every test starts from. */
  function Fixture(cap: nat): Grafo
  {
    Floyd(Conectado(cap, 4))
  }

  /** The normal time of the connection from city i to city j, INF where
      the fixture adds none. */
  function Tramo(i: nat, j: nat): Weight
  {
    if i == 0 && j == 1 then Fin(5.0)
    else if i == 1 && j == 2 then Fin(3.0)
    else if i == 2 && j == 3 then Fin(2.0)
    else if i == 0 && j == 3 then Fin(15.0)
    else Inf
  }

  /** How far along the line Guatemala, Quetzaltenango, Antigua, Escuintla
      city k lies, counting the normal times of the connections between
      neighbours. */
  function Pos(k: nat): real
  {
    if k == 0 then 0.0 else if k == 1 then 5.0 else if k == 2 then 8.0 else 10.0
  }

  /** The ids a to z in order: the walk along the line. */
  function Tramos(a: nat, z: nat): (p: seq<nat>)
    requires a <= z
    ensures |p| == z - a + 1 && p[0] == a && p[|p| - 1] == z
    ensures forall m :: 0 <= m < |p| ==> p[m] == a + m
  {
    seq(z - a + 1, m requires 0 <= m < z - a + 1 => a + m)
  }

  /** What the fixture holds before `floyd`: the four cities with ids 0 to 3,
      the normal condition, and the fixture's times in the normal grid over
      the four cities. */
  predicate Hechos(c: Grafo)
  {
    && Valid(c) && c.condicion == Normal && c.nombres == [G, Q, A, E]
    && forall i, j :: 0 <= i < 4 && 0 <= j < 4 ==> c.Actual()[i][j] == Tramo(i, j)
  }

  /** Every normal cell of a graph is INF. */
  predicate Vacio(g: Grafo)
    requires Forma(g)
  {
    forall i, j :: 0 <= i < g.Capacidad() && 0 <= j < g.Capacidad() ==> g.normal[i][j] == Inf
  }

  /** `agregarCiudad` of a new name appends it, and every normal cell, old
      or newly allocated, stays INF. */
  lemma Registra(g: Grafo, nombre: string, nombres: seq<string>)
    requires Valid(g) && Vacio(g) && g.condicion == Normal && g.nombres == nombres && nombre !in nombres
    ensures var r := AgregarCiudad(g, nombre);
      Valid(r) && Vacio(r) && r.condicion == Normal && r.nombres == nombres + [nombre]
  {
  }

  /** Registering the first k cities gives them ids 0 to k - 1 in order,
      and every normal cell is still INF. */
  lemma {:induction false} CiudadesFacts(cap: nat, k: nat)
    requires k <= 4
    ensures var g := Ciudades(cap, k);
      Valid(g) && Vacio(g) && g.condicion == Normal && g.nombres == Nombres4[..k]
    decreases k
  {
    if k > 0 {
      CiudadesFacts(cap, k - 1);
      CiudadesPaso(cap, k - 1);
    }
  }

  /** Registering city k after the first k keeps the facts above. */
  lemma CiudadesPaso(cap: nat, k: nat)
    requires k < 4
    requires var g := Ciudades(cap, k);
      Valid(g) && Vacio(g) && g.condicion == Normal && g.nombres == Nombres4[..k]
    ensures var g := Ciudades(cap, k + 1);
      Valid(g) && Vacio(g) && g.condicion == Normal && g.nombres == Nombres4[..k + 1]
  {
    Distintos(k);
    Registra(Ciudades(cap, k), Nombres4[k], Nombres4[..k]);
  }

  /** The fixture never registers a name twice. */
  lemma Distintos(k: nat)
    requires k < 4
    ensures Nombres4[k] !in Nombres4[..k]
    ensures Nombres4[..k + 1] == Nombres4[..k] + [Nombres4[k]]
  {
    if k == 0 {
    } else if k == 1 {
    } else if k == 2 {
    } else {
    }
  }

  /** Connection k of the fixture runs from city `De(k)` to city `Hacia(k)`
      with normal time `TiempoNormal(k)`. */
  function De(k: nat): nat
  {
    if k == 1 then 1 else if k == 2 then 2 else 0
  }

  function Hacia(k: nat): nat
  {
    if k == 0 then 1 else if k == 1 then 2 else 3
  }

  function TiempoNormal(k: nat): Weight
  {
    if k == 0 then Fin(5.0) else if k == 1 then Fin(3.0) else if k == 2 then Fin(2.0) else Fin(15.0)
  }

  /** The normal time at cell (i, j) once the first k connections of the
      fixture are added. */
  function TramoHasta(k: nat, i: nat, j: nat): Weight
  {
    if 1 <= k && i == 0 && j == 1 then Fin(5.0)
    else if 2 <= k && i == 1 && j == 2 then Fin(3.0)
    else if 3 <= k && i == 2 && j == 3 then Fin(2.0)
    else if 4 <= k && i == 0 && j == 3 then Fin(15.0)
    else Inf
  }

  /** Connection k sets cell (i, j) when it is its own cell and leaves it
      alone otherwise. */
  predicate Cambia(k: nat, i: nat, j: nat)
  {
    TramoHasta(k + 1, i, j) == if i == De(k) && j == Hacia(k) then TiempoNormal(k) else TramoHasta(k, i, j)
  }

  /** Connection k changes the block at its own cell only, and the four
      connections leave the fixture's times. */
  lemma Siguiente(k: nat)
    requires k < 4
    ensures forall i: nat, j: nat :: i < 4 && j < 4 ==> Cambia(k, i, j)
    ensures forall i: nat, j: nat :: i < 4 && j < 4 ==> TramoHasta(4, i, j) == Tramo(i, j)
  {
    forall i: nat, j: nat | i < 4 && j < 4
      ensures Cambia(k, i, j)
    {
      if k == 0 {
      } else if k == 1 {
      } else if k == 2 {
      } else {
      }
    }
  }

  /** The four cities are registered and the normal grid over them holds the
      first k connections. */
  predicate Bloque(g: Grafo, k: nat)
  {
    && Valid(g) && g.condicion == Normal && g.nombres == [G, Q, A, E]
    && forall i, j :: 0 <= i < 4 && 0 <= j < 4 ==> g.normal[i][j] == TramoHasta(k, i, j)
  }

  /** The ids of the four cities. */
  lemma Ids4(g: Grafo)
    requires Valid(g) && g.nombres == [G, Q, A, E]
    ensures g.ciudades == map[G := 0, Q := 1, A := 2, E := 3]
  {
    assert g.nombres[0] == G && g.nombres[1] == Q && g.nombres[2] == A && g.nombres[3] == E;
    assert g.ciudades.Keys == {G, Q, A, E};
  }

  /** Connection k joins the cities with ids `De(k)` and `Hacia(k)` at
      normal time `TiempoNormal(k)`. */
  lemma Tabla(k: nat)
    requires k < 4
    ensures Conexiones[k].origen == [G, Q, A, E][De(k)] && Conexiones[k].destino == [G, Q, A, E][Hacia(k)]
    ensures Conexiones[k].tNormal == TiempoNormal(k)
  {
  }

  /** `agregarConexion` of connection k writes its normal time into the
      block and nothing else there. */
  lemma Conecta(g: Grafo, k: nat)
    requires Bloque(g, k) && k < 4
    ensures var c := Conexiones[k];
      Bloque(AgregarConexion(g, c.origen, c.destino, c.tNormal, c.tLluvia, c.tNieve, c.tTormenta), k + 1)
  {
    var c := Conexiones[k];
    Tabla(k);
    Ids4(g);
    assert g.ciudades[c.origen] == De(k) && g.ciudades[c.destino] == Hacia(k);
    assert Registrar(g, c.origen, c.destino) == g;
    AgregarConexionFrame(g, c.origen, c.destino, c.tNormal, c.tLluvia, c.tNieve, c.tTormenta);
    Siguiente(k);
  }

  /** Adding connection k to the graph holding the first k gives the next block. */
  lemma ConectaPaso(cap: nat, k: nat)
    requires k < 4
    ensures Bloque(Conectado(cap, k), k) ==> Bloque(Conectado(cap, k + 1), k + 1)
  {
    if Bloque(Conectado(cap, k), k) {
      Conecta(Conectado(cap, k), k);
    }
  }

  /** With the first k connections added, the block holds their times. */
  lemma {:induction false} ConectadoBloque(cap: nat, k: nat)
    requires k <= 4
    ensures Bloque(Conectado(cap, k), k)
    decreases k
  {
    if k == 0 {
      CiudadesBloque(cap);
    } else {
      ConectadoBloque(cap, k - 1);
      ConectaPaso(cap, k - 1);
    }
  }

  /** Before any connection the block is all INF. */
  lemma CiudadesBloque(cap: nat)
    ensures Bloque(Conectado(cap, 0), 0)
  {
    CiudadesFacts(cap, 4);
    assert Nombres4[..4] == [G, Q, A, E];
  }

  /** After the four connections the normal grid over the four cities holds
      exactly their times. */
  lemma ConectadoFacts(cap: nat)
    ensures Hechos(Conectado(cap, 4))
  {
    ConectadoBloque(cap, 4);
    Siguiente(3);
  }

  /** The distances along the line: finite only forward. */
  function Linea(): (l: Grid)
    ensures Square(l, 4)
    ensures forall i, j :: 0 <= i < 4 && 0 <= j < 4 ==> l[i][j] == if i < j then Fin(Pos(j) - Pos(i)) else Inf
  {
    seq(4, i requires 0 <= i < 4 => seq(4, j requires 0 <= j < 4 => if i < j then Fin(Pos(j) - Pos(i)) else Inf))
  }

  /** The line distances satisfy the triangle inequality and lie under every
      connection of the fixture. */
  lemma LineaBajo(d: Grid)
    requires Square(d, |d|) && 4 <= |d| && forall i, j :: 0 <= i < 4 && 0 <= j < 4 ==> d[i][j] == Tramo(i, j)
    ensures Triangle(Linea(), 4) && Minorant(Linea(), d, 4)
  {
    var l := Linea();
    forall i, j, m | 0 <= i < 4 && 0 <= j < 4 && 0 <= m < 4
      ensures Via(l, i, j, m)
    {
    }
  }

  /** The cost along the line from a to z is the distance between them. */
  lemma {:induction false} CostTramos(d: Grid, a: nat, z: nat)
    requires Square(d, |d|) && 4 <= |d| && forall i, j :: 0 <= i < 4 && 0 <= j < 4 ==> d[i][j] == Tramo(i, j)
    requires a <= z < 4
    ensures Ids(Tramos(a, z), |d|) && Cost(d, Tramos(a, z)) == Fin(Pos(z) - Pos(a))
    decreases z - a
  {
    if a < z {
      CostTramos(d, a + 1, z);
      assert Tramos(a, z)[1..] == Tramos(a + 1, z);
    }
  }

  /** Every walk of finite cost over the fixture's connections goes forward
      along the line, costs at least the line distance, and costs exactly
      that only when it is the line walk itself. */
  lemma {:induction false} Recorrido(d: Grid, p: seq<nat>, z: nat)
    requires Square(d, |d|) && 4 <= |d| && forall i, j :: 0 <= i < 4 && 0 <= j < 4 ==> d[i][j] == Tramo(i, j)
    requires |p| >= 1 && Ids(p, 4) && p[|p| - 1] == z && Cost(d, p).Fin?
    ensures p[0] <= z && Cost(d, p).t >= Pos(z) - Pos(p[0])
    ensures Cost(d, p).t == Pos(z) - Pos(p[0]) ==> p == Tramos(p[0], z)
    decreases |p|
  {
    if |p| >= 2 {
      var rest := p[1..];
      Recorrido(d, rest, z);
      if Cost(d, p).t == Pos(z) - Pos(p[0]) {
        assert p == [p[0]] + rest;
      }
    }
  }

  /** After `floyd` no distance of the fixture is below the line distance. */
  lemma DistanciasBajo(c: Grafo)
    requires Hechos(c)
    ensures Minorant(Linea(), Floyd(c).Actual(), 4)
  {
    assert |c.ciudades| == 4;
    LineaBajo(c.Actual());
    ClosureGreatest(Reiniciar(c.Actual(), c.next, 4), 4, Linea());
  }

  /** After `floyd` the distance from Guatemala to the z-th city is at most
      the cost along the line. */
  lemma DistanciaArriba(c: Grafo, z: nat)
    requires Hechos(c) && 1 <= z < 4
    ensures LessEq(Floyd(c).Actual()[0][z], Fin(Pos(z)))
  {
    FloydFacts(c);
    CostTramos(c.Actual(), 0, z);
    BelowCost(c.Actual(), Floyd(c).Actual(), 4, Tramos(0, z));
  }

  /** After `floyd` the fixture's distances from Guatemala are those along
      the line, and nothing reaches Guatemala. */
  lemma Distancias(c: Grafo)
    requires Hechos(c)
    ensures var f := Floyd(c);
      && (forall z :: 1 <= z < 4 ==> f.Actual()[0][z] == Fin(Pos(z)))
      && (forall i :: 0 <= i < 4 ==> f.Actual()[i][0] == Inf)
  {
    var f := Floyd(c);
    DistanciasBajo(c);
    forall z | 1 <= z < 4
      ensures f.Actual()[0][z] == Fin(Pos(z))
    {
      DistanciaArriba(c, z);
      assert LessEq(Linea()[0][z], f.Actual()[0][z]);
    }
    forall i | 0 <= i < 4
      ensures f.Actual()[i][0] == Inf
    {
      assert LessEq(Linea()[i][0], f.Actual()[i][0]);
    }
  }

  /** The route `obtenerRuta` gives from Guatemala to the z-th city is the
      walk along the line, timed with the line distance. */
  lemma RutaLinea(c: Grafo, z: nat)
    requires Hechos(c) && 1 <= z < 4
    ensures ObtenerRuta(Floyd(c), G, c.nombres[z]) == Halts(Some(Ruta(Nombres(c, Tramos(0, z)), Pos(z))))
  {
    Ids4(c);
    Distancias(c);
    var f := Floyd(c);
    var destino := c.nombres[z];
    assert Positive(c.Actual(), 4);
    FloydTermina(c, G, destino);
    RutaMinima(c, G, destino);
    var rt := ObtenerRuta(f, G, destino).value.value;
    var p := Posiciones(c.ciudades, rt.camino);
    Recorrido(c.Actual(), p, z);
    assert rt.camino == Nombres(c, Tramos(0, z));
  }

  /** The line walks from Guatemala by name. */
  lemma NombresLinea(c: Grafo)
    requires Valid(c) && c.nombres == [G, Q, A, E]
    ensures Nombres(c, Tramos(0, 1)) == [G, Q]
    ensures Nombres(c, Tramos(0, 2)) == [G, Q, A]
    ensures Nombres(c, Tramos(0, 3)) == [G, Q, A, E]
  {
    assert Tramos(0, 1) == [0, 1];
    assert Tramos(0, 2) == [0, 1, 2];
    assert Tramos(0, 3) == [0, 1, 2, 3];
  }

  /** The routes the tests ask for, from the state before `floyd`. */
  lemma Rutas4(c: Grafo)
    requires Hechos(c)
    ensures ObtenerRuta(Floyd(c), G, Q) == Halts(Some(Ruta([G, Q], 5.0)))
    ensures ObtenerRuta(Floyd(c), G, A) == Halts(Some(Ruta([G, Q, A], 8.0)))
    ensures ObtenerRuta(Floyd(c), G, E) == Halts(Some(Ruta([G, Q, A, E], 10.0)))
    ensures ObtenerRuta(Floyd(c), Q, G) == Halts(None)
  {
    NombresLinea(c);
    RutaLinea(c, 1);
    RutaLinea(c, 2);
    RutaLinea(c, 3);
    SinVuelta(c);
  }

  /** No route leads back to Guatemala. */
  lemma SinVuelta(c: Grafo)
    requires Hechos(c)
    ensures ObtenerRuta(Floyd(c), Q, G) == Halts(None)
  {
    Ids4(c);
    Distancias(c);
  }

  /** `testObtenerRuta` and `testFloydWarshall`: the direct route to
      Quetzaltenango, the three-hop route to Escuintla at 10 rather than the
      direct 15, Antigua at 8, and no route back to Guatemala. */
  lemma PruebaObtenerRuta(cap: nat)
    ensures ObtenerRuta(Fixture(cap), G, Q) == Halts(Some(Ruta([G, Q], 5.0)))
    ensures ObtenerRuta(Fixture(cap), G, A) == Halts(Some(Ruta([G, Q, A], 8.0)))
    ensures ObtenerRuta(Fixture(cap), G, E) == Halts(Some(Ruta([G, Q, A, E], 10.0)))
    ensures ObtenerRuta(Fixture(cap), Q, G) == Halts(None)
  {
    ConectadoFacts(cap);
    Rutas4(Conectado(cap, 4));
  }

  /** After `floyd` the center is Guatemala, the only city that reaches every
      other one. */
  lemma Centro4(c: Grafo)
    requires Hechos(c)
    ensures ObtenerCentro(Floyd(c)) == G
  {
    var f := Floyd(c);
    Distancias(c);
    SoloPrimera(f.Actual());
    CentroPrimera(f);
  }

  /** When the first of four cities is the center, `obtenerCentro` names it. */
  lemma CentroPrimera(g: Grafo)
    requires Valid(g) && |g.nombres| == 4 && EsCentro(g.Actual(), 4, 0)
    ensures ObtenerCentro(g) == g.nombres[0]
  {
  }

  /** In a grid over four cities where the first reaches every other and
      none reaches the first, the first is the center. */
  lemma SoloPrimera(d: Grid)
    requires Square(d, |d|) && 4 <= |d|
    requires forall z :: 1 <= z < 4 ==> d[0][z].Fin?
    requires forall i :: 1 <= i < 4 ==> d[i][0] == Inf
    ensures EsCentro(d, 4, 0)
  {
    forall i | 1 <= i < 4
      ensures Excentricidad(d, 4, i).None?
    {
      assert d[i][0] == Inf;
    }
    assert Excentricidad(d, 4, 0).Some?;
  }

  /** `testObtenerCentro`: the first center of the fixture is Guatemala,
      the only city that reaches every other one. */
  lemma PruebaCentro(cap: nat)
    ensures ObtenerCentro(Fixture(cap)) == G
  {
    ConectadoFacts(cap);
    Centro4(Conectado(cap, 4));
  }
}
