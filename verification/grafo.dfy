/** The Java engine `Grafo`: a registry of city names, four weight grids (one
    per weather condition), one next-hop grid shared by all four, and the
    condition that selects the grid the algorithms read and write. */
module Grafo {
  import opened Wrappers
  import opened Weight
  import opened ShortestPaths
  import opened Clima
  import opened Rutas

  /** The exception a call can throw. */
  datatype Error =
    /** `ciudades.get` returned null for an unregistered name and the
        result was unboxed to an `int`. */
    NullPointer

  /** The state of one `Grafo` object. Every grid is `Capacidad()` by
      `Capacidad()`, of which the first `|nombres|` rows and columns are in
      use. `matrizActual` is not a field of its own: it is `Actual()`, the grid
      `condicion` selects, so writing through it writes that grid. */
  datatype Grafo = Grafo(
    ciudades: map<string, nat>,
    nombres: seq<string>,
    normal: Grid,
    lluvia: Grid,
    nieve: Grid,
    tormenta: Grid,
    next: Hops,
    condicion: CondicionClimatica)
  {
    /** The allocated size of the arrays, `matrizNormal.length`. */
    function Capacidad(): nat
    {
      |normal|
    }

    /** The grid of weather condition `c`. */
    function Matriz(c: CondicionClimatica): Grid
    {
      match c
      case Normal => normal
      case Lluvia => lluvia
      case Nieve => nieve
      case Tormenta => tormenta
    }

    /** `matrizActual`. */
    function Actual(): Grid
    {
      Matriz(condicion)
    }

    /** This state with the grid of condition `c` replaced by `d`. */
    function WithMatriz(c: CondicionClimatica, d: Grid): (r: Grafo)
      ensures r.Matriz(c) == d
      ensures forall o :: o != c ==> r.Matriz(o) == Matriz(o)
      ensures r.ciudades == ciudades && r.nombres == nombres && r.next == next && r.condicion == condicion
    {
      match c
      case Normal => this.(normal := d)
      case Lluvia => this.(lluvia := d)
      case Nieve => this.(nieve := d)
      case Tormenta => this.(tormenta := d)
    }
  }

  /** The five arrays are square, of one size, and hold every registered city. */
  predicate Forma(g: Grafo)
  {
    var c := g.Capacidad();
    && Square(g.normal, c) && Square(g.lluvia, c) && Square(g.nieve, c) && Square(g.tormenta, c)
    && Square(g.next, c)
  }

  /** The name map and the name list are inverse to each other: ids are
      0 .. n-1, in order of registration. */
  predicate Registro(g: Grafo)
  {
    && |g.ciudades| == |g.nombres|
    && (forall name :: name in g.ciudades ==> g.ciudades[name] < |g.nombres| && g.nombres[g.ciudades[name]] == name)
    && (forall i :: 0 <= i < |g.nombres| ==> g.nombres[i] in g.ciudades && g.ciudades[g.nombres[i]] == i)
  }

  /** Every cell outside the first n rows and columns holds `v`. */
  predicate Vacia<T(==)>(a: seq<seq<T>>, n: nat, v: T)
    requires Square(a, |a|)
  {
    forall i, j :: 0 <= i < |a| && 0 <= j < |a| && (n <= i || n <= j) ==> a[i][j] == v
  }

  /** Every hop in use is a city id or the sentinel -1. */
  predicate Saltos(nx: Hops, n: nat)
    requires Square(nx, |nx|) && n <= |nx|
  {
    forall i, j :: 0 <= i < n && 0 <= j < n ==> -1 <= nx[i][j] < n
  }

  /** The invariant every public method keeps. */
  predicate Valid(g: Grafo)
  {
    && Forma(g) && Registro(g) && |g.nombres| <= g.Capacidad()
    && Saltos(g.next, |g.nombres|)
    && Vacia(g.normal, |g.nombres|, Inf) && Vacia(g.lluvia, |g.nombres|, Inf)
    && Vacia(g.nieve, |g.nombres|, Inf) && Vacia(g.tormenta, |g.nombres|, Inf)
    && Vacia(g.next, |g.nombres|, -1)
  }

  /** `b` keeps every cell of `a` and holds `v` in every cell `a` does not have. */
  predicate Extends<T(==)>(a: seq<seq<T>>, b: seq<seq<T>>, v: T)
    requires Square(a, |a|) && Square(b, |b|)
  {
    |a| <= |b| && forall i, j :: 0 <= i < |b| && 0 <= j < |b| ==> b[i][j] == (if i < |a| && j < |a| then a[i][j] else v)
  }

  /** All five arrays of `r` extend those of `g`: old cells kept, new ones
      INF, or -1 in `next`. */
  predicate Extiende(g: Grafo, r: Grafo)
    requires Forma(g) && Forma(r)
  {
    && Extends(g.normal, r.normal, Inf) && Extends(g.lluvia, r.lluvia, Inf)
    && Extends(g.nieve, r.nieve, Inf) && Extends(g.tormenta, r.tormenta, Inf)
    && Extends(g.next, r.next, -1)
  }

  /** A new c-by-c array holding `a` in its top-left corner and `v` elsewhere. */
  function Grow<T>(a: seq<seq<T>>, c: nat, v: T): (r: seq<seq<T>>)
    requires Square(a, |a|) && |a| <= c
    ensures Square(r, c)
  {
    seq(c, i requires 0 <= i < c => seq(c, j requires 0 <= j < c => if i < |a| && j < |a| then a[i][j] else v))
  }

  /** `Grow` keeps the old cells and fills the rest. */
  lemma GrowExtends<T>(a: seq<seq<T>>, c: nat, v: T)
    requires Square(a, |a|) && |a| <= c
    ensures Extends(a, Grow(a, c, v), v)
  {
  }

  /** The constructor: `cap` by `cap` arrays, no city, condition NORMAL.
      With no city in use, `Valid` says every weight is INF and every hop -1. */
  function New(cap: nat): (g: Grafo)
    ensures Valid(g) && g.Capacidad() == cap && |g.nombres| == 0 && g.condicion == Normal
  {
    Grafo(map[], [], Fill(cap, Inf), Fill(cap, Inf), Fill(cap, Inf), Fill(cap, Inf), Fill(cap, -1), Normal)
  }

  /** `redimensionarMatrices`: five new arrays of the larger size, the old
      cells copied in, the rest INF or -1. The selection of the current grid
      is part of the state, so it follows the copy. */
  function Redimensionar(g: Grafo, nueva: nat): (r: Grafo)
    requires Forma(g) && g.Capacidad() <= nueva
    ensures Forma(r) && r.Capacidad() == nueva && Extiende(g, r)
    ensures r.ciudades == g.ciudades && r.nombres == g.nombres && r.condicion == g.condicion
  {
    GrowExtends(g.normal, nueva, Inf);
    GrowExtends(g.lluvia, nueva, Inf);
    GrowExtends(g.nieve, nueva, Inf);
    GrowExtends(g.tormenta, nueva, Inf);
    GrowExtends(g.next, nueva, -1);
    g.(normal := Grow(g.normal, nueva, Inf), lluvia := Grow(g.lluvia, nueva, Inf),
       nieve := Grow(g.nieve, nueva, Inf), tormenta := Grow(g.tormenta, nueva, Inf),
       next := Grow(g.next, nueva, -1))
  }

  /** `agregarCiudad`: a known name changes nothing; a new name gets the next
      id and, once the ids reach the capacity, the arrays grow to id + 10. */
  function AgregarCiudad(g: Grafo, nombre: string): (r: Grafo)
    requires Valid(g)
    ensures Valid(r) && nombre in r.ciudades && r.condicion == g.condicion
    ensures nombre in g.ciudades ==> r == g
    ensures nombre !in g.ciudades ==>
      && r.nombres == g.nombres + [nombre]
      && r.ciudades == g.ciudades[nombre := |g.nombres|]
      && r.Capacidad() == (if |g.nombres| < g.Capacidad() then g.Capacidad() else |g.nombres| + 10)
      && Extiende(g, r)
  {
    if nombre in g.ciudades then g
    else
      var index := |g.ciudades|;
      var h := g.(ciudades := g.ciudades[nombre := index], nombres := g.nombres + [nombre]);
      assert Extiende(g, h);
      var r := if index >= g.Capacidad() then Redimensionar(h, index + 10) else h;
      NuevaCiudadValid(g, r, nombre);
      r
  }

  /** Registering a new name at id n keeps the invariant, whatever the
      capacity grew to, as long as the arrays extend the old ones. */
  lemma NuevaCiudadValid(g: Grafo, r: Grafo, nombre: string)
    requires Valid(g) && nombre !in g.ciudades && Forma(r)
    requires r.nombres == g.nombres + [nombre] && r.ciudades == g.ciudades[nombre := |g.nombres|]
    requires |r.nombres| <= r.Capacidad() && Extiende(g, r)
    ensures Valid(r)
  {
    var n := |g.nombres|;
    assert Registro(r) by {
      forall i | 0 <= i < |r.nombres|
        ensures r.nombres[i] in r.ciudades && r.ciudades[r.nombres[i]] == i
      {
        if i < n {
          assert r.nombres[i] == g.nombres[i];
        }
      }
    }
  }

  /** `contieneCiudad`: a lookup in the name map, which holds exactly the
      names in the list of registered cities. */
  predicate ContieneCiudad(g: Grafo, ciudad: string): (b: bool)
    requires Valid(g)
    ensures b <==> ciudad in g.nombres
  {
    assert ciudad in g.ciudades ==> g.nombres[g.ciudades[ciudad]] == ciudad;
    ciudad in g.ciudades
  }

  /** `getCiudades`: the key set of the name map, which is exactly the set
      of registered names, one per id. */
  function GetCiudades(g: Grafo): (s: set<string>)
    requires Valid(g)
    ensures forall x :: x in s <==> x in g.nombres
    ensures |s| == |g.nombres|
  {
    g.ciudades.Keys
  }

  /** Registering a name twice is the same as registering it once, and the
      name is then known. */
  lemma AgregarCiudadIdempotent(g: Grafo, nombre: string)
    requires Valid(g)
    ensures AgregarCiudad(AgregarCiudad(g, nombre), nombre) == AgregarCiudad(g, nombre)
    ensures ContieneCiudad(AgregarCiudad(g, nombre), nombre)
  {
  }

  /** `b` differs from `a` at most in cell [i][j]. */
  predicate OnlyCell<T(==)>(a: seq<seq<T>>, b: seq<seq<T>>, i: nat, j: nat)
    requires Square(a, |a|) && Square(b, |a|)
  {
    forall x, y :: 0 <= x < |a| && 0 <= y < |a| && (x != i || y != j) ==> b[x][y] == a[x][y]
  }

  /** The five writes `agregarConexion` and `eliminarConexion` make: one
      value per grid at [i][j]. */
  function Escribir(g: Grafo, i: nat, j: nat, tNormal: Weight, tLluvia: Weight,
                    tNieve: Weight, tTormenta: Weight, hop: int): (r: Grafo)
    requires Forma(g) && i < g.Capacidad() && j < g.Capacidad()
    ensures Forma(r) && r.Capacidad() == g.Capacidad()
    ensures r.ciudades == g.ciudades && r.nombres == g.nombres && r.condicion == g.condicion
  {
    g.(normal := SetCell(g.normal, i, j, tNormal), lluvia := SetCell(g.lluvia, i, j, tLluvia),
       nieve := SetCell(g.nieve, i, j, tNieve), tormenta := SetCell(g.tormenta, i, j, tTormenta),
       next := SetCell(g.next, i, j, hop))
  }

  /** Writing a cell in use, with a hop that is an id or -1, keeps the invariant. */
  lemma EscribirValid(g: Grafo, i: nat, j: nat, tNormal: Weight, tLluvia: Weight,
                      tNieve: Weight, tTormenta: Weight, hop: int)
    requires Valid(g) && i < |g.nombres| && j < |g.nombres| && -1 <= hop < |g.nombres|
    ensures Valid(Escribir(g, i, j, tNormal, tLluvia, tNieve, tTormenta, hop))
  {
  }

  /** What the five writes leave behind: the new values at [i][j], every
      other cell as it was. */
  lemma EscribirFrame(g: Grafo, i: nat, j: nat, tNormal: Weight, tLluvia: Weight,
                      tNieve: Weight, tTormenta: Weight, hop: int)
    requires Forma(g) && i < g.Capacidad() && j < g.Capacidad()
    ensures var r := Escribir(g, i, j, tNormal, tLluvia, tNieve, tTormenta, hop);
      && r.normal[i][j] == tNormal && r.lluvia[i][j] == tLluvia
      && r.nieve[i][j] == tNieve && r.tormenta[i][j] == tTormenta && r.next[i][j] == hop
      && OnlyCell(g.normal, r.normal, i, j) && OnlyCell(g.lluvia, r.lluvia, i, j)
      && OnlyCell(g.nieve, r.nieve, i, j) && OnlyCell(g.tormenta, r.tormenta, i, j)
      && OnlyCell(g.next, r.next, i, j)
  {
  }

  /** The two registrations `agregarConexion` starts with, first name first:
      each name not yet known is appended, the origin before the destination. */
  function Registrar(g: Grafo, ciudad1: string, ciudad2: string): (r: Grafo)
    requires Valid(g)
    ensures Valid(r) && ciudad1 in r.ciudades && ciudad2 in r.ciudades && r.condicion == g.condicion
    ensures r.nombres == g.nombres + (if ciudad1 in g.ciudades then [] else [ciudad1])
                                   + (if ciudad2 in g.ciudades || ciudad2 == ciudad1 then [] else [ciudad2])
  {
    AgregarCiudad(AgregarCiudad(g, ciudad1), ciudad2)
  }

  /** `agregarConexion`: both names registered, then the four weights written
      at [i][j] and the hop set to j. No shortest path is recomputed. */
  function AgregarConexion(g: Grafo, ciudad1: string, ciudad2: string,
                           tNormal: Weight, tLluvia: Weight, tNieve: Weight, tTormenta: Weight): (r: Grafo)
    requires Valid(g)
    ensures Valid(r) && ciudad1 in r.ciudades && ciudad2 in r.ciudades
    ensures r.ciudades == Registrar(g, ciudad1, ciudad2).ciudades
    ensures r.nombres == Registrar(g, ciudad1, ciudad2).nombres
    ensures r.condicion == g.condicion
  {
    var h := Registrar(g, ciudad1, ciudad2);
    var i, j := h.ciudades[ciudad1], h.ciudades[ciudad2];
    EscribirValid(h, i, j, tNormal, tLluvia, tNieve, tTormenta, j);
    Escribir(h, i, j, tNormal, tLluvia, tNieve, tTormenta, j)
  }

  /** `agregarConexion` writes exactly cell [i][j] of the registered state:
      the four weights and the hop j, every other cell unchanged. */
  lemma AgregarConexionFrame(g: Grafo, ciudad1: string, ciudad2: string,
                             tNormal: Weight, tLluvia: Weight, tNieve: Weight, tTormenta: Weight)
    requires Valid(g)
    ensures var h := Registrar(g, ciudad1, ciudad2);
      var r := AgregarConexion(g, ciudad1, ciudad2, tNormal, tLluvia, tNieve, tTormenta);
      var i, j := r.ciudades[ciudad1], r.ciudades[ciudad2];
      && r.normal[i][j] == tNormal && r.lluvia[i][j] == tLluvia
      && r.nieve[i][j] == tNieve && r.tormenta[i][j] == tTormenta && r.next[i][j] == j
      && OnlyCell(h.normal, r.normal, i, j) && OnlyCell(h.lluvia, r.lluvia, i, j)
      && OnlyCell(h.nieve, r.nieve, i, j) && OnlyCell(h.tormenta, r.tormenta, i, j)
      && OnlyCell(h.next, r.next, i, j)
  {
    var h := Registrar(g, ciudad1, ciudad2);
    EscribirFrame(h, h.ciudades[ciudad1], h.ciudades[ciudad2], tNormal, tLluvia, tNieve, tTormenta, h.ciudades[ciudad2]);
  }

  /** `eliminarConexion`: an unregistered name makes `ciudades.get` return
      null and the unboxing throw; otherwise cell [i][j] becomes INF in all
      four grids and -1 in `next`. */
  function EliminarConexion(g: Grafo, ciudad1: string, ciudad2: string): (r: Result<Grafo, Error>)
    requires Valid(g)
    ensures r.Failure? <==> ciudad1 !in g.ciudades || ciudad2 !in g.ciudades
    ensures r.Success? ==> Valid(r.value) && r.value.ciudades == g.ciudades && r.value.nombres == g.nombres
    ensures r.Success? ==> r.value.condicion == g.condicion
  {
    if ciudad1 !in g.ciudades || ciudad2 !in g.ciudades then Failure(NullPointer)
    else
      var i, j := g.ciudades[ciudad1], g.ciudades[ciudad2];
      EscribirValid(g, i, j, Inf, Inf, Inf, Inf, -1);
      Success(Escribir(g, i, j, Inf, Inf, Inf, Inf, -1))
  }

  /** `eliminarConexion` on registered names writes exactly cell [i][j]:
      INF in the four grids, -1 in `next`, every other cell unchanged. */
  lemma EliminarConexionFrame(g: Grafo, ciudad1: string, ciudad2: string)
    requires Valid(g) && ciudad1 in g.ciudades && ciudad2 in g.ciudades
    ensures var e := EliminarConexion(g, ciudad1, ciudad2).value;
      var i, j := g.ciudades[ciudad1], g.ciudades[ciudad2];
      && e.normal[i][j] == Inf && e.lluvia[i][j] == Inf && e.nieve[i][j] == Inf && e.tormenta[i][j] == Inf
      && e.next[i][j] == -1
      && OnlyCell(g.normal, e.normal, i, j) && OnlyCell(g.lluvia, e.lluvia, i, j)
      && OnlyCell(g.nieve, e.nieve, i, j) && OnlyCell(g.tormenta, e.tormenta, i, j)
      && OnlyCell(g.next, e.next, i, j)
  {
    EscribirFrame(g, g.ciudades[ciudad1], g.ciudades[ciudad2], Inf, Inf, Inf, Inf, -1);
  }

  /** The first loop of `floyd`: in the n-by-n block the hop becomes j where
      the current grid is finite and -1 where it is INF. */
  function Reiniciar(d: Grid, nx: Hops, n: nat): (t: Tables)
    requires Square(d, |d|) && Square(nx, |d|) && n <= |d|
    ensures Shaped(t, n) && t.dist == d
    ensures HopsSound(t, n) && HopsCover(t, n) && DiagCover(t, n) && HopsProgress(t, n)
    ensures forall i, j :: 0 <= i < n && 0 <= j < n && t.next[i][j] != -1 ==> t.next[i][j] == j
    ensures SameOutside(Tables(d, nx), t, n)
  {
    var c := |d|;
    Tables(d, seq(c, i requires 0 <= i < c => seq(c, j requires 0 <= j < c =>
      if i < n && j < n then (if d[i][j].Fin? then j else -1) else nx[i][j])))
  }

  /** The tables `floyd` leaves: the reset hops and the current grid, relaxed
      through every pivot below n = |ciudades|. */
  function Tablas(g: Grafo): (t: Tables)
    requires Valid(g)
    ensures Shaped(t, |g.nombres|) && |t.dist| == g.Capacidad()
  {
    var n := |g.ciudades|;
    Closure(Reiniciar(g.Actual(), g.next, n), n)
  }

  /** `floyd`: the hops reset from the current grid, then the Floyd-Warshall
      recurrence in place on the current grid. The other three grids are not
      touched. */
  function Floyd(g: Grafo): (r: Grafo)
    requires Valid(g)
    ensures Valid(r) && r.ciudades == g.ciudades && r.nombres == g.nombres && r.condicion == g.condicion
    ensures r.Actual() == Tablas(g).dist && r.next == Tablas(g).next
    ensures forall c :: c != g.condicion ==> r.Matriz(c) == g.Matriz(c)
  {
    var t := Tablas(g);
    var r := g.WithMatriz(g.condicion, t.dist).(next := t.next);
    FloydValid(g, r);
    r
  }

  /** Installing the relaxed tables keeps the invariant. */
  lemma FloydValid(g: Grafo, r: Grafo)
    requires Valid(g) && r == g.WithMatriz(g.condicion, Tablas(g).dist).(next := Tablas(g).next)
    ensures Valid(r)
  {
    var n := |g.nombres|;
    var s := Reiniciar(g.Actual(), g.next, n);
    assert Relaxed(s, Tablas(g), n, n);
    forall c
      ensures Square(r.Matriz(c), g.Capacidad()) && Vacia(r.Matriz(c), n, Inf)
    {
      if c != g.condicion {
        assert r.Matriz(c) == g.Matriz(c);
      }
    }
  }

  /** What one `floyd` guarantees over the cities in use: no entry of the
      current grid grows, the triangle inequality holds through every city,
      and a hop is -1 exactly where the distance is INF. */
  lemma FloydFacts(g: Grafo)
    requires Valid(g)
    ensures NoIncrease(g.Actual(), Floyd(g).Actual())
    ensures Triangle(Floyd(g).Actual(), |g.nombres|)
    ensures forall i, j {:trigger Floyd(g).next[i][j]} :: 0 <= i < |g.nombres| && 0 <= j < |g.nombres| ==>
      (Floyd(g).next[i][j] == -1 <==> Floyd(g).Actual()[i][j].Inf?)
  {
    var n := |g.nombres|;
    var s := Reiniciar(g.Actual(), g.next, n);
    var t := Tablas(g);
    assert Relaxed(s, t, n, n);
    assert HopsSound(t, n) && HopsCover(t, n) && DiagCover(t, n);
  }

  /** A second `floyd` keeps every distance but resets every hop to the
      direct one: the routes it leaves behind are single hops. */
  lemma FloydTwice(g: Grafo)
    requires Valid(g)
    ensures Floyd(Floyd(g)).Actual() == Floyd(g).Actual()
    ensures forall i, j :: 0 <= i < |g.nombres| && 0 <= j < |g.nombres| ==>
      Floyd(Floyd(g)).next[i][j] == (if Floyd(g).Actual()[i][j].Fin? then j else -1)
  {
    var n := |g.nombres|;
    var f := Floyd(g);
    FloydFacts(g);
    var s := Reiniciar(f.Actual(), f.next, n);
    assert Relaxed(s, Tablas(f), n, n);
    assert Tablas(f) == s;
  }

  /** `cambiarCondicionClimatica`: select the grid of `c`, then `floyd`. */
  function CambiarCondicionClimatica(g: Grafo, c: CondicionClimatica): (r: Grafo)
    requires Valid(g)
    ensures Valid(r) && r.condicion == c && r.ciudades == g.ciudades && r.nombres == g.nombres
    ensures forall o :: o != c ==> r.Matriz(o) == g.Matriz(o)
  {
    Floyd(g.(condicion := c))
  }

  /** After a change of condition the current grid is the grid of the new
      condition run through `floyd`: no entry above the stored one, and the
      triangle inequality through every city. */
  lemma CambiarCondicionFacts(g: Grafo, c: CondicionClimatica)
    requires Valid(g)
    ensures var r := CambiarCondicionClimatica(g, c);
      && Square(g.Matriz(c), g.Capacidad()) && Square(r.Actual(), g.Capacidad())
      && NoIncrease(g.Matriz(c), r.Actual()) && Triangle(r.Actual(), |g.nombres|)
  {
    FloydFacts(g.(condicion := c));
  }

  /** `getCondicionActual`: the condition whose grid the algorithms use. */
  function GetCondicionActual(g: Grafo): (c: CondicionClimatica)
    ensures g.Matriz(c) == g.Actual()
  {
    g.condicion
  }

  /** Where the hop chain toward j stands after m steps from `at`; it stays
      put once it reaches j or -1. */
  function Walk(nx: Hops, n: nat, at: int, j: nat, m: nat): (w: int)
    requires Square(nx, |nx|) && n <= |nx| && Saltos(nx, n) && j < n && -1 <= at < n
    ensures -1 <= w < n
    decreases m
  {
    if m == 0 || at == j || at == -1 then at else Walk(nx, n, nx[at][j], j, m - 1)
  }

  /** The loop of `obtenerRuta` from `at` toward j: the ids it appends before
      it reaches j; None when it meets -1 first; Diverges when `fuel` ids were
      appended and the chain still goes on. */
  function Chase(nx: Hops, n: nat, at: int, j: nat, fuel: nat): (r: Halting<Option<seq<nat>>>)
    requires Square(nx, |nx|) && n <= |nx| && Saltos(nx, n) && j < n && -1 <= at < n
    ensures r.Halts? && r.value.Some? ==>
      && |r.value.value| <= fuel && Walk(nx, n, at, j, |r.value.value|) == j
      && forall m :: 0 <= m < |r.value.value| ==>
           r.value.value[m] == Walk(nx, n, at, j, m) && r.value.value[m] != j
    ensures r == Halts(None) ==> exists m :: 0 <= m <= fuel && Walk(nx, n, at, j, m) == -1
    ensures r.Diverges? ==> forall m :: 0 <= m <= fuel ==> Walk(nx, n, at, j, m) != j && Walk(nx, n, at, j, m) != -1
    decreases fuel
  {
    if at == j then Halts(Some([]))
    else if at == -1 then
      assert Walk(nx, n, at, j, 0) == -1;
      Halts(None)
    else if fuel == 0 then Diverges
    else
      var rest := Chase(nx, n, nx[at][j], j, fuel - 1);
      WalkStep(nx, n, at, j);
      match rest
      case Halts(Some(ids)) => Halts(Some([at as nat] + ids))
      case _ => rest
  }

  /** One step of the walk from a city other than j. */
  lemma WalkStep(nx: Hops, n: nat, at: int, j: nat)
    requires Square(nx, |nx|) && n <= |nx| && Saltos(nx, n) && j < n && 0 <= at < n && at != j
    ensures forall m: nat :: Walk(nx, n, at, j, m + 1) == Walk(nx, n, nx[at][j], j, m)
  {
  }

  /** Once the chain reaches j or -1 it stays there. */
  lemma {:induction false} WalkStays(nx: Hops, n: nat, at: int, j: nat, m: nat, m2: nat)
    requires Square(nx, |nx|) && n <= |nx| && Saltos(nx, n) && j < n && -1 <= at < n && m <= m2
    ensures Walk(nx, n, at, j, m) == j ==> Walk(nx, n, at, j, m2) == j
    ensures Walk(nx, n, at, j, m) == -1 ==> Walk(nx, n, at, j, m2) == -1
    decreases m
  {
    if m > 0 && at != j && at != -1 {
      WalkStays(nx, n, nx[at][j], j, m - 1, m2 - 1);
    }
  }

  /** The chain never meets both j and -1. */
  lemma WalkOneEnd(nx: Hops, n: nat, at: int, j: nat, m1: nat, m2: nat)
    requires Square(nx, |nx|) && n <= |nx| && Saltos(nx, n) && j < n && -1 <= at < n
    ensures !(Walk(nx, n, at, j, m1) == j && Walk(nx, n, at, j, m2) == -1)
  {
    if m1 <= m2 {
      WalkStays(nx, n, at, j, m1, m2);
    } else {
      WalkStays(nx, n, at, j, m2, m1);
    }
  }

  /** The chase gives null exactly when the chain meets -1 within the fuel,
      and a list of ids exactly when it reaches j within the fuel. */
  lemma ChaseOutcome(nx: Hops, n: nat, at: int, j: nat, fuel: nat)
    requires Square(nx, |nx|) && n <= |nx| && Saltos(nx, n) && j < n && -1 <= at < n
    ensures Chase(nx, n, at, j, fuel) == Halts(None) <==> exists m :: 0 <= m <= fuel && Walk(nx, n, at, j, m) == -1
    ensures Chase(nx, n, at, j, fuel).Halts? && Chase(nx, n, at, j, fuel).value.Some? <==>
      exists m :: 0 <= m <= fuel && Walk(nx, n, at, j, m) == j
  {
    var r := Chase(nx, n, at, j, fuel);
    if r.Halts? && r.value.Some? {
      var k := |r.value.value|;
      assert k <= fuel && Walk(nx, n, at, j, k) == j;
      forall m | 0 <= m <= fuel
        ensures Walk(nx, n, at, j, m) != -1
      {
        WalkOneEnd(nx, n, at, j, k, m);
      }
      assert !(exists m :: 0 <= m <= fuel && Walk(nx, n, at, j, m) == -1);
      assert exists m :: 0 <= m <= fuel && Walk(nx, n, at, j, m) == j;
    } else if r == Halts(None) {
      var m1 :| 0 <= m1 <= fuel && Walk(nx, n, at, j, m1) == -1;
      forall m | 0 <= m <= fuel
        ensures Walk(nx, n, at, j, m) != j
      {
        WalkOneEnd(nx, n, at, j, m, m1);
      }
      assert exists m :: 0 <= m <= fuel && Walk(nx, n, at, j, m) == -1;
      assert !(exists m :: 0 <= m <= fuel && Walk(nx, n, at, j, m) == j);
    } else {
      assert r.Diverges?;
      assert !(exists m :: 0 <= m <= fuel && Walk(nx, n, at, j, m) == -1);
    }
  }

  /** `obtenerRuta` from a city to itself: the loop does not run, so the
      answer is null while the diagonal entry is INF and the one-city route
      timed with that entry as soon as it is finite, however it got there. */
  lemma MismaCiudad(g: Grafo, x: string)
    requires Valid(g) && x in g.ciudades
    ensures var i := g.ciudades[x];
      ObtenerRuta(g, x, x) == if g.Actual()[i][i].Inf? then Halts(None) else Halts(Some(Ruta([x], g.Actual()[i][i].t)))
  {
    var i := g.ciudades[x];
    if g.Actual()[i][i].Fin? {
      assert Chase(g.next, |g.ciudades|, i, i, |g.ciudades|) == Halts(Some([]));
      assert Nombres(g, []) + [x] == [x];
    }
  }

  /** The names of a list of ids. */
  function Nombres(g: Grafo, ids: seq<nat>): (names: seq<string>)
    requires forall m :: 0 <= m < |ids| ==> ids[m] < |g.nombres|
    ensures |names| == |ids| && forall m :: 0 <= m < |ids| ==> names[m] == g.nombres[ids[m]]
  {
    seq(|ids|, m requires 0 <= m < |ids| => g.nombres[ids[m]])
  }

  /** A route `obtenerRuta` can hand out from `origen` to `destino`: it starts
      at the origin and ends at the destination, which it does not visit
      earlier; every city on it is registered and each one is followed by
      its hop toward the destination; its time is the current grid's entry. */
  predicate RutaValida(g: Grafo, origen: string, destino: string, rt: Ruta)
    requires Valid(g)
  {
    && origen in g.ciudades && destino in g.ciudades
    && |rt.camino| >= 1 && rt.camino[0] == origen && rt.camino[|rt.camino| - 1] == destino
    && (forall m :: 0 <= m < |rt.camino| ==> rt.camino[m] in g.ciudades)
    && (forall m :: 0 <= m < |rt.camino| - 1 ==> rt.camino[m] != destino)
    && (forall m :: 0 <= m < |rt.camino| - 1 ==>
          g.next[g.ciudades[rt.camino[m]]][g.ciudades[destino]] == g.ciudades[rt.camino[m + 1]])
    && g.Actual()[g.ciudades[origen]][g.ciudades[destino]].Fin?
    && rt.tiempo == g.Actual()[g.ciudades[origen]][g.ciudades[destino]].t
  }

  /** `obtenerRuta`: null for an unregistered name or an INF entry; otherwise
      the hop chain from i toward j, with null when it meets -1. The source
      loop has no bound; it is run here for n appended cities, and a chain
      still going after them is reported as `Diverges`. */
  function ObtenerRuta(g: Grafo, origen: string, destino: string): (r: Halting<Option<Ruta>>)
    requires Valid(g)
    ensures origen !in g.ciudades || destino !in g.ciudades ==> r == Halts(None)
    ensures (origen in g.ciudades && destino in g.ciudades &&
             g.Actual()[g.ciudades[origen]][g.ciudades[destino]].Inf?) ==> r == Halts(None)
    ensures r.Halts? && r.value.Some? ==> RutaValida(g, origen, destino, r.value.value)
    ensures origen in g.ciudades && destino in g.ciudades &&
            g.Actual()[g.ciudades[origen]][g.ciudades[destino]].Fin? ==>
      var n, i, j := |g.ciudades|, g.ciudades[origen], g.ciudades[destino];
      && (r == Halts(None) <==> exists m :: 0 <= m <= n && Walk(g.next, n, i, j, m) == -1)
      && (r.Halts? && r.value.Some? <==> exists m :: 0 <= m <= n && Walk(g.next, n, i, j, m) == j)
  {
    if origen !in g.ciudades || destino !in g.ciudades then Halts(None)
    else
      var i, j := g.ciudades[origen], g.ciudades[destino];
      if g.Actual()[i][j].Inf? then Halts(None)
      else
        ChaseOutcome(g.next, |g.ciudades|, i, j, |g.ciudades|);
        match Chase(g.next, |g.ciudades|, i, j, |g.ciudades|)
        case Diverges => Diverges
        case Halts(None) => Halts(None)
        case Halts(Some(ids)) =>
          var rt := Ruta(Nombres(g, ids) + [destino], g.Actual()[i][j].t);
          RutaDeCadena(g, i, j, ids, origen, destino, rt);
          Halts(Some(rt))
  }

  /** The names of a finished hop chain, followed by the destination, form a
      valid route. */
  lemma RutaDeCadena(g: Grafo, i: nat, j: nat, ids: seq<nat>, origen: string, destino: string, rt: Ruta)
    requires Valid(g) && origen in g.ciudades && destino in g.ciudades
    requires i == g.ciudades[origen] && j == g.ciudades[destino] && g.Actual()[i][j].Fin?
    requires Walk(g.next, |g.nombres|, i, j, |ids|) == j
    requires forall m :: 0 <= m < |ids| ==> ids[m] == Walk(g.next, |g.nombres|, i, j, m) && ids[m] != j
    requires forall m :: 0 <= m < |ids| ==> ids[m] < |g.nombres|
    requires rt == Ruta(Nombres(g, ids) + [destino], g.Actual()[i][j].t)
    ensures RutaValida(g, origen, destino, rt)
  {
    var n := |g.nombres|;
    var c := rt.camino;
    assert forall m :: 0 <= m < |ids| ==> g.ciudades[c[m]] == ids[m];
    if |ids| == 0 {
      assert Walk(g.next, n, i, j, 0) == i;
    } else {
      assert ids[0] == Walk(g.next, n, i, j, 0);
      forall m | 0 <= m < |c| - 1
        ensures g.next[g.ciudades[c[m]]][j] == g.ciudades[c[m + 1]]
      {
        WalkStepFrom(g.next, n, i, j, m);
      }
    }
  }

  /** Away from j and -1, step m + 1 of the walk is the hop from step m. */
  lemma {:induction false} WalkStepFrom(nx: Hops, n: nat, at: int, j: nat, m: nat)
    requires Square(nx, |nx|) && n <= |nx| && Saltos(nx, n) && j < n && -1 <= at < n
    requires Walk(nx, n, at, j, m) != j && Walk(nx, n, at, j, m) != -1
    ensures Walk(nx, n, at, j, m + 1) == nx[Walk(nx, n, at, j, m)][j]
    decreases m
  {
    if m > 0 {
      WalkStepFrom(nx, n, nx[at][j], j, m - 1);
    }
  }

  /** From a city at finite distance from j, the hop chain only visits
      cities at finite distance from j, and j itself: it never meets -1. */
  lemma {:induction false} WalkFinita(t: Tables, n: nat, at: int, j: nat, m: nat)
    requires Shaped(t, n) && Saltos(t.next, n) && HopsCover(t, n) && HopsProgress(t, n) && j < n
    requires at == j || (0 <= at < n && t.dist[at][j].Fin?)
    ensures var w := Walk(t.next, n, at, j, m);
      w == j || (0 <= w < n && t.dist[w][j].Fin?)
    decreases m
  {
    if m > 0 && at != j {
      WalkFinita(t, n, t.next[at][j], j, m - 1);
    }
  }

  /** After `floyd`, a pair of cities at finite distance never gets null
      from `obtenerRuta`: the check inside its loop cannot fire. */
  lemma FloydSinNulo(g: Grafo, origen: string, destino: string)
    requires Valid(g) && origen in g.ciudades && destino in g.ciudades
    requires Floyd(g).Actual()[g.ciudades[origen]][g.ciudades[destino]].Fin?
    ensures ObtenerRuta(Floyd(g), origen, destino) != Halts(None)
  {
    var n := |g.nombres|;
    var f := Floyd(g);
    var i, j := g.ciudades[origen], g.ciudades[destino];
    var s := Reiniciar(g.Actual(), g.next, n);
    var t := Tablas(g);
    assert Relaxed(s, t, n, n);
    forall m: nat | m <= n
      ensures Walk(f.next, n, i, j, m) != -1
    {
      WalkFinita(t, n, i, j, m);
    }
  }

  /** The weight among four that condition `c` selects. */
  function Peso(c: CondicionClimatica, tNormal: Weight, tLluvia: Weight, tNieve: Weight, tTormenta: Weight): Weight
  {
    match c
    case Normal => tNormal
    case Lluvia => tLluvia
    case Nieve => tNieve
    case Tormenta => tTormenta
  }

  /** A pair whose hop is the destination itself has the one-hop route,
      timed with the current grid's entry. */
  lemma UnSalto(g: Grafo, a: string, b: string)
    requires Valid(g) && a in g.ciudades && b in g.ciudades
    requires g.next[g.ciudades[a]][g.ciudades[b]] == g.ciudades[b]
    requires g.Actual()[g.ciudades[a]][g.ciudades[b]].Fin?
    ensures ObtenerRuta(g, a, b)
         == Halts(Some(Ruta(if a == b then [b] else [a, b], g.Actual()[g.ciudades[a]][g.ciudades[b]].t)))
  {
    var i, j := g.ciudades[a], g.ciudades[b];
    var n := |g.ciudades|;
    var ids: seq<nat> := if a == b then [] else [i];
    assert Chase(g.next, n, i, j, n) == Halts(Some(ids)) by {
      if a != b {
        assert g.nombres[i] == a && g.nombres[j] == b;
        assert Chase(g.next, n, j, j, n - 1) == Halts(Some([]));
        assert [i] + [] == ids;
      }
    }
    assert Nombres(g, ids) + [b] == (if a == b then [b] else [a, b]) by {
      if a != b {
        assert g.nombres[i] == a;
      }
    }
  }

  /** A connection just added is a route at once, before any `floyd`: the
      one hop from origin to destination, timed with the weight of the
      current condition (the origin alone when both names are equal). */
  lemma NuevaConexionRuta(g: Grafo, a: string, b: string,
                          tNormal: Weight, tLluvia: Weight, tNieve: Weight, tTormenta: Weight)
    requires Valid(g) && Peso(g.condicion, tNormal, tLluvia, tNieve, tTormenta).Fin?
    ensures ObtenerRuta(AgregarConexion(g, a, b, tNormal, tLluvia, tNieve, tTormenta), a, b)
         == Halts(Some(Ruta(if a == b then [b] else [a, b], Peso(g.condicion, tNormal, tLluvia, tNieve, tTormenta).t)))
  {
    var r := AgregarConexion(g, a, b, tNormal, tLluvia, tNieve, tTormenta);
    AgregarConexionFrame(g, a, b, tNormal, tLluvia, tNieve, tTormenta);
    assert r.Actual()[r.ciudades[a]][r.ciudades[b]] == Peso(g.condicion, tNormal, tLluvia, tNieve, tTormenta);
    UnSalto(r, a, b);
  }

  /** After `eliminarConexion` the pair has no route, whatever else the
      grids still hold. */
  lemma EliminadaSinRuta(g: Grafo, a: string, b: string)
    requires Valid(g) && a in g.ciudades && b in g.ciudades
    ensures ObtenerRuta(EliminarConexion(g, a, b).value, a, b) == Halts(None)
  {
    EliminarConexionFrame(g, a, b);
    var e := EliminarConexion(g, a, b).value;
    assert e.Actual()[g.ciudades[a]][g.ciudades[b]] == Inf;
  }

  /** The inner loop of `obtenerCentro` for row i, from column j on, with the
      running maximum `acc`: the largest entry over the columns other than i,
      or None as soon as one of them is INF. */
  function ExcentricidadDesde(d: Grid, n: nat, i: nat, j: nat, acc: Time): (e: Option<Time>)
    requires Square(d, |d|) && n <= |d| && i < n && j <= n
    ensures e.Some? <==> forall k :: j <= k < n && k != i ==> d[i][k].Fin?
    ensures e.Some? ==> acc <= e.value && forall k :: j <= k < n && k != i ==> d[i][k].t <= e.value
    ensures e.Some? ==> e.value == acc || exists k :: j <= k < n && k != i && d[i][k] == Fin(e.value)
    decreases n - j
  {
    if j == n then Some(acc)
    else if j == i then ExcentricidadDesde(d, n, i, j + 1, acc)
    else if d[i][j].Inf? then None
    else ExcentricidadDesde(d, n, i, j + 1, MaxTime(acc, d[i][j].t))
  }

  /** The eccentricity of row i: defined when every other city is reachable,
      and then the largest distance to one of them (0 with no other city). */
  function Excentricidad(d: Grid, n: nat, i: nat): (e: Option<Time>)
    requires Square(d, |d|) && n <= |d| && i < n
  {
    ExcentricidadDesde(d, n, i, 0, 0.0)
  }

  /** Row c is the best of rows 0 .. m-1: its eccentricity is defined, none
      of theirs is smaller, and every row before c has a larger one. */
  predicate MejorHasta(d: Grid, n: nat, c: nat, m: nat)
    requires Square(d, |d|) && n <= |d| && m <= n
  {
    && c < m && Excentricidad(d, n, c).Some?
    && (forall i :: 0 <= i < m && Excentricidad(d, n, i).Some? ==>
          Excentricidad(d, n, c).value <= Excentricidad(d, n, i).value)
    && (forall i :: 0 <= i < c && Excentricidad(d, n, i).Some? ==>
          Excentricidad(d, n, c).value < Excentricidad(d, n, i).value)
  }

  /** Row c is the center of the first n rows: the best of all of them, the
      lowest id winning a tie. */
  predicate EsCentro(d: Grid, n: nat, c: nat)
    requires Square(d, |d|) && n <= |d|
  {
    MejorHasta(d, n, c, n)
  }

  /** The outer loop of `obtenerCentro` from row i on. `centro` is -1 and
      `menor` INF until a row qualifies; a row replaces the best one only
      with a strictly smaller eccentricity. */
  function CentroDesde(d: Grid, n: nat, i: nat, centro: int, menor: Weight): (c: int)
    requires Square(d, |d|) && n <= |d| && i <= n
    requires centro == -1 <==> menor == Inf
    requires centro == -1 <==> forall k :: 0 <= k < i ==> Excentricidad(d, n, k).None?
    requires centro != -1 ==>
      && 0 <= centro < i && MejorHasta(d, n, centro, i)
      && menor == Fin(Excentricidad(d, n, centro).value)
    ensures c == -1 <==> forall k :: 0 <= k < n ==> Excentricidad(d, n, k).None?
    ensures c != -1 ==> 0 <= c < n && EsCentro(d, n, c)
    decreases n - i
  {
    if i == n then centro
    else
      var e := Excentricidad(d, n, i);
      if e.Some? && Less(Fin(e.value), menor) then CentroDesde(d, n, i + 1, i, Fin(e.value))
      else CentroDesde(d, n, i + 1, centro, menor)
  }

  /** The answer of `obtenerCentro` when no city qualifies. */
  const SinCentro: string := "No hay centro"

  /** `obtenerCentro`: the name of the center of the current grid over the
      cities in use, or `SinCentro` when no city reaches all the others. */
  function ObtenerCentro(g: Grafo): (s: string)
    requires Valid(g)
    ensures (forall k :: 0 <= k < |g.nombres| ==> Excentricidad(g.Actual(), |g.nombres|, k).None?) ==> s == SinCentro
    ensures forall c :: 0 <= c < |g.nombres| && EsCentro(g.Actual(), |g.nombres|, c) ==> s == g.nombres[c]
    ensures (exists k :: 0 <= k < |g.nombres| && Excentricidad(g.Actual(), |g.nombres|, k).Some?) ==>
      exists c :: 0 <= c < |g.nombres| && EsCentro(g.Actual(), |g.nombres|, c) && s == g.nombres[c]
  {
    var n := |g.ciudades|;
    var centro := CentroDesde(g.Actual(), n, 0, -1, Inf);
    forall c | 0 <= c < n && EsCentro(g.Actual(), n, c)
      ensures c == centro
    {
      CentroUnico(g.Actual(), n, c, centro);
    }
    if centro == -1 then SinCentro else g.nombres[centro]
  }

  /** The tie-break makes the center unique. */
  lemma CentroUnico(d: Grid, n: nat, c1: int, c2: int)
    requires Square(d, |d|) && n <= |d| && 0 <= c1 && 0 <= c2
    requires EsCentro(d, n, c1) && EsCentro(d, n, c2)
    ensures c1 == c2
  {
  }

  /** A lone city is its own center: it has no other city to reach. */
  lemma CiudadSola(g: Grafo)
    requires Valid(g) && |g.nombres| == 1
    ensures ObtenerCentro(g) == g.nombres[0]
  {
    assert Excentricidad(g.Actual(), 1, 0) == Some(0.0);
    assert EsCentro(g.Actual(), 1, 0);
  }

  /** The hop `floyd` resets cell [i][j] to: j over a finite entry, -1 over INF. */
  function Directo(d: Grid, i: nat, j: nat): int
    requires Square(d, |d|) && i < |d| && j < |d|
  {
    if d[i][j] != Inf then j else -1
  }

  /** One row of the reset loop of `floyd`, in place. */
  method ReiniciarFila(d: Grid, nx0: Hops, i: nat, n: nat) returns (nx: Hops)
    requires Square(d, |d|) && Square(nx0, |d|) && i < n <= |d|
    ensures Square(nx, |d|)
    ensures forall a, b :: 0 <= a < |d| && 0 <= b < |d| ==>
      nx[a][b] == (if a == i && b < n then Directo(d, a, b) else nx0[a][b])
  {
    nx := nx0;
    var j := 0;
    while j < n
      invariant j <= n && Square(nx, |d|)
      invariant forall a, b :: 0 <= a < |d| && 0 <= b < |d| ==>
        nx[a][b] == (if a == i && b < j then Directo(d, a, b) else nx0[a][b])
    {
      if d[i][j] != Inf {
        nx := nx[i := nx[i][j := j]];
      } else {
        nx := nx[i := nx[i][j := -1]];
      }
      j := j + 1;
    }
  }

  /** The reset loop of `floyd`, in place: it computes `Reiniciar`. */
  method ReiniciarInPlace(d: Grid, nx0: Hops, n: nat) returns (nx: Hops)
    requires Square(d, |d|) && Square(nx0, |d|) && n <= |d|
    ensures nx == Reiniciar(d, nx0, n).next
  {
    var c := |d|;
    nx := nx0;
    var i := 0;
    while i < n
      invariant i <= n && Square(nx, c)
      invariant forall a, b :: 0 <= a < c && 0 <= b < c ==>
        nx[a][b] == (if a < i && b < n then Directo(d, a, b) else nx0[a][b])
    {
      nx := ReiniciarFila(d, nx, i, n);
      i := i + 1;
    }
    SquareExt(nx, Reiniciar(d, nx0, n).next, c);
  }

  /** `floyd` as the source runs it: the reset loop, then the triple loop
      writing the current grid and the hops in place. */
  method FloydInPlace(g: Grafo) returns (r: Grafo)
    requires Valid(g)
    ensures r == Floyd(g)
  {
    var n := |g.ciudades|;
    var nx := ReiniciarInPlace(g.Actual(), g.next, n);
    var d, nx2 := RelaxInPlace(g.Actual(), nx, n);
    r := g.WithMatriz(g.condicion, d).(next := nx2);
  }
}
