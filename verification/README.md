# Route planner over weather-dependent road times

This project is a Dafny model of the route-planning core of a small road-network program. The program has two variants.

The Java engine `Grafo` has these parts:

- A registry of city names, with ids given out in order of registration.
- Four weight grids, one for each weather condition: normal, rain, snow and storm.
- One next-hop grid shared by all four weight grids.
- A selector, `matrizActual`, that points at the grid of the current condition.

On top of this state it offers these operations:

- adding a city, with growth of the arrays;
- adding and removing a connection;
- switching the condition;
- in-place Floyd-Warshall;
- rebuilding a route by chasing next hops;
- picking the center city.

The `Ruta` value holds a route and renders it as text.

The Python variant (`Grafo.py`) keeps a networkx `DiGraph`, in which each edge carries its own condition. Its pure helpers are modelled:

- building the distance and next-hop grids;
- the same Floyd-Warshall recurrence;
- route reconstruction;
- a column-based center;
- the edge update of `agregar_conexion`.

## Modules

| file | module | what it holds |
|---|---|---|
| `wrappers.dfy` | `Wrappers` | `Option` (a Java `null`), `Result` (a thrown exception) and `Halting` (a loop without a bound) |
| `weight.dfy` | `Weight` | weights as non-negative reals plus `Inf` |
| `clima.dfy` | `Clima` | the four conditions |
| `floyd.dfy` | `ShortestPaths` | the recurrence both variants share (see below) |
| `ruta.dfy` | `Rutas` | the `Ruta` value, its `toString`, and `Split`, which inverts the joined path |
| `grafo.dfy` | `Grafo` | the Java engine (see below) |
| `lex.dfy` | `Lex` | Python's `<` on `str`, and `sorted` as insertion sort, proved to have a single possible answer |
| `grafo_py.dfy` | `GrafoPy` | the Python helpers |
| `optimality.dfy` | `Optimality` | what the closure means: the greatest grid below the start that satisfies the triangle inequality, below the cost of every walk, with hops that pay for themselves |
| `grafo_optimo.dfy` | `GrafoOptimo` | what this means for `obtenerRuta` after `floyd`: the route is a cheapest walk, and with positive times the hop chain always ends |
| `escenario.dfy` | `Escenario` | the fixture of the Java tests, with the routes and the center they ask for derived from the model |

**Weights.** `Inf` absorbs every sum, and `Less` is IEEE `<`: nothing is below `Inf`, and `Inf` is below nothing.

**`ShortestPaths`** holds:

- one pass of the recurrence, as a pure function;
- the loop over the pivots, with the facts it preserves: no cell grows, the triangle inequality holds, and the hop invariants survive;
- the in-place triple loop, proved equal to the pass-by-pass closure.

**`Grafo`** models the engine as an immutable state. A whole `Grafo` object is one datatype value, and every public method is a function from state to state. `matrizActual` is not stored separately. It is the grid that the condition selects. So `floyd` writes that grid, and only that grid, just as the aliasing in the source does.

### Behaviour the model keeps as the code has it

These points are stated in the code and proved in the model. Where a general description of the program says otherwise, the model follows the code.

- A second `floyd` does not leave the tables as they were. It keeps every distance, but it resets every hop to the direct one, so the routes rebuilt after it are single hops with the multi-hop time. `Grafo.FloydTwice` states this.
- `floyd` overwrites the current grid with closure distances. An `eliminarConexion` after it writes INF into one cell only and leaves the distances derived through that connection in place.
- `eliminarConexion` on an unregistered name throws a `NullPointerException` rather than failing quietly. It is modelled as `Failure(NullPointer)`.
- The arrays grow to id + 10 when an id reaches the capacity.
- The Java diagonal starts at INF, and neither the constructor nor `floyd` sets it to 0. `obtenerRuta(x, x)` skips its loop, so it returns null while the current entry [x][x] is INF. It returns the one-city route [x] with that entry's time as soon as the entry is finite. The entry can be made finite by `agregarConexion(x, x, …)`, or by a `floyd` over a cycle through x. It stays finite after `eliminarConexion` removes that cycle. `Grafo.MismaCiudad` states this.
- In Python the diagonal starts at 0, but the next hop on the diagonal is -1. `floyd_warshall` keeps both. `reconstruir_ruta(x, x)` therefore returns `[]` unless x has an edge to itself. `GrafoPy.DiagonalSinRuta` states this.
- Connections are one-way. In the fixture of the Java tests every connection points away from Guatemala, so Guatemala is the only city that reaches all others, and `obtenerCentro` returns it. A comment in that test expects Quetzaltenango. `Escenario.PruebaCentro` states what the code returns.
- The Java `obtenerCentro` takes row maxima over the other cities and returns the lowest id among the tied minima. The Python `calcular_centro_grafo` takes column maxima over the finite entries, turns a maximum of 0 into INF, and returns the first minimum.

## Model

| member | source | states |
|---|---|---|
| `Grafo.New` | demo/src/main/java/com/hdt10/Grafo.java:51-71 | the constructor gives cap-by-cap grids with no city, all weights INF, all hops -1 and condition NORMAL; the invariant holds |
| `Grafo.WithMatriz` | demo/src/main/java/com/hdt10/Grafo.java:133-138 | writing through the selector changes the grid of that condition only; the other three grids, the registry, the hops and the condition are kept |
| `Grafo.GrowExtends` | demo/src/main/java/com/hdt10/Grafo.java:113-123 | the grown array keeps every old cell at the same coordinates and holds the fill value everywhere else |
| `Grafo.Redimensionar` | demo/src/main/java/com/hdt10/Grafo.java:96-139 | the five arrays get the new size; every old cell is kept and new cells are INF or -1; the registry and the condition (hence the current grid) are unchanged |
| `Grafo.AgregarCiudad` | demo/src/main/java/com/hdt10/Grafo.java:78-89 | a known name leaves the state unchanged; a new name gets id = number of cities and is appended to the list; the capacity becomes id + 10 exactly when the id reaches it; all cells are kept; the invariant holds |
| `Grafo.NuevaCiudadValid` | demo/src/main/java/com/hdt10/Grafo.java:80-82 | registering a new name at the next id keeps the map and the list inverse to each other, with contiguous ids |
| `Grafo.AgregarCiudadIdempotent` | demo/src/main/java/com/hdt10/Grafo.java:78-89 | registering a name twice equals registering it once, and the name is then contained |
| `Grafo.GetCiudades` | demo/src/main/java/com/hdt10/Grafo.java:314-316 | the key set holds exactly the registered names, one per id |
| `Grafo.Escribir` | demo/src/main/java/com/hdt10/Grafo.java:158-164 | writing one cell keeps the shape, the registry and the condition |
| `Grafo.EscribirValid` | demo/src/main/java/com/hdt10/Grafo.java:158-164 | writing a cell in use, with a hop that is an id or -1, keeps the invariant |
| `Grafo.EscribirFrame` | demo/src/main/java/com/hdt10/Grafo.java:177-182 | the four weights and the hop land at [i][j], and no other cell of any array changes |
| `Grafo.Registrar` | demo/src/main/java/com/hdt10/Grafo.java:153-154 | both endpoints are registered; a new origin is appended to the list of names before a new destination, and a name already there is not appended again; the invariant holds |
| `Grafo.ContieneCiudad` | demo/src/main/java/com/hdt10/Grafo.java:305-307 | true exactly when the name is one of the registered cities |
| `Grafo.AgregarConexion` | demo/src/main/java/com/hdt10/Grafo.java:151-165 | both endpoints are registered, the registry equals the two registrations, the condition is kept and the invariant holds |
| `Grafo.AgregarConexionFrame` | demo/src/main/java/com/hdt10/Grafo.java:155-164 | the four weights go to exactly [i][j] and the hop becomes j; every other cell equals the registered state's |
| `Grafo.EliminarConexion` | demo/src/main/java/com/hdt10/Grafo.java:173-183 | fails (null unboxing) if and only if a name is unregistered; otherwise the registry and the condition are kept and the invariant holds |
| `Grafo.EliminarConexionFrame` | demo/src/main/java/com/hdt10/Grafo.java:177-182 | cell [i][j] becomes INF in all four grids and -1 in `next`; nothing else changes |
| `Grafo.Reiniciar` | demo/src/main/java/com/hdt10/Grafo.java:209-217 | the reset hop is j over a finite entry and -1 over INF inside the n-by-n block, and unchanged outside it; the reset tables satisfy every hop invariant the recurrence keeps |
| `Grafo.Tablas` | demo/src/main/java/com/hdt10/Grafo.java:206-226 | the reset-then-relaxed tables have the arrays' shape |
| `Grafo.Floyd` | demo/src/main/java/com/hdt10/Grafo.java:206-226 | `floyd` writes only the current grid and `next`; the other three grids, the registry and the condition are kept; the invariant holds |
| `Grafo.FloydValid` | demo/src/main/java/com/hdt10/Grafo.java:206-226 | installing the relaxed tables keeps every array square and INF or -1 outside the cities in use |
| `Grafo.FloydFacts` | demo/src/main/java/com/hdt10/Grafo.java:206-226 | no entry of the current grid increases; afterwards the triangle inequality holds for all i, k, j < n; a hop is -1 if and only if its entry is INF |
| `Grafo.FloydTwice` | demo/src/main/java/com/hdt10/Grafo.java:209-217 | a second `floyd` keeps every distance but resets every hop to j over a finite entry (-1 over INF), so later routes are single hops |
| `Grafo.CambiarCondicionClimatica` | demo/src/main/java/com/hdt10/Grafo.java:190-201 | the selector becomes the new condition, the other three grids are untouched, and the invariant holds |
| `Grafo.CambiarCondicionFacts` | demo/src/main/java/com/hdt10/Grafo.java:190-201 | the current grid afterwards is the new condition's grid relaxed: no entry above the stored one, and the triangle inequality holds |
| `Grafo.GetCondicionActual` | demo/src/main/java/com/hdt10/Grafo.java:323-325 | the returned condition is the one whose grid the algorithms read |
| `Grafo.Walk` | demo/src/main/java/com/hdt10/Grafo.java:246 | the hop chain stays an id or -1 |
| `Grafo.WalkStep` | demo/src/main/java/com/hdt10/Grafo.java:246 | one step of the chain away from j moves to next[at][j] |
| `Grafo.WalkStepFrom` | demo/src/main/java/com/hdt10/Grafo.java:246 | step m + 1 of the chain is the hop from step m, while it has met neither j nor -1 |
| `Grafo.Chase` | demo/src/main/java/com/hdt10/Grafo.java:245-248 | the ids appended are the chain's positions before it first reaches j; null means the chain met -1; divergence means the fuel ran out with j and -1 both unmet |
| `Grafo.Nombres` | demo/src/main/java/com/hdt10/Grafo.java:248 | each appended name is the registered name of its id |
| `Grafo.ObtenerRuta` | demo/src/main/java/com/hdt10/Grafo.java:235-252 | null for an unregistered name or an INF entry; a returned route starts at the origin and ends at the destination, which it does not visit earlier; each city is followed by its next hop; the time is the current grid's entry; for a finite entry the answer is null exactly when the chain meets -1 within n steps, and a route exactly when it reaches the destination within n steps |
| `Grafo.WalkStays` | demo/src/main/java/com/hdt10/Grafo.java:245-246 | once the chain stands on the destination or on -1 it stays there |
| `Grafo.WalkOneEnd` | demo/src/main/java/com/hdt10/Grafo.java:245-246 | the chain cannot both reach the destination and meet -1 |
| `Grafo.ChaseOutcome` | demo/src/main/java/com/hdt10/Grafo.java:245-248 | the loop returns null exactly when the chain meets -1 within the fuel, and finishes with a route exactly when it reaches the destination within the fuel |
| `Grafo.MismaCiudad` | demo/src/main/java/com/hdt10/Grafo.java:235-252 | from a city to itself: null while the diagonal entry is INF, otherwise the one-city route with the entry's time |
| `Grafo.RutaDeCadena` | demo/src/main/java/com/hdt10/Grafo.java:245-251 | the names of a finished chain, followed by the destination, form a valid route |
| `Grafo.WalkFinita` | demo/src/main/java/com/hdt10/Grafo.java:246-247 | from a city at finite distance, the chain only visits cities at finite distance and the destination |
| `Grafo.FloydSinNulo` | demo/src/main/java/com/hdt10/Grafo.java:247 | after `floyd`, a pair at finite distance never gets null from `obtenerRuta`: the -1 check in the loop cannot fire |
| `Grafo.UnSalto` | demo/src/main/java/com/hdt10/Grafo.java:245-251 | a pair whose hop is the destination gets the one-hop route with the current entry as its time |
| `Grafo.NuevaConexionRuta` | demo/src/main/java/com/hdt10/Grafo.java:151-165 | a connection just added is a route at once, before any `floyd`, timed with the weight of the current condition |
| `Grafo.EliminadaSinRuta` | demo/src/main/java/com/hdt10/Grafo.java:173-183 | after `eliminarConexion` the pair has no route |
| `Grafo.ExcentricidadDesde` | demo/src/main/java/com/hdt10/Grafo.java:264-274 | the inner loop is defined if and only if every other column is finite; it then returns the maximum of those entries, attained or 0 |
| `Grafo.CentroDesde` | demo/src/main/java/com/hdt10/Grafo.java:263-280 | the scan ends at -1 if and only if no row qualifies; otherwise it ends at the qualifying row of least eccentricity, the lowest id on a tie |
| `Grafo.ObtenerCentro` | demo/src/main/java/com/hdt10/Grafo.java:259-283 | "No hay centro" when no city reaches all others; otherwise the name of the unique center: minimal eccentricity, lowest id on a tie |
| `Grafo.CentroUnico` | demo/src/main/java/com/hdt10/Grafo.java:276 | the strict `<` makes the center unique |
| `Grafo.CiudadSola` | demo/src/main/java/com/hdt10/Grafo.java:259-283 | a lone city is its own center |
| `Grafo.ReiniciarFila` | demo/src/main/java/com/hdt10/Grafo.java:210-216 | one row of the reset loop writes j or -1 in that row's first n cells and nothing else |
| `Grafo.ReiniciarInPlace` | demo/src/main/java/com/hdt10/Grafo.java:209-217 | the in-place reset loop computes `Reiniciar` |
| `Grafo.FloydInPlace` | demo/src/main/java/com/hdt10/Grafo.java:206-226 | the in-place reset and triple loop compute exactly `Floyd` |
| `ShortestPaths.PassFixesPivot` | demo/src/main/java/com/hdt10/Grafo.java:222-224 | with non-negative weights, the pass with pivot k never improves row k or column k |
| `ShortestPaths.PassBounds` | demo/src/main/java/com/hdt10/Grafo.java:222-224 | a pass increases no cell, and leaves each cell no larger than the way through the pivot |
| `ShortestPaths.PassOutside` | demo/src/main/java/com/hdt10/Grafo.java:219-221 | a pass touches nothing outside the n-by-n block |
| `ShortestPaths.PassTriangle` | demo/src/main/java/com/hdt10/Grafo.java:219-225 | the pass with pivot k - 1 extends the triangle inequality from the pivots below k - 1 to the pivots below k |
| `ShortestPaths.PassSound` | demo/src/main/java/com/hdt10/Grafo.java:224 | a pass keeps every hop an id or -1, and a real hop only over a finite entry |
| `ShortestPaths.PassCover` | demo/src/main/java/com/hdt10/Grafo.java:224 | a pass keeps a real hop over every finite entry off the diagonal, and on it when it started that way |
| `ShortestPaths.PassProgress` | demo/src/main/java/com/hdt10/Grafo.java:224 | copying next[i][k] keeps every real hop pointing at a city from which the target is at finite distance |
| `ShortestPaths.PassIdle` | demo/src/main/java/com/hdt10/Grafo.java:222 | a grid that already satisfies the triangle inequality is left unchanged by a pass |
| `ShortestPaths.RelaxOutside` | demo/src/main/java/com/hdt10/Grafo.java:219-225 | the outer loop keeps the cells outside the block |
| `ShortestPaths.RelaxNoIncrease` | demo/src/main/java/com/hdt10/Grafo.java:219-225 | the outer loop increases no cell |
| `ShortestPaths.PassKeepsZero` | demo/src/main/java/com/hdt10/Grafo.java:222-224 | a cell at distance 0 is not improved by a pass, so its distance and hop stay |
| `ShortestPaths.RelaxKeepsZero` | demo/src/main/java/com/hdt10/Grafo.java:219-225 | a cell at distance 0 keeps its distance and its hop through the whole outer loop |
| `ShortestPaths.RelaxTriangle` | demo/src/main/java/com/hdt10/Grafo.java:219-225 | after pivots 0 .. k-1 the triangle inequality holds through each of them |
| `ShortestPaths.RelaxSound` | demo/src/main/java/com/hdt10/Grafo.java:219-225 | the outer loop keeps every hop an id or -1, and real hops over finite entries only |
| `ShortestPaths.RelaxCover` | demo/src/main/java/com/hdt10/Grafo.java:219-225 | the outer loop keeps a real hop over every finite entry |
| `ShortestPaths.RelaxProgress` | demo/src/main/java/com/hdt10/Grafo.java:219-225 | the outer loop keeps every real hop pointing at a city with a finite way on |
| `ShortestPaths.RelaxIdle` | demo/src/main/java/com/hdt10/Grafo.java:219-225 | tables already closed under the triangle inequality come out unchanged |
| `ShortestPaths.RelaxFacts` | demo/src/main/java/com/hdt10/Grafo.java:219-225 | all of the above together, for any number of pivots |
| `ShortestPaths.Closure` | Grafo.py:66-79 | the full recurrence keeps the shape, increases no entry, holds the triangle inequality for every i, k, j < n, keeps the hop invariants, and returns closed tables unchanged |
| `ShortestPaths.RowInPlace` | demo/src/main/java/com/hdt10/Grafo.java:221-225 | the innermost loop, writing in place, produces row i of the pass and leaves the other rows alone |
| `ShortestPaths.PassInPlace` | Grafo.py:70-78 | the two inner loops, writing in place, produce exactly one pass, because row k and column k do not move during it |
| `ShortestPaths.RelaxInPlace` | Grafo.py:66-79 | the in-place triple loop computes exactly the pass-by-pass closure |
| `Rutas.Join` | demo/src/main/java/com/hdt10/Ruta.java:59-64 | the joined path starts with the first city, followed by a separator when there are more |
| `Rutas.ToString` | demo/src/main/java/com/hdt10/Ruta.java:56-66 | the text starts with "Ruta: " followed by the first city |
| `Rutas.JoinSnoc` | demo/src/main/java/com/hdt10/Ruta.java:59-64 | one more city adds exactly one separator and the city |
| `Rutas.RenderedStep` | demo/src/main/java/com/hdt10/Ruta.java:60-63 | one turn of the loop appends the city and a separator unless it is the last |
| `Rutas.ToStringBuilder` | demo/src/main/java/com/hdt10/Ruta.java:56-66 | the `StringBuilder` loop produces exactly the joined text |
| `Rutas.SingleCity` | demo/src/main/java/com/hdt10/Ruta.java:59-64 | a one-city route renders with no separator |
| `Rutas.Split` | demo/src/main/java/com/hdt10/Ruta.java:62 | cutting at the separator always yields at least one piece |
| `Rutas.SplitPlain` | demo/src/main/java/com/hdt10/Ruta.java:60 | a name without '>' is one piece |
| `Rutas.SplitPrefix` | demo/src/main/java/com/hdt10/Ruta.java:60-62 | a name followed by the separator is cut off exactly there |
| `Rutas.SplitJoin` | demo/src/main/java/com/hdt10/Ruta.java:59-64 | the join loses nothing: splitting the joined path gives back the cities, when none contains '>' |
| `Lex.BelowIrreflexive` | Grafo.py:41 | no name sorts before itself |
| `Lex.BelowTrans` | Grafo.py:41 | the string order is transitive |
| `Lex.BelowTotal` | Grafo.py:41 | two different names are ordered one way, never both |
| `Lex.Insert` | Grafo.py:41 | insertion into an ascending list gives an ascending list with one more element |
| `Lex.Sort` | Grafo.py:41 | sorting distinct names gives an ascending permutation of them |
| `Lex.AscendingTail` | Grafo.py:41 | a suffix of an ascending list is ascending |
| `Lex.SameHead` | Grafo.py:41 | two ascending lists with the same elements start alike |
| `Lex.AscendingUnique` | Grafo.py:41 | an ascending list is determined by its elements, so the sorted list is the only possible answer |
| `GrafoPy.Posiciones` | Grafo.py:51 | the index map inverts the city list |
| `GrafoPy.TablaPesos` | Grafo.py:45-59 | cell [i][j] holds the starting distance between the i-th and the j-th city |
| `GrafoPy.TablaSaltos` | Grafo.py:49-61 | cell [i][j] holds j for an edge and -1 otherwise |
| `GrafoPy.MatricesDistanciaRuta` | Grafo.py:39-63 | the cities are the node list sorted, the index inverts them, and the cells hold the edge time under the edge's own condition, else 0 on the diagonal, else INF; the hop is j exactly for edges |
| `GrafoPy.CiudadesSonNodos` | Grafo.py:41-51 | the indexed names are exactly the graph's nodes, as many as there are nodes |
| `GrafoPy.InicialesSanas` | Grafo.py:45-61 | the starting tables already satisfy the hop invariants the recurrence preserves |
| `GrafoPy.FloydWarshall` | Grafo.py:66-79 | no entry increases; afterwards the triangle inequality holds for all i, k, j < n; the hop invariants are kept; closed tables are returned unchanged |
| `GrafoPy.DiagonalCero` | Grafo.py:47 | with non-negative times and no self-edge the diagonal stays 0 through `floyd_warshall` |
| `GrafoPy.DiagonalSinRuta` | Grafo.py:82-86 | for a node without an edge to itself, after recomputing, the diagonal distance is 0 and its hop -1, so the route from it to itself is `[]` |
| `GrafoPy.Fila` | Grafo.py:93-95 | Python indexing with -1 reads the last element; any other index reads itself |
| `GrafoPy.SoundEnRango` | Grafo.py:78 | after the recurrence every hop is a position or -1 |
| `GrafoPy.Paso` | Grafo.py:90-93 | the loop variable stays a position or -1 |
| `GrafoPy.PasoStep` | Grafo.py:93 | one turn of the loop moves to the hop toward the destination |
| `GrafoPy.Bucle` | Grafo.py:90-95 | each appended name is the city at the loop's new position, until the position is the destination |
| `GrafoPy.ReconstruirRuta` | Grafo.py:82-97 | `[]` if and only if the first hop is -1; otherwise it starts at the origin, ends at the destination, and each name is the city at the next step of the hop chain |
| `GrafoPy.PasoFinito` | Grafo.py:90-95 | from a position at finite distance, the loop only visits positions at finite distance and the destination |
| `GrafoPy.SinEnvolver` | Grafo.py:82-97 | on recomputed grids, two different cities at finite distance get a non-empty route, and the loop never reads -1 |
| `GrafoPy.MaxColumna` | Grafo.py:106-111 | the inner loop returns the largest finite entry of the column that exceeds the start value, attained, or the start value |
| `GrafoPy.ExcentricidadColumna` | Grafo.py:105-113 | INF if and only if every finite entry of the column is 0; otherwise the positive column maximum, attained |
| `GrafoPy.Excentricidades` | Grafo.py:104-113 | one eccentricity per column, in order |
| `GrafoPy.PrimerMinimoUnico` | Grafo.py:115 | the first minimal position is unique |
| `GrafoPy.ArgMinDesde` | Grafo.py:115 | the scan returns the first minimal position |
| `GrafoPy.ArgMin` | Grafo.py:115 | `np.argmin` returns the first minimal position |
| `GrafoPy.CalcularCentroGrafo` | Grafo.py:100-117 | ValueError if and only if there is no city; otherwise the name and eccentricity at the first minimal position |
| `GrafoPy.CentroUnaCiudad` | Grafo.py:100-117 | with one city the center is that city |
| `GrafoPy.AgregarNodo` | Grafo.py:129-132 | a missing node is appended; the old list is a prefix and the node set gains exactly that name |
| `GrafoPy.Conectar` | Grafo.py:129-140 | both cities become nodes, the edge is set or overwritten with the four times and condition normal, and every other edge is unchanged |
| `GrafoPy.Recalcular` | Grafo.py:143-144 | the recomputed grids are indexed by the sorted nodes, satisfy the triangle inequality, lie below the starting distances, and keep every hop invariant |
| `GrafoPy.AgregarConexion` | Grafo.py:128-146 | the graph stays well formed, both cities are indexed, the new pair's distance is at most its normal time, and the triangle inequality holds |
| `Optimality.RelaxAboveStep` | demo/src/main/java/com/hdt10/Grafo.java:219-225 | one more pivot never goes below a grid that lies under the tables and satisfies the triangle inequality |
| `Optimality.RelaxAbove` | demo/src/main/java/com/hdt10/Grafo.java:219-225 | the outer loop never goes below a grid that lies under its start and satisfies the triangle inequality |
| `Optimality.ClosureGreatest` | demo/src/main/java/com/hdt10/Grafo.java:206-226 | the closure is the greatest grid under the start grid that satisfies the triangle inequality: every such grid lies under it |
| `Optimality.BelowCost` | demo/src/main/java/com/hdt10/Grafo.java:219-225 | a grid under the start that satisfies the triangle inequality is at most the cost of every walk along the start grid |
| `Optimality.PassPay` | demo/src/main/java/com/hdt10/Grafo.java:222-224 | a pass keeps every real hop paying for itself: the start-grid step to the hop plus the distance on from it is at most the stored distance |
| `Optimality.PassNoSelfHop` | demo/src/main/java/com/hdt10/Grafo.java:222-224 | a pass never stores a hop from i back to i between two different cities |
| `Optimality.RelaxPay` | demo/src/main/java/com/hdt10/Grafo.java:219-225 | the outer loop keeps every real hop paying for itself |
| `Optimality.RelaxNoSelfHop` | demo/src/main/java/com/hdt10/Grafo.java:219-225 | the outer loop never stores a hop pointing back at its own row |
| `Optimality.ClosureHops` | demo/src/main/java/com/hdt10/Grafo.java:206-226 | the hops of the closure pay for themselves along the start grid and never point back at their own row |
| `Optimality.HopDescends` | demo/src/main/java/com/hdt10/Grafo.java:246 | with positive times, the hop toward j is a real city other than the current one, and unless it is j it is strictly closer to j |
| `Optimality.CloserShrinks` | demo/src/main/java/com/hdt10/Grafo.java:246 | one hop toward j strictly shrinks the set of cities closer to j |
| `GrafoOptimo.ReiniciarPaga` | demo/src/main/java/com/hdt10/Grafo.java:209-217 | the reset hops pay for themselves and never point back at their own row |
| `GrafoOptimo.FloydPaga` | demo/src/main/java/com/hdt10/Grafo.java:206-226 | after `floyd` every real hop pays for itself along the grid it started from |
| `GrafoOptimo.CadenaPaga` | demo/src/main/java/com/hdt10/Grafo.java:245-250 | the cost of a finished hop chain, along the grid before `floyd`, is at most the distance `floyd` stored |
| `GrafoOptimo.RutaCadena` | demo/src/main/java/com/hdt10/Grafo.java:235-252 | a returned route is the names of a finished hop chain followed by the destination, timed with the grid's entry |
| `GrafoOptimo.RutaMinima` | demo/src/main/java/com/hdt10/Grafo.java:235-252 | after `floyd` a returned route is a walk from origin to destination whose cost along the grid before `floyd` equals its time, and no walk between the two costs less |
| `GrafoOptimo.Llega` | demo/src/main/java/com/hdt10/Grafo.java:246 | with positive times, the hop chain from a city at finite distance reaches the destination within the number of cities closer to it |
| `GrafoOptimo.FloydTermina` | demo/src/main/java/com/hdt10/Grafo.java:235-252 | with positive times, after `floyd` every pair at finite distance gets a route: the loop ends and never meets -1 |
| `GrafoOptimo.FloydAlcanza` | demo/src/main/java/com/hdt10/Grafo.java:235-252 | with positive times, after `floyd` two different cities get a route if and only if some walk between them has finite cost |
| `GrafoOptimo.WalkCompose` | demo/src/main/java/com/hdt10/Grafo.java:246 | m + t steps of the chain are t steps from where the first m ended |
| `GrafoOptimo.Visitadas` | demo/src/main/java/com/hdt10/Grafo.java:246 | the positions of the first k steps: each of them is in the set, every element is an id or -1, and -1 only when the chain met it |
| `GrafoOptimo.Ausente` | demo/src/main/java/com/hdt10/Grafo.java:246 | a city no step of the first k stands on is not among their positions |
| `GrafoOptimo.VisitadasCard` | demo/src/main/java/com/hdt10/Grafo.java:246 | k pairwise different positions make a set of k cities |
| `GrafoOptimo.Repite` | demo/src/main/java/com/hdt10/Grafo.java:245-247 | a chain that avoids -1 for n + 1 positions comes back to one of them |
| `GrafoOptimo.Periodo` | demo/src/main/java/com/hdt10/Grafo.java:245-247 | after a return every position of the chain is one of the positions before it |
| `GrafoOptimo.Interminable` | demo/src/main/java/com/hdt10/Grafo.java:245-248 | when the model reports `Diverges`, the chain reaches neither the destination nor -1 after any number of steps, so the Java loop never ends |
| `Escenario.CiudadesFacts` | demo/src/test/java/com/hdt10/GrafoTest.java:35-38 | the four registrations give the cities ids 0 to 3 in order and leave every normal cell INF |
| `Escenario.Conecta` | demo/src/test/java/com/hdt10/GrafoTest.java:41-44 | each connection of the fixture writes its normal time into its own cell of the block and changes no other |
| `Escenario.ConectadoFacts` | demo/src/test/java/com/hdt10/GrafoTest.java:31-45 | before `floyd` the fixture holds the four cities, the normal condition, and exactly the four normal times in the normal grid |
| `Escenario.Recorrido` | demo/src/test/java/com/hdt10/GrafoTest.java:217-228 | over the fixture's connections every walk of finite cost goes forward, costs at least the line distance, and costs exactly that only along the line |
| `Escenario.Distancias` | demo/src/test/java/com/hdt10/GrafoTest.java:217-228 | after `floyd` the distances from Guatemala are 5, 8 and 10, and no city reaches Guatemala |
| `Escenario.RutaLinea` | demo/src/test/java/com/hdt10/GrafoTest.java:136-153 | from Guatemala to each other city the route is the walk along the line, timed with the line distance |
| `Escenario.PruebaObtenerRuta` | demo/src/test/java/com/hdt10/GrafoTest.java:136-153 | on the fixture: Guatemala to Quetzaltenango is the direct route at 5; Guatemala to Antigua goes through Quetzaltenango at 8; Guatemala to Escuintla has four cities at 10, below the direct 15; Quetzaltenango to Guatemala is null |
| `Escenario.SoloPrimera` | demo/src/main/java/com/hdt10/Grafo.java:263-280 | in a four-city grid where only the first city reaches every other, the first city is the center |
| `Escenario.PruebaCentro` | demo/src/test/java/com/hdt10/GrafoTest.java:157-165 | the first center of the fixture is Guatemala, a registered city |

## Left out

- Console I/O, `Main`, the file loader, the example-file writer and `imprimirMatriz`: all are input or output only. The Python `cargar_grafo`, `mostrar_estado_grafo` and `main` are left out for the same reason.
- The `%.2f` conversion in `Ruta.toString`: it is a parameter `format` of `Rutas.ToString`, left abstract.
- Floating point: weights are non-negative reals plus `Inf`. NaN, negative times and rounding are not modelled.
- `getCamino` and `getTiempo` are the fields `camino` and `tiempo` of the `Ruta` datatype, and the constructor is the datatype constructor. Getting back what was given holds by construction.
- A negative `capacidadInicial` makes Java throw at construction. `Grafo.New` takes a `nat`.
- The networkx and numpy internals are left out. A `DiGraph` is a node list in insertion order plus a map from ordered pairs to edge records, and `np.argmin` is the first-minimum scan.
- The edge iteration order of `matrices_distancia_ruta` is not modelled. At most one edge exists per ordered pair, so the order cannot change the grids.
- Grafo.ObtenerRuta: the source loop has no bound, so the model runs it for n appended cities and reports `Diverges` when the chain goes on. This loses nothing: `GrafoOptimo.Interminable` proves that such a chain never ends, so `Diverges` marks exactly the inputs where the Java method does not return. `GrafoOptimo.FloydTermina` proves that after `floyd` this cannot happen when every time between two different cities is positive. With zero times it is not proved.
- GrafoPy.ReconstruirRuta: the loop runs for n + 1 turns and then reports `Diverges`, as in `Grafo.ObtenerRuta`. It is not proved that the loop always ends.
- Grafo.ObtenerCentro: the "No hay centro" answer is also a possible city name. The contract states what is returned, not that the two cases can be told apart.
- The test fixture is proved for the state before any test body runs. The later steps of the tests are not proved as concrete instances, because they call methods that `Grafo.java` lacks or chain many more calls. The general lemmas state what holds for them.
- The tests and the menu that call `cambiarCondicionConexion`, `getCondicionConexion` and `existeConexion` are left out: these methods are not part of `Grafo.java`.
