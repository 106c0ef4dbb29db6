/** The `Ruta` value of the Java engine: the city names of a route, in travel
    order, and its total time. `getCamino` and `getTiempo` are the fields
    `camino` and `tiempo`. */
module Rutas {

  datatype Ruta = Ruta(camino: seq<string>, tiempo: real)

  /** The separator `toString` puts between two consecutive cities. */
  const Arrow: string := " -> "

  /** The names in order, separated by `Arrow`, with no separator after the
      last one; the empty path gives the empty string. */
  function Join(names: seq<string>): (s: string)
    ensures |names| >= 1 ==> names[0] <= s
    ensures |names| >= 2 ==> names[0] + Arrow <= s
  {
    if |names| == 0 then ""
    else if |names| == 1 then names[0]
    else names[0] + Arrow + Join(names[1..])
  }

  /** `toString`: the header, the joined path, then the time rendered by
      `format` (the `%.2f` conversion, which this model leaves abstract). */
  function ToString(r: Ruta, format: real -> string): (s: string)
    ensures "Ruta: " <= s
    ensures |r.camino| >= 1 ==> "Ruta: " + r.camino[0] <= s
  {
    "Ruta: " + Join(r.camino) + "\nTiempo: " + format(r.tiempo)
  }

  /** Appending one more name to a non-empty path adds one separator. */
  lemma {:induction false} JoinSnoc(names: seq<string>, x: string)
    requires |names| >= 1
    ensures Join(names + [x]) == Join(names) + Arrow + x
    decreases |names|
  {
    if |names| == 1 {
      assert names + [x] == [names[0], x];
      assert (names + [x])[1..] == [x];
    } else {
      assert (names + [x])[1..] == names[1..] + [x];
      JoinSnoc(names[1..], x);
    }
  }

  /** What the loop of `toString` has appended after `i` cities. */
  function Rendered(camino: seq<string>, i: nat): string
    requires i <= |camino|
  {
    Join(camino[..i]) + (if 0 < i < |camino| then Arrow else "")
  }

  /** One turn of the loop appends the next city and, unless it is the last,
      a separator. */
  lemma RenderedStep(camino: seq<string>, i: nat)
    requires i < |camino|
    ensures Rendered(camino, i + 1) == Rendered(camino, i) + camino[i] + (if i < |camino| - 1 then Arrow else "")
  {
    assert camino[..i + 1] == camino[..i] + [camino[i]];
    if i > 0 {
      JoinSnoc(camino[..i], camino[i]);
    } else {
      assert camino[..1] == [camino[0]];
    }
  }

  /** The loop of `toString`: one append per city and one separator after
      every city but the last. */
  method ToStringBuilder(r: Ruta, format: real -> string) returns (s: string)
    ensures s == ToString(r, format)
  {
    var camino := r.camino;
    s := "Ruta: ";
    var i := 0;
    while i < |camino|
      invariant i <= |camino|
      invariant s == "Ruta: " + Rendered(camino, i)
    {
      RenderedStep(camino, i);
      s := s + camino[i];
      if i < |camino| - 1 {
        s := s + Arrow;
      }
      i := i + 1;
    }
    assert camino[..i] == camino;
    s := s + "\nTiempo: " + format(r.tiempo);
  }

  /** A one-city route renders with no separator at all. */
  lemma SingleCity(name: string, t: real, format: real -> string)
    ensures ToString(Ruta([name], t), format) == "Ruta: " + name + "\nTiempo: " + format(t)
  {
  }

  /** Cutting a string at every occurrence of `Arrow`: the inverse of `Join`
      on names that cannot hide a separator. */
  function Split(s: string): (parts: seq<string>)
    ensures |parts| >= 1
    decreases |s|
  {
    if |s| == 0 then [""]
    else if |s| >= |Arrow| && s[..|Arrow|] == Arrow then [""] + Split(s[|Arrow|..])
    else
      var rest := Split(s[1..]);
      [[s[0]] + rest[0]] + rest[1..]
  }

  /** A name without '>' is one piece. */
  lemma {:induction false} SplitPlain(x: string)
    requires '>' !in x
    ensures Split(x) == [x]
    decreases |x|
  {
    if |x| > 0 {
      assert |x| >= |Arrow| ==> x[2] != Arrow[2];
      assert x[1..] + [] == x[1..];
      SplitPlain(x[1..]);
      assert [x[0]] + x[1..] == x;
    }
  }

  /** A name without '>' followed by a separator is cut off exactly there. */
  lemma {:induction false} SplitPrefix(x: string, u: string)
    requires '>' !in x
    ensures Split(x + Arrow + u) == [x] + Split(u)
    decreases |x|
  {
    var s := x + Arrow + u;
    if |x| == 0 {
      assert s == Arrow + u;
      assert s[..|Arrow|] == Arrow;
      assert s[|Arrow|..] == u;
    } else {
      assert s[2] != '>';
      assert s[..|Arrow|] != Arrow;
      assert s[1..] == x[1..] + Arrow + u;
      SplitPrefix(x[1..], u);
      assert [x[0]] + x[1..] == x;
    }
  }

  /** `Join` loses nothing: the names come back from the rendered path, as
      long as there is at least one and none of them contains '>'. */
  lemma {:induction false} SplitJoin(names: seq<string>)
    requires |names| >= 1
    requires forall k :: 0 <= k < |names| ==> '>' !in names[k]
    ensures Split(Join(names)) == names
    decreases |names|
  {
    if |names| == 1 {
      SplitPlain(names[0]);
    } else {
      SplitPrefix(names[0], Join(names[1..]));
      SplitJoin(names[1..]);
      assert [names[0]] + names[1..] == names;
    }
  }
}
