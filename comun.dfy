/** Shared value types and the two list queries the models use: "first row that
    matches" (a query's `.first()`) and "all rows that match, in order" (`.all()`). */
module Comun {

  datatype Option<+T> = None | Some(value: T)

  /** A check that either passes or fails with a reason. */
  datatype Outcome<+E> = Pass | Fail(error: E)

  /** A value as Python hands it around: None, an int, a str or a bool. */
  datatype Dato = Nulo | Entero(n: int) | Cadena(s: string) | Logico(b: bool)

  /** `Some(s)` becomes a string value, `None` becomes None. */
  function DeTexto(o: Option<string>): (r: Dato)
    ensures r.Nulo? <==> o.None?
    ensures o.Some? ==> r == Cadena(o.value)
  {
    match o
    case None => Nulo
    case Some(s) => Cadena(s)
  }

  /** `Some(n)` becomes an int value, `None` becomes None. */
  function DeEntero(o: Option<int>): (r: Dato)
    ensures r.Nulo? <==> o.None?
    ensures o.Some? ==> r == Entero(o.value)
  {
    match o
    case None => Nulo
    case Some(n) => Entero(n)
  }

  /** Python truthiness of an optional string: present and not empty. */
  predicate TextoVerdadero(o: Option<string>)
  {
    o.Some? && o.value != ""
  }

  /** Python truthiness of an optional int: present and not zero. */
  predicate EnteroVerdadero(o: Option<int>)
  {
    o.Some? && o.value != 0
  }

  /** Index of the first element of `s` that satisfies `p`, if any. */
  function PrimeraCoincidencia<T>(s: seq<T>, p: T -> bool): (r: Option<nat>)
    ensures r.Some? ==> r.value < |s| && p(s[r.value])
    ensures r.Some? ==> forall j :: 0 <= j < r.value ==> !p(s[j])
    ensures r.None? <==> forall j :: 0 <= j < |s| ==> !p(s[j])
  {
    if s == [] then None
    else if p(s[0]) then Some(0)
    else
      match PrimeraCoincidencia(s[1..], p)
      case None => None
      case Some(k) => Some(k + 1)
  }

  /** The elements of `s` that satisfy `p`, in their original order. */
  function Filtrar<T>(s: seq<T>, p: T -> bool): (r: seq<T>)
    ensures |r| <= |s|
    ensures forall i :: 0 <= i < |r| ==> r[i] in s && p(r[i])
    ensures forall i :: 0 <= i < |s| && p(s[i]) ==> s[i] in r
  {
    if s == [] then [] else (if p(s[0]) then [s[0]] else []) + Filtrar(s[1..], p)
  }

  /** Filtering distributes over concatenation: the filter keeps the input's order. */
  lemma {:induction false} FiltrarConcatena<T>(a: seq<T>, b: seq<T>, p: T -> bool)
    ensures Filtrar(a + b, p) == Filtrar(a, p) + Filtrar(b, p)
  {
    if a == [] {
      assert a + b == b;
    } else {
      assert (a + b)[0] == a[0];
      assert (a + b)[1..] == a[1..] + b;
      FiltrarConcatena(a[1..], b, p);
    }
  }

  /** A filter whose predicate holds everywhere returns its input unchanged. */
  lemma {:induction false} FiltrarTodo<T>(s: seq<T>, p: T -> bool)
    requires forall i :: 0 <= i < |s| ==> p(s[i])
    ensures Filtrar(s, p) == s
  {
    if s != [] {
      FiltrarTodo(s[1..], p);
    }
  }
}
