/** `json.dumps(lista, ensure_ascii=False)` for a list of strings, and a reader for
    what it writes. Strings are written between double quotes as they are: the writer
    is only applied to labels that contain no character JSON would escape. */
module Json {

  import opened Comun
  import opened Texto

  /** A string that json.dumps writes unchanged between its quotes. */
  predicate SinEscapes(s: string)
  {
    forall j :: 0 <= j < |s| ==> s[j] != '"' && s[j] != '\\' && s[j] as int >= 0x20
  }

  function Cadena(s: string): (r: string)
    ensures |r| == |s| + 2 && r[0] == '"' && r[|r| - 1] == '"'
  {
    "\"" + s + "\""
  }

  /** The items of a list, separated by json.dumps's default ", ". */
  function Elementos(ls: seq<string>): (r: string)
  {
    if ls == [] then ""
    else if |ls| == 1 then Cadena(ls[0])
    else Cadena(ls[0]) + ", " + Elementos(ls[1..])
  }

  function Lista(ls: seq<string>): (r: string)
    ensures |r| >= 2 && r[0] == '[' && r[|r| - 1] == ']'
  {
    "[" + Elementos(ls) + "]"
  }

  /** Reads a comma-separated run of quoted strings (the inside of a list). */
  function LeerElementos(s: string): (r: Option<seq<string>>)
    decreases |s|
  {
    if s == [] then Some([])
    else if s[0] != '"' then None
    else
      var j := PrimerIndice(s[1..], '"');
      if j < 0 then None
      else
        var item := s[1..j + 1];
        var resto := s[j + 2..];
        if resto == [] then Some([item])
        else if |resto| > 2 && resto[..2] == ", " then
          match LeerElementos(resto[2..])
          case None => None
          case Some(ms) => Some([item] + ms)
        else None
  }

  /** Reads a JSON list of strings. */
  function LeerLista(s: string): (r: Option<seq<string>>)
    ensures r.Some? ==> |s| >= 2 && s[0] == '[' && s[|s| - 1] == ']'
  {
    if |s| >= 2 && s[0] == '[' && s[|s| - 1] == ']' then LeerElementos(s[1..|s| - 1]) else None
  }

  /** The reader finds the closing quote of a quoted string right after its text. */
  lemma PrimeraCadena(x: string, cola: string)
    requires SinEscapes(x)
    ensures var s := Cadena(x) + cola;
      && s[0] == '"'
      && PrimerIndice(s[1..], '"') == |x|
      && s[1..|x| + 1] == x
      && s[|x| + 2..] == cola
  {
    var s := Cadena(x) + cola;
    var t := s[1..];
    assert t == x + "\"" + cola;
    assert t[|x|] == '"';
    assert forall k :: 0 <= k < |x| ==> t[k] == x[k];
  }

  lemma LeerUno(x: string)
    requires SinEscapes(x)
    ensures LeerElementos(Cadena(x)) == Some([x])
  {
    var s := Cadena(x);
    PrimeraCadena(x, "");
    assert Cadena(x) + "" == s;
    assert s[|x| + 2..] == [];
  }

  /** Reading one more item in front of a list the reader already gives back. */
  lemma LeerUnoMas(x: string, ls: seq<string>)
    requires SinEscapes(x) && ls != []
    requires LeerElementos(Elementos(ls)) == Some(ls)
    ensures LeerElementos(Cadena(x) + ", " + Elementos(ls)) == Some([x] + ls)
  {
    var cola := ", " + Elementos(ls);
    PrimeraCadena(x, cola);
    assert Cadena(x) + cola == Cadena(x) + ", " + Elementos(ls);
    assert Elementos(ls)[0] == '"';
    assert cola[2..] == Elementos(ls);
  }

  lemma {:induction false} LeerElementosIdaYVuelta(ls: seq<string>)
    requires forall i :: 0 <= i < |ls| ==> SinEscapes(ls[i])
    ensures LeerElementos(Elementos(ls)) == Some(ls)
  {
    if |ls| == 1 {
      LeerUno(ls[0]);
      assert ls == [ls[0]];
    } else if |ls| > 1 {
      LeerElementosIdaYVuelta(ls[1..]);
      LeerUnoMas(ls[0], ls[1..]);
      assert Elementos(ls) == Cadena(ls[0]) + ", " + Elementos(ls[1..]);
      assert [ls[0]] + ls[1..] == ls;
    }
  }

  /** What the writer produces, the reader gives back. */
  lemma ListaIdaYVuelta(ls: seq<string>)
    requires forall i :: 0 <= i < |ls| ==> SinEscapes(ls[i])
    ensures LeerLista(Lista(ls)) == Some(ls)
  {
    var s := Lista(ls);
    assert s[1..|s| - 1] == Elementos(ls);
    LeerElementosIdaYVuelta(ls);
  }
}
