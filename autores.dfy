/** Authors (`Autor`): the two name formats, the dictionary form and the duplicate
    check used on import, taken over the author table as a sequence of rows. */
module Autores {

  import opened Comun
  import opened Texto

  datatype Autor = Autor(
    id: int,
    nombre: string,
    apellidos: string,
    email: Option<string>,
    registro: Option<string>,
    esMiembroCa: bool,
    activo: bool)

  /** `nombre_completo`: given name, one space, family names. */
  function NombreCompleto(a: Autor): (r: string)
    ensures |r| == |a.nombre| + 1 + |a.apellidos|
    ensures EmpiezaCon(r, a.nombre) && TerminaCon(r, a.apellidos)
    ensures r[|a.nombre|] == ' '
  {
    a.nombre + " " + a.apellidos
  }

  /** Splits a text at its first space (the whole text and "" when there is none). */
  function SepararEnPrimerEspacio(s: string): (string, string)
  {
    var i := PrimerIndice(s, ' ');
    if i < 0 then (s, "") else (s[..i], s[i + 1..])
  }

  /** For a one-word given name, the full name splits back into its two parts. */
  lemma NombreCompletoSeSepara(a: Autor)
    requires forall j :: 0 <= j < |a.nombre| ==> a.nombre[j] != ' '
    ensures SepararEnPrimerEspacio(NombreCompleto(a)) == (a.nombre, a.apellidos)
  {
  }

  /** The initial of a given name: its first character upper-cased (one or two
      characters), or "" when it is empty. */
  function Inicial(nombre: string): (r: string)
    ensures r == "" <==> nombre == ""
    ensures nombre != "" ==> r == MayusculaDe(nombre[0])
  {
    if nombre != "" then MayusculaDe(nombre[0]) else ""
  }

  /** `nombre_formato_cita`: "Apellidos, N." */
  function NombreFormatoCita(a: Autor): (r: string)
    ensures EmpiezaCon(r, a.apellidos + ", ") && TerminaCon(r, ".")
    ensures a.nombre == "" ==> r == a.apellidos + ", ."
    ensures a.nombre != "" ==> |a.apellidos| + 4 <= |r| <= |a.apellidos| + 5
                               && r[|a.apellidos| + 2..|r| - 1] == MayusculaDe(a.nombre[0])
  {
    var r := a.apellidos + ", " + Inicial(a.nombre) + ".";
    assert r[|a.apellidos| + 2..|r| - 1] == Inicial(a.nombre);
    r
  }

  /** The citation form's initial is the upper-cased first letter of the full name. */
  lemma CitaUsaInicialDelNombreCompleto(a: Autor)
    requires a.nombre != ""
    ensures var c := NombreFormatoCita(a); c[|a.apellidos| + 2..|c| - 1] == MayusculaDe(NombreCompleto(a)[0])
  {
  }

  /** `to_dict()`: the columns by name plus the full name under 'nombre_completo'. */
  function ToDict(a: Autor): (d: map<string, Dato>)
    ensures d.Keys == {"id", "nombre", "apellidos", "nombre_completo", "email", "registro",
                       "es_miembro_ca", "activo"}
    ensures d["nombre_completo"] == Cadena(NombreCompleto(a))
  {
    map["id" := Entero(a.id), "nombre" := Cadena(a.nombre), "apellidos" := Cadena(a.apellidos),
        "nombre_completo" := Cadena(NombreCompleto(a)), "email" := DeTexto(a.email),
        "registro" := DeTexto(a.registro), "es_miembro_ca" := Logico(a.esMiembroCa),
        "activo" := Logico(a.activo)]
  }

  /** The SQL filter `lower(nombre) = lower(:n) AND lower(apellidos) = lower(:a)`. */
  predicate MismoNombre(x: Autor, nombre: string, apellidos: string)
  {
    MinusculasAscii(x.nombre) == MinusculasAscii(nombre) && MinusculasAscii(x.apellidos) == MinusculasAscii(apellidos)
  }

  /** Row `i` is the first author with that name. */
  predicate PrimeroConNombre(autores: seq<Autor>, nombre: string, apellidos: string, i: int)
  {
    && 0 <= i < |autores|
    && MismoNombre(autores[i], nombre, apellidos)
    && forall j :: 0 <= j < i ==> !MismoNombre(autores[j], nombre, apellidos)
  }

  /** `buscar_por_nombre`: the first author whose given and family names both match,
      ignoring case, or None when no author matches. */
  function BuscarPorNombre(autores: seq<Autor>, nombre: string, apellidos: string): (r: Option<Autor>)
    ensures r.None? <==> forall j :: 0 <= j < |autores| ==> !MismoNombre(autores[j], nombre, apellidos)
    ensures r.Some? ==> exists i :: PrimeroConNombre(autores, nombre, apellidos, i) && autores[i] == r.value
  {
    match PrimeraCoincidencia(autores, x => MismoNombre(x, nombre, apellidos))
    case None => None
    case Some(i) => Some(autores[i])
  }

  /** Looking up an author by their own name, in any letter case, finds a row with that name. */
  lemma BuscarPorNombreEncuentraAlMismo(autores: seq<Autor>, a: Autor, nombre: string, apellidos: string)
    requires a in autores
    requires MinusculasAscii(nombre) == MinusculasAscii(a.nombre) && MinusculasAscii(apellidos) == MinusculasAscii(a.apellidos)
    ensures BuscarPorNombre(autores, nombre, apellidos).Some?
    ensures MismoNombre(BuscarPorNombre(autores, nombre, apellidos).value, a.nombre, a.apellidos)
  {
  }
}
