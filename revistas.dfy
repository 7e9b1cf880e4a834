/** Journals (`Revista`): the name-with-ISSN label, the dictionary form and the two
    lookups, taken over the journal table as a sequence of rows in storage order. */
module Revistas {

  import opened Comun
  import opened Texto

  /** One journal row. `pais` is the name of the related country, when there is one. */
  datatype Revista = Revista(
    id: int,
    nombre: string,
    issn: Option<string>,
    issnElectronico: Option<string>,
    editorial: Option<string>,
    paisId: Option<int>,
    pais: Option<string>,
    url: Option<string>,
    areaTematica: Option<string>,
    activo: bool)

  /** The journal's name, followed by " (ISSN: …)" when it has a non-empty ISSN. */
  function NombreConIssn(r: Revista): (s: string)
    ensures EmpiezaCon(s, r.nombre)
    ensures s == r.nombre <==> !TextoVerdadero(r.issn)
    ensures TextoVerdadero(r.issn) ==> s[|r.nombre|..] == " (ISSN: " + r.issn.value + ")"
  {
    if TextoVerdadero(r.issn) then r.nombre + " (ISSN: " + r.issn.value + ")" else r.nombre
  }

  /** `to_dict()`: every column by name, and the country's name (or None) under 'pais'. */
  function ToDict(r: Revista): (d: map<string, Dato>)
    ensures d.Keys == {"id", "nombre", "issn", "issn_electronico", "editorial", "pais_id",
                       "pais", "url", "area_tematica", "activo"}
    ensures d["pais"] == Nulo <==> r.pais.None?
    ensures d["issn"] == DeTexto(r.issn) && d["nombre"] == Cadena(r.nombre)
  {
    map["id" := Entero(r.id), "nombre" := Cadena(r.nombre), "issn" := DeTexto(r.issn),
        "issn_electronico" := DeTexto(r.issnElectronico), "editorial" := DeTexto(r.editorial),
        "pais_id" := DeEntero(r.paisId), "pais" := DeTexto(r.pais), "url" := DeTexto(r.url),
        "area_tematica" := DeTexto(r.areaTematica), "activo" := Logico(r.activo)]
  }

  /** The SQL filter `issn = :v OR issn_electronico = :v` (a NULL column never matches). */
  predicate TieneIssn(r: Revista, v: string)
  {
    r.issn == Some(v) || r.issnElectronico == Some(v)
  }

  /** Row `i` is the first row carrying ISSN `v`. */
  predicate PrimeraConIssn(revistas: seq<Revista>, v: string, i: int)
  {
    && 0 <= i < |revistas|
    && TieneIssn(revistas[i], v)
    && forall j :: 0 <= j < i ==> !TieneIssn(revistas[j], v)
  }

  /** `buscar_por_issn`: None without searching when the ISSN is None or empty; otherwise
      the first journal whose print or electronic ISSN equals it. */
  function BuscarPorIssn(revistas: seq<Revista>, issn: Option<string>): (r: Option<Revista>)
    ensures !TextoVerdadero(issn) ==> r.None?
    ensures TextoVerdadero(issn) ==>
      (r.Some? <==> exists j :: 0 <= j < |revistas| && TieneIssn(revistas[j], issn.value))
    ensures r.Some? ==> exists i :: PrimeraConIssn(revistas, issn.value, i) && revistas[i] == r.value
  {
    if !TextoVerdadero(issn) then None
    else
      match PrimeraCoincidencia(revistas, x => TieneIssn(x, issn.value))
      case None => None
      case Some(i) => Some(revistas[i])
  }

  /** The SQL filter `lower(nombre) LIKE '%' || lower(:q) || '%'`, with the query taken literally. */
  predicate NombreContiene(r: Revista, q: string)
  {
    Contiene(MinusculasAscii(r.nombre), MinusculasAscii(q))
  }

  /** `buscar_por_nombre`: every journal whose lower-cased name contains the lower-cased
      query, in storage order. */
  function BuscarPorNombre(revistas: seq<Revista>, q: string): (r: seq<Revista>)
    ensures forall i :: 0 <= i < |r| ==> r[i] in revistas && NombreContiene(r[i], q)
    ensures forall j :: 0 <= j < |revistas| && NombreContiene(revistas[j], q) ==> revistas[j] in r
  {
    Filtrar(revistas, x => NombreContiene(x, q))
  }

  /** The matches of a table split in two are the matches of each part, in order. */
  lemma BuscarPorNombreConservaOrden(a: seq<Revista>, b: seq<Revista>, q: string)
    ensures BuscarPorNombre(a + b, q) == BuscarPorNombre(a, q) + BuscarPorNombre(b, q)
  {
    FiltrarConcatena(a, b, x => NombreContiene(x, q));
  }

  /** An empty query matches every journal. */
  lemma BuscarPorNombreVacioDevuelveTodas(revistas: seq<Revista>)
    ensures BuscarPorNombre(revistas, "") == revistas
  {
    forall j | 0 <= j < |revistas|
      ensures NombreContiene(revistas[j], "")
    {
      assert ApareceEn(MinusculasAscii(revistas[j].nombre), MinusculasAscii(""), 0);
    }
    FiltrarTodo(revistas, x => NombreContiene(x, ""));
  }
}
