/** Articles (`Articulo`): the completeness evaluator that decides which records still
    need a person to fill in fields, the page helpers, and the journal/ISSN fallbacks of
    the spreadsheet export. */
module Articulos {

  import opened Comun
  import opened Texto
  import Json
  import Revistas

  /** The columns the completeness rules read by name. */
  datatype Campo =
    | Titulo | TipoProduccionId | EstadoId | AnioPublicacion | RevistaId
    | Volumen | Numero | PaginaInicio | PaginaFin | NombreCongreso

  /** The data of one article record. `tipo` and `estado` are the names of the related
      production type and lifecycle state rows, `revista` the related journal, and
      `numAutores` the number of rows linking authors to the article. */
  datatype Datos = Datos(
    titulo: Option<string>,
    tipoProduccionId: Option<int>,
    estadoId: Option<int>,
    anioPublicacion: Option<int>,
    revistaId: Option<int>,
    volumen: Option<string>,
    numero: Option<string>,
    paginaInicio: Option<int>,
    paginaFin: Option<int>,
    nombreCongreso: Option<string>,
    tituloRevista: Option<string>,
    issn: Option<string>,
    tipo: Option<string>,
    estado: Option<string>,
    revista: Option<Revistas.Revista>,
    numAutores: nat)

  /** `getattr(articulo, campo)` */
  function Valor(d: Datos, c: Campo): (r: Dato)
  {
    match c
    case Titulo => DeTexto(d.titulo)
    case TipoProduccionId => DeEntero(d.tipoProduccionId)
    case EstadoId => DeEntero(d.estadoId)
    case AnioPublicacion => DeEntero(d.anioPublicacion)
    case RevistaId => DeEntero(d.revistaId)
    case Volumen => DeTexto(d.volumen)
    case Numero => DeTexto(d.numero)
    case PaginaInicio => DeEntero(d.paginaInicio)
    case PaginaFin => DeEntero(d.paginaFin)
    case NombreCongreso => DeTexto(d.nombreCongreso)
  }

  /** A value counts as missing when it is None, or a string that is empty or only
      whitespace. Any other value, the integer 0 included, is present. */
  predicate Ausente(v: Dato)
  {
    v.Nulo? || (v.Cadena? && EnBlanco(v.s))
  }

  // ---------------------------------------------------------------------------
  // Page helpers and the conference test

  /** `paginas`: "inicio-fin" when both pages are set (not None, not 0), "inicio" when only
      the first one is, and None otherwise. */
  function Paginas(d: Datos): (r: Option<string>)
    ensures r.None? <==> !EnteroVerdadero(d.paginaInicio)
    ensures r.Some? ==> EmpiezaCon(r.value, EnteroATexto(d.paginaInicio.value))
    ensures r.Some? ==> (r.value == EnteroATexto(d.paginaInicio.value) <==> !EnteroVerdadero(d.paginaFin))
  {
    if EnteroVerdadero(d.paginaInicio) && EnteroVerdadero(d.paginaFin) then
      Some(EnteroATexto(d.paginaInicio.value) + "-" + EnteroATexto(d.paginaFin.value))
    else if EnteroVerdadero(d.paginaInicio) then
      Some(EnteroATexto(d.paginaInicio.value))
    else
      None
  }

  /** `num_paginas`: the number of pages from the first to the last, both counted. */
  function NumPaginas(d: Datos): (r: Option<int>)
    ensures r.Some? <==> EnteroVerdadero(d.paginaInicio) && EnteroVerdadero(d.paginaFin)
    ensures r.Some? ==> d.paginaInicio.value + r.value - 1 == d.paginaFin.value
  {
    if EnteroVerdadero(d.paginaInicio) && EnteroVerdadero(d.paginaFin) then
      Some(d.paginaFin.value - d.paginaInicio.value + 1)
    else
      None
  }

  /** Reads a page text back: "a-b" gives (a, Some(b)), "a" gives (a, None). */
  function LeerPaginas(s: string): (r: Option<(nat, Option<nat>)>)
  {
    var i := PrimerIndice(s, '-');
    if i < 0 then
      match LeerNat(s)
      case None => None
      case Some(a) => Some((a, None))
    else
      match (LeerNat(s[..i]), LeerNat(s[i + 1..]))
      case (Some(a), Some(b)) => Some((a, Some(b)))
      case _ => None
  }

  /** The text of a single page reads back as that page alone. */
  lemma LeerUnaPagina(a: nat)
    ensures LeerPaginas(NatATexto(a)) == Some((a, None))
  {
    LeerNatATexto(a);
    assert PrimerIndice(NatATexto(a), '-') < 0;
  }

  /** The text "a-b" reads back as the pair of pages. */
  lemma LeerDosPaginas(a: nat, b: nat)
    ensures LeerPaginas(NatATexto(a) + "-" + NatATexto(b)) == Some((a, Some(b)))
  {
    var ta := NatATexto(a);
    var tb := NatATexto(b);
    LeerNatATexto(a);
    LeerNatATexto(b);
    var s := ta + "-" + tb;
    assert s[|ta|] == '-';
    assert forall j :: 0 <= j < |ta| ==> s[j] == ta[j] && EsDigito(ta[j]);
    assert PrimerIndice(s, '-') == |ta|;
    assert s[..|ta|] == ta;
    assert s[|ta| + 1..] == tb;
  }

  /** For page numbers that are not negative, the page text gives back the pages it was
      made from: none without a (non-zero) first page, and the last page exactly when it
      is set and not 0. */
  lemma PaginasSeLeen(d: Datos)
    requires d.paginaInicio.Some? ==> d.paginaInicio.value >= 0
    requires d.paginaFin.Some? ==> d.paginaFin.value >= 0
    ensures Paginas(d).None? <==> !EnteroVerdadero(d.paginaInicio)
    ensures Paginas(d).Some? ==>
              LeerPaginas(Paginas(d).value)
              == Some((d.paginaInicio.value as nat, if EnteroVerdadero(d.paginaFin) then Some(d.paginaFin.value as nat) else None))
  {
    if EnteroVerdadero(d.paginaInicio) {
      if EnteroVerdadero(d.paginaFin) {
        LeerDosPaginas(d.paginaInicio.value, d.paginaFin.value);
      } else {
        LeerUnaPagina(d.paginaInicio.value);
      }
    }
  }

  /** `es_conference_paper`: the type's lower-cased name mentions "conference" or
      "congreso"; false when the article has no type. */
  predicate EsConferencePaper(d: Datos)
    ensures EsConferencePaper(d) ==> d.tipo.Some? && |d.tipo.value| >= |"congreso"|
  {
    d.tipo.Some? && (Contiene(Minusculas(d.tipo.value), "conference") || Contiene(Minusculas(d.tipo.value), "congreso"))
  }

  /** The lifecycle state's lower-cased name is exactly "publicado". */
  predicate EsPublicado(d: Datos)
    ensures EsPublicado(d) ==> d.estado.Some? && |d.estado.value| == |"publicado"|
  {
    d.estado.Some? && Minusculas(d.estado.value) == "publicado"
  }

  // ---------------------------------------------------------------------------
  // The rule table

  datatype Regla = Regla(campo: Campo, etiqueta: string)

  /** The field rules in evaluation order: four always, five when published, one for
      conference papers. */
  const Reglas: seq<Regla> := [
    Regla(Titulo, "Título"),
    Regla(TipoProduccionId, "Tipo de producción"),
    Regla(EstadoId, "Estado"),
    Regla(AnioPublicacion, "Año de publicación"),
    Regla(RevistaId, "Revista"),
    Regla(Volumen, "Volumen"),
    Regla(Numero, "Número"),
    Regla(PaginaInicio, "Página inicio"),
    Regla(PaginaFin, "Página fin"),
    Regla(NombreCongreso, "Nombre del congreso")
  ]

  /** The label of the author rule, which comes after every field rule. */
  const EtiquetaAutores: string := "Autores"

  /** Rule `k`, for k in 0..10: the ten field rules, then the author rule (k = 10). */
  function Etiqueta(k: nat): (r: string)
    requires k <= 10
    ensures r != ""
  {
    if k < 10 then Reglas[k].etiqueta else EtiquetaAutores
  }

  predicate Requerido(d: Datos, k: nat)
    requires k <= 10
  {
    k < 4 || (4 <= k < 9 && EsPublicado(d)) || (k == 9 && EsConferencePaper(d)) || k == 10
  }

  predicate Vacio(d: Datos, k: nat)
    requires k <= 10
  {
    if k < 10 then Ausente(Valor(d, Reglas[k].campo)) else d.numAutores == 0
  }

  /** Rule `k` reports its label: the field is required for this record and missing. */
  predicate Falta(d: Datos, k: nat)
    requires k <= 10
  {
    Requerido(d, k) && Vacio(d, k)
  }

  /** Whether each rule, 0 to 10, reports its label for this record. */
  function Fallos(d: Datos): (f: seq<bool>)
    ensures |f| == 11 && forall k :: 0 <= k <= 10 ==> f[k] == Falta(d, k)
  {
    seq(11, k requires 0 <= k <= 10 => Falta(d, k))
  }

  /** The positions of `f` that hold, in increasing order. */
  function Posiciones(f: seq<bool>): (r: seq<nat>)
    ensures forall i :: 0 <= i < |r| ==> r[i] < |f|
    ensures Creciente(r)
    ensures forall j :: 0 <= j < |f| ==> (j in r <==> f[j])
  {
    if f == [] then []
    else
      var r0 := Posiciones(f[..|f| - 1]);
      assert forall j :: 0 <= j < |f| - 1 ==> f[..|f| - 1][j] == f[j];
      r0 + (if f[|f| - 1] then [|f| - 1] else [])
  }

  /** The failing rules, in table order. */
  function IndicesFaltantes(d: Datos): (r: seq<nat>)
    ensures forall i :: 0 <= i < |r| ==> r[i] <= 10
    ensures Creciente(r)
    ensures forall j :: 0 <= j <= 10 ==> (j in r <==> Falta(d, j))
  {
    Posiciones(Fallos(d))
  }

  predicate Creciente(s: seq<nat>)
  {
    forall i, j :: 0 <= i < j < |s| ==> s[i] < s[j]
  }

  /** Two strictly increasing sequences with the same elements are the same sequence. */
  lemma {:induction false} CrecientesIguales(a: seq<nat>, b: seq<nat>)
    requires Creciente(a) && Creciente(b)
    requires forall x :: x in a <==> x in b
    ensures a == b
  {
    if a != [] {
      assert a[0] in b;
    }
    if b != [] {
      assert b[0] in a;
    }
    if a != [] && b != [] {
      assert a[0] in b;
      assert b[0] in a;
      assert a[0] == b[0];
      forall x | x in a[1..] ensures x in b[1..] {
        var i :| 1 <= i < |a| && a[i] == x;
        assert x in a;
        var j :| 0 <= j < |b| && b[j] == x;
        assert j != 0;
      }
      forall x | x in b[1..] ensures x in a[1..] {
        var j :| 1 <= j < |b| && b[j] == x;
        assert x in b;
        var i :| 0 <= i < |a| && a[i] == x;
        assert i != 0;
      }
      CrecientesIguales(a[1..], b[1..]);
      assert a == [a[0]] + a[1..] && b == [b[0]] + b[1..];
    }
  }

  /** The field rules that apply to a record with the given publication and conference
      status, in table order: the four base rules, the five publication rules for a
      published record, the congress rule for a conference paper. */
  function AplicablesSegun(publicado: bool, conferencia: bool): (r: seq<nat>)
    ensures Creciente(r)
    ensures forall i :: 0 <= i < |r| ==> r[i] < 10
    ensures forall k :: 0 <= k < 10 ==> (k in r <==> k < 4 || (4 <= k < 9 && publicado) || (k == 9 && conferencia))
  {
    [0, 1, 2, 3] + (if publicado then [4, 5, 6, 7, 8] else []) + (if conferencia then [9] else [])
  }

  function Aplicables(d: Datos): (r: seq<nat>)
    ensures forall k :: 0 <= k < 10 ==> (k in r <==> Requerido(d, k))
  {
    AplicablesSegun(EsPublicado(d), EsConferencePaper(d))
  }

  /** For each field rule, whether its field is missing. */
  function Vacios(d: Datos): (v: seq<bool>)
    ensures |v| == 10 && forall k :: 0 <= k < 10 ==> v[k] == Vacio(d, k)
  {
    seq(10, k requires 0 <= k < 10 => Vacio(d, k))
  }

  /** The entries of `ps` that name a field rule marked in `v`, in order. */
  function FaltanEn(v: seq<bool>, ps: seq<nat>): (r: seq<nat>)
  {
    if ps == [] then []
    else
      var k := ps[|ps| - 1];
      FaltanEn(v, ps[..|ps| - 1]) + (if k < |v| && v[k] then [k] else [])
  }

  lemma FaltanEnUnoMas(v: seq<bool>, ps: seq<nat>, i: nat)
    requires i < |ps|
    ensures FaltanEn(v, ps[..i + 1]) == FaltanEn(v, ps[..i]) + (if ps[i] < |v| && v[ps[i]] then [ps[i]] else [])
  {
    assert ps[..i + 1][..i] == ps[..i];
  }

  lemma {:induction false} FaltanEnPropiedades(v: seq<bool>, ps: seq<nat>)
    requires Creciente(ps)
    ensures Creciente(FaltanEn(v, ps))
    ensures forall x :: x in FaltanEn(v, ps) <==> x in ps && x < |v| && v[x]
  {
    if ps != [] {
      var n := |ps| - 1;
      var ini := ps[..n];
      FaltanEnPropiedades(v, ini);
      var r0 := FaltanEn(v, ini);
      forall i | 0 <= i < |r0| ensures r0[i] < ps[n] {
        assert r0[i] in ini;
        var j :| 0 <= j < n && ini[j] == r0[i];
      }
      assert ps == ini + [ps[n]];
    }
  }

  /** The failing rules are the applicable field rules whose field is missing, followed by
      the author rule when there is no author. */
  lemma FaltantesPorAplicables(d: Datos)
    ensures IndicesFaltantes(d) == FaltanEn(Vacios(d), Aplicables(d)) + (if d.numAutores == 0 then [10] else [])
  {
    var a := Aplicables(d);
    var f := FaltanEn(Vacios(d), a);
    var r := f + (if d.numAutores == 0 then [10] else []);
    assert Creciente(a);
    FaltanEnPropiedades(Vacios(d), a);
    forall i | 0 <= i < |f| ensures f[i] < 10 {
      assert f[i] in f;
    }
    assert forall x :: x in r <==> x in IndicesFaltantes(d);
    CrecientesIguales(r, IndicesFaltantes(d));
  }

  /** The labels of the missing fields, in rule order. */
  function Faltantes(d: Datos): (r: seq<string>)
  {
    Etiquetas(IndicesFaltantes(d))
  }

  /** The labels of a run of rules. */
  function Etiquetas(ix: seq<nat>): (r: seq<string>)
    requires forall i :: 0 <= i < |ix| ==> ix[i] <= 10
    ensures |r| == |ix| && forall i :: 0 <= i < |ix| ==> r[i] == Etiqueta(ix[i])
  {
    if ix == [] then [] else Etiquetas(ix[..|ix| - 1]) + [Etiqueta(ix[|ix| - 1])]
  }

  /** Labels read off the applicable field rules whose field is missing, then "Autores"
      when there is no author, are exactly `Faltantes`. */
  lemma EtiquetasDeLosIndices(d: Datos, publicado: bool, conferencia: bool, indices: seq<nat>, ls: seq<string>)
    requires publicado == EsPublicado(d) && conferencia == EsConferencePaper(d)
    requires indices == FaltanEn(Vacios(d), AplicablesSegun(publicado, conferencia)) + (if d.numAutores == 0 then [10] else [])
    requires forall j :: 0 <= j < |indices| ==> indices[j] <= 10
    requires ls == Etiquetas(indices)
    ensures ls == Faltantes(d)
  {
    FaltantesPorAplicables(d);
  }

  /** What `campos_faltantes` holds: None when nothing is missing, otherwise the JSON list
      of labels. */
  function CamposFaltantes(d: Datos): (r: Option<string>)
  {
    var f := Faltantes(d);
    if f == [] then None else Some(Json.Lista(f))
  }

  // ---------------------------------------------------------------------------
  // What the evaluator promises

  lemma EtiquetasDistintas()
    ensures forall a, b :: 0 <= a <= 10 && 0 <= b <= 10 && a != b ==> Etiqueta(a) != Etiqueta(b)
  {
  }

  /** The label of rule `k` is reported exactly when that rule fails, so no label is ever
      reported for a field that is present or not required. */
  lemma FaltaSiYSoloSi(d: Datos, k: nat)
    requires k <= 10
    ensures Etiqueta(k) in Faltantes(d) <==> Falta(d, k)
  {
    var ix := IndicesFaltantes(d);
    EtiquetasDistintas();
    if Falta(d, k) {
      var i :| 0 <= i < |ix| && ix[i] == k;
      assert Faltantes(d)[i] == Etiqueta(k);
    }
  }

  /** The labels come out in rule order: the four base labels, then the published-only
      ones, then the congress name, then "Autores". No label appears twice. */
  lemma FaltantesEnOrden(d: Datos, i: nat, j: nat, a: nat, b: nat)
    requires i < |Faltantes(d)| && j < |Faltantes(d)|
    requires a <= 10 && b <= 10 && a < b
    requires Faltantes(d)[i] == Etiqueta(a) && Faltantes(d)[j] == Etiqueta(b)
    ensures i < j
  {
    var ix := IndicesFaltantes(d);
    EtiquetasDistintas();
    assert Etiqueta(ix[i]) == Etiqueta(a) && Etiqueta(ix[j]) == Etiqueta(b);
    assert ix[i] == a && ix[j] == b;
  }

  lemma FaltantesSinRepetir(d: Datos)
    ensures forall i, j :: 0 <= i < j < |Faltantes(d)| ==> Faltantes(d)[i] != Faltantes(d)[j]
  {
    var ix := IndicesFaltantes(d);
    EtiquetasDistintas();
    forall i, j | 0 <= i < j < |Faltantes(d)| ensures Faltantes(d)[i] != Faltantes(d)[j] {
      assert ix[i] < ix[j];
    }
  }

  /** Revista, Volumen, Número and both pages are reported only for a published record
      (state named exactly "publicado", ignoring case), and for it whenever they are missing. */
  lemma CamposDePublicado(d: Datos, k: nat)
    requires 4 <= k < 9
    ensures Etiqueta(k) in Faltantes(d) <==> EsPublicado(d) && Ausente(Valor(d, Reglas[k].campo))
  {
    FaltaSiYSoloSi(d, k);
  }

  /** A published record without a volume is never complete. */
  lemma PublicadoSinVolumenIncompleto(d: Datos)
    requires EsPublicado(d) && (d.volumen.None? || EnBlanco(d.volumen.value))
    ensures "Volumen" in Faltantes(d)
  {
    FaltaSiYSoloSi(d, 5);
  }

  /** The congress name is required exactly for conference papers. */
  lemma CongresoSoloEnConferencias(d: Datos)
    ensures "Nombre del congreso" in Faltantes(d) <==> EsConferencePaper(d) && Ausente(DeTexto(d.nombreCongreso))
  {
    FaltaSiYSoloSi(d, 9);
  }

  /** "Autores" is reported exactly when the record has no author, and then it is last. */
  lemma AutoresAlFinal(d: Datos)
    ensures EtiquetaAutores in Faltantes(d) <==> d.numAutores == 0
    ensures d.numAutores == 0 ==> Faltantes(d)[|Faltantes(d)| - 1] == EtiquetaAutores
  {
    FaltaSiYSoloSi(d, 10);
    var ix := IndicesFaltantes(d);
    if d.numAutores == 0 {
      var i :| 0 <= i < |ix| && ix[i] == 10;
      assert i == |ix| - 1;
    }
  }

  /** A record that is neither published nor a conference paper, with title, type, state
      and year, is complete exactly when it has an author; without one, only "Autores" is
      missing. */
  lemma CompletoConUnAutor(d: Datos)
    requires !EsPublicado(d) && !EsConferencePaper(d)
    requires d.titulo.Some? && !EnBlanco(d.titulo.value)
    requires d.tipoProduccionId.Some? && d.estadoId.Some? && d.anioPublicacion.Some?
    ensures Faltantes(d) == if d.numAutores == 0 then [EtiquetaAutores] else []
  {
    var ix := IndicesFaltantes(d);
    var esperado := if d.numAutores == 0 then [10] else [];
    assert forall x :: x in ix <==> x in esperado;
    CrecientesIguales(ix, esperado);
  }

  // ---------------------------------------------------------------------------
  // The author check as written

  /** The labels as written. The author check tests the truth of `articulo_autores`,
      which the relationship declares with `lazy='dynamic'`: it is then a query object,
      and a query object is always true whatever rows it would return. So the author rule
      never fires, as if the record always had an author. */
  function FaltantesComoEscrito(d: Datos): (r: seq<string>)
    ensures EtiquetaAutores !in r
  {
    AutoresAlFinal(d.(numAutores := 1));
    Faltantes(d.(numAutores := 1))
  }

  /** The labels as written differ from the intended ones only by the missing "Autores"
      at the end, for a record without authors. */
  lemma ComoEscritoSoloDifiereEnAutores(d: Datos)
    ensures Faltantes(d) == FaltantesComoEscrito(d) + (if d.numAutores == 0 then [EtiquetaAutores] else [])
  {
    var e := d.(numAutores := 1);
    ReglasIgualesSinAutores(d);
    FaltantesPorAplicables(e);
    FaltantesPorAplicables(d);
    var base := IndicesFaltantes(e);
    if d.numAutores == 0 {
      EtiquetasConAutores(base);
    }
  }

  /** Only the author rule looks at the number of authors. */
  lemma ReglasIgualesSinAutores(d: Datos)
    ensures Vacios(d) == Vacios(d.(numAutores := 1))
    ensures Aplicables(d) == Aplicables(d.(numAutores := 1))
  {
    var e := d.(numAutores := 1);
    assert forall k :: 0 <= k < 10 ==> Vacios(d)[k] == Vacios(e)[k];
  }

  lemma EtiquetasConAutores(ix: seq<nat>)
    requires forall i :: 0 <= i < |ix| ==> ix[i] <= 10
    ensures Etiquetas(ix + [10]) == Etiquetas(ix) + [EtiquetaAutores]
  {
    assert (ix + [10])[..|ix|] == ix;
  }

  /** As written, a record that is neither published nor a conference paper, with title,
      type, state and year but no author, is complete: nothing is missing, where
      the intended check reports "Autores". */
  lemma SinAutoresCompletoComoEscrito(d: Datos)
    requires !EsPublicado(d) && !EsConferencePaper(d)
    requires d.titulo.Some? && !EnBlanco(d.titulo.value)
    requires d.tipoProduccionId.Some? && d.estadoId.Some? && d.anioPublicacion.Some?
    requires d.numAutores == 0
    ensures FaltantesComoEscrito(d) == []
    ensures Faltantes(d) == [EtiquetaAutores]
  {
    CompletoConUnAutor(d);
    ComoEscritoSoloDifiereEnAutores(d);
  }

  /** A type whose name holds "conference" or "congreso" in lower case makes a conference
      paper, wherever the word stands in the name. */
  lemma ConferenciaPorPalabra(d: Datos, i: int)
    requires d.tipo.Some?
    requires ApareceEn(d.tipo.value, "conference", i) || ApareceEn(d.tipo.value, "congreso", i)
    ensures EsConferencePaper(d)
  {
    var s := d.tipo.value;
    if ApareceEn(s, "conference", i) {
      MinusculasConservaMinusculas(s, "conference", i);
      assert ApareceEn(Minusculas(s), "conference", i);
    } else {
      MinusculasConservaMinusculas(s, "congreso", i);
      assert ApareceEn(Minusculas(s), "congreso", i);
    }
  }

  lemma PrimerasEtiquetasSinEscapes()
    ensures Json.SinEscapes("Título") && Json.SinEscapes("Tipo de producción") && Json.SinEscapes("Estado")
    ensures Json.SinEscapes("Año de publicación") && Json.SinEscapes("Revista")
  {
  }

  lemma UltimasEtiquetasSinEscapes()
    ensures Json.SinEscapes("Volumen") && Json.SinEscapes("Número") && Json.SinEscapes("Página inicio")
    ensures Json.SinEscapes("Página fin") && Json.SinEscapes("Nombre del congreso") && Json.SinEscapes("Autores")
  {
  }

  /** No label contains a character that JSON would escape. */
  lemma EtiquetaSinEscapes(k: nat)
    requires k <= 10
    ensures Json.SinEscapes(Etiqueta(k))
  {
    PrimerasEtiquetasSinEscapes();
    UltimasEtiquetasSinEscapes();
    if k < 5 {
      assert Etiqueta(k) in ["Título", "Tipo de producción", "Estado", "Año de publicación", "Revista"];
    } else {
      assert Etiqueta(k) in ["Volumen", "Número", "Página inicio", "Página fin", "Nombre del congreso", "Autores"];
    }
  }

  /** The stored text reads back as the ordered label list, and is None exactly when
      nothing is missing. */
  lemma CamposFaltantesSeLeen(d: Datos)
    ensures CamposFaltantes(d).None? <==> Faltantes(d) == []
    ensures CamposFaltantes(d).Some? ==> Json.LeerLista(CamposFaltantes(d).value) == Some(Faltantes(d))
  {
    var f := Faltantes(d);
    var ix := IndicesFaltantes(d);
    forall i | 0 <= i < |f| ensures Json.SinEscapes(f[i]) {
      assert f[i] == Etiqueta(ix[i]);
      EtiquetaSinEscapes(ix[i]);
    }
    Json.ListaIdaYVuelta(f);
  }

  // ---------------------------------------------------------------------------
  // Spreadsheet export fallbacks

  /** The 'Nombre de la revista' column: the related journal's name, otherwise the
      free-text journal title, otherwise "". */
  function NombreRevistaExcel(d: Datos): (r: string)
    ensures d.revista.Some? ==> r == d.revista.value.nombre
    ensures d.revista.None? ==> (r == "" <==> !TextoVerdadero(d.tituloRevista))
    ensures d.revista.None? && r != "" ==> r == d.tituloRevista.value
  {
    if d.revista.Some? then d.revista.value.nombre
    else if TextoVerdadero(d.tituloRevista) then d.tituloRevista.value
    else ""
  }

  /** The 'ISSN' column: the article's own non-empty ISSN, otherwise the related journal's
      ISSN, otherwise "". When the article has no ISSN of its own and its journal has none
      either, the column holds None rather than "". */
  function IssnExcel(d: Datos): (r: Option<string>)
    ensures TextoVerdadero(d.issn) ==> r == d.issn
    ensures !TextoVerdadero(d.issn) && d.revista.Some? ==> r == d.revista.value.issn
    ensures r.None? <==> !TextoVerdadero(d.issn) && d.revista.Some? && d.revista.value.issn.None?
    ensures r == Some("") <==> !TextoVerdadero(d.issn) && (d.revista.None? || d.revista.value.issn == Some(""))
  {
    if TextoVerdadero(d.issn) then d.issn
    else if d.revista.Some? then d.revista.value.issn
    else Some("")
  }

  /** The list of rules `calcular_completitud` checks: the four base rules, the five
      publication rules for a published record, the congress rule for a conference paper.
      `pos` gives the place of each rule in the table. */
  method CamposRequeridos(publicado: bool, conferencia: bool) returns (campos: seq<Regla>, ghost pos: seq<nat>)
    ensures pos == AplicablesSegun(publicado, conferencia)
    ensures |campos| == |pos| && forall j :: 0 <= j < |pos| ==> campos[j] == Reglas[pos[j]]
  {
    campos := Reglas[..4];
    pos := [0, 1, 2, 3];
    assert forall j :: 0 <= j < |pos| ==> pos[j] == j;
    if publicado {
      campos := campos + Reglas[4..9];
      pos := pos + [4, 5, 6, 7, 8];
      assert forall j :: 0 <= j < |pos| ==> pos[j] == j;
    }
    if conferencia {
      campos := campos + [Reglas[9]];
      pos := pos + [9];
    }
  }

  /** The loop of `calcular_completitud` over the assembled rules: for each rule in turn,
      its label is appended when its field is missing. `pos` gives each rule's place in
      the table. */
  method RecorrerReglas(d: Datos, campos: seq<Regla>, ghost pos: seq<nat>)
    returns (faltantes: seq<string>, ghost indices: seq<nat>)
    requires |campos| == |pos|
    requires forall j :: 0 <= j < |pos| ==> pos[j] < 10 && campos[j] == Reglas[pos[j]]
    ensures indices == FaltanEn(Vacios(d), pos)
    ensures forall j :: 0 <= j < |indices| ==> indices[j] < 10
    ensures faltantes == Etiquetas(indices)
  {
    ghost var vacios := Vacios(d);
    faltantes := [];
    indices := [];
    var i := 0;
    while i < |campos|
      invariant 0 <= i <= |campos|
      invariant indices == FaltanEn(vacios, pos[..i])
      invariant forall j :: 0 <= j < |indices| ==> indices[j] < 10
      invariant faltantes == Etiquetas(indices)
    {
      var regla := campos[i];
      FaltanEnUnoMas(vacios, pos, i);
      assert vacios[pos[i]] == Ausente(Valor(d, regla.campo));
      if Ausente(Valor(d, regla.campo)) {
        assert (indices + [pos[i]])[..|indices|] == indices;
        faltantes := faltantes + [regla.etiqueta];
        indices := indices + [pos[i]];
      }
      i := i + 1;
    }
    assert pos[..i] == pos;
  }

  /** The evaluation of `calcular_completitud`: collects the field rules that apply to the
      record, checks each one's field in order, and adds "Autores" when the record has no
      author. */
  method ListarFaltantes(d: Datos) returns (faltantes: seq<string>)
    ensures faltantes == Faltantes(d)
  {
    var publicado := EsPublicado(d);
    var conferencia := EsConferencePaper(d);
    var campos, pos := CamposRequeridos(publicado, conferencia);
    ghost var indices;
    faltantes, indices := RecorrerReglas(d, campos, pos);
    if d.numAutores == 0 {
      assert (indices + [10])[..|indices|] == indices;
      faltantes := faltantes + [EtiquetaAutores];
      indices := indices + [10];
    }
    EtiquetasDeLosIndices(d, publicado, conferencia, indices, faltantes);
  }

  // ---------------------------------------------------------------------------
  // The record

  class Articulo {
    var datos: Datos
    var completo: bool
    var camposFaltantes: Option<string>

    /** A new record: not complete, no missing-field list stored. */
    constructor (datos: Datos)
      ensures this.datos == datos && !completo && camposFaltantes.None?
    {
      this.datos := datos;
      completo := false;
      camposFaltantes := None;
    }

    /** `calcular_completitud`: lists the missing fields of this record, stores that list
        as JSON (or None when it is empty) and the completeness flag, and returns the flag. */
    method CalcularCompletitud() returns (r: bool)
      modifies this`completo, this`camposFaltantes
      ensures completo <==> Faltantes(datos) == []
      ensures camposFaltantes == CamposFaltantes(datos)
      ensures r == completo
    {
      var faltantes := ListarFaltantes(datos);
      camposFaltantes := if faltantes != [] then Some(Json.Lista(faltantes)) else None;
      completo := |faltantes| == 0;
      r := completo;
    }
  }

  /** Re-running the evaluator on an unchanged record gives the same flag and stores the
      same list. */
  method RecalcularEsIdempotente(a: Articulo) returns (primero: bool, segundo: bool)
    modifies a
    ensures primero == segundo
    ensures a.camposFaltantes == CamposFaltantes(a.datos) && a.datos == old(a.datos)
  {
    primero := a.CalcularCompletitud();
    var campos := a.camposFaltantes;
    segundo := a.CalcularCompletitud();
    assert a.camposFaltantes == campos;
  }
}
