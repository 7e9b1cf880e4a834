# Analizador de artículos — a verified model of its core

The analizador de artículos is a Flask application. A research group (a *cuerpo
académico*, CA) uses it to catalogue its articles, to import them from uploaded PDFs
and to export them to the group's spreadsheet. This project models, in Dafny, the parts
of it that decide things on their own:

- **Completeness evaluator** (`Articulos`, articulos.dfy). `Articulo.calcular_completitud`
  decides which required fields an article record still lacks and stores the result:
  - it checks four base fields;
  - it checks five more for a published record;
  - it checks the congress name for a conference paper;
  - it checks for at least one author.

  The module also covers the page helpers `paginas` and `num_paginas`, the
  `es_conference_paper` test, and the journal-name and ISSN fallbacks of the spreadsheet
  row. The record is a class with the stored fields `completo` and `campos_faltantes`.
  The method computes the labels with the source's own loop. That loop is proved equal
  to a declarative definition: the rules of an 11-entry rule table that fail for the
  record, in table order.
- **Upload handler** (`FileHandling`, file_handling.dfy). `FileHandler` holds:
  - the size-limit default;
  - the upload validator with its fixed order of checks;
  - the unique file name;
  - saving and deleting files;
  - the clean-up of old PDFs;
  - the folder statistics.

  The upload folder's contents are a field `files: map<string, FileEntry>` from resolved
  path to size and modification time. The methods that save, delete and clean up
  reassign it. The clean-up and the statistics keep the source's loops over the files
  that `rglob('*.pdf')` yields.
- **Authors and journals** (`Autores`, autores.dfy; `Revistas`, revistas.dfy). They cover:
  - the full-name, citation-name and name-with-ISSN formats;
  - the dictionary forms;
  - the database lookups, taken as searches over the table as a sequence of rows in
    storage order.
- **Supporting modules.** `Comun` (comun.dfy) holds the option and outcome types, the
  dictionary value type, and first-match and filter over sequences. `Texto` (texto.dfy)
  holds the Python string behaviour the models rely on: `str.isspace`; `lower` and `upper`
  over the Latin-1 range; the ASCII-only `lower()` of the database;
  `startswith`/`endswith`/`in`, `find`/`rfind`, `PurePath.name`/`.suffix` (after dropping
  the trailing empty and "." components, as `PurePath` does), `str.join`,
  and `str(int)` and reading it back. `Json` (json.dfy) holds `json.dumps` of a list of
  strings and a reader for it.

The following are parameters of the model rather than computed:

- the clock (`now`, the timestamp text);
- the MD5 digest;
- `secure_filename`;
- `Path.resolve`;
- the order in which `rglob` yields files;
- the outcome of each filesystem call that can raise: a failed write, an unreadable
  file, a file that cannot be removed.

## Model

| member | source | states |
|---|---|---|
| `Articulos.Articulo.CalcularCompletitud` | app/models/articulo.py:148-190 | `completo` holds exactly when no label is missing; `campos_faltantes` is None when nothing is missing, otherwise the JSON list of the missing labels; the value returned is `completo` |
| `Articulos.ListarFaltantes` | app/models/articulo.py:156-185 | assembling the rule list, checking each rule in turn and then the authors yields exactly the labels of the failing rules in table order |
| `Articulos.RecorrerReglas` | app/models/articulo.py:177-181 | the loop over the assembled rules appends, in their order, the label of each rule whose field is missing |
| `Articulos.CamposRequeridos` | app/models/articulo.py:156-175 | the rule list is the four base rules, plus the five publication rules when published, plus the congress rule for a conference paper, each with the table's field and label |
| `Articulos.IndicesFaltantes` | app/models/articulo.py:178-185 | the failing rules are listed in increasing table order, and a rule is listed exactly when it is required and its field is missing |
| `Articulos.FaltantesPorAplicables` | app/models/articulo.py:163-185 | the failing rules are the applicable field rules whose field is missing, followed by the author rule when there is no author |
| `Articulos.FaltaSiYSoloSi` | app/models/articulo.py:178-181 | a label is reported exactly when its rule is required for the record and its field is missing: None, or a string that is empty or all whitespace; other values, integer 0 included, are present |
| `Articulos.FaltantesEnOrden` | app/models/articulo.py:156-185 | labels come out in rule order: the base labels, then the published-only ones, then the congress name, then "Autores" |
| `Articulos.FaltantesSinRepetir` | app/models/articulo.py:156-185 | no label appears twice |
| `Articulos.CamposDePublicado` | app/models/articulo.py:164-171 | Revista, Volumen, Número and both page labels are reported exactly when the state's lower-cased name equals "publicado" and the field is missing |
| `Articulos.PublicadoSinVolumenIncompleto` | app/models/articulo.py:164-171 | a published record without a volume always has "Volumen" among its missing labels |
| `Articulos.CongresoSoloEnConferencias` | app/models/articulo.py:173-175 | "Nombre del congreso" is reported exactly when `es_conference_paper` holds and the congress name is missing |
| `Articulos.AutoresAlFinal` | app/models/articulo.py:183-185 | "Autores" is reported exactly when the record has no author, and then it is the last label |
| `Articulos.CompletoConUnAutor` | tests/test_models.py:338-354 | a record that is neither published nor a conference paper, with title, type, state and year, misses only "Autores" without authors and nothing with one |
| `Articulos.FaltantesComoEscrito` | app/models/articulo.py:183-185 | as written, "Autores" is never among the labels, since the dynamic relationship is always true |
| `Articulos.ComoEscritoSoloDifiereEnAutores` | app/models/articulo.py:183-185 | the labels as written are the intended labels without the final "Autores" of a record without authors |
| `Articulos.SinAutoresCompletoComoEscrito` | app/models/articulo.py:183-185 | as written, a record with title, type, state and year but no author, neither published nor a conference paper, misses nothing, where the intended check reports only "Autores" |
| `Articulos.EtiquetaSinEscapes` | app/models/articulo.py:187 | no label holds a character `json.dumps` would escape |
| `Articulos.CamposFaltantesSeLeen` | app/models/articulo.py:187 | the stored text is None exactly when nothing is missing, and otherwise reads back as the ordered label list |
| `Articulos.RecalcularEsIdempotente` | app/models/articulo.py:187-190 | running the evaluator twice on an unchanged record returns the same flag and stores the same list |
| `Json.Lista` | app/models/articulo.py:187 | the text is bracketed: it starts with "[" and ends with "]" |
| `Json.ListaIdaYVuelta` | app/models/articulo.py:187 | reading back the JSON list written for labels without escapes gives the labels |
| `Json.LeerElementosIdaYVuelta` | app/models/articulo.py:187 | the same round trip for the comma-separated items between the brackets |
| `Articulos.NumPaginas` | app/models/articulo.py:82-87 | defined exactly when both pages are truthy, and then start + count − 1 = end |
| `Articulos.Articulo.constructor` | app/models/articulo.py:58-59 | a new record is not complete and has no stored list of missing fields |
| `Articulos.Paginas` | app/models/articulo.py:73-80 | None exactly when the start page is not truthy; otherwise starts with the start page's text, and is that text alone exactly when the end page is not truthy |
| `Articulos.PaginasSeLeen` | app/models/articulo.py:73-80 | for non-negative pages (0 included, which is not truthy), the page text is None exactly without a start page; otherwise it reads back as the start page, plus the end page exactly when `num_paginas` is defined |
| `Texto.NatATexto` | app/models/articulo.py:77-79 | `str` of a page number: non-empty decimal digits, with a leading '0' exactly for zero, so "5-03" is never written |
| `Articulos.LeerDosPaginas` | app/models/articulo.py:76-77 | the text "inicio-fin" reads back as both pages |
| `Articulos.LeerUnaPagina` | app/models/articulo.py:78-79 | the text of the start page alone reads back as that page |
| `Articulos.EsConferencePaper` | app/models/articulo.py:89-94 | false without a type; when it holds, the type's name is at least as long as "congreso" |
| `Articulos.ConferenciaPorPalabra` | app/models/articulo.py:89-94 | a type name holding "conference" or "congreso" in lower case, anywhere, makes a conference paper |
| `Articulos.EsPublicado` | app/models/articulo.py:164 | when it holds, the state's name has the length of "publicado" (its lower case is that word) |
| `Articulos.NombreRevistaExcel` | app/models/articulo.py:211 | the related journal's name; without a journal, the free-text title when it is non-empty, otherwise "" |
| `Articulos.IssnExcel` | app/models/articulo.py:218 | the article's own non-empty ISSN wins; otherwise the journal's ISSN, whatever it is (None included); "" without a journal |
| `Autores.NombreCompleto` | app/models/autor.py:36-39 | starts with the given name, then one space, then ends with the family names; its length is the sum plus one |
| `Autores.NombreCompletoSeSepara` | app/models/autor.py:36-39 | for a one-word given name, splitting the full name at its first space gives back both parts |
| `Texto.MayusculaDe` | app/models/autor.py:44 | one character, or two exactly for 'ß', which gives "SS"; 'ÿ' gives U+0178 and 'µ' U+039C; the character itself exactly when it is not a lower-case Latin-1 letter; other ASCII and accented lower-case letters move down by 0x20 to their capitals |
| `Texto.Minuscula` | app/services/file_handler.py:70 | a character is kept exactly when it is not a Latin-1 capital; a capital becomes a lower-case letter whose upper case is the capital again; the result is never a capital |
| `Texto.MayusculaIdempotente` | app/models/autor.py:44 | every character of an upper case is its own upper case |
| `Autores.Inicial` | app/models/autor.py:44 | empty exactly for an empty given name, otherwise the upper case of its first character |
| `Autores.NombreFormatoCita` | app/models/autor.py:41-45 | "Apellidos, N.": starts with the family names and ", ", ends with "."; it is "Apellidos, ." for an empty given name; otherwise the text between them is the upper case of the given name's first character |
| `Autores.CitaUsaInicialDelNombreCompleto` | app/models/autor.py:41-45 | the citation's initial is the upper case of the full name's first character |
| `Autores.ToDict` | app/models/autor.py:47-57 | has exactly the eight keys, and 'nombre_completo' equals the full name |
| `Autores.BuscarPorNombre` | app/models/autor.py:59-68 | None exactly when no author matches both names ignoring case; otherwise the first matching author |
| `Autores.BuscarPorNombreEncuentraAlMismo` | app/models/autor.py:59-68 | looking up a stored author's own names, in any letter case, finds an author with those names |
| `Revistas.NombreConIssn` | app/models/revista.py:47-52 | the name alone exactly when the ISSN is None or empty; otherwise the name followed by " (ISSN: issn)" |
| `Revistas.ToDict` | app/models/revista.py:54-66 | has exactly the ten keys; 'pais' is None exactly when the journal has no country |
| `Revistas.BuscarPorIssn` | app/models/revista.py:68-75 | None for a None or empty ISSN; otherwise found exactly when some journal carries it as print or electronic ISSN, and then the first such journal |
| `Revistas.BuscarPorNombre` | app/models/revista.py:77-82 | every result is a journal whose lower-cased name contains the lower-cased query, and every such journal is among the results |
| `Revistas.BuscarPorNombreConservaOrden` | app/models/revista.py:77-82 | results keep storage order: the matches of a table split in two are the matches of each part, concatenated |
| `Revistas.BuscarPorNombreVacioDevuelveTodas` | app/models/revista.py:77-82 | an empty query returns every journal |
| `FileHandling.EffectiveMaxSize` | app/services/file_handler.py:45 | the given size when it is truthy, otherwise 10·1024·1024; never 0 |
| `FileHandling.FileHandler.constructor` | app/services/file_handler.py:36-48 | keeps the folder, applies the size default and leaves the folder's files as they are |
| `FileHandling.FileHandler.ValidateFile` | app/services/file_handler.py:63-84 | each error exactly when every earlier check passes and its own fails: no file (None or no file name), blank name, lower-cased suffix other than ".pdf", type outside the accepted set, a declared length over the limit; passes exactly when all checks hold |
| `FileHandling.ExtensionCheckedFirst` | app/services/file_handler.py:70-72 | a named upload whose extension is not ".pdf" fails on the extension, whatever its type and length |
| `FileHandling.TypeCheckedBeforeSize` | app/services/file_handler.py:74-76 | a ".pdf" upload of a refused type fails on the type, whatever its length |
| `FileHandling.SizeLimitInclusive` | app/services/file_handler.py:78-84 | a ".pdf" upload of an accepted type passes exactly when its length is 0 (not declared) or at most the limit |
| `FileHandling.PlainTextRefused` | tests/test_file_handler.py:111-121 | a name "stem.pdf" ("test.pdf") sent as "text/plain" fails on its type, whatever its length |
| `FileHandling.PdfNameSuffix` | app/services/file_handler.py:70 | a name "stem.pdf" with a stem free of '/' has the lower-cased suffix ".pdf" |
| `FileHandling.PdfNameNotBlank` | app/services/file_handler.py:66-68 | a name ending in ".pdf" is never blank |
| `Texto.SinFinalTermina` | app/services/file_handler.py:70 | what `PurePath` keeps of a path ends neither with '/' nor with a "." component |
| `Texto.SufijoIgnoraElFinal` | app/services/file_handler.py:70 | a trailing "/" or "/." changes neither the name nor the suffix, so "informe.pdf/" has the suffix ".pdf" |
| `Texto.Sufijo` | app/services/file_handler.py:70 | empty, or a dot followed by at least one character, with no further dot and no '/'; it ends the path's name and is shorter than it (a dot-file such as ".pdf" has no suffix); it is non-empty whenever the name's last dot is neither its first nor its last character |
| `FileHandling.FileHandler.GenerateUniqueFilename` | app/services/file_handler.py:98-117 | the secured prefix and "_" when a prefix is given, then the timestamp, "_", the digest's first eight characters and the original's lower-cased suffix; so it ends with that suffix and starts with the first part and "_" |
| `FileHandling.JoinedParts` | app/services/file_handler.py:109-115 | two or three parts joined with "_" are the parts with "_" between them |
| `FileHandling.JoinedName` | app/services/file_handler.py:109-115 | those parts followed by the extension start with the first part and "_" and end with the extension |
| `FileHandling.GeneratedNameKeepsExtension` | tests/test_file_handler.py:150-154 | for an original "stem.EXT", the generated name ends with ".ext" lower-cased |
| `FileHandling.FileHandler.SaveFile` | app/services/file_handler.py:133-163 | an invalid upload leaves the files unchanged; a failed write fails and leaves at the new path only the partial file it wrote, if any; a stored size over the limit ends with no file at the new path, or, when the removal fails, with the oversized file still there and an error; otherwise the new path holds exactly the written entry and is returned |
| `FileHandling.SavedFileCanBeDeleted` | tests/test_file_handler.py:194-205 | the path a save returns can be deleted, when resolving leaves the folder and that path unchanged |
| `FileHandling.SavedFileIsListed` | app/services/file_handler.py:139-145 | a file saved under a generated ".pdf" name is one of the folder's PDFs |
| `FileHandling.StoredPdfIsListed` | app/services/file_handler.py:142-145 | a file stored in the folder under a name ending in ".pdf" is one of its PDFs |
| `FileHandling.DeleteDecision` | app/services/file_handler.py:177-197 | invalid path exactly when the path or the folder does not resolve; outside exactly when the resolved path is not inside the resolved folder; success exactly when it is inside and a file is stored there |
| `FileHandling.FileHandler.DeleteFile` | app/services/file_handler.py:177-197 | returns `DeleteDecision`; on success exactly the resolved file is removed, otherwise nothing changes |
| `FileHandling.DeleteDecisionAsWritten` | app/services/file_handler.py:181-194 | as written, success exactly when both paths resolve, the resolved path's text starts with the resolved folder's text and a file is stored there |
| `FileHandling.CorrectedDeleteIsStricter` | app/services/file_handler.py:185-186 | whatever the corrected decision lets through, the decision as written lets through too; where they differ, the corrected one refuses as outside the folder |
| `FileHandling.WithinImpliesAsWritten` | app/services/file_handler.py:185-186 | every path the corrected test accepts also passes the prefix test |
| `FileHandling.WithinAsWrittenAcceptsSibling` | app/services/file_handler.py:185-186 | "/srv/uploads_old/a.pdf" passes the prefix test for "/srv/uploads" but is not inside it |
| `FileHandling.DeleteAsWrittenLeavesFolder` | app/services/file_handler.py:181-194 | as written, deleting that sibling file succeeds; the corrected decision refuses it as outside the folder |
| `FileHandling.FileHandler.CleanupOldFiles` | app/services/file_handler.py:209-231 | the new files are the old ones minus the listed PDFs that expire; the count is the number of files that left the map; the errors name, in visiting order, the files whose inspection or removal failed |
| `FileHandling.Sweep` | app/services/file_handler.py:215-226 | over a listing without repetitions, the loop leaves the files minus those removed, counts exactly the entries that left the map, and collects the names of the failed files |
| `FileHandling.RemovedDistinct` | app/services/file_handler.py:215-223 | a listing without repetitions removes each file at most once |
| `FileHandling.RemovedCount` | app/services/file_handler.py:221-223 | over a listing without repetitions, the number of removals equals the number of entries that leave the map |
| `FileHandling.Cutoff` | app/services/file_handler.py:211 | for a non-negative age the cutoff is not after now, and strictly before it for a positive age |
| `FileHandling.RemovedMembers` | app/services/file_handler.py:218-223 | a listed file is removed exactly when it can be inspected, its mtime is strictly before the cutoff, and it can be deleted |
| `FileHandling.FailuresMembers` | app/services/file_handler.py:216-226 | a listed file is reported exactly when it cannot be inspected, or it is old and cannot be deleted |
| `FileHandling.SweepWithoutFailures` | app/services/file_handler.py:215-223 | without failures, the removed files are exactly the listed ones strictly older than the cutoff, and no error is reported |
| `FileHandling.CleanupRemovesExactlyOld` | tests/test_file_handler.py:279-293 | without failures, the clean-up removes exactly the folder's PDFs modified strictly before the cutoff |
| `FileHandling.CleanupLeavesRecent` | tests/test_file_handler.py:268-277 | without failures, every PDF left is at least as recent as the cutoff, and every file that is not one of the folder's PDFs is untouched |
| `FileHandling.CleanupIdempotent` | app/services/file_handler.py:209-231 | a second clean-up with the same cutoff removes nothing |
| `FileHandling.SweepTwice` | app/services/file_handler.py:215-223 | a sweep over files a first sweep left and had listed removes nothing |
| `FileHandling.NothingExpires` | app/services/file_handler.py:221-223 | a listing in which no file expires loses nothing |
| `FileHandling.ListingAfterRemoval` | app/services/file_handler.py:215 | removing files only takes them out of the folder's PDF listing |
| `FileHandling.FileHandler.GetUploadStats` | app/services/file_handler.py:283-311 | the count is the number of the folder's PDFs, the size is their total, and the oldest/newest dates are the least/greatest mtime (None without files); the folder is reported as given |
| `FileHandling.TotalSize` | app/services/file_handler.py:284-291 | 0 for no files, and at least the size of each listed file |
| `FileHandling.Tally` | app/services/file_handler.py:289-299 | the loop counts the listing, sums the sizes and keeps the least and greatest mtime |
| `FileHandling.OldestNewestUnique` | app/services/file_handler.py:295-299 | the oldest and newest dates are determined by the files, and the oldest is never after the newest |
| `FileHandling.DistinctCardinality` | app/services/file_handler.py:289-290 | a listing without repetitions has as many entries as members, so the count equals the number of PDFs |

## Left out

- The PDF metadata pipeline: the structural and heuristic extractors, confidence
  scoring and the batch processor. Their code (`app/services/pdf_service.py`,
  `app/services/pdf_batch_processor.py`) is not part of this model.
- The validator methods the tests call on `Articulo` and `Autor` (`validar_doi`,
  `validar_issn` and others). app/models/articulo.py and app/models/autor.py do not
  define them.
- The CRUD controller, forms, views, the application factory, the seeding scripts, the
  ORM schema, `Articulo.to_dict` and `Articulo.buscar`. They are database and framework
  plumbing with no decision logic of their own.
- Real I/O is modelled as parameters: `mkdir`, `file.save`, `stat`, `unlink`, `rglob`,
  `resolve`. The same goes for `datetime.now`/`time.time` (the `now` and `timestamp`
  arguments), the MD5 digest (`digest`) and `secure_filename` (`secure`).
- FileHandling.FileHandler.constructor: `mkdir` of the upload folder is not modelled. The folder's
  files are the map the constructor receives.
- FileHandling.FileHandler.ValidateFile, `SaveFile`, `DeleteFile` and `CleanupOldFiles` return error values,
  not the Spanish messages. The float megabyte figures (`max_mb`, `size_mb`) are not
  modelled either.
- FileHandling.FileHandler.GenerateUniqueFilename: uniqueness of the generated names depends on the
  clock and the hash. Both are parameters here, so uniqueness is not stated. The suffix
  is lowered with `Texto.Minusculas`, so a capital outside Latin-1 in the suffix is
  kept where `str.lower` would lower it. On the `save_file` path this is exact: the
  validation has already required the lowered suffix to be ".pdf".
- FileHandling.FileHandler.SaveFile:
  - the `filepath.exists()` check after writing is not modelled, because a successful
    write always leaves the file in the map;
  - the path is stored as `folder / name`, not resolved: the folder is taken as already
    resolved (an absolute path without links), so this is the path `delete_file`
    resolves it to (`FileHandling.SavedFileCanBeDeleted`);
  - a failure of `stat` after the write is not modelled;
  - the returned error for a failed write does not carry the exception text.
- FileHandling.FileHandler.DeleteFile: symbolic links are not modelled. Paths are resolved by the
  `resolve` parameter, and the map is keyed by resolved paths. A failure of `unlink` on
  an existing file ("Error al eliminar archivo") is also not modelled.
- FileHandling.FileHandler.CleanupOldFiles:
  - each error entry is the file's name (`pdf_file.name`) without the exception text;
  - a failure of `rglob` itself ("Error al buscar archivos") is not modelled;
  - the days-to-microseconds cutoff ignores `timedelta` overflow and float timestamp
    rounding.
- FileHandling.FileHandler.GetUploadStats: a `stat` failure in the middle of the listing would end
  the loop with partial figures (`except Exception: pass`). This is not modelled; every
  listed file is readable. The float `total_size_mb` is not modelled.
- `get_file_info` and `file_exists` are thin wrappers around `stat` and `exists`. They
  are not modelled.
- Autores.Inicial: the upper case is Python's for the Latin-1 range ('ß' gives "SS",
  'ÿ' gives 'Ÿ'); letters of other scripts (Latin Extended, Greek, Cyrillic) are kept
  as they are, where Python would upper-case them, and so are the other characters
  whose upper case has several characters.
- Texto.Minusculas: it lowers the capitals of the Latin-1 range ('A'–'Z' and 'À'–'Þ'
  except '×'). Capitals of other scripts (Latin Extended, Greek, Cyrillic, the Kelvin
  sign) are kept, where Python's `str.lower` would lower them. For the fixed targets
  compared here ("publicado", "conference", "congreso", ".pdf") this gives the same
  answers as Python.
- Texto.MinusculasAscii: the database `lower()` in the author and journal lookups is
  taken as ASCII folding, as SQLite's built-in `lower()` and `LIKE` do.
- Revistas.BuscarPorNombre: treats the query literally. SQL `LIKE` would also give `%`
  and `_` in the query their wildcard meaning.
- Json.Lista: writes strings without escaping. The evaluator only serialises its fixed
  labels, and `Articulos.EtiquetaSinEscapes` proves that none of them needs escaping.
- Articulos.Datos: the `articulo_autores` relationship is an author count. The related
  type, state and journal rows are taken as optional values. The author rule is modelled
  as intended (a count of 0 reports "Autores"); the check as written, which tests the
  truth of the dynamic relationship's query object, is `Articulos.FaltantesComoEscrito`
  (see Findings).

## Findings

| source | as written | input that shows it | evidently intended | confidence | as-written member | corrected member |
|---|---|---|---|---|---|---|
| app/services/file_handler.py:185-186 | `delete_file` accepts any resolved path whose text starts with the resolved upload folder's text, with no separator required after it | upload folder "/srv/uploads", path "/srv/uploads_old/a.pdf" (an existing file): the prefix test passes and the file of the sibling folder is deleted | only files inside the upload folder can be deleted: the folder's path must be followed by a separator | not executed | `FileHandling.DeleteAsWrittenLeavesFolder` | `FileHandling.FileHandler.DeleteFile` |
| app/models/articulo.py:184 | the author check tests `not self.articulo_autores`; the relationship is declared with `lazy='dynamic'` (app/models/relations.py:29-31), so it is a query object, which is always true, and "Autores" is never reported | a record with a title, type "Artículo científico", state "En preparación", a year and no author: `calcular_completitud` returns True and stores no missing field | a record without authors is incomplete and reports "Autores" (the comment at app/models/articulo.py:183 and tests/test_models.py:338-340) | not executed | `Articulos.SinAutoresCompletoComoEscrito` | `Articulos.AutoresAlFinal` |
