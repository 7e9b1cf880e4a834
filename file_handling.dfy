/** The upload-folder manager (`FileHandler`): validation of an uploaded PDF, the unique
    stored name, saving, deleting, cleaning up old files and folder statistics.

    The file system is a map from resolved absolute path to the size and modification time
    of the file stored there. Path resolution, `secure_filename`, the clock, the MD5 digest
    and the outcome of writes are parameters. */
module FileHandling {

  import opened Comun
  import opened Texto

  /** `MAX_FILE_SIZE`: 10 MB. */
  const MaxFileSize: int := 10 * 1024 * 1024

  const AllowedMimeTypes: set<string> := {
    "application/pdf", "application/x-pdf", "application/acrobat",
    "applications/vnd.pdf", "text/pdf", "text/x-pdf"
  }

  const AllowedExtensions: set<string> := {".pdf"}

  /** Modification times are counted in microseconds. */
  const MicrosPerDay: int := 24 * 60 * 60 * 1000000

  /** An uploaded file as the request hands it over: its client-side name, the declared
      content type, and the declared length (0 when the request did not give one). */
  datatype Upload = Upload(filename: Option<string>, contentType: Option<string>, contentLength: int)

  datatype FileEntry = FileEntry(size: nat, mtime: int)

  datatype ValidationError =
    | NoFile
    | NoName
    | ExtensionNotAllowed
    | InvalidType(contentType: Option<string>)
    | TooLarge

  datatype SaveError =
    | Invalid(reason: ValidationError)
    | WriteFailed
    | StoredTooLarge(size: nat)
    | RemoveFailed(size: nat)

  /** What `file.save` does: it writes the whole file, or raises, possibly after leaving
      a partial file of some size behind. */
  datatype WriteOutcome = Written(size: nat) | WriteError(partial: Option<nat>)

  /** The all-or-nothing result of `save_file`: a path, or an error and no path. */
  datatype SaveResult = Saved(path: string) | NotSaved(error: SaveError)

  datatype DeleteError = InvalidPath | OutsideFolder | NotFound

  /** The statistics dictionary, without the float megabyte figure. */
  datatype UploadStats = UploadStats(
    totalFiles: nat,
    totalSizeBytes: nat,
    oldestFileDate: Option<int>,
    newestFileDate: Option<int>,
    uploadFolder: string)

  /** `max_file_size or MAX_FILE_SIZE`: the given limit unless it is None or 0. */
  function EffectiveMaxSize(maxFileSize: Option<int>): (r: int)
    ensures r != 0
    ensures EnteroVerdadero(maxFileSize) ==> r == maxFileSize.value
    ensures !EnteroVerdadero(maxFileSize) ==> r == MaxFileSize
  {
    if EnteroVerdadero(maxFileSize) then maxFileSize.value else MaxFileSize
  }

  // ---------------------------------------------------------------------------
  // Paths

  /** `folder / name` for a plain file name. */
  function Join(folder: string, name: string): (r: string)
    ensures r == AsDirectory(folder) + name
  {
    if TerminaCon(folder, "/") then folder + name else folder + "/" + name
  }

  /** The folder's path with exactly one trailing separator. */
  function AsDirectory(folder: string): (r: string)
    ensures EmpiezaCon(r, folder) && TerminaCon(r, "/")
  {
    if TerminaCon(folder, "/") then folder else folder + "/"
  }

  /** The path `p` lies inside `folder`: it starts with the folder followed by a separator. */
  predicate Within(p: string, folder: string)
  {
    EmpiezaCon(p, AsDirectory(folder))
  }

  /** The containment test as `delete_file` writes it: a bare string prefix. */
  predicate WithinAsWritten(p: string, folder: string)
  {
    EmpiezaCon(p, folder)
  }

  /** The prefix test lets through a file of a sibling folder whose name merely starts
      with the upload folder's name. */
  lemma WithinAsWrittenAcceptsSibling()
    ensures WithinAsWritten("/srv/uploads_old/a.pdf", "/srv/uploads")
    ensures !Within("/srv/uploads_old/a.pdf", "/srv/uploads")
  {
  }

  /** Every path inside the folder passes the prefix test too: the correction only rejects. */
  lemma WithinImpliesAsWritten(p: string, folder: string)
    requires Within(p, folder)
    ensures WithinAsWritten(p, folder)
  {
  }

  /** `rglob('*.pdf')` matches a file whose name ends in ".pdf" (case-sensitive). */
  predicate IsPdf(p: string)
  {
    TerminaCon(NombreBase(p), ".pdf")
  }

  /** The PDF files under the folder. */
  function PdfsIn(files: map<string, FileEntry>, folder: string): (r: set<string>)
    ensures r <= files.Keys
  {
    set p | p in files && Within(p, folder) && IsPdf(p)
  }

  // ---------------------------------------------------------------------------
  // Deleting

  /** What `delete_file` decides for a path: the path and the folder must both resolve,
      the resolved path must lie inside the resolved folder, and a file must exist there. */
  function DeleteDecision(files: map<string, FileEntry>, folder: string, path: string,
                          resolve: string -> Option<string>): (r: Outcome<DeleteError>)
    ensures r == Fail(InvalidPath) <==> resolve(path).None? || resolve(folder).None?
    ensures r == Fail(OutsideFolder) <==>
              resolve(path).Some? && resolve(folder).Some? && !Within(resolve(path).value, resolve(folder).value)
    ensures r == Pass <==>
              && resolve(path).Some? && resolve(folder).Some?
              && Within(resolve(path).value, resolve(folder).value)
              && resolve(path).value in files
  {
    var target := resolve(path);
    var base := resolve(folder);
    if target.None? || base.None? then Fail(InvalidPath)
    else if !Within(target.value, base.value) then Fail(OutsideFolder)
    else if target.value !in files then Fail(NotFound)
    else Pass
  }

  /** The same decision with the prefix test as written. */
  function DeleteDecisionAsWritten(files: map<string, FileEntry>, folder: string, path: string,
                                   resolve: string -> Option<string>): (r: Outcome<DeleteError>)
    ensures r == Pass <==>
              && resolve(path).Some? && resolve(folder).Some?
              && EmpiezaCon(resolve(path).value, resolve(folder).value)
              && resolve(path).value in files
  {
    var target := resolve(path);
    var base := resolve(folder);
    if target.None? || base.None? then Fail(InvalidPath)
    else if !WithinAsWritten(target.value, base.value) then Fail(OutsideFolder)
    else if target.value !in files then Fail(NotFound)
    else Pass
  }

  /** As written, `delete_file` removes a file of the sibling folder "/srv/uploads_old"
      when the upload folder is "/srv/uploads"; the corrected test refuses it. */
  lemma DeleteAsWrittenLeavesFolder()
    ensures var files := map["/srv/uploads_old/a.pdf" := FileEntry(1, 0)];
            && DeleteDecisionAsWritten(files, "/srv/uploads", "/srv/uploads_old/a.pdf", p => Some(p)) == Pass
            && DeleteDecision(files, "/srv/uploads", "/srv/uploads_old/a.pdf", p => Some(p)) == Fail(OutsideFolder)
  {
    WithinAsWrittenAcceptsSibling();
  }

  /** The corrected decision only takes deletions away: whatever it allows, the test as
      written allows too, and the two differ only by refusing as outside the folder. */
  lemma CorrectedDeleteIsStricter(files: map<string, FileEntry>, folder: string, path: string,
                                  resolve: string -> Option<string>)
    ensures DeleteDecision(files, folder, path, resolve) == Pass ==>
              DeleteDecisionAsWritten(files, folder, path, resolve) == Pass
    ensures DeleteDecision(files, folder, path, resolve) != DeleteDecisionAsWritten(files, folder, path, resolve) ==>
              DeleteDecision(files, folder, path, resolve) == Fail(OutsideFolder)
  {
    if resolve(path).Some? && resolve(folder).Some? && Within(resolve(path).value, resolve(folder).value) {
      WithinImpliesAsWritten(resolve(path).value, resolve(folder).value);
    }
  }

  // ---------------------------------------------------------------------------
  // Listings

  /** Every listed path is a stored file. */
  predicate Listed(files: map<string, FileEntry>, ps: seq<string>)
  {
    forall i :: 0 <= i < |ps| ==> ps[i] in files
  }

  predicate Distinct(ps: seq<string>)
  {
    forall i, j :: 0 <= i < j < |ps| ==> ps[i] != ps[j]
  }

  function Elements(ps: seq<string>): set<string>
  {
    set p | p in ps
  }

  /** `ps` is the order in which `rglob('*.pdf')` yields the set `s`: each member once. */
  predicate Enumerates(ps: seq<string>, s: set<string>)
  {
    Distinct(ps) && Elements(ps) == s
  }

  /** A listing without repetitions has as many entries as it has members. */
  lemma {:induction false} DistinctCardinality(ps: seq<string>)
    requires Distinct(ps)
    ensures |Elements(ps)| == |ps|
  {
    if ps != [] {
      var init := ps[..|ps| - 1];
      DistinctCardinality(init);
      assert Elements(ps) == Elements(init) + {ps[|ps| - 1]};
      assert ps[|ps| - 1] !in Elements(init);
    }
  }

  // ---------------------------------------------------------------------------
  // Cleaning up

  /** `datetime.now() - timedelta(days=daysOld)`, in microseconds. */
  function Cutoff(now: int, daysOld: int): (r: int)
    ensures daysOld >= 0 ==> r <= now
    ensures daysOld > 0 ==> r < now
  {
    now - daysOld * MicrosPerDay
  }

  /** The clean-up removes a listed file: it can be inspected, it was modified strictly
      before the cutoff, and it can be deleted. */
  predicate Expires(files: map<string, FileEntry>, p: string, cutoff: int,
                    unreadable: set<string>, undeletable: set<string>)
    requires p in files
  {
    p !in unreadable && files[p].mtime < cutoff && p !in undeletable
  }

  /** Processing a listed file raises: `stat` fails, or the file is old and `unlink` fails. */
  predicate Fails(files: map<string, FileEntry>, p: string, cutoff: int,
                  unreadable: set<string>, undeletable: set<string>)
    requires p in files
  {
    p in unreadable || (files[p].mtime < cutoff && p in undeletable)
  }

  /** The listed files the clean-up removes, in listing order. */
  function Removed(files: map<string, FileEntry>, ps: seq<string>, cutoff: int,
                   unreadable: set<string>, undeletable: set<string>): (r: seq<string>)
    requires Listed(files, ps)
    ensures |r| <= |ps|
  {
    if ps == [] then []
    else
      var p := ps[|ps| - 1];
      Removed(files, ps[..|ps| - 1], cutoff, unreadable, undeletable)
      + (if Expires(files, p, cutoff, unreadable, undeletable) then [p] else [])
  }

  /** A listing without repetitions removes each file at most once. */
  lemma {:induction false} RemovedDistinct(files: map<string, FileEntry>, ps: seq<string>, cutoff: int,
                                           unreadable: set<string>, undeletable: set<string>)
    requires Listed(files, ps) && Distinct(ps)
    ensures Distinct(Removed(files, ps, cutoff, unreadable, undeletable))
  {
    if ps != [] {
      var init := ps[..|ps| - 1];
      RemovedDistinct(files, init, cutoff, unreadable, undeletable);
      RemovedMembers(files, init, cutoff, unreadable, undeletable);
      assert ps[|ps| - 1] !in init;
    }
  }

  /** Over a listing without repetitions, the number of files removed is the number of
      entries that leave the map. */
  lemma RemovedCount(files: map<string, FileEntry>, ps: seq<string>, cutoff: int,
                     unreadable: set<string>, undeletable: set<string>)
    requires Listed(files, ps) && Distinct(ps)
    ensures var left := files - Elements(Removed(files, ps, cutoff, unreadable, undeletable));
            |Removed(files, ps, cutoff, unreadable, undeletable)| == |files.Keys - left.Keys|
  {
    var gone := Removed(files, ps, cutoff, unreadable, undeletable);
    RemovedDistinct(files, ps, cutoff, unreadable, undeletable);
    RemovedMembers(files, ps, cutoff, unreadable, undeletable);
    DistinctCardinality(gone);
    assert files.Keys - (files - Elements(gone)).Keys == Elements(gone);
  }

  /** The listed files whose processing raises, in listing order. */
  function Failures(files: map<string, FileEntry>, ps: seq<string>, cutoff: int,
                    unreadable: set<string>, undeletable: set<string>): (r: seq<string>)
    requires Listed(files, ps)
    ensures |r| <= |ps|
  {
    if ps == [] then []
    else
      var p := ps[|ps| - 1];
      Failures(files, ps[..|ps| - 1], cutoff, unreadable, undeletable)
      + (if Fails(files, p, cutoff, unreadable, undeletable) then [p] else [])
  }

  /** The clean-up removes exactly the listed files that expire. */
  lemma {:induction false} RemovedMembers(files: map<string, FileEntry>, ps: seq<string>, cutoff: int,
                                          unreadable: set<string>, undeletable: set<string>)
    requires Listed(files, ps)
    ensures forall p :: p in Removed(files, ps, cutoff, unreadable, undeletable) <==>
                          p in ps && Expires(files, p, cutoff, unreadable, undeletable)
  {
    if ps != [] {
      var init := ps[..|ps| - 1];
      RemovedMembers(files, init, cutoff, unreadable, undeletable);
      assert ps == init + [ps[|ps| - 1]];
    }
  }

  /** The clean-up reports exactly the listed files whose processing fails. */
  lemma {:induction false} FailuresMembers(files: map<string, FileEntry>, ps: seq<string>, cutoff: int,
                                           unreadable: set<string>, undeletable: set<string>)
    requires Listed(files, ps)
    ensures forall p :: p in Failures(files, ps, cutoff, unreadable, undeletable) <==>
                          p in ps && Fails(files, p, cutoff, unreadable, undeletable)
  {
    if ps != [] {
      var init := ps[..|ps| - 1];
      FailuresMembers(files, init, cutoff, unreadable, undeletable);
      assert ps == init + [ps[|ps| - 1]];
    }
  }

  /** The file names (`pdf_file.name`) of a listing, in order. */
  function Names(ps: seq<string>): (r: seq<string>)
    ensures |r| == |ps|
    ensures forall i :: 0 <= i < |ps| ==> r[i] == NombreBase(ps[i])
  {
    seq(|ps|, i requires 0 <= i < |ps| => NombreBase(ps[i]))
  }

  lemma NamesAppend(ps: seq<string>, p: string)
    ensures Names(ps + [p]) == Names(ps) + [NombreBase(p)]
  {
    var a, b := Names(ps + [p]), Names(ps) + [NombreBase(p)];
    assert |a| == |b|;
    forall i | 0 <= i < |a| ensures a[i] == b[i] {
      if i < |ps| {
        assert (ps + [p])[i] == ps[i];
      }
    }
  }

  /** Removing files only shrinks the folder's listing. */
  lemma ListingAfterRemoval(files: map<string, FileEntry>, folder: string, gone: set<string>)
    ensures PdfsIn(files - gone, folder) == PdfsIn(files, folder) - gone
  {
  }

  /** Without failures a sweep removes exactly the listed files modified strictly before
      the cutoff, and reports nothing. */
  lemma SweepWithoutFailures(files: map<string, FileEntry>, listing: seq<string>, cutoff: int)
    requires Listed(files, listing)
    ensures Elements(Removed(files, listing, cutoff, {}, {}))
         == set p | p in Elements(listing) && files[p].mtime < cutoff
    ensures Failures(files, listing, cutoff, {}, {}) == []
  {
    RemovedMembers(files, listing, cutoff, {}, {});
    FailuresMembers(files, listing, cutoff, {}, {});
  }

  /** A second sweep, over files that the first sweep left and that it had listed, removes
      nothing. */
  lemma SweepTwice(files: map<string, FileEntry>, listing: seq<string>, relisting: seq<string>,
                   cutoff: int, unreadable: set<string>, undeletable: set<string>)
    requires Listed(files, listing)
    requires var left := files - Elements(Removed(files, listing, cutoff, unreadable, undeletable));
             Listed(left, relisting) && Elements(relisting) <= Elements(listing)
    ensures var left := files - Elements(Removed(files, listing, cutoff, unreadable, undeletable));
            Removed(left, relisting, cutoff, unreadable, undeletable) == []
  {
    var left := files - Elements(Removed(files, listing, cutoff, unreadable, undeletable));
    RemovedMembers(files, listing, cutoff, unreadable, undeletable);
    forall i | 0 <= i < |relisting|
      ensures !Expires(left, relisting[i], cutoff, unreadable, undeletable)
    {
      assert relisting[i] in Elements(relisting);
    }
    NothingExpires(left, relisting, cutoff, unreadable, undeletable);
  }

  /** A listing in which no file expires loses nothing. */
  lemma {:induction false} NothingExpires(files: map<string, FileEntry>, ps: seq<string>, cutoff: int,
                                          unreadable: set<string>, undeletable: set<string>)
    requires Listed(files, ps)
    requires forall i :: 0 <= i < |ps| ==> !Expires(files, ps[i], cutoff, unreadable, undeletable)
    ensures Removed(files, ps, cutoff, unreadable, undeletable) == []
  {
    if ps != [] {
      NothingExpires(files, ps[..|ps| - 1], cutoff, unreadable, undeletable);
    }
  }

  /** Without failures the clean-up removes exactly the folder's PDFs modified strictly
      before the cutoff. */
  lemma CleanupRemovesExactlyOld(files: map<string, FileEntry>, folder: string, cutoff: int,
                                 listing: seq<string>)
    requires Enumerates(listing, PdfsIn(files, folder))
    ensures Listed(files, listing)
    ensures Elements(Removed(files, listing, cutoff, {}, {}))
         == set p | p in PdfsIn(files, folder) && files[p].mtime < cutoff
    ensures Failures(files, listing, cutoff, {}, {}) == []
  {
    EnumeratedAreListed(files, folder, listing);
    SweepWithoutFailures(files, listing, cutoff);
  }

  /** Running the clean-up again with the same cutoff removes nothing more. */
  lemma CleanupIdempotent(files: map<string, FileEntry>, folder: string, cutoff: int,
                          unreadable: set<string>, undeletable: set<string>,
                          listing: seq<string>, relisting: seq<string>)
    requires Enumerates(listing, PdfsIn(files, folder))
    requires Listed(files, listing)
    requires Enumerates(relisting, PdfsIn(files - Elements(Removed(files, listing, cutoff, unreadable, undeletable)), folder))
    ensures var left := files - Elements(Removed(files, listing, cutoff, unreadable, undeletable));
            Listed(left, relisting) && Removed(left, relisting, cutoff, unreadable, undeletable) == []
  {
    var gone := Elements(Removed(files, listing, cutoff, unreadable, undeletable));
    ListingAfterRemoval(files, folder, gone);
    EnumeratedAreListed(files - gone, folder, relisting);
    SweepTwice(files, listing, relisting, cutoff, unreadable, undeletable);
  }

  /** Without failures, every PDF left in the folder after a clean-up is at least as recent
      as the cutoff, and every other stored file is untouched. */
  lemma CleanupLeavesRecent(files: map<string, FileEntry>, folder: string, cutoff: int,
                            listing: seq<string>)
    requires Enumerates(listing, PdfsIn(files, folder))
    requires Listed(files, listing)
    ensures var left := files - Elements(Removed(files, listing, cutoff, {}, {}));
            && (forall p :: p in PdfsIn(left, folder) ==> left[p].mtime >= cutoff)
            && (forall p :: p in files && p !in PdfsIn(files, folder) ==> p in left && left[p] == files[p])
  {
    var gone := Elements(Removed(files, listing, cutoff, {}, {}));
    SweepWithoutFailures(files, listing, cutoff);
    ListingAfterRemoval(files, folder, gone);
  }

  // ---------------------------------------------------------------------------
  // Statistics

  /** The total size of the listed files. */
  function TotalSize(files: map<string, FileEntry>, ps: seq<string>): (r: nat)
    requires Listed(files, ps)
    ensures ps == [] ==> r == 0
    ensures forall i :: 0 <= i < |ps| ==> files[ps[i]].size <= r
  {
    if ps == [] then 0 else TotalSize(files, ps[..|ps| - 1]) + files[ps[|ps| - 1]].size
  }

  /** `m` is the earliest modification time of the listed files, None when there are none. */
  predicate IsOldest(m: Option<int>, files: map<string, FileEntry>, ps: seq<string>)
    requires Listed(files, ps)
  {
    && (m.None? <==> ps == [])
    && (m.Some? ==>
          && (exists i :: 0 <= i < |ps| && files[ps[i]].mtime == m.value)
          && forall i :: 0 <= i < |ps| ==> m.value <= files[ps[i]].mtime)
  }

  /** `m` is the latest modification time of the listed files, None when there are none. */
  predicate IsNewest(m: Option<int>, files: map<string, FileEntry>, ps: seq<string>)
    requires Listed(files, ps)
  {
    && (m.None? <==> ps == [])
    && (m.Some? ==>
          && (exists i :: 0 <= i < |ps| && files[ps[i]].mtime == m.value)
          && forall i :: 0 <= i < |ps| ==> files[ps[i]].mtime <= m.value)
  }

  /** The oldest and newest dates are determined by the files, and the oldest is never
      later than the newest. */
  lemma OldestNewestUnique(a: Option<int>, b: Option<int>, c: Option<int>, d: Option<int>,
                           files: map<string, FileEntry>, ps: seq<string>)
    requires Listed(files, ps)
    requires IsOldest(a, files, ps) && IsOldest(b, files, ps)
    requires IsNewest(c, files, ps) && IsNewest(d, files, ps)
    ensures a == b && c == d
    ensures a.Some? ==> a.value <= c.value
  {
  }

  /** A listing of the folder's PDFs lists stored files. */
  lemma EnumeratedAreListed(files: map<string, FileEntry>, folder: string, listing: seq<string>)
    requires Enumerates(listing, PdfsIn(files, folder))
    ensures Listed(files, listing)
  {
  }

  /** One more listed file: the removed and failing lists grow by that file when it
      qualifies, and so do their sets of paths and their names. */
  lemma SweepStep(files: map<string, FileEntry>, ps: seq<string>, p: string, cutoff: int,
                  unreadable: set<string>, undeletable: set<string>)
    requires Listed(files, ps) && p in files
    ensures Listed(files, ps + [p])
    ensures var gone := Removed(files, ps, cutoff, unreadable, undeletable);
            Removed(files, ps + [p], cutoff, unreadable, undeletable)
            == gone + (if Expires(files, p, cutoff, unreadable, undeletable) then [p] else [])
            && files - Elements(gone + [p]) == (files - Elements(gone)) - {p}
    ensures var failed := Failures(files, ps, cutoff, unreadable, undeletable);
            Failures(files, ps + [p], cutoff, unreadable, undeletable)
            == failed + (if Fails(files, p, cutoff, unreadable, undeletable) then [p] else [])
            && Names(failed + [p]) == Names(failed) + [NombreBase(p)]
  {
    assert (ps + [p])[..|ps|] == ps;
    var gone := Removed(files, ps, cutoff, unreadable, undeletable);
    assert Elements(gone + [p]) == Elements(gone) + {p};
    NamesAppend(Failures(files, ps, cutoff, unreadable, undeletable), p);
  }

  /** The loop of `cleanup_old_files` over a listing: removes the expired files from
      `files`, counts them, and names each file that fails. */
  method Sweep(files: map<string, FileEntry>, listing: seq<string>, cutoff: int,
               unreadable: set<string>, undeletable: set<string>)
    returns (left: map<string, FileEntry>, deleted: nat, errors: seq<string>)
    requires Listed(files, listing) && Distinct(listing)
    ensures left == files - Elements(Removed(files, listing, cutoff, unreadable, undeletable))
    ensures deleted == |Removed(files, listing, cutoff, unreadable, undeletable)|
    ensures deleted == |files.Keys - left.Keys|
    ensures errors == Names(Failures(files, listing, cutoff, unreadable, undeletable))
  {
    left := files;
    deleted := 0;
    errors := [];
    var i := 0;
    while i < |listing|
      invariant i <= |listing|
      invariant left == files - Elements(Removed(files, listing[..i], cutoff, unreadable, undeletable))
      invariant deleted == |Removed(files, listing[..i], cutoff, unreadable, undeletable)|
      invariant errors == Names(Failures(files, listing[..i], cutoff, unreadable, undeletable))
    {
      var p := listing[i];
      assert listing[..i + 1] == listing[..i] + [p];
      SweepStep(files, listing[..i], p, cutoff, unreadable, undeletable);
      if p in unreadable {
        errors := errors + [NombreBase(p)];
      } else if files[p].mtime < cutoff {
        if p in undeletable {
          errors := errors + [NombreBase(p)];
        } else {
          left := left - {p};
          deleted := deleted + 1;
        }
      }
      i := i + 1;
    }
    assert listing[..i] == listing;
    RemovedCount(files, listing, cutoff, unreadable, undeletable);
  }

  /** The loop of `get_upload_stats` over a listing: counts the files, adds up their sizes
      and keeps the earliest and latest modification times. */
  method Tally(files: map<string, FileEntry>, listing: seq<string>)
    returns (count: nat, total: nat, oldest: Option<int>, newest: Option<int>)
    requires Listed(files, listing)
    ensures count == |listing|
    ensures total == TotalSize(files, listing)
    ensures IsOldest(oldest, files, listing) && IsNewest(newest, files, listing)
  {
    count := 0;
    total := 0;
    oldest := None;
    newest := None;
    var i := 0;
    while i < |listing|
      invariant i <= |listing|
      invariant count == i
      invariant total == TotalSize(files, listing[..i])
      invariant IsOldest(oldest, files, listing[..i]) && IsNewest(newest, files, listing[..i])
    {
      var p := listing[i];
      assert listing[..i + 1][..i] == listing[..i];
      count := count + 1;
      total := total + files[p].size;
      var m := files[p].mtime;
      if oldest.None? || m < oldest.value {
        oldest := Some(m);
      }
      if newest.None? || m > newest.value {
        newest := Some(m);
      }
      i := i + 1;
    }
    assert listing[..i] == listing;
  }

  /** A path ending in ".pdf" is matched by `rglob('*.pdf')`: its last component ends
      in ".pdf" too. */
  lemma PdfSuffixIsPdf(p: string)
    requires TerminaCon(p, ".pdf")
    ensures IsPdf(p)
  {
  }

  lemma JoinedTwo(b: string, c: string)
    ensures Unir("_", [b, c]) == b + "_" + c
  {
    assert [b, c][1..] == [c];
  }

  lemma JoinedThree(a: string, b: string, c: string)
    ensures Unir("_", [a, b, c]) == a + "_" + (b + "_" + c)
  {
    assert [a, b, c][1..] == [b, c];
    JoinedTwo(b, c);
  }

  /** The parts `[head]` (when there is one), `middle` and `tail` joined with '_' are the
      pieces one after the other. */
  lemma JoinedParts(head: string, withHead: bool, middle: string, tail: string)
    ensures Unir("_", (if withHead then [head] else []) + [middle, tail])
            == (if withHead then head + "_" else "") + middle + "_" + tail
  {
    if withHead {
      assert [head] + [middle, tail] == [head, middle, tail];
      JoinedThree(head, middle, tail);
    } else {
      assert [] + [middle, tail] == [middle, tail];
      JoinedTwo(middle, tail);
    }
  }

  /** The same pieces followed by `ext`: the name starts with the first part and its
      separator and ends with `ext`. */
  lemma JoinedName(head: string, withHead: bool, middle: string, tail: string, ext: string)
    ensures var n := (if withHead then head + "_" else "") + middle + "_" + tail + ext;
            && Unir("_", (if withHead then [head] else []) + [middle, tail]) + ext == n
            && TerminaCon(n, ext)
            && (withHead ==> EmpiezaCon(n, head + "_"))
            && (!withHead ==> EmpiezaCon(n, middle + "_"))
  {
    JoinedParts(head, withHead, middle, tail);
    var n := (if withHead then head + "_" else "") + middle + "_" + tail + ext;
    if withHead {
      assert n[..|head + "_"|] == head + "_";
    } else {
      assert n[..|middle + "_"|] == middle + "_";
    }
    assert n[|n| - |ext|..] == ext;
  }

  lemma RemoveAfterAdd(m: map<string, FileEntry>, k: string, v: FileEntry)
    ensures m[k := v] - {k} == m - {k}
  {
  }

  // ---------------------------------------------------------------------------
  // The handler

  class FileHandler {
    const uploadFolder: string
    const maxFileSize: int
    var files: map<string, FileEntry>

    /** `__init__`: the folder, and the size limit with its default; the folder is
        created when missing, which leaves the file map as it is. */
    constructor (uploadFolder: string, maxFileSize: Option<int>, files: map<string, FileEntry>)
      ensures this.uploadFolder == uploadFolder
      ensures this.maxFileSize == EffectiveMaxSize(maxFileSize)
      ensures this.files == files
    {
      this.uploadFolder := uploadFolder;
      this.maxFileSize := EffectiveMaxSize(maxFileSize);
      this.files := files;
    }

    /** `validate_file`: the checks in order — a file, a non-blank name, the ".pdf"
        extension in any letter case, an accepted MIME type, a declared length within the
        limit — and the first one that fails. */
    function ValidateFile(f: Option<Upload>): (r: Outcome<ValidationError>)
      ensures r == Fail(NoFile) <==> f.None? || !TextoVerdadero(f.value.filename)
      ensures r == Fail(NoName) <==> f.Some? && TextoVerdadero(f.value.filename) && EnBlanco(f.value.filename.value)
      ensures r == Fail(ExtensionNotAllowed) <==>
                && f.Some? && TextoVerdadero(f.value.filename) && !EnBlanco(f.value.filename.value)
                && Minusculas(Sufijo(f.value.filename.value)) !in AllowedExtensions
      ensures r.Fail? && r.error.InvalidType? <==>
                && f.Some? && TextoVerdadero(f.value.filename) && !EnBlanco(f.value.filename.value)
                && Minusculas(Sufijo(f.value.filename.value)) in AllowedExtensions
                && !(f.value.contentType.Some? && f.value.contentType.value in AllowedMimeTypes)
      ensures r.Fail? && r.error.InvalidType? ==> r.error.contentType == f.value.contentType
      ensures r == Pass <==>
                && f.Some? && TextoVerdadero(f.value.filename) && !EnBlanco(f.value.filename.value)
                && Minusculas(Sufijo(f.value.filename.value)) == ".pdf"
                && f.value.contentType.Some? && f.value.contentType.value in AllowedMimeTypes
                && (f.value.contentLength == 0 || f.value.contentLength <= maxFileSize)
    {
      if f.None? || !TextoVerdadero(f.value.filename) then Fail(NoFile)
      else if EnBlanco(f.value.filename.value) then Fail(NoName)
      else if Minusculas(Sufijo(f.value.filename.value)) !in AllowedExtensions then Fail(ExtensionNotAllowed)
      else if !(f.value.contentType.Some? && f.value.contentType.value in AllowedMimeTypes) then
        Fail(InvalidType(f.value.contentType))
      else if f.value.contentLength != 0 && f.value.contentLength > maxFileSize then Fail(TooLarge)
      else Pass
    }

    /** `generate_unique_filename`: the parts `[secure(prefix)]`, the timestamp and the first
        eight characters of the digest, joined with '_', followed by the original's
        lower-cased extension. */
    static function GenerateUniqueFilename(original: string, prefix: string, timestamp: string,
                                           digest: string, secure: string -> string): (r: string)
      ensures r == (if prefix != "" then secure(prefix) + "_" else "") + timestamp + "_" + Primeros(digest, 8)
                   + Minusculas(Sufijo(original))
      ensures TerminaCon(r, Minusculas(Sufijo(original)))
      ensures prefix != "" ==> EmpiezaCon(r, secure(prefix) + "_")
      ensures prefix == "" ==> EmpiezaCon(r, timestamp + "_")
    {
      var parts := (if prefix != "" then [secure(prefix)] else []) + [timestamp, Primeros(digest, 8)];
      var ext := Minusculas(Sufijo(original));
      JoinedName(secure(prefix), prefix != "", timestamp, Primeros(digest, 8), ext);
      Unir("_", parts) + ext
    }

    /** `save_file`: validates, writes the file under a fresh name in the folder, and
        removes it again when the stored size exceeds the limit. `write` stands for what
        the write does, `unlinkFails` for an exception from the removal, `now` for the
        modification time the new file gets. */
    method SaveFile(f: Option<Upload>, prefix: string, timestamp: string, digest: string,
                    secure: string -> string, write: WriteOutcome, unlinkFails: bool, now: int)
      returns (r: SaveResult)
      modifies this`files
      ensures ValidateFile(f).Fail? ==> r == NotSaved(Invalid(ValidateFile(f).error)) && files == old(files)
      ensures ValidateFile(f) == Pass ==>
                var path := Join(uploadFolder, GenerateUniqueFilename(f.value.filename.value, prefix, timestamp, digest, secure));
                && (write.WriteError? ==>
                      && r == NotSaved(WriteFailed)
                      && files == if write.partial.Some? then old(files)[path := FileEntry(write.partial.value, now)] else old(files))
                && (write.Written? && write.size > maxFileSize && !unlinkFails ==>
                      && r == NotSaved(StoredTooLarge(write.size))
                      && files == old(files) - {path})
                && (write.Written? && write.size > maxFileSize && unlinkFails ==>
                      && r == NotSaved(RemoveFailed(write.size))
                      && files == old(files)[path := FileEntry(write.size, now)])
                && (write.Written? && write.size <= maxFileSize ==>
                      && r == Saved(path)
                      && files == old(files)[path := FileEntry(write.size, now)])
    {
      var v := ValidateFile(f);
      if v.Fail? {
        return NotSaved(Invalid(v.error));
      }
      var name := GenerateUniqueFilename(f.value.filename.value, prefix, timestamp, digest, secure);
      var path := Join(uploadFolder, name);
      if write.WriteError? {
        if write.partial.Some? {
          files := files[path := FileEntry(write.partial.value, now)];
        }
        return NotSaved(WriteFailed);
      }
      ghost var before := files;
      files := files[path := FileEntry(write.size, now)];
      if write.size > maxFileSize {
        if unlinkFails {
          return NotSaved(RemoveFailed(write.size));
        }
        RemoveAfterAdd(before, path, FileEntry(write.size, now));
        files := files - {path};
        return NotSaved(StoredTooLarge(write.size));
      }
      return Saved(path);
    }

    /** `delete_file`, with the containment test corrected to require a separator after
        the folder's path: on success exactly the resolved file is removed, otherwise
        nothing changes. */
    method DeleteFile(path: string, resolve: string -> Option<string>) returns (r: Outcome<DeleteError>)
      modifies this`files
      ensures r == DeleteDecision(old(files), uploadFolder, path, resolve)
      ensures r == Pass ==> files == old(files) - {resolve(path).value}
      ensures r.Fail? ==> files == old(files)
    {
      var target := resolve(path);
      var base := resolve(uploadFolder);
      if target.None? || base.None? {
        return Fail(InvalidPath);
      }
      if !Within(target.value, base.value) {
        return Fail(OutsideFolder);
      }
      if target.value !in files {
        return Fail(NotFound);
      }
      files := files - {target.value};
      return Pass;
    }

    /** `cleanup_old_files`: visits the folder's PDFs in the order `listing` gives and
        removes those modified before `now` minus `daysOld` days. A file in `unreadable`
        cannot be inspected and a file in `undeletable` cannot be removed; each such
        failure adds an entry naming the file to the error list. */
    method CleanupOldFiles(daysOld: int, now: int, listing: seq<string>,
                           unreadable: set<string>, undeletable: set<string>)
      returns (deleted: nat, errors: seq<string>)
      requires Enumerates(listing, PdfsIn(files, uploadFolder))
      modifies this`files
      ensures Listed(old(files), listing)
      ensures files == old(files) - Elements(Removed(old(files), listing, Cutoff(now, daysOld), unreadable, undeletable))
      ensures deleted == |Removed(old(files), listing, Cutoff(now, daysOld), unreadable, undeletable)|
      ensures deleted == |old(files).Keys - files.Keys|
      ensures errors == Names(Failures(old(files), listing, Cutoff(now, daysOld), unreadable, undeletable))
    {
      EnumeratedAreListed(files, uploadFolder, listing);
      var left;
      left, deleted, errors := Sweep(files, listing, Cutoff(now, daysOld), unreadable, undeletable);
      files := left;
    }

    /** `get_upload_stats`: the number of PDFs in the folder, their total size, and the
        earliest and latest modification times (None for an empty folder), visiting the
        files in the order `listing` gives. */
    method GetUploadStats(listing: seq<string>) returns (s: UploadStats)
      requires Enumerates(listing, PdfsIn(files, uploadFolder))
      ensures Listed(files, listing)
      ensures s.totalFiles == |PdfsIn(files, uploadFolder)|
      ensures s.totalSizeBytes == TotalSize(files, listing)
      ensures IsOldest(s.oldestFileDate, files, listing)
      ensures IsNewest(s.newestFileDate, files, listing)
      ensures s.uploadFolder == uploadFolder
    {
      EnumeratedAreListed(files, uploadFolder, listing);
      DistinctCardinality(listing);
      var count, total, oldest, newest := Tally(files, listing);
      s := UploadStats(count, total, oldest, newest, uploadFolder);
    }
  }

  /** A named upload whose extension is not ".pdf" fails on the extension, whatever its
      type and length. */
  lemma ExtensionCheckedFirst(h: FileHandler, name: string, contentType: Option<string>, length: int)
    requires name != "" && !EnBlanco(name) && Minusculas(Sufijo(name)) != ".pdf"
    ensures h.ValidateFile(Some(Upload(Some(name), contentType, length))) == Fail(ExtensionNotAllowed)
  {
  }

  /** A ".pdf" upload of a type outside the accepted ones fails on its type, whatever its
      length. */
  lemma TypeCheckedBeforeSize(h: FileHandler, name: string, contentType: Option<string>, length: int)
    requires name != "" && !EnBlanco(name) && Minusculas(Sufijo(name)) == ".pdf"
    requires contentType.None? || contentType.value !in AllowedMimeTypes
    ensures h.ValidateFile(Some(Upload(Some(name), contentType, length))) == Fail(InvalidType(contentType))
  {
  }

  /** A ".pdf" upload of an accepted type passes exactly when its declared length is 0
      (not declared) or at most the limit: a length equal to the limit passes. */
  lemma SizeLimitInclusive(h: FileHandler, name: string, contentType: string, length: int)
    requires name != "" && !EnBlanco(name) && Minusculas(Sufijo(name)) == ".pdf"
    requires contentType in AllowedMimeTypes
    ensures h.ValidateFile(Some(Upload(Some(name), Some(contentType), length))) == Pass
            <==> length == 0 || length <= h.maxFileSize
  {
  }

  /** A name "stem.pdf" is not blank: it ends in 'f'. */
  lemma PdfNameNotBlank(stem: string)
    ensures !EnBlanco(stem + ".pdf")
  {
    var name := stem + ".pdf";
    EnBlancoSiYSoloSi(name);
    assert !EsEspacio(name[|name| - 1]);
  }

  /** A name "stem.pdf" with a non-empty stem and no '/' has the lower-cased suffix
      ".pdf". */
  lemma PdfNameSuffix(stem: string)
    requires stem != "" && forall j :: 0 <= j < |stem| ==> stem[j] != '/'
    ensures Minusculas(Sufijo(stem + ".pdf")) == ".pdf"
  {
    SufijoDe(stem, ".pdf");
    PdfIsLowerCase();
  }

  lemma PdfIsLowerCase()
    ensures Minusculas(".pdf") == ".pdf"
  {
    var ext := Minusculas(".pdf");
    assert ext[0] == '.' && ext[1] == 'p' && ext[2] == 'd' && ext[3] == 'f';
  }

  lemma PlainTextNotAccepted()
    ensures "text/plain" !in AllowedMimeTypes
  {
  }

  /** A name "stem.pdf" ("test.pdf" in the tests) sent as "text/plain" passes the name and
      extension checks and is refused for its type, whatever its declared length. */
  lemma PlainTextRefused(h: FileHandler, stem: string, n: int)
    requires stem != "" && forall j :: 0 <= j < |stem| ==> stem[j] != '/'
    ensures h.ValidateFile(Some(Upload(Some(stem + ".pdf"), Some("text/plain"), n)))
            == Fail(InvalidType(Some("text/plain")))
  {
    PdfNameNotBlank(stem);
    PdfNameSuffix(stem);
    PlainTextNotAccepted();
    TypeCheckedBeforeSize(h, stem + ".pdf", Some("text/plain"), n);
  }

  /** A file stored in the folder under a name ending in ".pdf" is one of its PDFs. */
  lemma StoredPdfIsListed(files: map<string, FileEntry>, folder: string, name: string, entry: FileEntry)
    requires TerminaCon(name, ".pdf")
    ensures Join(folder, name) in PdfsIn(files[Join(folder, name) := entry], folder)
  {
    var path := Join(folder, name);
    assert path[..|AsDirectory(folder)|] == AsDirectory(folder);
    assert path[|path| - 4..] == name[|name| - 4..];
    PdfSuffixIsPdf(path);
  }

  /** A file that `save_file` stores is one of the folder's PDFs, so the statistics and
      the clean-up see it. */
  lemma SavedFileIsListed(files: map<string, FileEntry>, folder: string, original: string, prefix: string,
                          timestamp: string, digest: string, secure: string -> string, entry: FileEntry)
    requires Minusculas(Sufijo(original)) == ".pdf"
    ensures var path := Join(folder, FileHandler.GenerateUniqueFilename(original, prefix, timestamp, digest, secure));
            path in PdfsIn(files[path := entry], folder)
  {
    StoredPdfIsListed(files, folder, FileHandler.GenerateUniqueFilename(original, prefix, timestamp, digest, secure), entry);
  }

  /** A file just stored in the folder can be deleted through the path `save_file`
      returned, when resolving leaves that path and the folder as they are (an absolute
      folder without links or "..", as in the tests). */
  lemma SavedFileCanBeDeleted(files: map<string, FileEntry>, folder: string, name: string, entry: FileEntry,
                              resolve: string -> Option<string>)
    requires resolve(folder) == Some(folder)
    requires resolve(Join(folder, name)) == Some(Join(folder, name))
    ensures DeleteDecision(files[Join(folder, name) := entry], folder, Join(folder, name), resolve) == Pass
  {
    var path := Join(folder, name);
    assert path[..|AsDirectory(folder)|] == AsDirectory(folder);
  }

  /** For an original name made of a stem and an extension, the generated name ends with
      that extension lower-cased: "TEST.PDF" gives a name ending in ".pdf". */
  lemma GeneratedNameKeepsExtension(stem: string, ext: string, prefix: string, timestamp: string,
                                    digest: string, secure: string -> string)
    requires stem != "" && |ext| >= 2 && ext[0] == '.'
    requires forall j :: 0 <= j < |stem| ==> stem[j] != '/'
    requires forall j :: 0 <= j < |ext| ==> ext[j] != '/'
    requires forall j :: 1 <= j < |ext| ==> ext[j] != '.'
    ensures TerminaCon(FileHandler.GenerateUniqueFilename(stem + ext, prefix, timestamp, digest, secure), Minusculas(ext))
  {
    SufijoDe(stem, ext);
  }
}
