/** The module-level GeoJSON cache of `utils.py`: a dictionary from path text to
    parsed document, filled on first load and emptied only by `clear_cache`.

    The file system is a map `files` from path text to what `json.load` makes of
    that file: `Some(document)`, or `None` when the text is no valid JSON. A path
    that is not a key names no file. */
module GeoCache {
  import opened Wrappers
  import opened Json

  type Files = map<string, Option<Json>>

  function NotFoundMessage(path: string): string {
    "Arquivo não encontrado: " + path
  }

  /** Reading and parsing a file with no cache in front of it. */
  function ReadFile(files: Files, path: string): (r: Result<Json>)
    ensures r.Success? <==> path in files && files[path].Some?
  {
    if path !in files then Failure(FileNotFoundError(NotFoundMessage(path)))
    else if files[path].None? then Failure(JsonDecodeError(path))
    else Success(files[path].value)
  }

  /** What `load_geojson_with_cache(path)` returns, given the cache contents. */
  function LoadResult(entries: map<string, Json>, files: Files, path: string): Result<Json> {
    if path in entries then Success(entries[path]) else ReadFile(files, path)
  }

  /** The cache contents after `load_geojson_with_cache(path)`. */
  function LoadEntries(entries: map<string, Json>, files: Files, path: string): map<string, Json> {
    if path !in entries && ReadFile(files, path).Success? then entries[path := files[path].value]
    else entries
  }

  class Cache {
    /** `_geojson_cache`. */
    var entries: map<string, Json>

    /** The cache as the module starts with it: empty. */
    constructor()
      ensures entries == map[]
    {
      entries := map[];
    }

    /** `load_geojson_with_cache(file_path)`. */
    method Load(files: Files, path: string) returns (r: Result<Json>)
      modifies this
      ensures r == LoadResult(old(entries), files, path)
      ensures entries == LoadEntries(old(entries), files, path)
      ensures Size() == old(Size()) + (if path !in old(entries) && r.Success? then 1 else 0)
    {
      if path in entries {
        return Success(entries[path]);
      }
      if path !in files {
        return Failure(FileNotFoundError(NotFoundMessage(path)));
      }
      var parsed := files[path];
      if parsed.None? {
        return Failure(JsonDecodeError(path));
      }
      entries := entries[path := parsed.value];
      return Success(parsed.value);
    }

    /** `clear_cache()`. */
    method Clear()
      modifies this
      ensures entries == map[]
      ensures Size() == 0
    {
      entries := map[];
    }

    /** `get_cache_size()`. */
    function Size(): (n: nat)
      reads this
      ensures n == 0 <==> entries == map[]
    {
      |entries|
    }
  }

  /** A hit returns the stored document whatever the files now hold, and stores nothing. */
  lemma HitReadsNoFile(entries: map<string, Json>, files1: Files, files2: Files, path: string)
    requires path in entries
    ensures LoadResult(entries, files1, path) == LoadResult(entries, files2, path) == Success(entries[path])
    ensures LoadEntries(entries, files1, path) == entries
  {
  }

  /** A miss on a file that parses returns its document and stores it under its path. */
  lemma MissStores(entries: map<string, Json>, files: Files, path: string)
    requires path !in entries && path in files && files[path].Some?
    ensures LoadResult(entries, files, path) == Success(files[path].value)
    ensures LoadEntries(entries, files, path) == entries[path := files[path].value]
    ensures |LoadEntries(entries, files, path)| == |entries| + 1
  {
  }

  /** A load grows the cache by one exactly when it stores a new document. */
  lemma LoadSize(entries: map<string, Json>, files: Files, path: string)
    ensures |LoadEntries(entries, files, path)| ==
      |entries| + (if path !in entries && ReadFile(files, path).Success? then 1 else 0)
  {
  }

  /** A miss on a missing or unparsable file fails and stores nothing. */
  lemma MissFailsUnchanged(entries: map<string, Json>, files: Files, path: string)
    requires path !in entries
    requires path !in files || files[path].None?
    ensures path !in files ==>
      LoadResult(entries, files, path) == Failure(FileNotFoundError("Arquivo não encontrado: " + path))
    ensures path in files ==> LoadResult(entries, files, path) == Failure(JsonDecodeError(path))
    ensures LoadEntries(entries, files, path) == entries
  {
  }

  /** Every cached document is what its file parses to now. */
  predicate Coherent(entries: map<string, Json>, files: Files) {
    forall p :: p in entries ==> p in files && files[p] == Some(entries[p])
  }

  /** While the files do not change, the cache is invisible: a load returns what
      reading the file directly would, and the cache stays coherent. */
  lemma CoherentLoad(entries: map<string, Json>, files: Files, path: string)
    requires Coherent(entries, files)
    ensures LoadResult(entries, files, path) == ReadFile(files, path)
    ensures Coherent(LoadEntries(entries, files, path), files)
  {
  }

  /** The cache only grows, by at most the loaded path, and keeps what it had. */
  lemma LoadGrows(entries: map<string, Json>, files: Files, path: string)
    ensures var e := LoadEntries(entries, files, path);
      e.Keys == entries.Keys || e.Keys == entries.Keys + {path}
    ensures var e := LoadEntries(entries, files, path);
      forall p :: p in entries ==> p in e && e[p] == entries[p]
  {
  }

  /** Loading the same path twice returns the same result, and the second load
      changes nothing. */
  lemma LoadTwice(entries: map<string, Json>, files: Files, path: string)
    ensures var e := LoadEntries(entries, files, path);
      LoadResult(e, files, path) == LoadResult(entries, files, path) &&
      LoadEntries(e, files, path) == e
  {
  }

  /** The cache is never refreshed: once a path is stored, replacing the file
      leaves the stale document in place. */
  lemma StaleAfterChange(entries: map<string, Json>, files: Files, path: string, changed: Option<Json>)
    requires path !in entries && path in files && files[path].Some?
    ensures var e := LoadEntries(entries, files, path);
      LoadResult(e, files[path := changed], path) == Success(files[path].value)
  {
  }
}
