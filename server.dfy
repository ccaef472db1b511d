/** The tool bodies of `server.py` over an abstract environment: the data root,
    whether it exists, the listing of its `geojson` directory and the file store
    the cache reads from. Each tool is a method on the shared cache, specified by
    a function giving its result and the cache contents afterwards. */
module Server {
  import opened Wrappers
  import opened Json
  import opened Text
  import opened Config
  import opened GeoCache
  import opened Search

  /** `DATA_ROOT` (already resolved), whether it exists, the names in
      `DATA_ROOT/geojson` (`None` when that directory does not exist), and the files. */
  datatype Env = Env(root: string, rootExists: bool, geojsonNames: Option<seq<string>>, files: Files)

  // ---------------------------------------------------------------------------
  // paths
  // ---------------------------------------------------------------------------

  /** `dir / name` as text. */
  function JoinPath(dir: string, name: string): string {
    if |dir| > 0 && dir[|dir| - 1] == '/' then dir + name else dir + "/" + name
  }

  /** `DATA_ROOT / "geojson" / "geojs-{code}-mun.json"`. */
  function StatePath(root: string, code: string): string {
    JoinPath(JoinPath(root, GeojsonDirectory), FilenameOf(code))
  }

  /** Different codes name different files. */
  lemma StatePathInjective(root: string, a: string, b: string)
    requires StatePath(root, a) == StatePath(root, b)
    ensures a == b
  {
    var d := JoinPath(root, GeojsonDirectory);
    var n := |d| + (if |d| > 0 && d[|d| - 1] == '/' then 0 else 1);
    assert FilenameOf(a) == StatePath(root, a)[n..];
    assert FilenameOf(b) == StatePath(root, b)[n..];
    FilenameOfInjective(a, b);
  }

  /** `_get_state_file(uf_or_code)`. */
  function GetStateFile(root: string, x: string): (r: Result<string>)
    ensures r.Success? <==> GetStateCode(x).Success?
    ensures r.Success? ==> r.value == StatePath(root, GetStateCode(x).value)
    ensures r.Failure? ==> r.error == GetStateCode(x).error
  {
    var code :- GetStateCode(x);
    Success(StatePath(root, code))
  }

  /** The file of a state is the one `get_filename_for_state` names, in the geojson directory. */
  lemma StateFileIsNamedFile(root: string, x: string)
    ensures GetStateFile(root, x).Success? <==> GetFilenameForState(x).Success?
    ensures GetStateFile(root, x).Success? ==>
      GetStateFile(root, x).value == JoinPath(JoinPath(root, "geojson"), GetFilenameForState(x).value)
  {
  }

  /** The message of `_assert_data_root`. */
  function RootMessage(root: string): string {
    "GEODATA_BR_PATH inválido ou não encontrado: " + root +
    "\nConfigure a variável de ambiente GEODATA_BR_PATH com o caminho do repositório."
  }

  function RootError(env: Env): Error {
    RuntimeError(RootMessage(env.root))
  }

  /** `_load_state_geojson(uf_or_code)`: the result and the cache afterwards. */
  function LoadStateResult(env: Env, entries: map<string, Json>, x: string): (Result<Json>, map<string, Json>) {
    var file := GetStateFile(env.root, x);
    if file.Failure? then (Failure(file.error), entries)
    else (LoadResult(entries, env.files, file.value), LoadEntries(entries, env.files, file.value))
  }

  method LoadStateGeojson(env: Env, cache: Cache, x: string) returns (r: Result<Json>)
    modifies cache
    ensures (r, cache.entries) == LoadStateResult(env, old(cache.entries), x)
  {
    var file := GetStateFile(env.root, x);
    if file.Failure? {
      return Failure(file.error);
    }
    r := cache.Load(env.files, file.value);
  }

  /** A state loads only its own file, and fails without touching the cache when
      the abbreviation or code does not resolve. */
  lemma LoadStateFacts(env: Env, entries: map<string, Json>, x: string)
    ensures GetStateCode(x).Failure? ==>
      LoadStateResult(env, entries, x) == (Failure(GetStateCode(x).error), entries)
    ensures GetStateCode(x).Success? ==>
      var p := StatePath(env.root, GetStateCode(x).value);
      LoadStateResult(env, entries, x) == (LoadResult(entries, env.files, p), LoadEntries(entries, env.files, p))
  {
  }

  // ---------------------------------------------------------------------------
  // list_states
  // ---------------------------------------------------------------------------

  /** `glob("geojs-*-mun.json")` on one name: the star matches any text, even empty. */
  predicate GlobMatch(name: string) {
    |name| >= |FilenamePrefix| + |FilenameSuffix| &&
    name[..|FilenamePrefix|] == FilenamePrefix &&
    name[|name| - |FilenameSuffix|..] == FilenameSuffix
  }

  /** `Path(name).stem` of a name ending in ".json". */
  function Stem(name: string): string
    requires |name| >= 5
  {
    name[..|name| - 5]
  }

  /** A matching stem has a "-" after "geojs", so it splits into at least two pieces. */
  lemma StemSplits(name: string)
    requires GlobMatch(name)
    ensures |Split(Stem(name), '-')| >= 2
  {
    var stem := Stem(name);
    assert stem == "geojs" + ['-'] + stem[6..];
    SplitAtFirst("geojs", '-', stem[6..]);
  }

  /** `file.stem.split("-")[1]`. */
  function CodeOfName(name: string): string
    requires GlobMatch(name)
  {
    StemSplits(name);
    Split(Stem(name), '-')[1]
  }

  /** The name of a code's file matches the pattern and gives the code back,
      whenever the code holds no "-". */
  lemma CodeOfFilename(k: string)
    requires '-' !in k
    ensures GlobMatch(FilenameOf(k))
    ensures CodeOfName(FilenameOf(k)) == k
  {
    var name := FilenameOf(k);
    assert Stem(name) == "geojs" + ['-'] + (k + ['-'] + "mun");
    SplitAtFirst("geojs", '-', k + ['-'] + "mun");
    SplitAtFirst(k, '-', "mun");
  }

  /** Table codes are digits and hold no "-". */
  lemma TableCodeHasNoDash(k: string)
    requires k in IbgeToState
    ensures '-' !in k
  {
    var i := StateRowOf(k);
    CodesAreDigits();
    assert AllDigits(k);
    assert !IsDigit('-');
  }

  /** One entry per name whose code is in the table, in the order of the names. */
  function StatesOfNames(names: seq<string>): (r: seq<StateInfo>)
    requires forall i :: 0 <= i < |names| ==> GlobMatch(names[i])
    ensures forall j :: 0 <= j < |r| ==> r[j].ibgeCode in IbgeToState
    decreases |names|
  {
    if |names| == 0 then []
    else
      var n := |names| - 1;
      var code := CodeOfName(names[n]);
      StatesOfNames(names[..n]) + (if code in IbgeToState then [InfoOf(code, IbgeToState[code])] else [])
  }

  /** Matching names, sorted. */
  function SortedMatches(names: seq<string>): (r: seq<string>)
    ensures forall i :: 0 <= i < |r| ==> GlobMatch(r[i])
    ensures Sorted(r) && multiset(r) == multiset(Filter(names, GlobMatch))
  {
    var m := Filter(names, GlobMatch);
    FilterSound(names, GlobMatch);
    var r := Sort(m);
    assert forall i :: 0 <= i < |r| ==> r[i] in multiset(m);
    r
  }

  /** What `list_states()` returns. */
  function ListStatesResult(env: Env): Result<seq<StateInfo>> {
    if !env.rootExists then Failure(RootError(env))
    else if env.geojsonNames.None? then Success([])
    else Success(StatesOfNames(SortedMatches(env.geojsonNames.value)))
  }

  /** `list_states()`: it reads the directory listing only, never the cache. */
  method ListStates(env: Env) returns (r: Result<seq<StateInfo>>)
    ensures r == ListStatesResult(env)
  {
    if !env.rootExists {
      return Failure(RootError(env));
    }
    if env.geojsonNames.None? {
      return Success([]);
    }
    var files := SortedMatches(env.geojsonNames.value);
    var states := [];
    for i := 0 to |files|
      invariant states == StatesOfNames(files[..i])
    {
      assert files[..i + 1][..i] == files[..i];
      var code := CodeOfName(files[i]);
      if code in IbgeToState {
        states := states + [InfoOf(code, IbgeToState[code])];
      }
    }
    assert files[..|files|] == files;
    return Success(states);
  }

  /** Every listed entry is the table's information for its code. */
  lemma {:induction false} StatesOfNamesAreInfos(names: seq<string>)
    requires forall i :: 0 <= i < |names| ==> GlobMatch(names[i])
    ensures forall j :: 0 <= j < |StatesOfNames(names)| ==>
      StatesOfNames(names)[j] == GetStateInfo(StatesOfNames(names)[j].ibgeCode).value
    decreases |names|
  {
    if |names| > 0 {
      StatesOfNamesAreInfos(names[..|names| - 1]);
    }
  }

  /** A table code whose file is among the names is listed. */
  lemma {:induction false} StatesOfNamesListsFile(names: seq<string>, k: string)
    requires forall i :: 0 <= i < |names| ==> GlobMatch(names[i])
    requires k in IbgeToState && FilenameOf(k) in names
    ensures exists j :: 0 <= j < |StatesOfNames(names)| && StatesOfNames(names)[j].ibgeCode == k
    decreases |names|
  {
    var n := |names| - 1;
    TableCodeHasNoDash(k);
    CodeOfFilename(k);
    if names[n] == FilenameOf(k) {
      assert StatesOfNames(names)[|StatesOfNames(names)| - 1].ibgeCode == k;
    } else {
      assert FilenameOf(k) in names[..n];
      StatesOfNamesListsFile(names[..n], k);
      var j :| 0 <= j < |StatesOfNames(names[..n])| && StatesOfNames(names[..n])[j].ibgeCode == k;
      assert StatesOfNames(names)[j] == StatesOfNames(names[..n])[j];
    }
  }

  /** Where each entry comes from: the positions of the names it was built from,
      increasing, and covering every name whose code is in the table. */
  lemma {:induction false} StatesOfNamesIndices(names: seq<string>) returns (idx: seq<nat>)
    requires forall i :: 0 <= i < |names| ==> GlobMatch(names[i])
    ensures |idx| == |StatesOfNames(names)|
    ensures forall j :: 0 <= j < |idx| ==>
      idx[j] < |names| && CodeOfName(names[idx[j]]) == StatesOfNames(names)[j].ibgeCode
    ensures forall j, l :: 0 <= j < l < |idx| ==> idx[j] < idx[l]
    ensures forall i :: 0 <= i < |names| && CodeOfName(names[i]) in IbgeToState ==> i in idx
    decreases |names|
  {
    if |names| == 0 {
      idx := [];
    } else {
      var n := |names| - 1;
      var init := names[..n];
      var prev := StatesOfNamesIndices(init);
      assert forall i :: 0 <= i < n ==> init[i] == names[i];
      if CodeOfName(names[n]) in IbgeToState {
        idx := prev + [n];
      } else {
        idx := prev;
      }
    }
  }

  /** `list_states` lists exactly table states: each entry is `get_state_info` of
      its code, and every table state whose file is present appears. */
  lemma ListStatesFacts(env: Env, k: string)
    requires ListStatesResult(env).Success?
    ensures var r := ListStatesResult(env).value;
      forall j :: 0 <= j < |r| ==> r[j] == GetStateInfo(r[j].ibgeCode).value
    ensures env.geojsonNames.Some? ==>
      var r := ListStatesResult(env).value;
      forall j :: 0 <= j < |r| ==> exists n :: (n in env.geojsonNames.value && GlobMatch(n) &&
        CodeOfName(n) == r[j].ibgeCode)
    ensures env.geojsonNames.Some? && k in IbgeToState && FilenameOf(k) in env.geojsonNames.value ==>
      exists j :: 0 <= j < |ListStatesResult(env).value| && ListStatesResult(env).value[j].ibgeCode == k
  {
    if env.geojsonNames.Some? {
      var names := env.geojsonNames.value;
      var files := SortedMatches(names);
      StatesOfNamesAreInfos(files);
      var idx := StatesOfNamesIndices(files);
      var r := ListStatesResult(env).value;
      forall j | 0 <= j < |r|
        ensures exists n :: n in names && GlobMatch(n) && CodeOfName(n) == r[j].ibgeCode
      {
        var n := files[idx[j]];
        assert n in multiset(Filter(names, GlobMatch));
        FilterSound(names, GlobMatch);
        FilterCount(names, GlobMatch, n);
      }
      if k in IbgeToState && FilenameOf(k) in names {
        TableCodeHasNoDash(k);
        CodeOfFilename(k);
        FilterMembers(names, GlobMatch, FilenameOf(k));
        assert FilenameOf(k) in multiset(files);
        StatesOfNamesListsFile(files, k);
      }
    }
  }

  /** The entries follow the matching names in sorted order: entry `j` comes from
      the name at position `idx[j]` of the sorted names, the positions increase,
      and every sorted name whose code is in the table gives an entry. */
  lemma ListStatesOrder(env: Env) returns (idx: seq<nat>)
    requires env.rootExists && env.geojsonNames.Some?
    ensures var files := SortedMatches(env.geojsonNames.value);
      var r := ListStatesResult(env).value;
      Sorted(files) && multiset(files) == multiset(Filter(env.geojsonNames.value, GlobMatch)) &&
      |idx| == |r| &&
      (forall j :: 0 <= j < |idx| ==> idx[j] < |files| && CodeOfName(files[idx[j]]) == r[j].ibgeCode) &&
      (forall j, l :: 0 <= j < l < |idx| ==> idx[j] < idx[l]) &&
      (forall i :: 0 <= i < |files| && CodeOfName(files[i]) in IbgeToState ==> i in idx)
  {
    idx := StatesOfNamesIndices(SortedMatches(env.geojsonNames.value));
  }

  /** The order in which the directory lists its files does not matter. */
  lemma ListStatesIgnoresListingOrder(env1: Env, env2: Env)
    requires env1.root == env2.root && env1.rootExists == env2.rootExists
    requires env1.geojsonNames.Some? <==> env2.geojsonNames.Some?
    requires env1.geojsonNames.Some? ==> multiset(env1.geojsonNames.value) == multiset(env2.geojsonNames.value)
    ensures ListStatesResult(env1) == ListStatesResult(env2)
  {
    if env1.rootExists && env1.geojsonNames.Some? {
      var a, b := env1.geojsonNames.value, env2.geojsonNames.value;
      FilterPermutation(a, b, GlobMatch);
      SortedPermutationUnique(SortedMatches(a), SortedMatches(b));
    }
  }

  // ---------------------------------------------------------------------------
  // get_state_info
  // ---------------------------------------------------------------------------

  /** The tool's answer: the state's information and, when the document has a
      "features" key, the number of municipalities. */
  datatype StateDetails = StateDetails(info: StateInfo, totalMunicipalities: Option<nat>)

  /** What the `get_state_info` tool returns, and the cache afterwards. */
  function StateDetailsResult(env: Env, entries: map<string, Json>, uf: string)
    : (Result<StateDetails>, map<string, Json>)
  {
    if !env.rootExists then (Failure(RootError(env)), entries)
    else
      var (loaded, after) := LoadStateResult(env, entries, uf);
      if loaded.Failure? then (Failure(loaded.error), after)
      else
        var data := loaded.value;
        var total := if Has(data, "features") then Some(Len(Get(data, "features", JNull))) else None;
        (Success(StateDetails(GetStateInfo(uf).value, total)), after)
  }

  /** The `get_state_info` tool: load first, then the table information. */
  method GetStateDetails(env: Env, cache: Cache, uf: string) returns (r: Result<StateDetails>)
    modifies cache
    ensures (r, cache.entries) == StateDetailsResult(env, old(cache.entries), uf)
  {
    if !env.rootExists {
      return Failure(RootError(env));
    }
    var data :- LoadStateGeojson(env, cache, uf);
    var info := GetStateInfo(uf).value;
    var total := None;
    if Has(data, "features") {
      total := Some(Len(Get(data, "features", JNull)));
    }
    return Success(StateDetails(info, total));
  }

  /** A successful answer carries the table information of the resolved code,
      and counts the features exactly when the document has them. */
  lemma StateDetailsFacts(env: Env, entries: map<string, Json>, uf: string)
    requires StateDetailsResult(env, entries, uf).0.Success?
    ensures var d := StateDetailsResult(env, entries, uf).0.value;
      var code := GetStateCode(uf).value;
      var data := LoadResult(entries, env.files, StatePath(env.root, code)).value;
      d.info == InfoOf(code, IbgeToState[code]) &&
      (d.totalMunicipalities.Some? <==> Has(data, "features")) &&
      (Get(data, "features", JNull).JArr? ==>
        d.totalMunicipalities == Some(|Get(data, "features", JNull).items|))
  {
  }

  // ---------------------------------------------------------------------------
  // list_municipalities
  // ---------------------------------------------------------------------------

  /** One row of `list_municipalities`; a missing field is "". */
  datatype Municipality = Municipality(id: Json, name: Json, description: Json)

  function MunicipalityOf(f: Json): Municipality {
    var props := Props(f);
    Municipality(Get(props, "id", JStr("")), Get(props, "name", JStr("")), Get(props, "description", JStr("")))
  }

  function Municipalities(fs: seq<Json>): (r: seq<Municipality>)
    ensures |r| == |fs|
    ensures forall i :: 0 <= i < |fs| ==> r[i] == MunicipalityOf(fs[i])
    decreases |fs|
  {
    if |fs| == 0 then []
    else Municipalities(fs[..|fs| - 1]) + [MunicipalityOf(fs[|fs| - 1])]
  }

  /** `geojson_data.get("features", [])`, iterated. */
  function FeaturesOf(data: Json): seq<Json> {
    Elements(Get(data, "features", JArr([])))
  }

  /** What `list_municipalities(uf)` returns, and the cache afterwards. */
  function ListMunicipalitiesResult(env: Env, entries: map<string, Json>, uf: string)
    : (Result<seq<Municipality>>, map<string, Json>)
  {
    if !env.rootExists then (Failure(RootError(env)), entries)
    else
      var (loaded, after) := LoadStateResult(env, entries, uf);
      if loaded.Failure? then (Failure(loaded.error), after)
      else (Success(Municipalities(FeaturesOf(loaded.value))), after)
  }

  /** `list_municipalities(uf)`: one row appended per feature. */
  method ListMunicipalities(env: Env, cache: Cache, uf: string) returns (r: Result<seq<Municipality>>)
    modifies cache
    ensures (r, cache.entries) == ListMunicipalitiesResult(env, old(cache.entries), uf)
  {
    if !env.rootExists {
      return Failure(RootError(env));
    }
    var data :- LoadStateGeojson(env, cache, uf);
    var features := FeaturesOf(data);
    var municipalities := [];
    for i := 0 to |features|
      invariant municipalities == Municipalities(features[..i])
    {
      assert features[..i + 1][..i] == features[..i];
      municipalities := municipalities + [MunicipalityOf(features[i])];
    }
    assert features[..|features|] == features;
    return Success(municipalities);
  }

  /** The rows agree with the name and id projections, position by position. */
  lemma ListMunicipalitiesAgreesWithExtracts(env: Env, entries: map<string, Json>, uf: string)
    requires ListMunicipalitiesResult(env, entries, uf).0.Success?
    ensures var data := LoadStateResult(env, entries, uf).0.value;
      var fs := FeaturesOf(data);
      var rows := ListMunicipalitiesResult(env, entries, uf).0.value;
      |rows| == |fs| &&
      forall i :: 0 <= i < |fs| ==>
        rows[i].name == ExtractNames(fs)[i] && rows[i].id == ExtractIds(fs)[i]
  {
  }

  // ---------------------------------------------------------------------------
  // get_municipality_geojson
  // ---------------------------------------------------------------------------

  function NotFoundInState(name: string, uf: string): Error {
    ValueError("Município '" + name + "' não encontrado em " + Upper(uf))
  }

  /** What `get_municipality_geojson(uf, municipality_name)` returns, and the cache afterwards. */
  function MunicipalityGeojsonResult(env: Env, entries: map<string, Json>, uf: string, name: string)
    : (Result<Json>, map<string, Json>)
  {
    if !env.rootExists then (Failure(RootError(env)), entries)
    else
      var (loaded, after) := LoadStateResult(env, entries, uf);
      if loaded.Failure? then (Failure(loaded.error), after)
      else
        var results := Selected(FeaturesOf(loaded.value), name, false);
        if |results| > 0 then (Success(results[0]), after)
        else (Failure(NotFoundInState(name, uf)), after)
  }

  /** `get_municipality_geojson(uf, municipality_name)`. */
  method GetMunicipalityGeojson(env: Env, cache: Cache, uf: string, name: string) returns (r: Result<Json>)
    modifies cache
    ensures (r, cache.entries) == MunicipalityGeojsonResult(env, old(cache.entries), uf, name)
  {
    if !env.rootExists {
      return Failure(RootError(env));
    }
    var data :- LoadStateGeojson(env, cache, uf);
    var results := SearchFeaturesByName(FeaturesOf(data), name, false);
    if |results| > 0 {
      return Success(results[0]);
    }
    return Failure(NotFoundInState(name, uf));
  }

  /** Once the state's document is loaded, the answer is the first feature whose
      normalised name matches, and "não encontrado" exactly when none does. */
  lemma MunicipalityGeojsonFirstMatch(env: Env, entries: map<string, Json>, uf: string, name: string)
    requires env.rootExists && LoadStateResult(env, entries, uf).0.Success?
    ensures var fs := FeaturesOf(LoadStateResult(env, entries, uf).0.value);
      var r := MunicipalityGeojsonResult(env, entries, uf, name).0;
      (r.Failure? <==> forall i :: 0 <= i < |fs| ==> !Matches(fs[i], name, false)) &&
      (r.Failure? ==> r.error == NotFoundInState(name, uf)) &&
      (r.Success? ==> exists i :: (0 <= i < |fs| && r.value == fs[i] && Matches(fs[i], name, false) &&
        forall j :: 0 <= j < i ==> !Matches(fs[j], name, false)))
  {
    var fs := FeaturesOf(LoadStateResult(env, entries, uf).0.value);
    FilterFirst(fs, MatchesOf(name, false));
  }

  // ---------------------------------------------------------------------------
  // search_municipality_by_ibge
  // ---------------------------------------------------------------------------

  const ShortCodeError: Error := ValueError("Código IBGE deve ter pelo menos 2 dígitos")

  function BadStateError(prefix: string): Error {
    ValueError("Código de estado inválido: " + prefix)
  }

  function NoMunicipalityError(code: string): Error {
    ValueError("Município com código IBGE " + code + " não encontrado")
  }

  /** What `search_municipality_by_ibge(ibge_code)` returns, and the cache afterwards. */
  function SearchByIbgeResult(env: Env, entries: map<string, Json>, code: string)
    : (Result<Json>, map<string, Json>)
  {
    if !env.rootExists then (Failure(RootError(env)), entries)
    else if |code| < 2 then (Failure(ShortCodeError), entries)
    else
      var prefix := code[..2];
      if prefix !in IbgeToState then (Failure(BadStateError(prefix)), entries)
      else
        var (loaded, after) := LoadStateResult(env, entries, prefix);
        if loaded.Failure? then (Failure(loaded.error), after)
        else
          var result := FindById(FeaturesOf(loaded.value), code);
          if result.Some? && Truthy(result.value) then (Success(result.value), after)
          else (Failure(NoMunicipalityError(code)), after)
  }

  /** `search_municipality_by_ibge(ibge_code)`. */
  method SearchMunicipalityByIbge(env: Env, cache: Cache, code: string) returns (r: Result<Json>)
    modifies cache
    ensures (r, cache.entries) == SearchByIbgeResult(env, old(cache.entries), code)
  {
    if !env.rootExists {
      return Failure(RootError(env));
    }
    if |code| < 2 {
      return Failure(ShortCodeError);
    }
    var prefix := code[..2];
    if prefix !in IbgeToState {
      return Failure(BadStateError(prefix));
    }
    var data :- LoadStateGeojson(env, cache, prefix);
    var result := SearchFeaturesByIbge(FeaturesOf(data), code);
    if result.Some? && Truthy(result.value) {
      return Success(result.value);
    }
    return Failure(NoMunicipalityError(code));
  }

  /** A feature found by id is a non-empty dictionary, so the tool's truthiness
      check never turns a match into "não encontrado". */
  lemma FoundIsTruthy(fs: seq<Json>, code: string)
    requires FindById(fs, code).Some?
    ensures Truthy(FindById(fs, code).value)
  {
    var f := FindById(fs, code).value;
    assert Has(f, "properties");
  }

  /** The chain of checks: a short code, then an unknown state prefix, then the
      search in the prefix's file, whose answer is the first feature with that id. */
  lemma SearchByIbgeChain(env: Env, entries: map<string, Json>, code: string)
    requires env.rootExists
    ensures |code| < 2 ==> SearchByIbgeResult(env, entries, code) == (Failure(ShortCodeError), entries)
    ensures |code| >= 2 && code[..2] !in IbgeToState ==>
      SearchByIbgeResult(env, entries, code) == (Failure(BadStateError(code[..2])), entries)
    ensures |code| >= 2 && code[..2] in IbgeToState ==>
      var loaded := LoadResult(entries, env.files, StatePath(env.root, code[..2]));
      var r := SearchByIbgeResult(env, entries, code).0;
      (loaded.Failure? ==> r == Failure(loaded.error)) &&
      (loaded.Success? ==>
        (r == if FindById(FeaturesOf(loaded.value), code).Some?
              then Success(FindById(FeaturesOf(loaded.value), code).value)
              else Failure(NoMunicipalityError(code))))
  {
    if |code| >= 2 && code[..2] in IbgeToState {
      var loaded := LoadResult(entries, env.files, StatePath(env.root, code[..2]));
      if loaded.Success? && FindById(FeaturesOf(loaded.value), code).Some? {
        FoundIsTruthy(FeaturesOf(loaded.value), code);
      }
    }
  }

  /** A state's path grows with its code. */
  lemma StatePathLength(root: string, code: string)
    ensures |StatePath(root, code)| == |StatePath(root, "")| + |code|
  {
  }

  /** The search reads at most the file of the code's two-character prefix. */
  lemma SearchByIbgeLoadsPrefixOnly(env: Env, entries: map<string, Json>, code: string)
    ensures var after := SearchByIbgeResult(env, entries, code).1;
      after == entries ||
      (|code| >= 2 && after == LoadEntries(entries, env.files, StatePath(env.root, code[..2])))
  {
    if env.rootExists && |code| >= 2 && code[..2] in IbgeToState {
      var prefix := code[..2];
      assert SearchByIbgeResult(env, entries, code).1 == LoadStateResult(env, entries, prefix).1;
      LoadStateFacts(env, entries, prefix);
    }
  }

  /** That file is never the whole-country file "100". */
  lemma SearchByIbgeNeverLoadsBrazil(root: string, code: string)
    requires |code| >= 2
    ensures StatePath(root, code[..2]) != StatePath(root, BrazilCode)
  {
    StatePathLength(root, code[..2]);
    StatePathLength(root, BrazilCode);
  }

  // ---------------------------------------------------------------------------
  // get_brazil_geojson
  // ---------------------------------------------------------------------------

  /** What `get_brazil_geojson()` returns, and the cache afterwards. */
  function BrazilGeojsonResult(env: Env, entries: map<string, Json>): (Result<Json>, map<string, Json>) {
    if !env.rootExists then (Failure(RootError(env)), entries)
    else LoadStateResult(env, entries, BrazilCode)
  }

  /** `get_brazil_geojson()`. */
  method GetBrazilGeojson(env: Env, cache: Cache) returns (r: Result<Json>)
    modifies cache
    ensures (r, cache.entries) == BrazilGeojsonResult(env, old(cache.entries))
  {
    if !env.rootExists {
      return Failure(RootError(env));
    }
    r := LoadStateGeojson(env, cache, BrazilCode);
  }

  /** The whole-country tool loads exactly the file of code "100". */
  lemma BrazilLoadsItsFile(env: Env, entries: map<string, Json>)
    requires env.rootExists
    ensures var p := StatePath(env.root, "100");
      BrazilGeojsonResult(env, entries) == (LoadResult(entries, env.files, p), LoadEntries(entries, env.files, p))
  {
    assert BrazilCode in IbgeToState by {
      var i := StateRowOf(BrazilCode);
    }
  }

  // ---------------------------------------------------------------------------
  // the data root
  // ---------------------------------------------------------------------------

  /** Without the data root every tool fails with the same RuntimeError and
      leaves the cache as it was. */
  lemma MissingRootFailsEverywhere(env: Env, entries: map<string, Json>, uf: string, name: string, code: string)
    requires !env.rootExists
    ensures var e := RuntimeError(RootMessage(env.root));
      ListStatesResult(env) == Failure(e) &&
      StateDetailsResult(env, entries, uf) == (Failure(e), entries) &&
      ListMunicipalitiesResult(env, entries, uf) == (Failure(e), entries) &&
      MunicipalityGeojsonResult(env, entries, uf, name) == (Failure(e), entries) &&
      SearchByIbgeResult(env, entries, code) == (Failure(e), entries) &&
      BrazilGeojsonResult(env, entries) == (Failure(e), entries)
  {
  }
}
