/** The static state table of config.py: IBGE code -> {uf, name, region}, the
    reverse map, the region groupings, and the lookups built on them. */
module Config {
  import opened Wrappers
  import opened Text

  // ---------------------------------------------------------------------------
  // Dict literals and comprehensions
  // ---------------------------------------------------------------------------

  /** A dict literal or comprehension: its rows are inserted in order, and a later
      row replaces the value of an earlier one with the same key. */
  function ToMap<K, V>(rows: seq<(K, V)>): map<K, V>
    decreases |rows|
  {
    if |rows| == 0 then map[]
    else ToMap(rows[..|rows| - 1])[rows[|rows| - 1].0 := rows[|rows| - 1].1]
  }

  /** The keys of the dict are the keys of its rows. */
  lemma {:induction false} ToMapKeys<K, V>(rows: seq<(K, V)>)
    ensures ToMap(rows).Keys == set i | 0 <= i < |rows| :: rows[i].0
    decreases |rows|
  {
    if |rows| > 0 {
      var init := rows[..|rows| - 1];
      ToMapKeys(init);
      assert forall i :: 0 <= i < |init| ==> init[i] == rows[i];
    }
  }

  predicate DistinctKeys<K(==), V>(rows: seq<(K, V)>) {
    forall i, j :: 0 <= i < j < |rows| ==> rows[i].0 != rows[j].0
  }

  predicate Distinct<T(==)>(s: seq<T>) {
    forall i, j :: 0 <= i < j < |s| ==> s[i] != s[j]
  }

  /** `dict.keys()` in insertion order, when no key repeats. */
  function KeysOf<K, V>(rows: seq<(K, V)>): seq<K> {
    seq(|rows|, i requires 0 <= i < |rows| => rows[i].0)
  }

  /** With distinct keys every row survives in the dict. */
  lemma {:induction false} ToMapAt<K, V>(rows: seq<(K, V)>, i: int)
    requires DistinctKeys(rows) && 0 <= i < |rows|
    ensures rows[i].0 in ToMap(rows) && ToMap(rows)[rows[i].0] == rows[i].1
    decreases |rows|
  {
    if i < |rows| - 1 {
      var init := rows[..|rows| - 1];
      assert init[i] == rows[i];
      ToMapAt(init, i);
    }
  }

  /** With distinct keys the dict has one entry per row. */
  lemma {:induction false} ToMapSize<K, V>(rows: seq<(K, V)>)
    requires DistinctKeys(rows)
    ensures |ToMap(rows)| == |rows|
    decreases |rows|
  {
    if |rows| > 0 {
      var init := rows[..|rows| - 1];
      var last := rows[|rows| - 1];
      ToMapSize(init);
      ToMapKeys(init);
      assert forall i :: 0 <= i < |init| ==> init[i].0 != last.0;
      assert last.0 !in ToMap(init);
    }
  }

  // ---------------------------------------------------------------------------
  // IBGE_TO_STATE and STATE_TO_IBGE
  // ---------------------------------------------------------------------------

  datatype StateRecord = StateRecord(uf: string, name: string, region: string)

  /** The rows of the IBGE_TO_STATE literal, in the order written; "100" is the
      whole-country sentinel. */
  const StateRows: seq<(string, StateRecord)> := [
    ("11", StateRecord("RO", "Rondônia", "Norte")),
    ("12", StateRecord("AC", "Acre", "Norte")),
    ("13", StateRecord("AM", "Amazonas", "Norte")),
    ("14", StateRecord("RR", "Roraima", "Norte")),
    ("15", StateRecord("PA", "Pará", "Norte")),
    ("16", StateRecord("AP", "Amapá", "Norte")),
    ("17", StateRecord("TO", "Tocantins", "Norte")),
    ("21", StateRecord("MA", "Maranhão", "Nordeste")),
    ("22", StateRecord("PI", "Piauí", "Nordeste")),
    ("23", StateRecord("CE", "Ceará", "Nordeste")),
    ("24", StateRecord("RN", "Rio Grande do Norte", "Nordeste")),
    ("25", StateRecord("PB", "Paraíba", "Nordeste")),
    ("26", StateRecord("PE", "Pernambuco", "Nordeste")),
    ("27", StateRecord("AL", "Alagoas", "Nordeste")),
    ("28", StateRecord("SE", "Sergipe", "Nordeste")),
    ("29", StateRecord("BA", "Bahia", "Nordeste")),
    ("31", StateRecord("MG", "Minas Gerais", "Sudeste")),
    ("32", StateRecord("ES", "Espírito Santo", "Sudeste")),
    ("33", StateRecord("RJ", "Rio de Janeiro", "Sudeste")),
    ("35", StateRecord("SP", "São Paulo", "Sudeste")),
    ("41", StateRecord("PR", "Paraná", "Sul")),
    ("42", StateRecord("SC", "Santa Catarina", "Sul")),
    ("43", StateRecord("RS", "Rio Grande do Sul", "Sul")),
    ("50", StateRecord("MS", "Mato Grosso do Sul", "Centro-Oeste")),
    ("51", StateRecord("MT", "Mato Grosso", "Centro-Oeste")),
    ("52", StateRecord("GO", "Goiás", "Centro-Oeste")),
    ("53", StateRecord("DF", "Distrito Federal", "Centro-Oeste")),
    ("100", StateRecord("BR", "Brasil", "Brasil"))
  ]

  const IbgeToState: map<string, StateRecord> := ToMap(StateRows)

  /** The rows the STATE_TO_IBGE comprehension inserts: (uf, code) per state, in
      the iteration order of IBGE_TO_STATE. */
  const UfRows: seq<(string, string)> := ReverseRows(StateRows)

  function ReverseRows(rows: seq<(string, StateRecord)>): (r: seq<(string, string)>)
    ensures |r| == |rows| && forall i :: 0 <= i < |rows| ==> r[i] == (rows[i].1.uf, rows[i].0)
  {
    seq(|rows|, i requires 0 <= i < |rows| => (rows[i].1.uf, rows[i].0))
  }

  const StateToIbge: map<string, string> := ToMap(UfRows)

  /** The sentinel code of the whole-country aggregate. */
  const BrazilCode: string := "100"

  /** The codes of the table, in the order of the literal. */
  const Codes: seq<string> := KeysOf(StateRows)

  /** The abbreviations of the table, in the order of the literal. */
  const Ufs: seq<string> := KeysOf(UfRows)

  // No key of either dict repeats. Comparing 28 strings pairwise is costly for the
  // solver, so the strings are compared through a number that already tells all of
  // them apart: the first two letters of an abbreviation read in base 26, and for a
  // code a number that grows along the literal.

  /** The number the first two letters of an abbreviation spell in base 26 ("AC" gives 2). */
  function Initials(s: string): int {
    if |s| < 2 then -1 else (s[0] as int - 'A' as int) * 26 + (s[1] as int - 'A' as int)
  }

  function InitialsOf(s: seq<string>): seq<int> {
    seq(|s|, i requires 0 <= i < |s| => Initials(s[i]))
  }

  lemma DistinctByInitials(s: seq<string>)
    requires Distinct(InitialsOf(s))
    ensures Distinct(s)
  {
    forall i, j | 0 <= i < j < |s| ensures s[i] != s[j] {
      assert InitialsOf(s)[i] != InitialsOf(s)[j];
    }
  }

  /** A code's length in the hundreds, then the number its first two digits write:
      "11" gives 211 and "100" gives 310. */
  function Lead(s: string): int {
    if |s| < 2 then 0 else |s| * 100 + (s[0] as int - '0' as int) * 10 + (s[1] as int - '0' as int)
  }

  predicate Increasing(s: seq<int>) {
    forall i :: 0 <= i < |s| - 1 ==> s[i] < s[i + 1]
  }

  lemma {:induction false} IncreasingDistinct(s: seq<int>)
    requires Increasing(s)
    ensures Distinct(s) && forall i :: 0 < i < |s| ==> s[0] < s[i]
    decreases |s|
  {
    if |s| > 1 {
      IncreasingDistinct(s[1..]);
      assert forall i :: 0 < i < |s| ==> s[i] == s[1..][i - 1];
    }
  }

  function LeadsOf(s: seq<string>): seq<int> {
    seq(|s|, i requires 0 <= i < |s| => Lead(s[i]))
  }

  lemma DistinctByLead(s: seq<string>)
    requires Distinct(LeadsOf(s))
    ensures Distinct(s)
  {
    forall i, j | 0 <= i < j < |s| ensures s[i] != s[j] {
      assert LeadsOf(s)[i] != LeadsOf(s)[j];
    }
  }

  lemma DistinctKeysOf<K, V>(rows: seq<(K, V)>)
    requires Distinct(KeysOf(rows))
    ensures DistinctKeys(rows)
  {
    forall i, j | 0 <= i < j < |rows| ensures rows[i].0 != rows[j].0 {
      assert KeysOf(rows)[i] != KeysOf(rows)[j];
    }
  }

  const CodeLeads: seq<int> := [211, 212, 213, 214, 215, 216, 217, 221, 222, 223, 224, 225, 226, 227, 228, 229, 231, 232, 233, 235, 241, 242, 243, 250, 251, 252, 253, 310]

  const UfInitials: seq<int> := [456, 2, 12, 459, 390, 15, 508, 312, 398, 56, 455, 391, 394, 11, 472, 26, 318, 122, 451, 483, 407, 470, 460, 330, 331, 170, 83, 43]

  lemma CodeLeadsListed()
    ensures LeadsOf(Codes) == CodeLeads
  {
  }

  lemma UfInitialsListed()
    ensures InitialsOf(Ufs) == UfInitials
  {
  }

  lemma CodeLeadsDistinct()
    ensures Distinct(CodeLeads)
  {
    assert Increasing(CodeLeads);
    IncreasingDistinct(CodeLeads);
  }

  lemma UfInitialsDistinct()
    ensures Distinct(UfInitials)
  {
  }

  /** IBGE_TO_STATE has one entry per row of its literal. */
  lemma CodesDistinct()
    ensures Distinct(Codes) && DistinctKeys(StateRows)
  {
    CodeLeadsListed();
    CodeLeadsDistinct();
    DistinctByLead(Codes);
    DistinctKeysOf(StateRows);
  }

  /** No two states share an abbreviation, so STATE_TO_IBGE inverts IBGE_TO_STATE. */
  lemma UfsDistinct()
    ensures Distinct(Ufs) && DistinctKeys(UfRows)
  {
    UfInitialsListed();
    UfInitialsDistinct();
    DistinctByInitials(Ufs);
    DistinctKeysOf(UfRows);
  }

  /** Every code is a string of digits and every abbreviation a word of capitals. */
  lemma CodesAreDigits()
    ensures forall i :: 0 <= i < |StateRows| ==> AllDigits(StateRows[i].0)
  {
  }

  lemma UfsAreUpperWords()
    ensures forall i :: 0 <= i < |StateRows| ==> UpperWord(StateRows[i].1.uf)
  {
  }

  /** The row of IBGE_TO_STATE a key comes from. */
  lemma StateRowOf(k: string) returns (i: int)
    requires k in IbgeToState
    ensures 0 <= i < |StateRows| && StateRows[i].0 == k && IbgeToState[k] == StateRows[i].1
    ensures StateRows[i].1.uf in StateToIbge && StateToIbge[StateRows[i].1.uf] == k
  {
    CodesDistinct();
    UfsDistinct();
    ToMapKeys(StateRows);
    i :| 0 <= i < |StateRows| && StateRows[i].0 == k;
    ToMapAt(StateRows, i);
    ToMapAt(UfRows, i);
  }

  /** The row of STATE_TO_IBGE a key comes from. */
  lemma UfRowOf(u: string) returns (i: int)
    requires u in StateToIbge
    ensures 0 <= i < |StateRows| && StateRows[i].1.uf == u && StateToIbge[u] == StateRows[i].0
    ensures StateRows[i].0 in IbgeToState && IbgeToState[StateRows[i].0] == StateRows[i].1
  {
    CodesDistinct();
    UfsDistinct();
    ToMapKeys(UfRows);
    i :| 0 <= i < |UfRows| && UfRows[i].0 == u;
    ToMapAt(StateRows, i);
    ToMapAt(UfRows, i);
  }

  /** STATE_TO_IBGE is exactly the inverse of the `uf` field of IBGE_TO_STATE. */
  lemma StateToIbgeInverts()
    ensures forall k :: k in IbgeToState ==>
      IbgeToState[k].uf in StateToIbge && StateToIbge[IbgeToState[k].uf] == k
    ensures forall u :: u in StateToIbge ==>
      StateToIbge[u] in IbgeToState && IbgeToState[StateToIbge[u]].uf == u
  {
    forall k | k in IbgeToState
      ensures IbgeToState[k].uf in StateToIbge && StateToIbge[IbgeToState[k].uf] == k
    {
      var i := StateRowOf(k);
    }
    forall u | u in StateToIbge
      ensures StateToIbge[u] in IbgeToState && IbgeToState[StateToIbge[u]].uf == u
    {
      var i := UfRowOf(u);
    }
  }

  /** Both dicts have 28 entries: 27 states and the whole country. */
  lemma TableSizes()
    ensures |IbgeToState| == 28 && |StateToIbge| == 28
  {
    CodesDistinct();
    UfsDistinct();
    ToMapSize(StateRows);
    ToMapSize(UfRows);
  }

  /** A code is never an abbreviation: codes are digits, abbreviations letters. */
  lemma KeysAreDigitsOrWords()
    ensures forall k :: k in IbgeToState ==> AllDigits(k)
    ensures forall u :: u in StateToIbge ==> UpperWord(u) && u !in IbgeToState
  {
    CodesAreDigits();
    UfsAreUpperWords();
    forall k | k in IbgeToState ensures AllDigits(k) {
      var i := StateRowOf(k);
    }
    forall u | u in StateToIbge ensures UpperWord(u) && u !in IbgeToState {
      var i := UfRowOf(u);
      assert !IsDigit(u[0]);
    }
  }

  // ---------------------------------------------------------------------------
  // validate_uf, validate_ibge_code, get_state_code
  // ---------------------------------------------------------------------------

  /** `validate_uf(uf)`: some state of the table has the upper-case form as its UF. */
  predicate ValidateUf(uf: string)
    ensures ValidateUf(uf) <==> exists k :: k in IbgeToState && IbgeToState[k].uf == Upper(uf)
  {
    StateToIbgeInverts();
    Upper(uf) in StateToIbge
  }

  /** `validate_ibge_code(code)`: the code is the key of a row of the table, so
      it is all digits. */
  predicate ValidateIbgeCode(code: string)
    ensures ValidateIbgeCode(code) <==> exists i :: 0 <= i < |StateRows| && StateRows[i].0 == code
    ensures ValidateIbgeCode(code) ==> AllDigits(code)
  {
    ToMapKeys(StateRows);
    CodesAreDigits();
    code in IbgeToState
  }

  /** Resolves an abbreviation (in any case) or a code to a code of IBGE_TO_STATE. */
  function GetStateCode(x: string): (r: Result<string>)
    ensures r.Success? ==> r.value in IbgeToState
    ensures ValidateIbgeCode(x) ==> r == Success(x)
    ensures !ValidateIbgeCode(x) && ValidateUf(x) ==>
      r.Success? && IbgeToState[r.value].uf == Upper(x)
    ensures r.Failure? <==> !ValidateIbgeCode(x) && !ValidateUf(x)
    ensures r.Failure? ==> r.error == ValueError("UF ou código IBGE inválido: " + x)
  {
    StateToIbgeInverts();
    if x in IbgeToState then Success(x)
    else if Upper(x) in StateToIbge then Success(StateToIbge[Upper(x)])
    else Failure(ValueError("UF ou código IBGE inválido: " + x))
  }

  /** The two validators decide `get_state_code`: a valid code resolves to
      itself, and otherwise the input resolves exactly when it is a valid UF. */
  lemma ValidatorsDecideResolution(x: string)
    ensures ValidateIbgeCode(x) ==> GetStateCode(x) == Success(x)
    ensures !ValidateIbgeCode(x) ==> (ValidateUf(x) <==> GetStateCode(x).Success?)
    ensures ValidateUf(x) ==> GetStateCode(x).Success?
  {
  }

  /** Resolving a resolved code gives it back. */
  lemma GetStateCodeIdempotent(x: string)
    requires GetStateCode(x).Success?
    ensures GetStateCode(GetStateCode(x).value) == GetStateCode(x)
  {
  }

  /** Case does not matter: "sp", "Sp" and "SP" resolve alike. */
  lemma GetStateCodeIgnoresCase(x: string)
    ensures GetStateCode(x).Success? <==> GetStateCode(Upper(x)).Success?
    ensures GetStateCode(x).Success? ==> GetStateCode(x).value == GetStateCode(Upper(x)).value
  {
    KeysAreDigitsOrWords();
    UpperIdempotent(x);
    if x in IbgeToState {
      UpperFixes(x);
    } else if Upper(x) in IbgeToState {
      UpperToDigits(x);
    }
  }

  /** A state's abbreviation resolves to its code, in any case. */
  lemma GetStateCodeOfUf(k: string, x: string)
    requires k in IbgeToState && Upper(x) == IbgeToState[k].uf
    ensures GetStateCode(x) == Success(k)
  {
    StateToIbgeInverts();
    KeysAreDigitsOrWords();
    assert UpperWord(Upper(x));
    assert !IsDigit(x[0]) by { assert Upper(x)[0] == UpperChar(x[0]); }
  }

  lemma GetStateCodeExample()
    ensures GetStateCode("35") == Success("35")
    ensures GetStateCode("sp") == Success("35") && GetStateCode("SP") == Success("35")
  {
    var i := 19;
    assert StateRows[i].0 == "35";
    ToMapAt(StateRows, i) by { CodesDistinct(); }
    assert Upper("sp") == "SP";
    GetStateCodeOfUf("35", "sp");
    GetStateCodeOfUf("35", "SP");
  }

  /** A string whose projection is not listed is not a key. */
  lemma NotACode(x: string)
    requires Lead(x) !in CodeLeads
    ensures x !in IbgeToState
  {
    CodeLeadsListed();
    ToMapKeys(StateRows);
    forall i | 0 <= i < |StateRows| ensures StateRows[i].0 != x {
      assert Lead(StateRows[i].0) == CodeLeads[i];
    }
  }

  lemma NotAnAbbreviation(u: string)
    requires Initials(u) !in UfInitials
    ensures u !in StateToIbge
  {
    UfInitialsListed();
    ToMapKeys(UfRows);
    forall i | 0 <= i < |UfRows| ensures UfRows[i].0 != u {
      assert Initials(UfRows[i].0) == UfInitials[i];
    }
  }

  /** An upper-case text that is neither a code nor an abbreviation is refused. */
  lemma Unresolvable(x: string)
    requires Upper(x) == x && Lead(x) !in CodeLeads && Initials(x) !in UfInitials
    ensures GetStateCode(x) == Failure(ValueError("UF ou código IBGE inválido: " + x))
  {
    NotACode(x);
    NotAnAbbreviation(x);
  }

  /** The ranges the projections of the table's keys fall in. */
  lemma ProjectionRanges()
    ensures forall i :: 0 <= i < |CodeLeads| ==> 211 <= CodeLeads[i] <= 253 || CodeLeads[i] == 310
    ensures forall i :: 0 <= i < |UfInitials| ==> 2 <= UfInitials[i] <= 508
  {
  }

  /** The unknown abbreviation "XX" and the unknown code "99" are refused. */
  lemma GetStateCodeRejects()
    ensures GetStateCode("XX") == Failure(ValueError("UF ou código IBGE inválido: XX"))
    ensures GetStateCode("99") == Failure(ValueError("UF ou código IBGE inválido: 99"))
  {
    var u, c := "XX", "99";
    ProjectionRanges();
    assert Upper(u) == u && Lead(u) == 640 && Initials(u) == 621;
    assert Upper(c) == c && Lead(c) == 299 && Initials(c) == -216;
    Unresolvable(u);
    Unresolvable(c);
  }

  // ---------------------------------------------------------------------------
  // get_state_info, get_filename_for_state
  // ---------------------------------------------------------------------------

  /** The dict get_state_info returns: a copy of the table record with `ibge_code` added. */
  datatype StateInfo = StateInfo(uf: string, name: string, region: string, ibgeCode: string)

  function InfoOf(code: string, rec: StateRecord): StateInfo {
    StateInfo(rec.uf, rec.name, rec.region, code)
  }

  function GetStateInfo(x: string): (r: Result<StateInfo>)
    ensures r.Success? <==> GetStateCode(x).Success?
    ensures r.Success? ==> r.value.ibgeCode == GetStateCode(x).value
    ensures r.Success? ==> IbgeToState[r.value.ibgeCode] == StateRecord(r.value.uf, r.value.name, r.value.region)
    ensures r.Failure? ==> r.error == GetStateCode(x).error
  {
    var code :- GetStateCode(x);
    Success(InfoOf(code, IbgeToState[code]))
  }

  /** The abbreviation of a state's info resolves back to the same info. */
  lemma GetStateInfoRoundTrip(x: string)
    requires GetStateInfo(x).Success?
    ensures GetStateInfo(GetStateInfo(x).value.uf) == GetStateInfo(x)
    ensures GetStateInfo(GetStateInfo(x).value.ibgeCode) == GetStateInfo(x)
  {
    var info := GetStateInfo(x).value;
    UfsAreUpperWords();
    var i := StateRowOf(info.ibgeCode);
    UpperFixes(info.uf);
    GetStateCodeOfUf(info.ibgeCode, info.uf);
  }

  const FilenamePrefix: string := "geojs-"
  const FilenameSuffix: string := "-mun.json"
  const GeojsonDirectory: string := "geojson"

  /** GEOJSON_FILENAME_PATTERN with `code` filled in. */
  function FilenameOf(code: string): string {
    FilenamePrefix + code + FilenameSuffix
  }

  function GetFilenameForState(x: string): (r: Result<string>)
    ensures r.Success? <==> GetStateCode(x).Success?
    ensures r.Success? ==> r.value == FilenameOf(GetStateCode(x).value)
    ensures r.Failure? ==> r.error == GetStateCode(x).error
  {
    var code :- GetStateCode(x);
    Success(FilenameOf(code))
  }

  /** Different codes name different files. */
  lemma FilenameOfInjective(a: string, b: string)
    requires FilenameOf(a) == FilenameOf(b)
    ensures a == b
  {
    assert a == FilenameOf(a)[|FilenamePrefix|..|FilenameOf(a)| - |FilenameSuffix|];
    assert b == FilenameOf(b)[|FilenamePrefix|..|FilenameOf(b)| - |FilenameSuffix|];
  }

  // ---------------------------------------------------------------------------
  // STATES_BY_REGION, REGION_TO_IBGE_CODES, get_states_by_region
  // ---------------------------------------------------------------------------

  /** The rows of the STATES_BY_REGION literal, in the order written. */
  const RegionRows: seq<(string, seq<string>)> := [
    ("Norte", ["RO", "AC", "AM", "RR", "PA", "AP", "TO"]),
    ("Nordeste", ["MA", "PI", "CE", "RN", "PB", "PE", "AL", "SE", "BA"]),
    ("Sudeste", ["MG", "ES", "RJ", "SP"]),
    ("Sul", ["PR", "SC", "RS"]),
    ("Centro-Oeste", ["MS", "MT", "GO", "DF"])
  ]

  const StatesByRegion: map<string, seq<string>> := ToMap(RegionRows)

  /** `STATES_BY_REGION.keys()`, in insertion order. */
  const RegionNames: seq<string> := KeysOf(RegionRows)

  /** The states of IBGE_TO_STATE are written region by region: group `g` is the
      slice of rows from RegionStarts[g] to RegionStarts[g + 1]. */
  const RegionStarts: seq<int> := [0, 7, 16, 20, 23, 27]

  /** Group `g` lists, in order, the abbreviations of its slice of the state
      table, and every state of that slice names the group as its region. */
  predicate GroupIsSlice(g: int)
    requires 0 <= g < |RegionRows|
  {
    && 0 <= RegionStarts[g] && RegionStarts[g] + |RegionRows[g].1| <= |StateRows|
    && forall i :: 0 <= i < |RegionRows[g].1| ==>
         && RegionRows[g].1[i] == StateRows[RegionStarts[g] + i].1.uf
         && StateRows[RegionStarts[g] + i].1.region == RegionRows[g].0
  }

  lemma NorteIsSlice() ensures GroupIsSlice(0) { }
  lemma NordesteIsSlice() ensures GroupIsSlice(1) { }
  lemma SudesteIsSlice() ensures GroupIsSlice(2) { }
  lemma SulIsSlice() ensures GroupIsSlice(3) { }
  lemma CentroOesteIsSlice() ensures GroupIsSlice(4) { }

  lemma GroupsAreSlices()
    ensures forall g :: 0 <= g < |RegionRows| ==> GroupIsSlice(g)
  {
    NorteIsSlice();
    NordesteIsSlice();
    SudesteIsSlice();
    SulIsSlice();
    CentroOesteIsSlice();
  }

  lemma RegionNamesListed()
    ensures RegionNames == ["Norte", "Nordeste", "Sudeste", "Sul", "Centro-Oeste"]
    ensures Distinct(RegionNames) && DistinctKeys(RegionRows)
  {
    DistinctKeysOf(RegionRows);
  }

  /** The group of a region name, with its place in the literal. */
  lemma RegionRowOf(name: string) returns (g: int)
    requires name in StatesByRegion
    ensures 0 <= g < |RegionRows| && RegionRows[g].0 == name && StatesByRegion[name] == RegionRows[g].1
  {
    RegionNamesListed();
    ToMapKeys(RegionRows);
    g :| 0 <= g < |RegionRows| && RegionRows[g].0 == name;
    ToMapAt(RegionRows, g);
  }

  /** Row `j` of the state table survives in both dicts, and its abbreviation resolves to its code. */
  lemma RowResolves(j: int)
    requires 0 <= j < |StateRows|
    ensures var (k, rec) := StateRows[j];
      k in IbgeToState && IbgeToState[k] == rec && rec.uf in StateToIbge && StateToIbge[rec.uf] == k &&
      GetStateCode(rec.uf) == Success(k)
  {
    CodesDistinct();
    UfsDistinct();
    ToMapAt(StateRows, j);
    ToMapAt(UfRows, j);
    UfsAreUpperWords();
    UpperFixes(StateRows[j].1.uf);
    GetStateCodeOfUf(StateRows[j].0, StateRows[j].1.uf);
  }

  /** Every grouped abbreviation is a state of that region, and resolves to it. */
  lemma GroupedUf(name: string, i: int)
    requires name in StatesByRegion && 0 <= i < |StatesByRegion[name]|
    ensures var u := StatesByRegion[name][i];
      u in StateToIbge && GetStateCode(u) == Success(StateToIbge[u]) &&
      IbgeToState[GetStateCode(u).value].region == name
  {
    var g := RegionRowOf(name);
    GroupsAreSlices();
    assert GroupIsSlice(g);
    RowResolves(RegionStarts[g] + i);
  }

  /** Each abbreviation sits in at most one group: the one its record names. */
  lemma GroupsAreDisjoint(a: string, b: string, u: string)
    requires a in StatesByRegion && b in StatesByRegion
    requires u in StatesByRegion[a] && u in StatesByRegion[b]
    ensures a == b
  {
    var i :| 0 <= i < |StatesByRegion[a]| && StatesByRegion[a][i] == u;
    var j :| 0 <= j < |StatesByRegion[b]| && StatesByRegion[b][j] == u;
    GroupedUf(a, i);
    GroupedUf(b, j);
  }

  /** "BR" belongs to no group. */
  lemma BrazilInNoGroup(name: string)
    requires name in StatesByRegion
    ensures "BR" !in StatesByRegion[name]
  {
    var g := RegionRowOf(name);
    GroupsAreSlices();
    assert GroupIsSlice(g);
    UfsDistinct();
    var lo := RegionStarts[g];
    assert lo + |StatesByRegion[name]| <= 27 by { assert RegionStarts[g + 1] <= 27; }
    assert UfRows[27].0 == "BR";
    forall i | 0 <= i < |StatesByRegion[name]| ensures StatesByRegion[name][i] != "BR" {
      assert UfRows[lo + i].0 != UfRows[27].0;
    }
  }

  /** Every state other than the whole country is listed in the group of its region. */
  lemma EveryStateGrouped(k: string)
    requires k in IbgeToState && k != BrazilCode
    ensures IbgeToState[k].region in StatesByRegion
    ensures IbgeToState[k].uf in StatesByRegion[IbgeToState[k].region]
  {
    var j := StateRowOf(k);
    assert j < 27;
    var g := if j < 7 then 0 else if j < 16 then 1 else if j < 20 then 2 else if j < 23 then 3 else 4;
    GroupOfRow(g, j);
  }

  lemma GroupOfRow(g: int, j: int)
    requires 0 <= g < |RegionRows| && RegionStarts[g] <= j < RegionStarts[g + 1]
    ensures StateRows[j].1.region in StatesByRegion
    ensures StateRows[j].1.uf in StatesByRegion[StateRows[j].1.region]
  {
    GroupsAreSlices();
    assert GroupIsSlice(g);
    assert |RegionRows[g].1| == RegionStarts[g + 1] - RegionStarts[g];
    RegionNamesListed();
    ToMapAt(RegionRows, g);
    assert RegionRows[g].1[j - RegionStarts[g]] == StateRows[j].1.uf;
  }

  /** The list comprehension `[get_state_info(uf) for uf in ufs]`: it succeeds when
      every lookup does, and then holds their infos in order. */
  function InfoList(ufs: seq<string>): (r: Result<seq<StateInfo>>)
    ensures r.Success? <==> forall i :: 0 <= i < |ufs| ==> GetStateInfo(ufs[i]).Success?
    ensures r.Success? ==> |r.value| == |ufs|
    ensures r.Success? ==> forall i :: 0 <= i < |ufs| ==>
      GetStateInfo(ufs[i]).Success? && r.value[i] == GetStateInfo(ufs[i]).value
    decreases |ufs|
  {
    if |ufs| == 0 then Success([])
    else
      var head :- GetStateInfo(ufs[0]);
      var tail :- InfoList(ufs[1..]);
      assert forall i :: 0 < i < |ufs| ==> ufs[i] == ufs[1..][i - 1];
      Success([head] + tail)
  }

  /** The comprehension raises the error of the first lookup that fails. */
  lemma {:induction false} InfoListFirstError(ufs: seq<string>, k: int)
    requires 0 <= k < |ufs| && GetStateInfo(ufs[k]).Failure?
    requires forall j :: 0 <= j < k ==> GetStateInfo(ufs[j]).Success?
    ensures InfoList(ufs) == Failure(GetStateInfo(ufs[k]).error)
    decreases |ufs|
  {
    if k > 0 {
      assert forall j :: 0 <= j < k - 1 ==> ufs[1..][j] == ufs[j + 1];
      InfoListFirstError(ufs[1..], k - 1);
    }
  }

  function GetStatesByRegion(region: string): (r: Result<seq<StateInfo>>)
    ensures r.Failure? <==> region !in StatesByRegion
    ensures r.Failure? ==>
      r.error == ValueError("Região inválida: " + region + ". Regiões válidas: " + Join(RegionNames, ", "))
    ensures r.Success? ==> |r.value| == |StatesByRegion[region]|
    ensures r.Success? ==> forall i :: 0 <= i < |r.value| ==>
      r.value[i].uf == StatesByRegion[region][i] && r.value[i].region == region &&
      GetStateInfo(StatesByRegion[region][i]) == Success(r.value[i])
  {
    if region !in StatesByRegion then
      Failure(ValueError("Região inválida: " + region + ". Regiões válidas: " + Join(RegionNames, ", ")))
    else
      var ufs := StatesByRegion[region];
      assert forall i :: 0 <= i < |ufs| ==>
        GetStateInfo(ufs[i]).Success? && GetStateInfo(ufs[i]).value.uf == ufs[i] &&
        GetStateInfo(ufs[i]).value.region == region by {
        forall i | 0 <= i < |ufs|
          ensures GetStateInfo(ufs[i]).Success? && GetStateInfo(ufs[i]).value.uf == ufs[i]
          ensures GetStateInfo(ufs[i]).value.region == region
        {
          GroupedUf(region, i);
          StateToIbgeInverts();
        }
      }
      InfoList(ufs)
  }

  lemma GetStatesByRegionSul()
    ensures GetStatesByRegion("Sul").Success?
    ensures var r := GetStatesByRegion("Sul").value;
      |r| == 3 && r[0].uf == "PR" && r[1].uf == "SC" && r[2].uf == "RS"
  {
    var g := 3;
    RegionNamesListed();
    ToMapAt(RegionRows, g);
  }

  /** The codes of a group, in the group's order; every grouped abbreviation is a key. */
  function RegionCodes(ufs: seq<string>): seq<string>
    requires forall i :: 0 <= i < |ufs| ==> ufs[i] in StateToIbge
  {
    seq(|ufs|, i requires 0 <= i < |ufs| => StateToIbge[ufs[i]])
  }

  function RegionCodeRows(): (rows: seq<(string, seq<string>)>)
    ensures |rows| == |RegionRows|
    ensures forall g :: 0 <= g < |rows| ==> rows[g].0 == RegionRows[g].0
  {
    assert forall g, i :: 0 <= g < |RegionRows| && 0 <= i < |RegionRows[g].1| ==>
      RegionRows[g].1[i] in StateToIbge by {
      forall g, i | 0 <= g < |RegionRows| && 0 <= i < |RegionRows[g].1|
        ensures RegionRows[g].1[i] in StateToIbge
      {
        RegionNamesListed();
        ToMapAt(RegionRows, g);
        GroupedUf(RegionRows[g].0, i);
      }
    }
    seq(|RegionRows|, g requires 0 <= g < |RegionRows| => (RegionRows[g].0, RegionCodes(RegionRows[g].1)))
  }

  const RegionToIbgeCodes: map<string, seq<string>> := ToMap(RegionCodeRows())

  /** REGION_TO_IBGE_CODES lists, for each region, the codes of its group's states in order. */
  lemma RegionToIbgeCodesAgree(name: string)
    requires name in StatesByRegion
    ensures name in RegionToIbgeCodes
    ensures |RegionToIbgeCodes[name]| == |StatesByRegion[name]|
    ensures forall i :: 0 <= i < |StatesByRegion[name]| ==>
      var c := RegionToIbgeCodes[name][i];
      c in IbgeToState && IbgeToState[c].uf == StatesByRegion[name][i] && IbgeToState[c].region == name
  {
    var g := RegionRowOf(name);
    var rows := RegionCodeRows();
    RegionNamesListed();
    assert KeysOf(rows) == KeysOf(RegionRows);
    DistinctKeysOf(rows);
    ToMapAt(rows, g);
    forall i | 0 <= i < |StatesByRegion[name]|
      ensures var c := RegionToIbgeCodes[name][i];
        c in IbgeToState && IbgeToState[c].uf == StatesByRegion[name][i] && IbgeToState[c].region == name
    {
      GroupedUf(name, i);
      StateToIbgeInverts();
    }
  }

  // ---------------------------------------------------------------------------
  // get_all_states, get_total_states
  // ---------------------------------------------------------------------------

  function CodesOf(infos: seq<StateInfo>): seq<string> {
    seq(|infos|, i requires 0 <= i < |infos| => infos[i].ibgeCode)
  }

  /** Every element of a permutation of the codes is a code. */
  lemma SortedCodesAreKeys()
    ensures |Sort(Codes)| == 28
    ensures forall i :: 0 <= i < |Sort(Codes)| ==> Sort(Codes)[i] in IbgeToState
  {
    var codes := Sort(Codes);
    ToMapKeys(StateRows);
    forall i | 0 <= i < |codes| ensures codes[i] in IbgeToState {
      assert codes[i] in multiset(Codes);
      var j :| 0 <= j < |Codes| && Codes[j] == codes[i];
      assert StateRows[j].0 == codes[i];
    }
    assert |codes| == |multiset(codes)| == |multiset(Codes)| == |Codes|;
  }

  /** The info of every entry, in the string order of the codes. */
  function GetAllStates(): (r: seq<StateInfo>)
    ensures |r| == 28
    ensures Sorted(CodesOf(r)) && multiset(CodesOf(r)) == multiset(Codes)
    ensures forall i :: 0 <= i < |r| ==> GetStateInfo(r[i].ibgeCode) == Success(r[i])
  {
    var codes := Sort(Codes);
    SortedCodesAreKeys();
    var r := seq(|codes|, i requires 0 <= i < |codes| => InfoOf(codes[i], IbgeToState[codes[i]]));
    assert CodesOf(r) == codes;
    r
  }

  /** "100" sorts before every other code as a string, so the whole country comes first. */
  lemma GetAllStatesStartsWithBrazil()
    ensures GetAllStates()[0].ibgeCode == BrazilCode
  {
    var r := CodesOf(GetAllStates());
    CodeLeadsListed();
    assert forall i :: 0 <= i < |Codes| ==> LexLeq(BrazilCode, Codes[i]) by {
      BrazilFirst();
    }
    assert BrazilCode in multiset(r) by { assert Codes[27] == BrazilCode; }
    var j :| 0 <= j < |r| && r[j] == BrazilCode;
    assert r[0] in multiset(Codes);
    LexLeqTotal(r[0], r[0]);
    LexLeqAntisymmetric(r[0], BrazilCode);
  }

  lemma BrazilFirst()
    ensures forall i :: 0 <= i < |Codes| ==> LexLeq(BrazilCode, Codes[i])
  {
  }

  /** The number of states, the whole country excluded. */
  function GetTotalStates(): (n: int)
    ensures n == 27
  {
    TableSizes();
    |IbgeToState| - 1
  }
}
