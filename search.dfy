/** The feature searches and projections over a list of GeoJSON features:
    `search_features_by_name`, `search_features_by_ibge`,
    `extract_municipality_names` and `extract_municipality_ids`. */
module Search {
  import opened Wrappers
  import opened Json
  import opened Text
  import opened Normalize

  /** `feature.get("properties", {})`. */
  function Props(f: Json): Json {
    Get(f, "properties", JObj([]))
  }

  /** `props.get("name", "")`. */
  function NameOf(f: Json): Json {
    Get(Props(f), "name", JStr(""))
  }

  /** The name as text for normalisation; a name that is no string reads as "". */
  function NameText(f: Json): string {
    StrOr(NameOf(f), "")
  }

  /** `props.get("id")`: a missing id is `None`. */
  function IdOf(f: Json): Json {
    Get(Props(f), "id", JNull)
  }

  /** Exact mode: the name equals the term, case and accents included. */
  predicate ExactMatch(f: Json, term: string) {
    NameOf(f) == JStr(term)
  }

  /** Normalised mode, given the normalised term: either normalised text contains the other. */
  predicate FuzzyMatch(f: Json, normalizedTerm: string) {
    var n := Normalized(NameText(f));
    Contains(n, normalizedTerm) || Contains(normalizedTerm, n)
  }

  predicate Matches(f: Json, term: string, exact: bool) {
    if exact then ExactMatch(f, term) else FuzzyMatch(f, Normalized(term))
  }

  /** The elements of `s` that satisfy `p`, in order. */
  function Filter<T>(s: seq<T>, p: T -> bool): seq<T>
    decreases |s|
  {
    if |s| == 0 then []
    else Filter(s[..|s| - 1], p) + (if p(s[|s| - 1]) then [s[|s| - 1]] else [])
  }

  /** The positions of the elements of `s` that satisfy `p`, ascending. */
  function FilterIndices<T>(s: seq<T>, p: T -> bool): (idx: seq<nat>)
    ensures forall k :: 0 <= k < |idx| ==> idx[k] < |s|
    ensures forall k, l :: 0 <= k < l < |idx| ==> idx[k] < idx[l]
    ensures forall i :: 0 <= i < |s| ==> (i in idx <==> p(s[i]))
    decreases |s|
  {
    if |s| == 0 then []
    else
      var n := |s| - 1;
      var init := FilterIndices(s[..n], p);
      assert forall i :: 0 <= i < n ==> s[..n][i] == s[i];
      init + (if p(s[n]) then [n] else [])
  }

  /** The filter is the input restricted to the satisfying positions: an
      order-preserving subsequence holding every such element and nothing else. */
  lemma {:induction false} FilterAtIndices<T>(s: seq<T>, p: T -> bool)
    ensures var idx := FilterIndices(s, p);
      |Filter(s, p)| == |idx| &&
      forall k :: 0 <= k < |idx| ==> Filter(s, p)[k] == s[idx[k]]
    decreases |s|
  {
    if |s| > 0 {
      var n := |s| - 1;
      FilterAtIndices(s[..n], p);
      var idx0 := FilterIndices(s[..n], p);
      forall k | 0 <= k < |idx0|
        ensures Filter(s, p)[k] == s[idx0[k]]
      {
        assert Filter(s, p)[k] == Filter(s[..n], p)[k];
      }
    }
  }

  /** The filter keeps every copy of each satisfying element and no other. */
  lemma {:induction false} FilterCount<T>(s: seq<T>, p: T -> bool, x: T)
    ensures multiset(Filter(s, p))[x] == if p(x) then multiset(s)[x] else 0
    decreases |s|
  {
    if |s| > 0 {
      var n := |s| - 1;
      FilterCount(s[..n], p, x);
      assert s == s[..n] + [s[n]];
    }
  }

  lemma FilterSound<T>(s: seq<T>, p: T -> bool)
    ensures forall i :: 0 <= i < |Filter(s, p)| ==> p(Filter(s, p)[i])
  {
    forall i | 0 <= i < |Filter(s, p)|
      ensures p(Filter(s, p)[i])
    {
      FilterCount(s, p, Filter(s, p)[i]);
    }
  }

  lemma FilterMembers<T>(s: seq<T>, p: T -> bool, x: T)
    requires x in s && p(x)
    ensures x in Filter(s, p)
  {
    FilterCount(s, p, x);
    assert x in multiset(s);
  }

  lemma MultisetExt<T>(a: multiset<T>, b: multiset<T>)
    requires forall x :: a[x] == b[x]
    ensures a == b
  {
  }

  /** Filtering two orderings of the same elements gives two orderings of the same result. */
  lemma FilterPermutation<T>(a: seq<T>, b: seq<T>, p: T -> bool)
    requires multiset(a) == multiset(b)
    ensures multiset(Filter(a, p)) == multiset(Filter(b, p))
  {
    var ma, mb := multiset(Filter(a, p)), multiset(Filter(b, p));
    forall x
      ensures ma[x] == mb[x]
    {
      FilterCount(a, p, x);
      FilterCount(b, p, x);
    }
    MultisetExt(ma, mb);
  }

  /** The first element kept is the first element that satisfies `p`, and nothing
      is kept exactly when nothing satisfies it. */
  lemma FilterFirst<T>(s: seq<T>, p: T -> bool)
    ensures |Filter(s, p)| == 0 <==> forall i :: 0 <= i < |s| ==> !p(s[i])
    ensures |Filter(s, p)| > 0 ==> exists i :: (0 <= i < |s| && Filter(s, p)[0] == s[i] && p(s[i]) &&
      forall j :: 0 <= j < i ==> !p(s[j]))
  {
    FilterAtIndices(s, p);
    var idx := FilterIndices(s, p);
    if |idx| > 0 {
      var i := idx[0];
      forall j | 0 <= j < i
        ensures !p(s[j])
      {
        assert forall k :: 0 <= k < |idx| ==> idx[k] >= i;
        assert j !in idx;
      }
    } else {
      forall i | 0 <= i < |s|
        ensures !p(s[i])
      {
        assert i !in idx;
      }
    }
  }

  /** The search's test as a function of the feature. */
  function MatchesOf(term: string, exact: bool): Json -> bool {
    f => Matches(f, term, exact)
  }

  /** The features `search_features_by_name` keeps, in input order. */
  function Selected(fs: seq<Json>, term: string, exact: bool): seq<Json> {
    Filter(fs, MatchesOf(term, exact))
  }

  /** `search_features_by_name(features, search_term, exact)`. */
  method SearchFeaturesByName(features: seq<Json>, searchTerm: string, exact: bool)
    returns (results: seq<Json>)
    ensures results == Selected(features, searchTerm, exact)
  {
    results := [];
    if exact {
      for i := 0 to |features|
        invariant results == Selected(features[..i], searchTerm, exact)
      {
        assert features[..i + 1][..i] == features[..i];
        var name := NameOf(features[i]);
        if name == JStr(searchTerm) {
          results := results + [features[i]];
        }
      }
    } else {
      var normalizedSearch := NormalizeText(searchTerm);
      for i := 0 to |features|
        invariant results == Selected(features[..i], searchTerm, exact)
      {
        assert features[..i + 1][..i] == features[..i];
        var normalizedName := NormalizeText(NameText(features[i]));
        if Contains(normalizedName, normalizedSearch) || Contains(normalizedSearch, normalizedName) {
          results := results + [features[i]];
        }
      }
    }
    assert features[..|features|] == features;
  }

  /** An exact match is also a normalised match. */
  lemma ExactImpliesFuzzy(f: Json, term: string)
    requires Matches(f, term, true)
    ensures Matches(f, term, false)
  {
    ContainsSelf(Normalized(term));
  }

  /** Every position the exact search keeps, the normalised search keeps too. */
  lemma ExactWithinFuzzy(fs: seq<Json>, term: string)
    ensures forall i :: i in FilterIndices(fs, MatchesOf(term, true)) ==> i in FilterIndices(fs, MatchesOf(term, false))
  {
    forall i | i in FilterIndices(fs, MatchesOf(term, true))
      ensures i in FilterIndices(fs, MatchesOf(term, false))
    {
      ExactImpliesFuzzy(fs[i], term);
    }
  }

  lemma NormalizedEmpty()
    ensures Normalized("") == ""
  {
    assert Fold("", Replacements) == "";
    assert Lower("") == "";
  }

  /** A feature without a name normalises to "", which every normalised term contains. */
  lemma MissingNameMatches(f: Json, term: string)
    requires !Has(Props(f), "name")
    ensures Matches(f, term, false)
  {
    NormalizedEmpty();
    ContainsEmpty(Normalized(term));
  }

  /** A filter whose test every element passes keeps the whole sequence. */
  lemma {:induction false} FilterKeepsAll<T>(s: seq<T>, p: T -> bool)
    requires forall i :: 0 <= i < |s| ==> p(s[i])
    ensures Filter(s, p) == s
    decreases |s|
  {
    if |s| > 0 {
      var n := |s| - 1;
      FilterKeepsAll(s[..n], p);
      assert s[..n] + [s[n]] == s;
    }
  }

  /** The normalised search for an empty term keeps every feature. */
  lemma EmptyTermKeepsAll(fs: seq<Json>)
    ensures Selected(fs, "", false) == fs
  {
    var term := "";
    NormalizedEmpty();
    forall i | 0 <= i < |fs|
      ensures MatchesOf(term, false)(fs[i])
    {
      ContainsEmpty(Normalized(NameText(fs[i])));
    }
    FilterKeepsAll(fs, MatchesOf(term, false));
  }

  /** Position of the first feature whose id equals `code`, or `|fs|` when none does. */
  function FirstIdIndex(fs: seq<Json>, code: string): (r: nat)
    ensures r <= |fs|
    ensures r < |fs| ==> IdOf(fs[r]) == JStr(code)
    ensures forall j :: 0 <= j < r ==> IdOf(fs[j]) != JStr(code)
    decreases |fs|
  {
    if |fs| == 0 then 0
    else if IdOf(fs[0]) == JStr(code) then 0
    else
      var r := FirstIdIndex(fs[1..], code);
      assert forall j :: 1 <= j < |fs| ==> fs[j] == fs[1..][j - 1];
      r + 1
  }

  /** A matching position with no match before it is the first one. */
  lemma FirstIdIndexAt(fs: seq<Json>, code: string, i: nat)
    requires i < |fs| && IdOf(fs[i]) == JStr(code)
    requires forall j :: 0 <= j < i ==> IdOf(fs[j]) != JStr(code)
    ensures FirstIdIndex(fs, code) == i
  {
  }

  /** What `search_features_by_ibge` returns. */
  function FindById(fs: seq<Json>, code: string): (r: Option<Json>)
    ensures r.None? <==> forall i :: 0 <= i < |fs| ==> IdOf(fs[i]) != JStr(code)
    ensures r.Some? ==> IdOf(r.value) == JStr(code) && r.value == fs[FirstIdIndex(fs, code)]
  {
    var k := FirstIdIndex(fs, code);
    if k < |fs| then Some(fs[k]) else None
  }

  /** `search_features_by_ibge(features, ibge_code)`: the loop that returns the first match. */
  method SearchFeaturesByIbge(features: seq<Json>, ibgeCode: string) returns (r: Option<Json>)
    ensures r == FindById(features, ibgeCode)
  {
    var i := 0;
    while i < |features|
      invariant 0 <= i <= |features|
      invariant forall j :: 0 <= j < i ==> IdOf(features[j]) != JStr(ibgeCode)
    {
      var props := Props(features[i]);
      if Get(props, "id", JNull) == JStr(ibgeCode) {
        FirstIdIndexAt(features, ibgeCode, i);
        return Some(features[i]);
      }
      i := i + 1;
    }
    return None;
  }

  /** `extract_municipality_names(features)`: one name per feature, "" when missing. */
  function ExtractNames(fs: seq<Json>): (r: seq<Json>)
    ensures |r| == |fs|
    ensures forall i :: 0 <= i < |fs| ==> r[i] == Get(Props(fs[i]), "name", JStr(""))
  {
    seq(|fs|, i requires 0 <= i < |fs| => NameOf(fs[i]))
  }

  /** `extract_municipality_ids(features)`: one id per feature, "" when missing. */
  function ExtractIds(fs: seq<Json>): (r: seq<Json>)
    ensures |r| == |fs|
    ensures forall i :: 0 <= i < |fs| ==> r[i] == Get(Props(fs[i]), "id", JStr(""))
  {
    seq(|fs|, i requires 0 <= i < |fs| => Get(Props(fs[i]), "id", JStr("")))
  }

  /** The exact search keeps as many features as the name list holds copies of the term. */
  lemma {:induction false} ExactCountsNames(fs: seq<Json>, term: string)
    ensures |Selected(fs, term, true)| == multiset(ExtractNames(fs))[JStr(term)]
    decreases |fs|
  {
    if |fs| > 0 {
      var n := |fs| - 1;
      ExactCountsNames(fs[..n], term);
      assert ExtractNames(fs) == ExtractNames(fs[..n]) + [NameOf(fs[n])];
    }
  }

  /** For a non-empty code, the id search finds nothing exactly when the code is not
      among the extracted ids, and what it finds sits at the code's first position there. */
  lemma IdsAgreeWithSearch(fs: seq<Json>, code: string)
    requires code != ""
    ensures FindById(fs, code).None? <==> JStr(code) !in ExtractIds(fs)
    ensures FindById(fs, code).Some? ==>
      var k := FirstIdIndex(fs, code);
      k < |fs| && ExtractIds(fs)[k] == JStr(code) &&
      forall j :: 0 <= j < k ==> ExtractIds(fs)[j] != JStr(code)
  {
    var ids := ExtractIds(fs);
    forall i | 0 <= i < |fs|
      ensures ids[i] == JStr(code) <==> IdOf(fs[i]) == JStr(code)
    {
      if !Has(Props(fs[i]), "id") {
        assert ids[i] == JStr("");
      }
    }
  }

  /** The two defaults disagree: a feature without an id is listed with id "", yet
      searching for "" does not find it, because the search compares against `None`. */
  lemma MissingIdDefaults(f: Json)
    requires !Has(Props(f), "id")
    ensures ExtractIds([f]) == [JStr("")]
    ensures FindById([f], "") == None
  {
  }
}
