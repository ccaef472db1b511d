/** `validate_geojson_structure`, `count_features` and `get_geojson_summary`. */
module Validate {
  import opened Wrappers
  import opened Json

  /** The six geometry kinds the validator accepts. */
  const GeometryKinds: seq<string> :=
    ["Point", "LineString", "Polygon", "MultiPoint", "MultiLineString", "MultiPolygon"]

  /** How the unknown-type message renders a `type` value: a string as itself,
      `None`, `True` and `False` as Python prints them, anything else as "?". */
  function TypeText(t: Json): string {
    match t
    case JStr(s) => s
    case JNull => "None"
    case JBool(b) => if b then "True" else "False"
    case _ => "?"
  }

  /** The declarative reading of a well-formed document: the fields each kind needs. */
  predicate WellFormed(data: Json) {
    Has(data, "type") &&
    var t := Get(data, "type", JNull);
    (t == JStr("FeatureCollection") && Has(data, "features") && Get(data, "features", JNull).JArr?) ||
    (t == JStr("Feature") && Has(data, "geometry") && Has(data, "properties")) ||
    (IsGeometryKind(t) && Has(data, "coordinates"))
  }

  predicate IsGeometryKind(t: Json) {
    t.JStr? && t.s in GeometryKinds
  }

  /** A `type` the validator recognises. */
  predicate KnownType(t: Json) {
    t == JStr("FeatureCollection") || t == JStr("Feature") || IsGeometryKind(t)
  }

  /** `validate_geojson_structure(data)`: (is_valid, error_message). */
  function ValidateStructure(data: Json): (r: (bool, Option<string>))
    ensures r.1.None? <==> r.0
    ensures !Has(data, "type") ==> r.1 == Some("Missing 'type' field")
    ensures Has(data, "type") && !KnownType(Get(data, "type", JNull)) ==>
      r.1 == Some("Unknown GeoJSON type: " + TypeText(Get(data, "type", JNull)))
    ensures Has(data, "type") && Get(data, "type", JNull) == JStr("FeatureCollection") ==>
      r == if !Has(data, "features") then (false, Some("FeatureCollection missing 'features' field"))
           else if !Get(data, "features", JNull).JArr? then (false, Some("'features' must be a list"))
           else (true, None)
    ensures Has(data, "type") && Get(data, "type", JNull) == JStr("Feature") ==>
      r == if !Has(data, "geometry") then (false, Some("Feature missing 'geometry' field"))
           else if !Has(data, "properties") then (false, Some("Feature missing 'properties' field"))
           else (true, None)
    ensures Has(data, "type") && IsGeometryKind(Get(data, "type", JNull)) ==>
      r == if !Has(data, "coordinates")
           then (false, Some(Get(data, "type", JNull).s + " missing 'coordinates' field"))
           else (true, None)
  {
    if !Has(data, "type") then (false, Some("Missing 'type' field"))
    else
      var t := Get(data, "type", JNull);
      if t == JStr("FeatureCollection") then
        if !Has(data, "features") then (false, Some("FeatureCollection missing 'features' field"))
        else if !Get(data, "features", JNull).JArr? then (false, Some("'features' must be a list"))
        else (true, None)
      else if t == JStr("Feature") then
        if !Has(data, "geometry") then (false, Some("Feature missing 'geometry' field"))
        else if !Has(data, "properties") then (false, Some("Feature missing 'properties' field"))
        else (true, None)
      else if IsGeometryKind(t) then
        if !Has(data, "coordinates") then (false, Some(t.s + " missing 'coordinates' field"))
        else (true, None)
      else
        (false, Some("Unknown GeoJSON type: " + TypeText(t)))
  }

  /** The three groups of type names do not overlap. */
  lemma KindsDistinct()
    ensures JStr("Feature") != JStr("FeatureCollection")
    ensures !IsGeometryKind(JStr("Feature")) && !IsGeometryKind(JStr("FeatureCollection"))
  {
    assert |"Feature"| != |"FeatureCollection"|;
    assert forall k :: 0 <= k < |GeometryKinds| ==> GeometryKinds[k][0] != 'F';
  }

  /** The validator accepts exactly the well-formed documents. */
  lemma ValidIffWellFormed(data: Json)
    ensures ValidateStructure(data).0 <==> WellFormed(data)
  {
    KindsDistinct();
  }

  /** `count_features(geojson_data)`. */
  function CountFeatures(data: Json): (n: nat)
    ensures Get(data, "type", JNull) == JStr("FeatureCollection") ==>
      n == Len(Get(data, "features", JArr([])))
    ensures Get(data, "type", JNull) == JStr("Feature") ==> n == 1
    ensures Get(data, "type", JNull) !in {JStr("FeatureCollection"), JStr("Feature")} ==> n == 0
  {
    var t := Get(data, "type", JNull);
    if t == JStr("FeatureCollection") then Len(Get(data, "features", JArr([])))
    else if t == JStr("Feature") then 1
    else 0
  }

  /** A well-formed collection counts exactly the entries of its feature list. */
  lemma CountOfValidCollection(data: Json)
    requires ValidateStructure(data).0 && Get(data, "type", JNull) == JStr("FeatureCollection")
    ensures CountFeatures(data) == |Get(data, "features", JNull).items|
  {
    assert Get(data, "features", JArr([])) == Get(data, "features", JNull);
  }

  /** Every document the validator accepts counts 0, 1 or its list length, by kind. */
  lemma CountOfValid(data: Json)
    requires ValidateStructure(data).0
    ensures var t := Get(data, "type", JNull);
      t == JStr("Feature") ==> CountFeatures(data) == 1
    ensures var t := Get(data, "type", JNull);
      t != JStr("Feature") && t != JStr("FeatureCollection") ==> CountFeatures(data) == 0
  {
  }

  /** `feature.get("geometry", {}).get("type")`. */
  function GeometryTypeOf(feature: Json): Json {
    Get(Get(feature, "geometry", JObj([])), "type", JNull)
  }

  /** The distinct truthy geometry types of a feature list. */
  function GeometryTypes(features: seq<Json>): (ts: set<Json>)
    ensures forall t :: t in ts <==>
      (Truthy(t) && exists i :: 0 <= i < |features| && GeometryTypeOf(features[i]) == t)
  {
    set i | 0 <= i < |features| && Truthy(GeometryTypeOf(features[i])) :: GeometryTypeOf(features[i])
  }

  /** Adding one feature adds its type when that type is truthy. */
  lemma GeometryTypesSnoc(fs: seq<Json>, f: Json)
    ensures GeometryTypes(fs + [f]) ==
      GeometryTypes(fs) + (if Truthy(GeometryTypeOf(f)) then {GeometryTypeOf(f)} else {})
  {
    var g := fs + [f];
    assert forall i :: 0 <= i < |fs| ==> g[i] == fs[i];
    assert g[|fs|] == f;
  }

  /** The dictionary `get_geojson_summary` returns; a key it does not set is `None`. */
  datatype Summary = Summary(
    typ: Json,
    featureCount: nat,
    availableProperties: Option<seq<string>>,
    geometryTypes: Option<set<Json>>)

  /** What `get_geojson_summary(geojson_data)` returns. */
  function SummaryOf(data: Json): Summary {
    var typ := Get(data, "type", JStr("Unknown"));
    var count := CountFeatures(data);
    var features := Get(data, "features", JArr([]));
    if typ == JStr("FeatureCollection") && features.JArr? && |features.items| > 0 then
      var fs := features.items;
      Summary(typ, count, Some(Keys(Get(fs[0], "properties", JObj([])))), Some(GeometryTypes(fs)))
    else
      Summary(typ, count, None, None)
  }

  /** The loop of `get_geojson_summary` that adds each truthy geometry type to a set. */
  method CollectGeometryTypes(fs: seq<Json>) returns (geometryTypes: set<Json>)
    ensures geometryTypes == GeometryTypes(fs)
  {
    geometryTypes := {};
    for i := 0 to |fs|
      invariant geometryTypes == GeometryTypes(fs[..i])
    {
      assert fs[..i + 1] == fs[..i] + [fs[i]];
      GeometryTypesSnoc(fs[..i], fs[i]);
      var geomType := GeometryTypeOf(fs[i]);
      if Truthy(geomType) {
        geometryTypes := geometryTypes + {geomType};
      }
    }
    assert fs[..|fs|] == fs;
  }

  /** `get_geojson_summary(geojson_data)`. */
  method GetGeojsonSummary(data: Json) returns (summary: Summary)
    ensures summary == SummaryOf(data)
  {
    var geojsonType := Get(data, "type", JStr("Unknown"));
    var featureCount := CountFeatures(data);
    summary := Summary(geojsonType, featureCount, None, None);
    if geojsonType == JStr("FeatureCollection") {
      var features := Get(data, "features", JArr([]));
      if features.JArr? && |features.items| > 0 {
        var firstProps := Get(features.items[0], "properties", JObj([]));
        var geometryTypes := CollectGeometryTypes(features.items);
        summary := summary.(availableProperties := Some(Keys(firstProps)),
                            geometryTypes := Some(geometryTypes));
      }
    }
  }

  /** The summary's count is `count_features`, its type defaults to "Unknown",
      and no empty or missing geometry type is listed. */
  lemma SummaryFacts(data: Json)
    ensures SummaryOf(data).featureCount == CountFeatures(data)
    ensures !Has(data, "type") ==> SummaryOf(data).typ == JStr("Unknown")
    ensures SummaryOf(data).geometryTypes.Some? ==>
      JNull !in SummaryOf(data).geometryTypes.value && JStr("") !in SummaryOf(data).geometryTypes.value
    ensures SummaryOf(data).availableProperties.Some? <==>
      Get(data, "type", JNull) == JStr("FeatureCollection") && Has(data, "features") &&
      Truthy(Get(data, "features", JNull)) && Get(data, "features", JNull).JArr?
  {
  }
}
