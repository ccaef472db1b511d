/** `get_feature_bounds`: the bounding box of a feature's geometry, found by
    flattening its nested coordinate lists down to positions. */
module Bounds {
  import opened Wrappers
  import opened Json

  /** `flatten_coords(coords)`: a list whose first element is a number is one
      position; any other non-empty list is flattened element by element. A value
      that is no list holds no positions. */
  function Flatten(coords: Json): (r: seq<seq<Json>>)
    ensures forall k :: 0 <= k < |r| ==> |r[k]| > 0 && IsNumber(r[k][0])
    decreases coords, 1
  {
    if !coords.JArr? || |coords.items| == 0 then []
    else if IsNumber(coords.items[0]) then [coords.items]
    else FlattenItems(coords.items)
  }

  /** The loop of `flatten_coords` that extends the result item by item. */
  function FlattenItems(items: seq<Json>): (r: seq<seq<Json>>)
    ensures forall k :: 0 <= k < |r| ==> |r[k]| > 0 && IsNumber(r[k][0])
    decreases items, 0
  {
    if |items| == 0 then []
    else FlattenItems(items[..|items| - 1]) + Flatten(items[|items| - 1])
  }

  /** A list whose first element is a number: one position of `flatten_coords`. */
  predicate IsPosition(j: Json) {
    j.JArr? && |j.items| > 0 && IsNumber(j.items[0])
  }

  /** Flattening a concatenation flattens each part, in order: the loop of
      `flatten_coords` extends the result item by item and drops nothing. */
  lemma {:induction false} FlattenItemsAppend(a: seq<Json>, b: seq<Json>)
    ensures FlattenItems(a + b) == FlattenItems(a) + FlattenItems(b)
    decreases |b|
  {
    if |b| == 0 {
      assert a + b == a;
    } else {
      var c := a + b;
      var init := b[..|b| - 1];
      assert c[..|c| - 1] == a + init;
      assert c[|c| - 1] == b[|b| - 1];
      FlattenItemsAppend(a, init);
    }
  }

  /** A list of positions flattens to exactly those positions, in order. */
  lemma {:induction false} FlattenPositions(items: seq<Json>)
    requires forall i :: 0 <= i < |items| ==> IsPosition(items[i])
    ensures |FlattenItems(items)| == |items|
    ensures forall i :: 0 <= i < |items| ==> items[i].JArr? && FlattenItems(items)[i] == items[i].items
    decreases |items|
  {
    if |items| > 0 {
      var init := items[..|items| - 1];
      FlattenPositions(init);
      assert Flatten(items[|items| - 1]) == [items[|items| - 1].items];
    }
  }

  /** Every position found under any item, however deep, is in the result: the
      item's own positions form one contiguous block of it. */
  lemma FlattenKeepsItem(items: seq<Json>, i: int)
    requires 0 <= i < |items|
    ensures forall p :: p in Flatten(items[i]) ==> p in FlattenItems(items)
    ensures IsPosition(items[i]) ==> items[i].items in FlattenItems(items)
  {
    var pre, post := items[..i], items[i + 1..];
    assert items == pre + [items[i]] + post;
    FlattenItemsAppend(pre + [items[i]], post);
    FlattenItemsAppend(pre, [items[i]]);
    assert FlattenItems([items[i]]) == FlattenItems([]) + Flatten(items[i]);
  }

  type Point = (real, real)

  /** A flattened position with at least two components and a numeric second
      component contributes a (longitude, latitude) point. */
  predicate Usable(c: seq<Json>) {
    |c| >= 2 && IsNumber(c[0]) && IsNumber(c[1])
  }

  function PointOf(c: seq<Json>): Point
    requires Usable(c)
  {
    (NumValue(c[0]), NumValue(c[1]))
  }

  /** The points of the flattened positions that carry two coordinates, in order. */
  function Points(cs: seq<seq<Json>>): (ps: seq<Point>)
    ensures forall k :: 0 <= k < |ps| ==> exists i :: 0 <= i < |cs| && Usable(cs[i]) && ps[k] == PointOf(cs[i])
    ensures forall i :: 0 <= i < |cs| && Usable(cs[i]) ==> PointOf(cs[i]) in ps
    ensures |ps| == 0 <==> forall i :: 0 <= i < |cs| ==> !Usable(cs[i])
    decreases |cs|
  {
    if |cs| == 0 then []
    else
      var n := |cs| - 1;
      var init := Points(cs[..n]);
      assert forall i :: 0 <= i < n ==> cs[..n][i] == cs[i];
      init + (if Usable(cs[n]) then [PointOf(cs[n])] else [])
  }

  /** `idx` picks out, in increasing order, exactly the usable positions of `cs`,
      and `ps` holds their points. */
  predicate PicksUsable(ps: seq<Point>, cs: seq<seq<Json>>, idx: seq<nat>) {
    |idx| == |ps| &&
    (forall j :: 0 <= j < |idx| ==> idx[j] < |cs| && Usable(cs[idx[j]]) && ps[j] == PointOf(cs[idx[j]])) &&
    (forall j, k :: 0 <= j < k < |idx| ==> idx[j] < idx[k]) &&
    (forall i :: 0 <= i < |cs| && Usable(cs[i]) ==> i in idx)
  }

  /** The last position keeps the indices of the others: its index is added
      when it is usable. */
  lemma PicksUsableSnoc(ps: seq<Point>, cs: seq<seq<Json>>, idx: seq<nat>)
    requires |cs| > 0 && PicksUsable(ps, cs[..|cs| - 1], idx)
    ensures Usable(cs[|cs| - 1]) ==> PicksUsable(ps + [PointOf(cs[|cs| - 1])], cs, idx + [|cs| - 1])
    ensures !Usable(cs[|cs| - 1]) ==> PicksUsable(ps, cs, idx)
  {
    var init := cs[..|cs| - 1];
    assert forall i :: 0 <= i < |init| ==> init[i] == cs[i];
  }

  /** The points are exactly the usable positions' points, in order: the `j`-th
      point comes from the position at `idx[j]`, the indices increase, and every
      usable position has its index in `idx`. */
  lemma {:induction false} PointsIndices(cs: seq<seq<Json>>) returns (idx: seq<nat>)
    ensures PicksUsable(Points(cs), cs, idx)
    decreases |cs|
  {
    if |cs| == 0 {
      idx := [];
    } else {
      var n := |cs| - 1;
      var prev := PointsIndices(cs[..n]);
      PicksUsableSnoc(Points(cs[..n]), cs, prev);
      idx := if Usable(cs[n]) then prev + [n] else prev;
    }
  }

  /** `min(xs)`. */
  function Min(xs: seq<real>): (m: real)
    requires |xs| > 0
    ensures m in xs && forall i :: 0 <= i < |xs| ==> m <= xs[i]
    decreases |xs|
  {
    if |xs| == 1 then xs[0]
    else
      var m := Min(xs[1..]);
      assert forall i :: 1 <= i < |xs| ==> xs[i] == xs[1..][i - 1];
      if xs[0] <= m then xs[0] else m
  }

  /** `max(xs)`. */
  function Max(xs: seq<real>): (m: real)
    requires |xs| > 0
    ensures m in xs && forall i :: 0 <= i < |xs| ==> xs[i] <= m
    decreases |xs|
  {
    if |xs| == 1 then xs[0]
    else
      var m := Max(xs[1..]);
      assert forall i :: 1 <= i < |xs| ==> xs[i] == xs[1..][i - 1];
      if m <= xs[0] then xs[0] else m
  }

  function Lons(ps: seq<Point>): (r: seq<real>)
    ensures |r| == |ps| && forall i :: 0 <= i < |ps| ==> r[i] == ps[i].0
  {
    seq(|ps|, i requires 0 <= i < |ps| => ps[i].0)
  }

  function Lats(ps: seq<Point>): (r: seq<real>)
    ensures |r| == |ps| && forall i :: 0 <= i < |ps| ==> r[i] == ps[i].1
  {
    seq(|ps|, i requires 0 <= i < |ps| => ps[i].1)
  }

  /** (min_lon, min_lat, max_lon, max_lat). */
  datatype Box = Box(minLon: real, minLat: real, maxLon: real, maxLat: real)

  predicate Inside(p: Point, b: Box) {
    b.minLon <= p.0 <= b.maxLon && b.minLat <= p.1 <= b.maxLat
  }

  /** `b` is the smallest box holding every point of `ps`: each point lies
      inside and each edge is touched by some point. */
  predicate IsBoundingBox(b: Box, ps: seq<Point>) {
    b.minLon <= b.maxLon && b.minLat <= b.maxLat &&
    (forall i :: 0 <= i < |ps| ==> Inside(ps[i], b)) &&
    (exists i :: 0 <= i < |ps| && ps[i].0 == b.minLon) &&
    (exists i :: 0 <= i < |ps| && ps[i].1 == b.minLat) &&
    (exists i :: 0 <= i < |ps| && ps[i].0 == b.maxLon) &&
    (exists i :: 0 <= i < |ps| && ps[i].1 == b.maxLat)
  }

  /** `(min(lons), min(lats), max(lons), max(lats))`. */
  function BoxOf(ps: seq<Point>): (b: Box)
    requires |ps| > 0
    ensures IsBoundingBox(b, ps)
  {
    var lons := Lons(ps);
    var lats := Lats(ps);
    Box(Min(lons), Min(lats), Max(lons), Max(lats))
  }

  /** `feature["geometry"]["coordinates"]`, defaulting to `{}` and `[]`. */
  function CoordinatesOf(feature: Json): Json {
    Get(Get(feature, "geometry", JObj([])), "coordinates", JArr([]))
  }

  /** The points that enter the bounding box of a feature. */
  function UsablePoints(feature: Json): seq<Point> {
    Points(Flatten(CoordinatesOf(feature)))
  }

  /** `get_feature_bounds(feature)`: no box when the feature has no usable
      position, otherwise the bounding box of the usable positions. */
  function GetFeatureBounds(feature: Json): (r: Option<Box>)
    ensures r.None? <==> |UsablePoints(feature)| == 0
    ensures r.Some? ==> IsBoundingBox(r.value, UsablePoints(feature))
  {
    var coordinates := CoordinatesOf(feature);
    if !Truthy(coordinates) then
      assert Flatten(coordinates) == [];
      None
    else
      var ps := Points(Flatten(coordinates));
      if |ps| == 0 then None else Some(BoxOf(ps))
  }

  const ExampleA := [JNum(1.0), JNum(2.0)]
  const ExampleB := [JNum(3.0)]
  const ExampleC := [JNum(5.0), JNum(-1.0)]
  const ExampleRing := JArr([JArr(ExampleA), JArr(ExampleB), JArr(ExampleC)])

  lemma FlattenExample()
    ensures Flatten(JArr([ExampleRing])) == [ExampleA, ExampleB, ExampleC]
  {
    var a, b, c := JArr(ExampleA), JArr(ExampleB), JArr(ExampleC);
    assert [a, b, c][..2] == [a, b];
    assert [a, b][..1] == [a];
    assert FlattenItems([a]) == [ExampleA];
    assert FlattenItems([a, b]) == [ExampleA, ExampleB];
    assert FlattenItems([a, b, c]) == [ExampleA, ExampleB, ExampleC];
    assert Flatten(ExampleRing) == FlattenItems([a, b, c]);
    assert FlattenItems([ExampleRing]) == Flatten(ExampleRing);
  }

  lemma PointsExample()
    ensures Points([ExampleA, ExampleB, ExampleC]) == [(1.0, 2.0), (5.0, -1.0)]
  {
    var cs := [ExampleA, ExampleB, ExampleC];
    assert Usable(ExampleA) && PointOf(ExampleA) == (1.0, 2.0);
    assert !Usable(ExampleB);
    assert Usable(ExampleC) && PointOf(ExampleC) == (5.0, -1.0);
    assert cs[..2] == [ExampleA, ExampleB];
    assert cs[..2][..1] == [ExampleA];
    assert [ExampleA][..0] == [];
    assert Points([ExampleA]) == [(1.0, 2.0)];
    assert Points([ExampleA, ExampleB]) == [(1.0, 2.0)];
  }

  lemma BoxExample()
    ensures BoxOf([(1.0, 2.0), (5.0, -1.0)]) == Box(1.0, -1.0, 5.0, 2.0)
  {
    var ps := [(1.0, 2.0), (5.0, -1.0)];
    assert Lons(ps) == [1.0, 5.0];
    assert Lats(ps) == [2.0, -1.0];
  }

  /** A polygon ring with a one-component position in it: the short position is
      skipped and the box spans the others. */
  lemma BoundsExample()
    ensures GetFeatureBounds(JObj([("geometry", JObj([("coordinates", JArr([ExampleRing]))]))]))
      == Some(Box(1.0, -1.0, 5.0, 2.0))
  {
    var feature := JObj([("geometry", JObj([("coordinates", JArr([ExampleRing]))]))]);
    assert CoordinatesOf(feature) == JArr([ExampleRing]);
    FlattenExample();
    PointsExample();
    BoxExample();
  }
}
