/**
 * The geometry index of the page: `build_geometries` turns the features of
 * the loaded GeoJSON collection into named records, the list of tooltip
 * fields and the sorted list of region names; the tooltip guard of the map
 * view keeps the tooltip fields the first feature carries and otherwise
 * falls back to one key that every feature carries.
 *
 * A feature's geometry is kept abstract (type parameter `G`): the geometry
 * library's `shape` and `prep` are not modelled, and what the hit test asks
 * of a geometry is supplied by the caller (see module HitTesting).
 */
module GeometryIndex {
  import opened Wrappers
  import opened Order

  /** A feature's `properties` object, its values taken as strings. */
  type Props = map<string, string>

  /** One GeoJSON feature as loaded: `properties` may be absent or null. */
  datatype RawFeature<G> = RawFeature(properties: Option<Props>, geometry: G)

  /** The loaded collection: the `features` key may be absent. */
  datatype GeoJson<G> = GeoJson(features: Option<seq<RawFeature<G>>>)

  /** One entry of `feats`: the resolved name, the geometry and the properties. */
  datatype FeatureRecord<G> = FeatureRecord(name: string, geom: G, props: Props)

  /**
   * The property keys tried, in this order, for a region's name; the same
   * tuple is the preference order of the tooltip fields.
   */
  const NAME_KEYS: seq<string> := ["name", "GEN", "NAME_1", "NAME", "id"]

  /** The name given to a feature none of whose name keys has a value. */
  const UNKNOWN_NAME: string := "Unbekannt"

  /** `geojson.get("features", [])`. */
  function FeaturesOf<G>(geojson: GeoJson<G>): seq<RawFeature<G>> {
    geojson.features.GetOr([])
  }

  /** `f.get("properties") or {}`. */
  function PropsOf<G>(f: RawFeature<G>): Props {
    f.properties.GetOr(map[])
  }

  /** `props.get(k)` read for its truth value: a missing key reads as the empty, false value. */
  function Lookup(props: Props, k: string): string {
    if k in props then props[k] else ""
  }

  /**
   * The `or` chain `props.get(k0) or props.get(k1) or ...`: the value of the
   * first key whose value is non-empty, if any.
   */
  function FirstNonEmpty(props: Props, keys: seq<string>): (r: Option<string>)
    ensures r.None? <==> forall i :: 0 <= i < |keys| ==> Lookup(props, keys[i]) == ""
    ensures r.Some? ==>
      exists i :: (0 <= i < |keys| && r.value == Lookup(props, keys[i]) && r.value != "" &&
        forall j :: 0 <= j < i ==> Lookup(props, keys[j]) == "")
  {
    if keys == [] then None
    else if Lookup(props, keys[0]) != "" then Some(Lookup(props, keys[0]))
    else
      var r := FirstNonEmpty(props, keys[1..]);
      assert r.Some? ==> exists i :: (1 <= i < |keys| && r.value == Lookup(props, keys[i]) && r.value != "" &&
        forall j :: 1 <= j < i ==> Lookup(props, keys[j]) == "") by {
        if r.Some? {
          var i :| 0 <= i < |keys[1..]| && r.value == Lookup(props, keys[1..][i]) && r.value != "" &&
            forall j :: 0 <= j < i ==> Lookup(props, keys[1..][j]) == "";
          assert keys[1..][i] == keys[i + 1];
          assert forall j :: 1 <= j < i + 1 ==> keys[1..][j - 1] == keys[j];
        }
      }
      r
  }

  /**
   * The region name of a feature with properties `props`: the first non-empty
   * value among the `NAME_KEYS`, otherwise `UNKNOWN_NAME`. It is never empty.
   */
  function ResolveName(props: Props): (r: string)
    ensures r != ""
    ensures (forall i :: 0 <= i < |NAME_KEYS| ==> Lookup(props, NAME_KEYS[i]) == "") ==> r == UNKNOWN_NAME
    ensures forall i ::
      (0 <= i < |NAME_KEYS| && Lookup(props, NAME_KEYS[i]) != "" &&
       forall j :: 0 <= j < i ==> Lookup(props, NAME_KEYS[j]) == "") ==> r == Lookup(props, NAME_KEYS[i])
  {
    FirstNonEmpty(props, NAME_KEYS).GetOr(UNKNOWN_NAME)
  }

  /** `a` occurs in `b` with its order kept (not necessarily contiguously). */
  predicate IsSubsequence(a: seq<string>, b: seq<string>)
    decreases |b|
  {
    if a == [] then true
    else if b == [] then false
    else if a[0] == b[0] then IsSubsequence(a[1..], b[1..])
    else IsSubsequence(a, b[1..])
  }

  /** `[k for k in xs if k in keep]`. */
  function Filter(xs: seq<string>, keep: set<string>): (r: seq<string>)
    ensures IsSubsequence(r, xs)
    ensures forall k :: k in r <==> k in xs && k in keep
  {
    if xs == [] then []
    else if xs[0] in keep then [xs[0]] + Filter(xs[1..], keep)
    else Filter(xs[1..], keep)
  }

  /** The comprehension keeps every occurrence of a kept key and drops every other key. */
  lemma {:induction false} FilterCounts(xs: seq<string>, keep: set<string>, k: string)
    ensures multiset(Filter(xs, keep))[k] == if k in keep then multiset(xs)[k] else 0
  {
    if xs != [] {
      FilterCounts(xs[1..], keep, k);
      assert xs == [xs[0]] + xs[1..];
    }
  }

  /** The union of the property keys of all features (`available`). */
  function AllKeys<G>(feats: seq<FeatureRecord<G>>): (r: set<string>)
    ensures forall k :: k in r <==> exists i :: 0 <= i < |feats| && k in feats[i].props
  {
    if feats == [] then {}
    else
      var rest := AllKeys(feats[1..]);
      assert forall k :: k in rest <==> exists i :: 1 <= i < |feats| && k in feats[i].props by {
        forall k | k in rest ensures exists i :: 1 <= i < |feats| && k in feats[i].props {
          var i :| 0 <= i < |feats[1..]| && k in feats[1..][i].props;
          assert feats[1..][i] == feats[i + 1];
        }
        forall k | (exists i :: 1 <= i < |feats| && k in feats[i].props) ensures k in rest {
          var i :| 1 <= i < |feats| && k in feats[i].props;
          assert feats[1..][i - 1] == feats[i];
        }
      }
      feats[0].props.Keys + rest
  }

  /**
   * `tooltip_fields`: the preferred keys, in their preference order, that some
   * feature carries; there are none when there are no features.
   */
  function TooltipFields<G>(feats: seq<FeatureRecord<G>>): (r: seq<string>)
    ensures IsSubsequence(r, NAME_KEYS)
    ensures forall k :: k in r <==> k in NAME_KEYS && exists i :: 0 <= i < |feats| && k in feats[i].props
    ensures feats == [] ==> r == []
  {
    var r := Filter(NAME_KEYS, AllKeys(feats));
    assert r != [] ==> r[0] in r;
    r
  }

  /**
   * `[n for n in names if n]`: the non-empty names, each as often as it occurs,
   * in their order.
   */
  function NonEmpty(names: seq<string>): (r: seq<string>)
    ensures "" !in r
    ensures forall x :: x != "" ==> multiset(r)[x] == multiset(names)[x]
    ensures "" !in names ==> r == names
    ensures IsSubsequence(r, names)
  {
    if names == [] then []
    else
      assert names == [names[0]] + names[1..];
      if names[0] != "" then [names[0]] + NonEmpty(names[1..]) else NonEmpty(names[1..])
  }

  /** The names of the records, in order. */
  function Names<G>(feats: seq<FeatureRecord<G>>): (r: seq<string>)
    ensures |r| == |feats| && forall i :: 0 <= i < |feats| ==> r[i] == feats[i].name
  {
    seq(|feats|, i requires 0 <= i < |feats| => feats[i].name)
  }

  /**
   * `build_geometries` without the bounding box: one record per feature, in
   * input order, named by `ResolveName`; the tooltip fields; and `state_names`,
   * every record's name in sorted order with repetitions kept.
   */
  method BuildGeometries<G>(geojson: GeoJson<G>)
    returns (feats: seq<FeatureRecord<G>>, tooltipFields: seq<string>, stateNames: seq<string>)
    ensures |feats| == |FeaturesOf(geojson)|
    ensures forall i :: 0 <= i < |feats| ==>
      && feats[i].props == PropsOf(FeaturesOf(geojson)[i])
      && feats[i].geom == FeaturesOf(geojson)[i].geometry
      && feats[i].name == ResolveName(feats[i].props)
    ensures IsSubsequence(tooltipFields, NAME_KEYS)
    ensures forall k :: k in tooltipFields <==> k in NAME_KEYS && exists i :: 0 <= i < |feats| && k in feats[i].props
    ensures feats == [] ==> tooltipFields == []
    ensures Sorted(stateNames)
    ensures multiset(stateNames) == multiset(Names(feats))
    ensures "" !in stateNames
  {
    var raw := FeaturesOf(geojson);
    feats := [];
    var names := [];
    for i := 0 to |raw|
      invariant |feats| == i && |names| == i
      invariant forall j :: 0 <= j < i ==> names[j] == feats[j].name
      invariant forall j :: 0 <= j < i ==>
        && feats[j].props == PropsOf(raw[j])
        && feats[j].geom == raw[j].geometry
        && feats[j].name == ResolveName(feats[j].props)
    {
      var props := PropsOf(raw[i]);
      var name := ResolveName(props);
      feats := feats + [FeatureRecord(name, raw[i].geometry, props)];
      names := names + [name];
    }
    assert names == Names(feats);
    tooltipFields := TooltipFields(feats);
    var named := NonEmpty(names);
    assert "" !in names;
    stateNames := Sort(named);
    assert "" in stateNames ==> "" in multiset(names);
  }

  /** Key `k` is among the properties of every record. */
  ghost predicate InAll<G>(feats: seq<FeatureRecord<G>>, k: string) {
    forall i :: 0 <= i < |feats| ==> k in feats[i].props
  }

  /**
   * The tooltip guard of the map view (`safe_fields`): the tooltip fields the
   * first feature carries; failing those, one key every feature carries (which
   * one is left open, as the source takes an arbitrary member of a set), or
   * none when no key is common to all features or there are no features.
   */
  method SafeTooltipFields<G>(feats: seq<FeatureRecord<G>>, tooltipFields: seq<string>)
    returns (safe: seq<string>)
    ensures feats == [] ==> safe == []
    ensures feats != [] && Filter(tooltipFields, feats[0].props.Keys) != [] ==>
      safe == Filter(tooltipFields, feats[0].props.Keys)
    ensures feats != [] && Filter(tooltipFields, feats[0].props.Keys) == [] ==>
      && |safe| <= 1
      && (safe == [] <==> forall k :: !InAll(feats, k))
      && forall i :: 0 <= i < |safe| ==> InAll(feats, safe[i])
  {
    if feats == [] {
      return [];
    }
    safe := Filter(tooltipFields, feats[0].props.Keys);
    if safe == [] {
      var common := feats[0].props.Keys;
      for i := 1 to |feats|
        invariant forall k :: k in common <==> InAll(feats[..i], k)
      {
        assert forall k :: InAll(feats[..i + 1], k) <==> InAll(feats[..i], k) && k in feats[i].props by {
          assert forall j :: 0 <= j < i ==> feats[..i + 1][j] == feats[..i][j];
          assert feats[..i + 1][i] == feats[i];
        }
        common := common * feats[i].props.Keys;
      }
      assert feats[..|feats|] == feats;
      if common != {} {
        var k :| k in common;
        safe := [k];
      }
    }
  }
}
