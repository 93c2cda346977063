/**
 * The map-click hit test: the click point is tested against each record in
 * list order, and the name of the first record that accepts it is the hit.
 *
 * The geometry library is not modelled. Its three calls are supplied as
 * functions of a geometry and the click point, each either returning a
 * truth value or raising; the tiny buffer around the point (radius 1e-6)
 * and the prepared geometry are inside those functions.
 */
module HitTesting {
  import opened Wrappers
  import opened GeometryIndex

  /** The click coordinate, as `Point(lon, lat)` is built from it. */
  datatype Point = Point(lon: real, lat: real)

  /** The outcome of one call into the geometry library. */
  datatype Call = Returns(b: bool) | Raises

  /** The three containment calls the test makes for a record. */
  datatype Probes<!G> = Probes(
    prepIntersectsBuffer: (G, Point) -> Call,  // `d["prep"].intersects(buf)`
    contains: (G, Point) -> Call,              // `d["geom"].contains(pt)`
    intersectsBuffer: (G, Point) -> Call)      // `d["geom"].intersects(buf)`

  /**
   * The condition `prep.intersects(buf) and (geom.contains(pt) or geom.intersects(buf))`
   * evaluated as Python does: left to right, stopping as soon as the value is
   * known, and raising when a call that is reached raises.
   */
  function Condition<G>(p: Probes<G>, g: G, pt: Point): (r: Call)
    ensures r == Returns(true) <==>
      && p.prepIntersectsBuffer(g, pt) == Returns(true)
      && (p.contains(g, pt) == Returns(true) ||
          (p.contains(g, pt) == Returns(false) && p.intersectsBuffer(g, pt) == Returns(true)))
    ensures p.prepIntersectsBuffer(g, pt) == Returns(false) ==> r == Returns(false)
    ensures (p.prepIntersectsBuffer(g, pt).Returns? && p.contains(g, pt).Returns? && p.intersectsBuffer(g, pt).Returns?) ==>
      r == Returns(p.prepIntersectsBuffer(g, pt).b && (p.contains(g, pt).b || p.intersectsBuffer(g, pt).b))
  {
    match p.prepIntersectsBuffer(g, pt)
    case Raises => Raises
    case Returns(false) => Returns(false)
    case Returns(true) =>
      match p.contains(g, pt)
      case Raises => Raises
      case Returns(true) => Returns(true)
      case Returns(false) => p.intersectsBuffer(g, pt)
  }

  /** The record accepts the click: its condition holds and nothing raised. */
  predicate Accepts<G>(p: Probes<G>, d: FeatureRecord<G>, pt: Point) {
    Condition(p, d.geom, pt) == Returns(true)
  }

  /**
   * The hit: the name of the first record, in list order, that accepts the
   * click, or none when no record does. A record whose test raises counts as
   * not accepting.
   */
  function FirstHit<G>(feats: seq<FeatureRecord<G>>, p: Probes<G>, pt: Point): (r: Option<string>)
    ensures r.None? <==> forall i :: 0 <= i < |feats| ==> !Accepts(p, feats[i], pt)
    ensures r.Some? ==>
      exists i :: (0 <= i < |feats| && Accepts(p, feats[i], pt) && r.value == feats[i].name &&
        forall j :: 0 <= j < i ==> !Accepts(p, feats[j], pt))
  {
    if feats == [] then None
    else if Accepts(p, feats[0], pt) then Some(feats[0].name)
    else
      var r := FirstHit(feats[1..], p, pt);
      assert forall i :: 1 <= i < |feats| ==> feats[1..][i - 1] == feats[i];
      assert r.Some? ==> exists i :: (1 <= i < |feats| && Accepts(p, feats[i], pt) && r.value == feats[i].name &&
        forall j :: 1 <= j < i ==> !Accepts(p, feats[j], pt)) by {
        if r.Some? {
          var i :| 0 <= i < |feats[1..]| && Accepts(p, feats[1..][i], pt) && r.value == feats[1..][i].name &&
            forall j :: 0 <= j < i ==> !Accepts(p, feats[1..][j], pt);
          assert feats[1..][i] == feats[i + 1];
        }
      }
      r
  }

  /**
   * First match wins: when record `i` accepts the click and no earlier record
   * does, the hit is record `i`'s name, whatever later records answer.
   */
  lemma {:induction false} EarliestAcceptingWins<G>(feats: seq<FeatureRecord<G>>, p: Probes<G>, pt: Point, i: nat)
    requires i < |feats| && Accepts(p, feats[i], pt)
    requires forall j :: 0 <= j < i ==> !Accepts(p, feats[j], pt)
    ensures FirstHit(feats, p, pt) == Some(feats[i].name)
  {
    if i > 0 {
      assert forall j :: 0 <= j < i - 1 ==> feats[1..][j] == feats[j + 1];
      EarliestAcceptingWins(feats[1..], p, pt, i - 1);
    }
  }

  /**
   * A record whose test raises is a miss for that record only: the hit is the
   * same as if the record were not in the list.
   */
  lemma {:induction false} RaisingRecordIsSkipped<G>(feats: seq<FeatureRecord<G>>, p: Probes<G>, pt: Point, k: nat)
    requires k < |feats| && Condition(p, feats[k].geom, pt) == Raises
    ensures FirstHit(feats, p, pt) == FirstHit(feats[..k] + feats[k + 1..], p, pt)
  {
    if k == 0 {
      assert feats[..0] + feats[1..] == feats[1..];
    } else {
      var rest := feats[..k] + feats[k + 1..];
      assert rest[0] == feats[0];
      assert rest[1..] == feats[1..][..k - 1] + feats[1..][k..];
      RaisingRecordIsSkipped(feats[1..], p, pt, k - 1);
    }
  }

  /**
   * The loop of the click handler: tries each record, swallows a raising
   * test as a miss, and stops at the first record that accepts the click.
   */
  method HitTest<G>(feats: seq<FeatureRecord<G>>, p: Probes<G>, pt: Point) returns (hit: Option<string>)
    ensures hit == FirstHit(feats, p, pt)
  {
    hit := None;
    var i := 0;
    while i < |feats|
      invariant 0 <= i <= |feats| && hit == None
      invariant FirstHit(feats, p, pt) == FirstHit(feats[i..], p, pt)
    {
      var d := feats[i];
      var outcome := Condition(p, d.geom, pt);
      if outcome == Returns(true) {
        hit := Some(d.name);
        break;
      }
      // a `Returns(false)` or an exception: on to the next record
      assert feats[i..][1..] == feats[i + 1..];
      i := i + 1;
    }
  }
}
