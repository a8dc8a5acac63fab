/**
 * The off-screen indicators of the map component
 * (src/components/common/map/index.tsx). For every marker outside the map's
 * bounds, `updateIndicators` finds where the ray from the centre pixel toward
 * the marker's pixel leaves the inset frame and builds a descriptor: that
 * point, the arrow's rotation, the formatted distance and the marker's id and
 * caption.
 *
 * What the component asks of Leaflet, and `Math.atan2`, cannot be seen here;
 * they are function-valued parameters: a `Viewport` snapshot of the map and
 * an `atan2` function.
 */
module Indicators {
  import opened Wrappers
  import opened Models
  import opened Sequences
  import Geometry
  import StringUtils

  /** The queries `updateIndicators` makes of the Leaflet map instance, at one moment. */
  datatype Viewport = Viewport(
    size: Point,                           // map.getSize()
    center: LatLng,                        // map.getCenter()
    contains: LatLng -> bool,              // map.getBounds().contains
    toContainerPoint: LatLng -> Point,     // map.latLngToContainerPoint
    distanceTo: (LatLng, LatLng) -> real)  // LatLng.prototype.distanceTo, in metres

  /** Math.PI. */
  const Pi: real := 3.141592653589793

  /** The arrow's rotation in degrees: the direction from `center` to `point`, turned so 0 points up. */
  function Rotation(atan2: (real, real) -> real, center: Point, point: Point): real
  {
    atan2(point.y - center.y, point.x - center.x) * 180.0 / Pi + 90.0
  }

  /** Where the indicator of a marker at `position` sits, if it crosses the frame. */
  function Crossing(view: Viewport, position: LatLng): Option<Point>
  {
    var centerPt := view.toContainerPoint(view.center);
    var point := view.toContainerPoint(position);
    Geometry.NearestCrossing(centerPt.x, centerPt.y, point.x, point.y, view.size.x, view.size.y)
  }

  /**
   * One turn of the forEach: no indicator for a marker inside the bounds or
   * for one whose ray meets no edge, otherwise the descriptor.
   */
  function IndicatorFor(view: Viewport, atan2: (real, real) -> real, m: MapMarker): (r: Option<IndicatorInfo>)
    ensures r.Some? <==> !view.contains(m.position) && Crossing(view, m.position).Some?
    ensures r.Some? ==>
              && r.value.id == m.id && r.value.caption == m.caption
              && Point(r.value.x, r.value.y) == Crossing(view, m.position).value
              && r.value.rotation == Rotation(atan2, view.toContainerPoint(view.center), view.toContainerPoint(m.position))
              && r.value.distance == StringUtils.FormatDistance(view.distanceTo(view.center, m.position))
  {
    if view.contains(m.position) then None
    else
      match Crossing(view, m.position)
      case None => None
      case Some(p) =>
        var centerPt := view.toContainerPoint(view.center);
        var point := view.toContainerPoint(m.position);
        Some(IndicatorInfo(
          m.id, p.x, p.y,
          Rotation(atan2, centerPt, point),
          StringUtils.FormatDistance(view.distanceTo(view.center, m.position)),
          m.caption))
  }

  /** IndicatorFor as a function value, the body of the forEach. */
  function IndicatorFn(view: Viewport, atan2: (real, real) -> real): MapMarker -> Option<IndicatorInfo>
  {
    m => IndicatorFor(view, atan2, m)
  }

  /** The descriptors the forEach pushes for `ms`, in order. */
  function Project(view: Viewport, atan2: (real, real) -> real, ms: seq<MapMarker>): seq<IndicatorInfo>
  {
    FilterMap(IndicatorFn(view, atan2), ms)
  }

  /** The markers that get an indicator, in order. */
  function Shown(view: Viewport, atan2: (real, real) -> real, ms: seq<MapMarker>): seq<MapMarker>
  {
    Kept(IndicatorFn(view, atan2), ms)
  }

  /** The indicators state after updateIndicators, given the map instance (if any) and the latest markers. */
  function Recompute(mapInstance: Option<Viewport>, atan2: (real, real) -> real, ms: seq<MapMarker>): (r: seq<IndicatorInfo>)
    ensures mapInstance.None? || ms == [] ==> r == []
    ensures |r| <= |ms|
  {
    if mapInstance.None? then []
    else if |ms| == 0 then []
    else
      FilterMapLength(IndicatorFn(mapInstance.value, atan2), ms);
      Project(mapInstance.value, atan2, ms)
  }

  function IndicatorIds(ins: seq<IndicatorInfo>): seq<string>
  {
    MapSeq((ind: IndicatorInfo) => ind.id, ins)
  }

  /**
   * The arrow function the forEach runs for one marker, given the centre
   * pixel computed before the loop: skip a marker inside the bounds, skip one
   * whose ray meets no edge, otherwise build the descriptor to push.
   */
  method Visit(view: Viewport, atan2: (real, real) -> real, centerPt: Point, marker: MapMarker)
    returns (pushed: Option<IndicatorInfo>)
    requires centerPt == view.toContainerPoint(view.center)
    ensures pushed == IndicatorFor(view, atan2, marker)
  {
    var size := view.size;
    var centerLL := view.center;
    var latLng := marker.position;
    if view.contains(latLng) {
      return None;
    }

    var point := view.toContainerPoint(latLng);
    var intersection := Geometry.IntersectWithRect(centerPt.x, centerPt.y, point.x, point.y, size.x, size.y);
    if intersection.None? {
      IndicatorForSkipped(view, atan2, marker);
      return None;
    }

    var angleDeg := atan2(point.y - centerPt.y, point.x - centerPt.x) * 180.0 / Pi;
    var rotation := angleDeg + 90.0;

    var distance := StringUtils.FormatDistance(view.distanceTo(centerLL, latLng));

    var indicator := IndicatorInfo(marker.id, intersection.value.x, intersection.value.y,
                                   rotation, distance, marker.caption);
    IndicatorForPushed(view, atan2, marker, indicator);
    return Some(indicator);
  }

  /**
   * The map component's mutable cells: mapRef, latestMarkersRef and the
   * indicators state. The markers layer is created and dropped together with
   * the map, so it is not a separate cell here.
   */
  class Maps {
    var mapInstance: Option<Viewport>
    var latestMarkers: seq<MapMarker>
    var indicators: seq<IndicatorInfo>

    /** The first render: no map yet, the markers prop in latestMarkersRef, no indicators. */
    constructor (markers: seq<MapMarker>)
      ensures mapInstance.None? && latestMarkers == markers && indicators == []
    {
      mapInstance := None;
      latestMarkers := markers;
      indicators := [];
    }

    /**
     * updateIndicators: rebuilds the list from the map and the latest
     * markers only; the previous indicators play no part.
     */
    method UpdateIndicators(atan2: (real, real) -> real)
      modifies this`indicators
      ensures indicators == Recompute(mapInstance, atan2, latestMarkers)
    {
      var current := mapInstance;
      if current.None? {
        indicators := [];
        return;
      }
      var view := current.value;

      var currentMarkers := latestMarkers;
      if |currentMarkers| == 0 {
        indicators := [];
        return;
      }

      var centerPt := view.toContainerPoint(view.center);

      var next: seq<IndicatorInfo> := [];
      var i := 0;
      while i < |currentMarkers|
        invariant 0 <= i <= |currentMarkers|
        invariant next == Project(view, atan2, currentMarkers[..i])
      {
        var marker := currentMarkers[i];
        FilterMapStep(IndicatorFn(view, atan2), currentMarkers, i);
        var indicator := Visit(view, atan2, centerPt, marker);
        if indicator.Some? {
          next := next + [indicator.value];
        }
        i := i + 1;
      }
      assert currentMarkers[..i] == currentMarkers;
      indicators := next;
    }

    /** syncMarkers: once a map exists, the latest markers become `markers`. */
    method SyncMarkers(markers: seq<MapMarker>)
      modifies this`latestMarkers
      ensures latestMarkers == if mapInstance.None? then old(latestMarkers) else markers
    {
      if mapInstance.None? {
        return;
      }
      latestMarkers := markers;
    }

    /** initMap: creates the map when there is a container and no map yet. */
    method AttachMap(hasContainer: bool, view: Viewport)
      modifies this`mapInstance
      ensures mapInstance == if old(mapInstance).None? && hasContainer then Some(view) else old(mapInstance)
    {
      if !hasContainer || mapInstance.Some? {
        return;
      }
      mapInstance := Some(view);
    }

    /** The cleanup initMap returns: the map is removed and its ref cleared. */
    method DetachMap()
      modifies this`mapInstance
      ensures mapInstance.None?
    {
      mapInstance := None;
    }
  }

  // ------------------------------------------------------------- properties

  /** The descriptor pushed for a marker outside the bounds whose ray crosses the frame. */
  lemma IndicatorForPushed(view: Viewport, atan2: (real, real) -> real, m: MapMarker, ind: IndicatorInfo)
    requires !view.contains(m.position)
    requires var c, p := view.toContainerPoint(view.center), view.toContainerPoint(m.position);
             var r := Geometry.NearestCrossing(c.x, c.y, p.x, p.y, view.size.x, view.size.y);
             && r.Some?
             && ind == IndicatorInfo(m.id, r.value.x, r.value.y,
                                     atan2(p.y - c.y, p.x - c.x) * 180.0 / Pi + 90.0,
                                     StringUtils.FormatDistance(view.distanceTo(view.center, m.position)),
                                     m.caption)
    ensures IndicatorFor(view, atan2, m) == Some(ind)
  {
    var c, p := view.toContainerPoint(view.center), view.toContainerPoint(m.position);
    assert Crossing(view, m.position) == Geometry.NearestCrossing(c.x, c.y, p.x, p.y, view.size.x, view.size.y);
  }

  /** No descriptor for a marker inside the bounds, or for one whose ray meets no edge. */
  lemma IndicatorForSkipped(view: Viewport, atan2: (real, real) -> real, m: MapMarker)
    requires var c, p := view.toContainerPoint(view.center), view.toContainerPoint(m.position);
             view.contains(m.position) || Geometry.NearestCrossing(c.x, c.y, p.x, p.y, view.size.x, view.size.y).None?
    ensures IndicatorFor(view, atan2, m) == None
  {
  }

  lemma ProjectLength(view: Viewport, atan2: (real, real) -> real, ms: seq<MapMarker>)
    ensures |Project(view, atan2, ms)| <= |ms|
  {
    FilterMapLength(IndicatorFn(view, atan2), ms);
  }

  /** The forEach composes: running it over a + b pushes a's descriptors, then b's. */
  lemma ProjectAppend(view: Viewport, atan2: (real, real) -> real, a: seq<MapMarker>, b: seq<MapMarker>)
    ensures Project(view, atan2, a + b) == Project(view, atan2, a) + Project(view, atan2, b)
  {
    FilterMapAppend(IndicatorFn(view, atan2), a, b);
  }

  /**
   * The descriptors are those of the shown markers, one each and in order,
   * and the shown markers are a subsequence of the input.
   */
  lemma ProjectIsShown(view: Viewport, atan2: (real, real) -> real, ms: seq<MapMarker>)
    ensures |Project(view, atan2, ms)| == |Shown(view, atan2, ms)|
    ensures forall k | 0 <= k < |Shown(view, atan2, ms)| ::
              IndicatorFor(view, atan2, Shown(view, atan2, ms)[k]) == Some(Project(view, atan2, ms)[k])
    ensures IsSubsequence(Shown(view, atan2, ms), ms)
  {
    var f := IndicatorFn(view, atan2);
    FilterMapKept(f, ms);
    forall k | 0 <= k < |Shown(view, atan2, ms)|
      ensures IndicatorFor(view, atan2, Shown(view, atan2, ms)[k]) == Some(Project(view, atan2, ms)[k])
    {
      assert f(Kept(f, ms)[k]) == Some(FilterMap(f, ms)[k]);
    }
  }

  /** Distinct marker ids give distinct indicator ids (the React keys of the layer). */
  lemma DistinctIdsPreserved(view: Viewport, atan2: (real, real) -> real, ms: seq<MapMarker>)
    requires Distinct(Ids(ms))
    ensures Distinct(IndicatorIds(Project(view, atan2, ms)))
  {
    var f := IndicatorFn(view, atan2);
    var keyT, keyU := (m: MapMarker) => m.id, (ind: IndicatorInfo) => ind.id;
    assert forall x :: f(x).Some? ==> keyU(f(x).value) == keyT(x);
    FilterMapKeys(f, ms, keyT, keyU);
    assert Ids(ms) == MapSeq(keyT, ms);
    assert IndicatorIds(Project(view, atan2, ms)) == MapSeq(keyU, FilterMap(f, ms));
    SubsequenceOfDistinct(IndicatorIds(Project(view, atan2, ms)), Ids(ms));
  }

  /** An indicator is in the list exactly when some marker of the list produces it. */
  lemma IndicatorOrigin(view: Viewport, atan2: (real, real) -> real, ms: seq<MapMarker>, ind: IndicatorInfo)
    ensures ind in Project(view, atan2, ms) <==>
            exists i | 0 <= i < |ms| :: IndicatorFor(view, atan2, ms[i]) == Some(ind)
  {
    var f := IndicatorFn(view, atan2);
    FilterMapOrigin(f, ms, ind);
    assert forall i | 0 <= i < |ms| :: f(ms[i]) == IndicatorFor(view, atan2, ms[i]);
  }

  /** Every indicator carries the id of some marker of the list. */
  lemma IndicatorHasMarkerId(view: Viewport, atan2: (real, real) -> real, ms: seq<MapMarker>, ind: IndicatorInfo)
    requires ind in Project(view, atan2, ms)
    ensures exists k | 0 <= k < |ms| :: ms[k].id == ind.id
  {
    IndicatorOrigin(view, atan2, ms, ind);
    var k :| 0 <= k < |ms| && IndicatorFor(view, atan2, ms[k]) == Some(ind);
    assert ms[k].id == ind.id;
  }

  /** With distinct ids, a marker inside the bounds has no indicator under its id. */
  lemma ContainedMarkerHasNoIndicator(view: Viewport, atan2: (real, real) -> real, ms: seq<MapMarker>, k: nat)
    requires Distinct(Ids(ms)) && k < |ms| && view.contains(ms[k].position)
    ensures forall ind | ind in Project(view, atan2, ms) :: ind.id != ms[k].id
  {
    forall ind | ind in Project(view, atan2, ms) ensures ind.id != ms[k].id {
      IndicatorOrigin(view, atan2, ms, ind);
      var i :| 0 <= i < |ms| && IndicatorFor(view, atan2, ms[i]) == Some(ind);
      IndicatorForSkipped(view, atan2, ms[k]);
      assert i != k;
      assert Ids(ms)[i] != Ids(ms)[k];
    }
  }

  /**
   * Every indicator sits on the frame inset by the margin, on the forward ray
   * from the centre pixel toward its marker's pixel.
   */
  lemma IndicatorOnFrame(view: Viewport, atan2: (real, real) -> real, m: MapMarker)
    requires IndicatorFor(view, atan2, m).Some?
    ensures var ind := IndicatorFor(view, atan2, m).value;
            var c, p := view.toContainerPoint(view.center), view.toContainerPoint(m.position);
            && Geometry.OnFrame(Point(ind.x, ind.y), view.size.x, view.size.y)
            && exists t :: t > 0.0 && Point(ind.x, ind.y) == Geometry.RayAt(c.x, c.y, p.x, p.y, t)
  {
    var c, p := view.toContainerPoint(view.center), view.toContainerPoint(m.position);
    Geometry.NearestCrossingOnFrame(c.x, c.y, p.x, p.y, view.size.x, view.size.y);
    Geometry.NearestCrossingOnRay(c.x, c.y, p.x, p.y, view.size.x, view.size.y);
  }

  /** Every indicator of an update lies on the inset frame of the current viewport. */
  lemma IndicatorsOnFrame(view: Viewport, atan2: (real, real) -> real, ms: seq<MapMarker>)
    ensures forall ind | ind in Project(view, atan2, ms) ::
              Geometry.OnFrame(Point(ind.x, ind.y), view.size.x, view.size.y)
  {
    forall ind | ind in Project(view, atan2, ms)
      ensures Geometry.OnFrame(Point(ind.x, ind.y), view.size.x, view.size.y)
    {
      IndicatorOrigin(view, atan2, ms, ind);
      var i :| 0 <= i < |ms| && IndicatorFor(view, atan2, ms[i]) == Some(ind);
      IndicatorOnFrame(view, atan2, ms[i]);
    }
  }

  /** In a viewport at least two margins wide and high, every indicator lies inside the inset box. */
  lemma IndicatorsInBox(view: Viewport, atan2: (real, real) -> real, ms: seq<MapMarker>)
    requires 2.0 * Geometry.Margin <= view.size.x && 2.0 * Geometry.Margin <= view.size.y
    ensures forall ind | ind in Project(view, atan2, ms) ::
              && Geometry.Margin <= ind.x <= view.size.x - Geometry.Margin
              && Geometry.Margin <= ind.y <= view.size.y - Geometry.Margin
  {
    IndicatorsOnFrame(view, atan2, ms);
    forall ind | ind in Project(view, atan2, ms)
      ensures && Geometry.Margin <= ind.x <= view.size.x - Geometry.Margin
              && Geometry.Margin <= ind.y <= view.size.y - Geometry.Margin
    {
      Geometry.OnFrameInBox(Point(ind.x, ind.y), view.size.x, view.size.y);
    }
  }
}
