/**
 * Where the edge indicator of an off-screen marker sits (src/utils/map.ts).
 * A ray is cast from the viewport centre toward the marker's pixel; each edge
 * of the viewport shrunk by a fixed margin is tested, the crossings ahead of
 * the centre and inside the edge's span are collected, and the one reached
 * first is returned. Arithmetic is exact: JavaScript doubles are modelled as
 * reals.
 */
module Geometry {
  import opened Wrappers
  import opened Models

  /** The inset between the viewport border and the indicator frame, in pixels. */
  const Margin: real := 50.0

  /** The four edges of the inset frame, in the order the source tests them. */
  datatype Edge = Left | Right | Top | Bottom

  /** A collected crossing: the point and the ray parameter at which it is reached. */
  datatype Candidate = Candidate(x: real, y: real, t: real)

  // ------------------------------------------------- the geometric reference

  /** The point center + t * (target - center). */
  function RayAt(cx: real, cy: real, tx: real, ty: real, t: real): Point
  {
    Point(cx + t * (tx - cx), cy + t * (ty - cy))
  }

  /** `p` lies on edge `e` of the frame inset by Margin in a w x h viewport. */
  predicate OnEdge(e: Edge, p: Point, w: real, h: real)
  {
    match e
    case Left => p.x == Margin && Margin <= p.y <= h - Margin
    case Right => p.x == w - Margin && Margin <= p.y <= h - Margin
    case Top => p.y == Margin && Margin <= p.x <= w - Margin
    case Bottom => p.y == h - Margin && Margin <= p.x <= w - Margin
  }

  /** `p` lies on the inset frame: on a vertical edge within its span, or on a horizontal one. */
  predicate OnFrame(p: Point, w: real, h: real)
  {
    || ((p.x == Margin || p.x == w - Margin) && Margin <= p.y <= h - Margin)
    || ((p.y == Margin || p.y == h - Margin) && Margin <= p.x <= w - Margin)
  }

  /** The ray is not parallel to edge `e`: vertical edges need dx != 0, horizontal ones dy != 0. */
  predicate Transverse(e: Edge, dx: real, dy: real)
  {
    if e.Left? || e.Right? then dx != 0.0 else dy != 0.0
  }

  /**
   * The ray from (cx, cy) toward (tx, ty) crosses edge `e` at parameter t:
   * ahead of the centre, not along the edge, and within the edge's span.
   */
  predicate Exit(e: Edge, cx: real, cy: real, tx: real, ty: real, w: real, h: real, t: real)
  {
    && t > 0.0
    && Transverse(e, tx - cx, ty - cy)
    && OnEdge(e, RayAt(cx, cy, tx, ty, t), w, h)
  }

  /**
   * `r` is where the ray first leaves through the frame: None when it crosses
   * no edge, otherwise the crossing with the least parameter.
   */
  ghost predicate IsNearestExit(r: Option<Point>, cx: real, cy: real, tx: real, ty: real, w: real, h: real)
  {
    match r
    case None => forall e, t :: !Exit(e, cx, cy, tx, ty, w, h, t)
    case Some(p) =>
      exists e, t ::
        && Exit(e, cx, cy, tx, ty, w, h, t)
        && p == RayAt(cx, cy, tx, ty, t)
        && forall e', t' :: Exit(e', cx, cy, tx, ty, w, h, t') ==> t <= t'
  }

  // ------------------------------------------------------ the computation

  /** The crossing the source pushes for edge `e`, if its guard and its test pass. */
  function EdgeCandidate(e: Edge, cx: real, cy: real, tx: real, ty: real, w: real, h: real): Option<Candidate>
  {
    var rightEdgeX, bottomEdgeY := w - Margin, h - Margin;
    var deltaX, deltaY := tx - cx, ty - cy;
    match e
    case Left => if deltaX == 0.0 then None else CrossVertical(Margin, cx, cy, deltaX, deltaY, bottomEdgeY)
    case Right => if deltaX == 0.0 then None else CrossVertical(rightEdgeX, cx, cy, deltaX, deltaY, bottomEdgeY)
    case Top => if deltaY == 0.0 then None else CrossHorizontal(Margin, cx, cy, deltaX, deltaY, rightEdgeX)
    case Bottom => if deltaY == 0.0 then None else CrossHorizontal(bottomEdgeY, cx, cy, deltaX, deltaY, rightEdgeX)
  }

  /** The test of the vertical edge at x == edgeX: its parameter, and the y reached there. */
  function CrossVertical(edgeX: real, cx: real, cy: real, deltaX: real, deltaY: real, bottomEdgeY: real): Option<Candidate>
    requires deltaX != 0.0
  {
    var t := (edgeX - cx) / deltaX;
    var y := cy + t * deltaY;
    if t > 0.0 && y >= Margin && y <= bottomEdgeY then Some(Candidate(edgeX, y, t)) else None
  }

  /** The test of the horizontal edge at y == edgeY: its parameter, and the x reached there. */
  function CrossHorizontal(edgeY: real, cx: real, cy: real, deltaX: real, deltaY: real, rightEdgeX: real): Option<Candidate>
    requires deltaY != 0.0
  {
    var t := (edgeY - cy) / deltaY;
    var x := cx + t * deltaX;
    if t > 0.0 && x >= Margin && x <= rightEdgeX then Some(Candidate(x, edgeY, t)) else None
  }

  function AsSeq(c: Option<Candidate>): seq<Candidate>
  {
    if c.Some? then [c.value] else []
  }

  /** The candidates array after the four tests, in push order left, right, top, bottom. */
  function Candidates(cx: real, cy: real, tx: real, ty: real, w: real, h: real): seq<Candidate>
  {
    AsSeq(EdgeCandidate(Left, cx, cy, tx, ty, w, h))
    + AsSeq(EdgeCandidate(Right, cx, cy, tx, ty, w, h))
    + AsSeq(EdgeCandidate(Top, cx, cy, tx, ty, w, h))
    + AsSeq(EdgeCandidate(Bottom, cx, cy, tx, ty, w, h))
  }

  /** Places `c` before the first element whose parameter is not smaller. */
  function InsertByT(c: Candidate, sorted: seq<Candidate>): seq<Candidate>
  {
    if sorted == [] || c.t <= sorted[0].t then [c] + sorted
    else [sorted[0]] + InsertByT(c, sorted[1..])
  }

  /**
   * Array.prototype.sort with the comparator (a, b) => a.t - b.t. The sort is
   * stable, so the result is the stable sort by parameter, written here as an
   * insertion sort from the right.
   */
  function SortByT(cs: seq<Candidate>): seq<Candidate>
  {
    if cs == [] then [] else InsertByT(cs[0], SortByT(cs[1..]))
  }

  predicate SortedByT(s: seq<Candidate>)
  {
    forall i, j | 0 <= i < j < |s| :: s[i].t <= s[j].t
  }

  /** The first index holding the least parameter: the reference for element 0 of the sort. */
  function MinIndex(cs: seq<Candidate>): (k: nat)
    requires cs != []
    ensures k < |cs|
    ensures forall j | 0 <= j < |cs| :: cs[k].t <= cs[j].t
    ensures forall j | 0 <= j < k :: cs[j].t > cs[k].t
  {
    if |cs| == 1 then 0
    else
      var k := MinIndex(cs[1..]);
      assert forall j | 1 <= j < |cs| :: cs[j] == cs[1..][j - 1];
      if cs[0].t <= cs[k + 1].t then 0 else k + 1
  }

  /** The value intersectWithRect returns. */
  function NearestCrossing(cx: real, cy: real, tx: real, ty: real, w: real, h: real): Option<Point>
  {
    var cs := Candidates(cx, cy, tx, ty, w, h);
    if |cs| == 0 then None
    else
      var sorted := SortByT(cs);
      Some(Point(sorted[0].x, sorted[0].y))
  }

  /**
   * intersectWithRect, step by step: the guarded edge tests in the order
   * left, right, top, bottom, each pushing its crossing when it passes, then
   * the sort by parameter and element 0.
   */
  method IntersectWithRect(centerX: real, centerY: real, targetX: real, targetY: real,
                           viewportWidth: real, viewportHeight: real)
    returns (r: Option<Point>)
    ensures r == NearestCrossing(centerX, centerY, targetX, targetY, viewportWidth, viewportHeight)
    ensures IsNearestExit(r, centerX, centerY, targetX, targetY, viewportWidth, viewportHeight)
  {
    var margin := Margin;
    var rightEdgeX := viewportWidth - margin;
    var bottomEdgeY := viewportHeight - margin;

    var deltaX := targetX - centerX;
    var deltaY := targetY - centerY;

    var candidates: seq<Candidate> := [];

    if deltaX != 0.0 {
      var left := CrossVertical(margin, centerX, centerY, deltaX, deltaY, bottomEdgeY);
      if left.Some? {
        candidates := candidates + [left.value];
      }
      assert candidates == AsSeq(left);
      var right := CrossVertical(rightEdgeX, centerX, centerY, deltaX, deltaY, bottomEdgeY);
      if right.Some? {
        candidates := candidates + [right.value];
      }
      assert candidates == AsSeq(left) + AsSeq(right);
    }
    ghost var vertical := candidates;
    assert vertical == AsSeq(EdgeCandidate(Left, centerX, centerY, targetX, targetY, viewportWidth, viewportHeight))
                       + AsSeq(EdgeCandidate(Right, centerX, centerY, targetX, targetY, viewportWidth, viewportHeight));

    if deltaY != 0.0 {
      var top := CrossHorizontal(margin, centerX, centerY, deltaX, deltaY, rightEdgeX);
      if top.Some? {
        candidates := candidates + [top.value];
      }
      assert candidates == vertical + AsSeq(top);
      var bottom := CrossHorizontal(bottomEdgeY, centerX, centerY, deltaX, deltaY, rightEdgeX);
      if bottom.Some? {
        candidates := candidates + [bottom.value];
      }
      assert candidates == vertical + AsSeq(top) + AsSeq(bottom);
    }

    assert candidates == Candidates(centerX, centerY, targetX, targetY, viewportWidth, viewportHeight);
    NearestCrossingIsNearestExit(centerX, centerY, targetX, targetY, viewportWidth, viewportHeight);

    if |candidates| == 0 {
      return None;
    }

    var sorted := SortByT(candidates);
    InsertByTHead(candidates[0], SortByT(candidates[1..]));
    r := Some(Point(sorted[0].x, sorted[0].y));
  }

  // ------------------------------------------------------------- properties

  /** A vertical-edge candidate is reached at its parameter, within the edge's span. */
  lemma CrossVerticalSound(edgeX: real, cx: real, cy: real, dx: real, dy: real, bottomEdgeY: real)
    requires dx != 0.0 && CrossVertical(edgeX, cx, cy, dx, dy, bottomEdgeY).Some?
    ensures var c := CrossVertical(edgeX, cx, cy, dx, dy, bottomEdgeY).value;
            && c.t > 0.0
            && c.x == edgeX == cx + c.t * dx && c.y == cy + c.t * dy
            && Margin <= c.y <= bottomEdgeY
  {
    var t := (edgeX - cx) / dx;
    var y := cy + t * dy;
    assert t > 0.0 && y >= Margin && y <= bottomEdgeY;
    SolveLine(cx, dx, edgeX);
  }

  /** A parameter at which the ray meets the vertical edge within its span is the one tested. */
  lemma CrossVerticalComplete(edgeX: real, cx: real, cy: real, dx: real, dy: real, bottomEdgeY: real, t: real)
    requires dx != 0.0 && t > 0.0 && cx + t * dx == edgeX
    requires Margin <= cy + t * dy <= bottomEdgeY
    ensures CrossVertical(edgeX, cx, cy, dx, dy, bottomEdgeY) == Some(Candidate(edgeX, cy + t * dy, t))
  {
    LineSolution(cx, dx, edgeX, t);
    var t' := (edgeX - cx) / dx;
    assert t' == t;
    var y := cy + t' * dy;
    assert y == cy + t * dy;
    assert CrossVertical(edgeX, cx, cy, dx, dy, bottomEdgeY)
        == if t' > 0.0 && y >= Margin && y <= bottomEdgeY then Some(Candidate(edgeX, y, t')) else None;
  }

  lemma CrossHorizontalSound(edgeY: real, cx: real, cy: real, dx: real, dy: real, rightEdgeX: real)
    requires dy != 0.0 && CrossHorizontal(edgeY, cx, cy, dx, dy, rightEdgeX).Some?
    ensures var c := CrossHorizontal(edgeY, cx, cy, dx, dy, rightEdgeX).value;
            && c.t > 0.0
            && c.y == edgeY == cy + c.t * dy && c.x == cx + c.t * dx
            && Margin <= c.x <= rightEdgeX
  {
    var t := (edgeY - cy) / dy;
    var x := cx + t * dx;
    assert t > 0.0 && x >= Margin && x <= rightEdgeX;
    SolveLine(cy, dy, edgeY);
  }

  lemma CrossHorizontalComplete(edgeY: real, cx: real, cy: real, dx: real, dy: real, rightEdgeX: real, t: real)
    requires dy != 0.0 && t > 0.0 && cy + t * dy == edgeY
    requires Margin <= cx + t * dx <= rightEdgeX
    ensures CrossHorizontal(edgeY, cx, cy, dx, dy, rightEdgeX) == Some(Candidate(cx + t * dx, edgeY, t))
  {
    LineSolution(cy, dy, edgeY, t);
    var t' := (edgeY - cy) / dy;
    assert t' == t;
    var x := cx + t' * dx;
    assert x == cx + t * dx;
    assert CrossHorizontal(edgeY, cx, cy, dx, dy, rightEdgeX)
        == if t' > 0.0 && x >= Margin && x <= rightEdgeX then Some(Candidate(x, edgeY, t')) else None;
  }

  /** A pushed candidate is a crossing of its edge, and its point is the ray's point at its parameter. */
  lemma CandidateIsExit(e: Edge, cx: real, cy: real, tx: real, ty: real, w: real, h: real)
    requires EdgeCandidate(e, cx, cy, tx, ty, w, h).Some?
    ensures var c := EdgeCandidate(e, cx, cy, tx, ty, w, h).value;
            && Exit(e, cx, cy, tx, ty, w, h, c.t)
            && Point(c.x, c.y) == RayAt(cx, cy, tx, ty, c.t)
  {
    if e.Left? || e.Right? {
      VerticalCandidateIsExit(e, cx, cy, tx, ty, w, h);
    } else {
      HorizontalCandidateIsExit(e, cx, cy, tx, ty, w, h);
    }
  }

  lemma VerticalCandidateIsExit(e: Edge, cx: real, cy: real, tx: real, ty: real, w: real, h: real)
    requires e.Left? || e.Right?
    requires EdgeCandidate(e, cx, cy, tx, ty, w, h).Some?
    ensures var c := EdgeCandidate(e, cx, cy, tx, ty, w, h).value;
            && Exit(e, cx, cy, tx, ty, w, h, c.t)
            && Point(c.x, c.y) == RayAt(cx, cy, tx, ty, c.t)
  {
    var dx, dy := tx - cx, ty - cy;
    var edgeX := if e.Left? then Margin else w - Margin;
    assert dx != 0.0;
    assert EdgeCandidate(e, cx, cy, tx, ty, w, h) == CrossVertical(edgeX, cx, cy, dx, dy, h - Margin);
    CrossVerticalSound(edgeX, cx, cy, dx, dy, h - Margin);
    VerticalExit(e, cx, cy, tx, ty, w, h, EdgeCandidate(e, cx, cy, tx, ty, w, h).value);
  }

  lemma HorizontalCandidateIsExit(e: Edge, cx: real, cy: real, tx: real, ty: real, w: real, h: real)
    requires e.Top? || e.Bottom?
    requires EdgeCandidate(e, cx, cy, tx, ty, w, h).Some?
    ensures var c := EdgeCandidate(e, cx, cy, tx, ty, w, h).value;
            && Exit(e, cx, cy, tx, ty, w, h, c.t)
            && Point(c.x, c.y) == RayAt(cx, cy, tx, ty, c.t)
  {
    var dx, dy := tx - cx, ty - cy;
    var edgeY := if e.Top? then Margin else h - Margin;
    assert dy != 0.0;
    assert EdgeCandidate(e, cx, cy, tx, ty, w, h) == CrossHorizontal(edgeY, cx, cy, dx, dy, w - Margin);
    CrossHorizontalSound(edgeY, cx, cy, dx, dy, w - Margin);
    HorizontalExit(e, cx, cy, tx, ty, w, h, EdgeCandidate(e, cx, cy, tx, ty, w, h).value);
  }

  lemma VerticalExit(e: Edge, cx: real, cy: real, tx: real, ty: real, w: real, h: real, c: Candidate)
    requires e.Left? || e.Right?
    requires tx - cx != 0.0 && c.t > 0.0
    requires c.x == (if e.Left? then Margin else w - Margin) == cx + c.t * (tx - cx)
    requires c.y == cy + c.t * (ty - cy) && Margin <= c.y <= h - Margin
    ensures Exit(e, cx, cy, tx, ty, w, h, c.t) && Point(c.x, c.y) == RayAt(cx, cy, tx, ty, c.t)
  {
    var p := RayAt(cx, cy, tx, ty, c.t);
    assert p.x == c.x && p.y == c.y;
    assert OnEdge(e, p, w, h);
  }

  lemma HorizontalExit(e: Edge, cx: real, cy: real, tx: real, ty: real, w: real, h: real, c: Candidate)
    requires e.Top? || e.Bottom?
    requires ty - cy != 0.0 && c.t > 0.0
    requires c.y == (if e.Top? then Margin else h - Margin) == cy + c.t * (ty - cy)
    requires c.x == cx + c.t * (tx - cx) && Margin <= c.x <= w - Margin
    ensures Exit(e, cx, cy, tx, ty, w, h, c.t) && Point(c.x, c.y) == RayAt(cx, cy, tx, ty, c.t)
  {
    var p := RayAt(cx, cy, tx, ty, c.t);
    assert p.x == c.x && p.y == c.y;
    assert OnEdge(e, p, w, h);
  }

  /** Every crossing of an edge is the candidate the source pushes for that edge. */
  lemma ExitIsCandidate(e: Edge, cx: real, cy: real, tx: real, ty: real, w: real, h: real, t: real)
    requires Exit(e, cx, cy, tx, ty, w, h, t)
    ensures EdgeCandidate(e, cx, cy, tx, ty, w, h).Some?
    ensures EdgeCandidate(e, cx, cy, tx, ty, w, h).value.t == t
  {
    var dx, dy := tx - cx, ty - cy;
    var p := RayAt(cx, cy, tx, ty, t);
    assert p.x == cx + t * dx && p.y == cy + t * dy;
    match e
    case Left => CrossVerticalComplete(Margin, cx, cy, dx, dy, h - Margin, t);
    case Right => CrossVerticalComplete(w - Margin, cx, cy, dx, dy, h - Margin, t);
    case Top => CrossHorizontalComplete(Margin, cx, cy, dx, dy, w - Margin, t);
    case Bottom => CrossHorizontalComplete(h - Margin, cx, cy, dx, dy, w - Margin, t);
  }

  /** c + ((v - c) / d) * d == v. */
  lemma SolveLine(c: real, d: real, v: real)
    requires d != 0.0
    ensures c + ((v - c) / d) * d == v
  {
  }

  /** The only parameter at which c + t * d reaches v is (v - c) / d. */
  lemma LineSolution(c: real, d: real, v: real, t: real)
    requires d != 0.0 && c + t * d == v
    ensures t == (v - c) / d
  {
  }

  lemma {:induction false} InsertByTHead(c: Candidate, sorted: seq<Candidate>)
    ensures InsertByT(c, sorted) != []
    ensures InsertByT(c, sorted)[0] == if sorted == [] || c.t <= sorted[0].t then c else sorted[0]
  {
  }

  /** Inserting adds exactly `c`. */
  lemma {:induction false} InsertByTPermutes(c: Candidate, sorted: seq<Candidate>)
    ensures multiset(InsertByT(c, sorted)) == multiset(sorted) + multiset{c}
  {
    if sorted != [] && c.t > sorted[0].t {
      InsertByTPermutes(c, sorted[1..]);
      assert sorted == [sorted[0]] + sorted[1..];
    }
  }

  /** Inserting into a sequence sorted by parameter keeps it sorted. */
  lemma {:induction false} InsertByTSorted(c: Candidate, sorted: seq<Candidate>)
    requires SortedByT(sorted)
    ensures SortedByT(InsertByT(c, sorted))
  {
    if sorted != [] && c.t > sorted[0].t {
      var tail := sorted[1..];
      var rest := InsertByT(c, tail);
      InsertByTSorted(c, tail);
      InsertByTLowerBound(c, tail, sorted[0].t);
      var r := [sorted[0]] + rest;
      forall i, j | 0 <= i < j < |r| ensures r[i].t <= r[j].t {
        assert r[j] == rest[j - 1];
        if i > 0 {
          assert r[i] == rest[i - 1];
        }
      }
    }
  }

  lemma {:induction false} InsertByTLowerBound(c: Candidate, s: seq<Candidate>, lo: real)
    requires lo <= c.t && forall j | 0 <= j < |s| :: lo <= s[j].t
    ensures forall j | 0 <= j < |InsertByT(c, s)| :: lo <= InsertByT(c, s)[j].t
  {
    if s != [] && c.t > s[0].t {
      InsertByTLowerBound(c, s[1..], lo);
      var r := InsertByT(c, s);
      forall j | 0 < j < |r| ensures lo <= r[j].t {
        assert r[j] == InsertByT(c, s[1..])[j - 1];
      }
    }
  }

  /** The sort returns a permutation of its input, ordered by parameter. */
  lemma {:induction false} SortByTCorrect(cs: seq<Candidate>)
    ensures multiset(SortByT(cs)) == multiset(cs)
    ensures SortedByT(SortByT(cs))
  {
    if cs != [] {
      SortByTCorrect(cs[1..]);
      InsertByTPermutes(cs[0], SortByT(cs[1..]));
      InsertByTSorted(cs[0], SortByT(cs[1..]));
      assert cs == [cs[0]] + cs[1..];
    }
  }

  /**
   * Element 0 of the stable sort is the first candidate with the least
   * parameter: no candidate is earlier on the ray, and every candidate before
   * it in push order is strictly later.
   */
  lemma {:induction false} SortedHeadIsFirstMinimal(cs: seq<Candidate>)
    requires cs != []
    ensures SortByT(cs) != [] && SortByT(cs)[0] == cs[MinIndex(cs)]
  {
    InsertByTHead(cs[0], SortByT(cs[1..]));
    if |cs| > 1 {
      SortedHeadIsFirstMinimal(cs[1..]);
      assert cs[1..][MinIndex(cs[1..])] == cs[MinIndex(cs[1..]) + 1];
    }
  }

  lemma CandidateOrigin(c: Candidate, cx: real, cy: real, tx: real, ty: real, w: real, h: real)
    requires c in Candidates(cx, cy, tx, ty, w, h)
    ensures exists e :: EdgeCandidate(e, cx, cy, tx, ty, w, h) == Some(c)
  {
    var l, r, t, b :=
      EdgeCandidate(Left, cx, cy, tx, ty, w, h), EdgeCandidate(Right, cx, cy, tx, ty, w, h),
      EdgeCandidate(Top, cx, cy, tx, ty, w, h), EdgeCandidate(Bottom, cx, cy, tx, ty, w, h);
    assert c in AsSeq(l) || c in AsSeq(r) || c in AsSeq(t) || c in AsSeq(b);
  }

  lemma EdgeCandidateCollected(e: Edge, cx: real, cy: real, tx: real, ty: real, w: real, h: real)
    requires EdgeCandidate(e, cx, cy, tx, ty, w, h).Some?
    ensures EdgeCandidate(e, cx, cy, tx, ty, w, h).value in Candidates(cx, cy, tx, ty, w, h)
  {
  }

  /** What intersectWithRect returns is exactly the nearest exit through the inset frame. */
  lemma NearestCrossingIsNearestExit(cx: real, cy: real, tx: real, ty: real, w: real, h: real)
    ensures IsNearestExit(NearestCrossing(cx, cy, tx, ty, w, h), cx, cy, tx, ty, w, h)
  {
    var cs := Candidates(cx, cy, tx, ty, w, h);
    if |cs| == 0 {
      forall e, t | Exit(e, cx, cy, tx, ty, w, h, t) ensures false {
        ExitIsCandidate(e, cx, cy, tx, ty, w, h, t);
        EdgeCandidateCollected(e, cx, cy, tx, ty, w, h);
      }
    } else {
      SortedHeadIsFirstMinimal(cs);
      var c := cs[MinIndex(cs)];
      CandidateOrigin(c, cx, cy, tx, ty, w, h);
      var e :| EdgeCandidate(e, cx, cy, tx, ty, w, h) == Some(c);
      CandidateIsExit(e, cx, cy, tx, ty, w, h);
      forall e', t' | Exit(e', cx, cy, tx, ty, w, h, t') ensures c.t <= t' {
        ExitIsCandidate(e', cx, cy, tx, ty, w, h, t');
        EdgeCandidateCollected(e', cx, cy, tx, ty, w, h);
        var j :| 0 <= j < |cs| && cs[j] == EdgeCandidate(e', cx, cy, tx, ty, w, h).value;
      }
      assert NearestCrossing(cx, cy, tx, ty, w, h) == Some(Point(c.x, c.y));
    }
  }

  /** The specification determines the result: at most one value is a nearest exit. */
  lemma NearestExitUnique(r1: Option<Point>, r2: Option<Point>,
                          cx: real, cy: real, tx: real, ty: real, w: real, h: real)
    requires IsNearestExit(r1, cx, cy, tx, ty, w, h)
    requires IsNearestExit(r2, cx, cy, tx, ty, w, h)
    ensures r1 == r2
  {
    if r1.Some? && r2.Some? {
      var e1, t1 :| Exit(e1, cx, cy, tx, ty, w, h, t1) && r1.value == RayAt(cx, cy, tx, ty, t1)
                    && forall e', t' :: Exit(e', cx, cy, tx, ty, w, h, t') ==> t1 <= t';
      var e2, t2 :| Exit(e2, cx, cy, tx, ty, w, h, t2) && r2.value == RayAt(cx, cy, tx, ty, t2)
                    && forall e', t' :: Exit(e', cx, cy, tx, ty, w, h, t') ==> t2 <= t';
      assert t1 <= t2 && t2 <= t1;
    }
  }

  /** A returned point lies on the inset frame. */
  lemma NearestCrossingOnFrame(cx: real, cy: real, tx: real, ty: real, w: real, h: real)
    requires NearestCrossing(cx, cy, tx, ty, w, h).Some?
    ensures OnFrame(NearestCrossing(cx, cy, tx, ty, w, h).value, w, h)
  {
    var e, t := NearestCrossingWitness(cx, cy, tx, ty, w, h);
  }

  /** A returned point is the crossing of some edge at some parameter. */
  lemma NearestCrossingWitness(cx: real, cy: real, tx: real, ty: real, w: real, h: real)
    returns (e: Edge, t: real)
    requires NearestCrossing(cx, cy, tx, ty, w, h).Some?
    ensures Exit(e, cx, cy, tx, ty, w, h, t)
    ensures NearestCrossing(cx, cy, tx, ty, w, h).value == RayAt(cx, cy, tx, ty, t)
  {
    NearestCrossingIsNearestExit(cx, cy, tx, ty, w, h);
    var p := NearestCrossing(cx, cy, tx, ty, w, h).value;
    e, t :| Exit(e, cx, cy, tx, ty, w, h, t) && p == RayAt(cx, cy, tx, ty, t);
  }

  /** A point on the inset frame of a viewport at least two margins wide and high lies inside the inset box. */
  lemma OnFrameInBox(p: Point, w: real, h: real)
    requires 2.0 * Margin <= w && 2.0 * Margin <= h
    requires OnFrame(p, w, h)
    ensures Margin <= p.x <= w - Margin && Margin <= p.y <= h - Margin
  {
  }

  /**
   * In a viewport narrower than two margins the inset box is empty, yet a
   * crossing is still returned: centre (60, 100), target (10, 100), 80 x 300.
   */
  lemma NarrowViewportCrossing()
    ensures NearestCrossing(60.0, 100.0, 10.0, 100.0, 80.0, 300.0) == Some(Point(50.0, 100.0))
    ensures !(Margin <= 50.0 <= 80.0 - Margin)
  {
    var cs := Candidates(60.0, 100.0, 10.0, 100.0, 80.0, 300.0);
    assert EdgeCandidate(Left, 60.0, 100.0, 10.0, 100.0, 80.0, 300.0) == Some(Candidate(50.0, 100.0, 0.2));
    assert EdgeCandidate(Right, 60.0, 100.0, 10.0, 100.0, 80.0, 300.0) == Some(Candidate(30.0, 100.0, 0.6));
    assert cs == [Candidate(50.0, 100.0, 0.2), Candidate(30.0, 100.0, 0.6)];
    assert SortByT(cs[1..]) == [Candidate(30.0, 100.0, 0.6)];
  }

  /** A returned point lies ahead of the centre on the ray toward the target. */
  lemma NearestCrossingOnRay(cx: real, cy: real, tx: real, ty: real, w: real, h: real)
    requires NearestCrossing(cx, cy, tx, ty, w, h).Some?
    ensures exists t :: t > 0.0 && NearestCrossing(cx, cy, tx, ty, w, h).value == RayAt(cx, cy, tx, ty, t)
  {
    var e, t := NearestCrossingWitness(cx, cy, tx, ty, w, h);
  }

  /** With target == center there is no direction, so there is no result. */
  lemma DegenerateRayHasNoCrossing(cx: real, cy: real, w: real, h: real)
    ensures NearestCrossing(cx, cy, cx, cy, w, h) == None
  {
    NearestCrossingIsNearestExit(cx, cy, cx, cy, w, h);
    forall e, t ensures !Exit(e, cx, cy, cx, cy, w, h, t) {
    }
  }

  /** A vertical ray can only leave through the top or bottom edge, a horizontal one through the left or right. */
  lemma AxisRayCrossings(cx: real, cy: real, tx: real, ty: real, w: real, h: real)
    requires NearestCrossing(cx, cy, tx, ty, w, h).Some?
    ensures var p := NearestCrossing(cx, cy, tx, ty, w, h).value;
            && (tx == cx ==> p.x == cx && (p.y == Margin || p.y == h - Margin))
            && (ty == cy ==> p.y == cy && (p.x == Margin || p.x == w - Margin))
  {
    var e, t := NearestCrossingWitness(cx, cy, tx, ty, w, h);
    ExitOnAxisRay(e, cx, cy, tx, ty, w, h, t);
  }

  lemma ExitOnAxisRay(e: Edge, cx: real, cy: real, tx: real, ty: real, w: real, h: real, t: real)
    requires Exit(e, cx, cy, tx, ty, w, h, t)
    ensures var p := RayAt(cx, cy, tx, ty, t);
            && (tx == cx ==> p.x == cx && (p.y == Margin || p.y == h - Margin))
            && (ty == cy ==> p.y == cy && (p.x == Margin || p.x == w - Margin))
  {
    if tx == cx {
      assert e.Top? || e.Bottom?;
      assert t * (tx - cx) == 0.0;
    }
    if ty == cy {
      assert e.Left? || e.Right?;
      assert t * (ty - cy) == 0.0;
    }
  }

  /** Center (100, 100), target (300, 100) in a 400 x 300 viewport: the right edge at (350, 100). */
  lemma RightEdgeExample()
    ensures EdgeCandidate(Left, 100.0, 100.0, 300.0, 100.0, 400.0, 300.0) == None
    ensures (Margin - 100.0) / (300.0 - 100.0) == -0.25
    ensures EdgeCandidate(Right, 100.0, 100.0, 300.0, 100.0, 400.0, 300.0) == Some(Candidate(350.0, 100.0, 1.25))
    ensures NearestCrossing(100.0, 100.0, 300.0, 100.0, 400.0, 300.0) == Some(Point(350.0, 100.0))
  {
    var cs := Candidates(100.0, 100.0, 300.0, 100.0, 400.0, 300.0);
    assert cs == [Candidate(350.0, 100.0, 1.25)];
    assert SortByT(cs) == InsertByT(cs[0], SortByT([]));
  }

  // One-dimensional exit from an open interval (lo, hi), used for the last property.

  function AxisExit(c: real, d: real, lo: real, hi: real): real
    requires d != 0.0
  {
    if d > 0.0 then (hi - c) / d else (lo - c) / d
  }

  lemma AxisExitFacts(c: real, d: real, lo: real, hi: real)
    requires lo < c < hi && d != 0.0
    ensures AxisExit(c, d, lo, hi) > 0.0
    ensures c + AxisExit(c, d, lo, hi) * d == if d > 0.0 then hi else lo
  {
    if d > 0.0 {
      SolveLine(c, d, hi);
      PositiveQuotient(hi - c, d);
    } else {
      SolveLine(c, d, lo);
      PositiveQuotient(c - lo, -d);
      assert (lo - c) / d == (c - lo) / (-d);
    }
  }

  lemma PositiveQuotient(a: real, b: real)
    requires a > 0.0 && b > 0.0
    ensures a / b > 0.0
  {
  }

  /** Before its exit parameter the coordinate stays inside [lo, hi]. */
  lemma AxisWithin(c: real, d: real, lo: real, hi: real, t: real)
    requires lo < c < hi && d != 0.0
    requires 0.0 < t <= AxisExit(c, d, lo, hi)
    ensures lo <= c + t * d <= hi
  {
    AxisExitFacts(c, d, lo, hi);
    var s := AxisExit(c, d, lo, hi);
    if d > 0.0 {
      MulMonotone(t, s, d);
    } else {
      MulMonotone(t, s, -d);
    }
  }

  lemma MulMonotone(t: real, s: real, d: real)
    requires 0.0 < t <= s && d > 0.0
    ensures 0.0 < t * d <= s * d
  {
  }

  /** From a centre strictly inside the inset frame every direction leaves through some edge. */
  lemma InsideCenterAlwaysCrosses(cx: real, cy: real, tx: real, ty: real, w: real, h: real)
    requires Margin < cx < w - Margin && Margin < cy < h - Margin
    requires tx != cx || ty != cy
    ensures NearestCrossing(cx, cy, tx, ty, w, h).Some?
  {
    NearestCrossingIsNearestExit(cx, cy, tx, ty, w, h);
    var dx, dy := tx - cx, ty - cy;
    if dx != 0.0 && (dy == 0.0 || AxisExit(cx, dx, Margin, w - Margin) <= AxisExit(cy, dy, Margin, h - Margin)) {
      LeavesThroughVertical(cx, cy, tx, ty, w, h);
    } else {
      LeavesThroughHorizontal(cx, cy, tx, ty, w, h);
    }
  }

  /** When the x coordinate runs out first, the ray crosses the left or the right edge. */
  lemma LeavesThroughVertical(cx: real, cy: real, tx: real, ty: real, w: real, h: real)
    requires Margin < cx < w - Margin && Margin < cy < h - Margin
    requires tx - cx != 0.0
    requires ty - cy == 0.0 || AxisExit(cx, tx - cx, Margin, w - Margin) <= AxisExit(cy, ty - cy, Margin, h - Margin)
    ensures Exit(if tx > cx then Right else Left, cx, cy, tx, ty, w, h, AxisExit(cx, tx - cx, Margin, w - Margin))
  {
    var dx, dy := tx - cx, ty - cy;
    var t := AxisExit(cx, dx, Margin, w - Margin);
    AxisExitFacts(cx, dx, Margin, w - Margin);
    if dy != 0.0 {
      AxisWithin(cy, dy, Margin, h - Margin, t);
    }
    VerticalHit(cx, cy, tx, ty, w, h, t);
  }

  lemma VerticalHit(cx: real, cy: real, tx: real, ty: real, w: real, h: real, t: real)
    requires t > 0.0 && tx - cx != 0.0
    requires cx + t * (tx - cx) == if tx - cx > 0.0 then w - Margin else Margin
    requires ty - cy != 0.0 ==> Margin <= cy + t * (ty - cy) <= h - Margin
    requires Margin < cy < h - Margin
    ensures Exit(if tx > cx then Right else Left, cx, cy, tx, ty, w, h, t)
  {
    if ty - cy == 0.0 {
      assert t * (ty - cy) == 0.0;
    }
  }

  /** When the y coordinate runs out first, or x never changes, the ray crosses the top or the bottom edge. */
  lemma LeavesThroughHorizontal(cx: real, cy: real, tx: real, ty: real, w: real, h: real)
    requires Margin < cx < w - Margin && Margin < cy < h - Margin
    requires ty - cy != 0.0
    requires tx - cx == 0.0 || AxisExit(cy, ty - cy, Margin, h - Margin) <= AxisExit(cx, tx - cx, Margin, w - Margin)
    ensures Exit(if ty > cy then Bottom else Top, cx, cy, tx, ty, w, h, AxisExit(cy, ty - cy, Margin, h - Margin))
  {
    var dx, dy := tx - cx, ty - cy;
    var t := AxisExit(cy, dy, Margin, h - Margin);
    AxisExitFacts(cy, dy, Margin, h - Margin);
    if dx != 0.0 {
      AxisWithin(cx, dx, Margin, w - Margin, t);
    }
    HorizontalHit(cx, cy, tx, ty, w, h, t);
  }

  lemma HorizontalHit(cx: real, cy: real, tx: real, ty: real, w: real, h: real, t: real)
    requires t > 0.0 && ty - cy != 0.0
    requires cy + t * (ty - cy) == if ty - cy > 0.0 then h - Margin else Margin
    requires tx - cx != 0.0 ==> Margin <= cx + t * (tx - cx) <= w - Margin
    requires Margin < cx < w - Margin
    ensures Exit(if ty > cy then Bottom else Top, cx, cy, tx, ty, w, h, t)
  {
    if tx - cx == 0.0 {
      assert t * (tx - cx) == 0.0;
    }
  }
}
