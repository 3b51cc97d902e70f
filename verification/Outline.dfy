/**
 * mobile/tools/icons_from_tile.ts: how a stroked path is cut into runs at its corners, and how a
 * contour is wound. Points are pairs of reals; a run is the indices of its points.
 */
module Outline {

  // ---------------------------------------------------------------- corner runs

  /** Strictly ascending indices of a path of m points. */
  ghost predicate Ascending(order: seq<nat>, m: nat) {
    && (forall i :: 0 <= i < |order| ==> order[i] < m)
    && (forall i, j :: 0 <= i < j < |order| ==> order[i] < order[j])
  }

  /** Point i ends a run: it turns sharply, or it is an end of an open path. */
  predicate Corner(sharp: seq<bool>, closed: bool, i: nat)
    requires i < |sharp|
  {
    sharp[i] || (!closed && (i == 0 || i == |sharp| - 1))
  }

  /** The corners, in order. */
  method Corners(sharp: seq<bool>, closed: bool) returns (order: seq<nat>)
    ensures Ascending(order, |sharp|)
    ensures forall i :: 0 <= i < |sharp| ==> (i in order <==> Corner(sharp, closed, i))
  {
    order := [];
    for i := 0 to |sharp|
      invariant Ascending(order, i)
      invariant forall j :: 0 <= j < i ==> (j in order <==> Corner(sharp, closed, j))
    {
      if Corner(sharp, closed, i) {
        order := order + [i];
      }
    }
  }

  /** x % m, for an index that has gone round at most once. */
  function Wrap(x: nat, m: nat): (r: nat)
    requires x < 2 * m
    ensures r < m
  {
    if x < m then x else x - m
  }

  lemma ModIsWrap(x: nat, m: nat)
    requires x < 2 * m
    ensures x % m == Wrap(x, m)
  {
  }

  /** Steps from a round a closed path of m points to b; all the way round when they are one point. */
  function Steps(a: nat, b: nat, m: nat): (s: nat)
    requires a < m && b < m
    ensures 1 <= s <= m && Wrap(a + s, m) == b
  {
    if a < b then b - a else b + m - a
  }

  /** s points from a on, going round. */
  function Arc(a: nat, s: nat, m: nat): seq<int>
    requires a < m && s <= m + 1
  {
    seq(s, i requires 0 <= i < s => Wrap(a + i, m))
  }

  lemma ArcIndex(a: nat, s: nat, m: nat)
    requires a < m && s <= m + 1
    ensures |Arc(a, s, m)| == s && forall i :: 0 <= i < s ==> Arc(a, s, m)[i] == Wrap(a + i, m)
  {
  }

  /** The loop that collects one run of a closed path. */
  method ClosedRun(a: nat, b: nat, m: nat) returns (run: seq<int>)
    requires a < m && b < m
    ensures run == Arc(a, Steps(a, b, m) + 1, m)
  {
    run := [];
    var i := a;
    while true
      invariant |run| <= Steps(a, b, m) && i == Wrap(a + |run|, m) && run == Arc(a, |run|, m)
      decreases Steps(a, b, m) - |run|
    {
      run := run + [i];
      if i == b && |run| > 1 {
        OnlyAtTheEnd(a, b, m, |run| - 1);
        return;
      }
      ModIsWrap(i + 1, m);
      i := (i + 1) % m;
    }
  }

  /** Going round from a, b comes up again only after all the steps. */
  lemma OnlyAtTheEnd(a: nat, b: nat, m: nat, k: nat)
    requires a < m && b < m && 1 <= k <= Steps(a, b, m) && Wrap(a + k, m) == b
    ensures k == Steps(a, b, m)
  {
  }

  /** The k-th run of a closed path: from a corner to the next, the last back to the first. */
  function ClosedRunAt(order: seq<nat>, m: nat, k: nat): seq<int>
    requires Ascending(order, m) && k < |order|
  {
    Arc(order[k], Steps(order[k], order[Wrap(k + 1, |order|)], m) + 1, m)
  }

  method ClosedRuns(order: seq<nat>, m: nat) returns (runs: seq<seq<int>>)
    requires Ascending(order, m) && order != []
    ensures |runs| == |order| && forall k :: 0 <= k < |order| ==> runs[k] == ClosedRunAt(order, m, k)
  {
    runs := [];
    for k := 0 to |order|
      invariant |runs| == k && forall j :: 0 <= j < k ==> runs[j] == ClosedRunAt(order, m, j)
    {
      ModIsWrap(k + 1, |order|);
      var run := ClosedRun(order[k], order[(k + 1) % |order|], m);
      runs := runs + [run];
    }
  }

  /** The k-th run of an open path: the slice from a corner to the next. */
  function OpenRunAt(order: seq<nat>, m: nat, k: nat): seq<int>
    requires Ascending(order, m) && k + 1 < |order|
  {
    Arc(order[k], order[k + 1] - order[k] + 1, m)
  }

  method OpenRuns(order: seq<nat>, m: nat) returns (runs: seq<seq<int>>)
    requires Ascending(order, m)
    ensures order == [] ==> runs == []
    ensures order != [] ==> |runs| == |order| - 1
    ensures forall k :: 0 <= k < |runs| ==> runs[k] == OpenRunAt(order, m, k)
  {
    runs := [];
    var k := 0;
    while k + 1 < |order|
      invariant |runs| == k && (order != [] ==> k < |order|) && (order == [] ==> k == 0)
      invariant forall j :: 0 <= j < k ==> runs[j] == OpenRunAt(order, m, j)
    {
      var points := seq(m, i => i);
      var run := points[order[k]..order[k + 1] + 1];
      ArcIndex(order[k], order[k + 1] - order[k] + 1, m);
      assert run == OpenRunAt(order, m, k);
      runs := runs + [run];
      k := k + 1;
    }
  }

  /** Each edge by the point it starts from: all of the run's points but the last. */
  function Edges(run: seq<int>): seq<int> {
    if run == [] then [] else run[..|run| - 1]
  }

  /** All edges of the runs, one run after the other. */
  function AllEdges(runs: seq<seq<int>>): seq<int> {
    if runs == [] then [] else AllEdges(runs[..|runs| - 1]) + Edges(runs[|runs| - 1])
  }

  lemma ArcJoins(a: nat, s: nat, t: nat, m: nat)
    requires a < m && s <= m && s + t <= m + 1
    ensures Arc(a, s, m) + Arc(Wrap(a + s, m), t, m) == Arc(a, s + t, m)
  {
    ArcIndex(a, s, m);
    ArcIndex(Wrap(a + s, m), t, m);
    ArcIndex(a, s + t, m);
  }

  lemma EdgesOfArc(a: nat, s: nat, m: nat)
    requires a < m && s <= m
    ensures Edges(Arc(a, s + 1, m)) == Arc(a, s, m)
  {
  }

  /**
   * Outlining loses and repeats nothing: the runs of a closed path, laid end to end, are the whole
   * path once round from its first corner, however many corners there are (one included).
   */
  lemma ClosedRunsCover(order: seq<nat>, m: nat, runs: seq<seq<int>>)
    requires Ascending(order, m) && order != [] && |runs| == |order|
    requires forall k :: 0 <= k < |order| ==> runs[k] == ClosedRunAt(order, m, k)
    ensures AllEdges(runs) == Arc(order[0], m, m)
  {
    hide Arc, ClosedRunAt, Edges;
    var k := |order| - 1;
    PartOfClosed(order, m, runs, k);
    LastRunGoesRound(order, m);
    assert runs[k] == ClosedRunAt(order, m, k);
    EdgesOfArc(order[k], order[0] + m - order[k], m);
    ArcJoins(order[0], order[k] - order[0], order[0] + m - order[k], m);
  }

  lemma LastRunGoesRound(order: seq<nat>, m: nat)
    requires Ascending(order, m) && order != []
    ensures var k := |order| - 1;
            && order[0] <= order[k]
            && ClosedRunAt(order, m, k) == Arc(order[k], order[0] + m - order[k] + 1, m)
            && Wrap(order[0] + (order[k] - order[0]), m) == order[k]
  {
    hide Arc;
  }

  lemma {:induction false} PartOfClosed(order: seq<nat>, m: nat, runs: seq<seq<int>>, k: nat)
    requires Ascending(order, m) && k < |order| == |runs|
    requires forall j :: 0 <= j < |order| ==> runs[j] == ClosedRunAt(order, m, j)
    ensures order[0] <= order[k] && AllEdges(runs[..k]) == Arc(order[0], order[k] - order[0], m)
  {
    if k == 0 {
      assert AllEdges(runs[..0]) == Arc(order[0], 0, m);
    } else {
      hide Arc;
      PartOfClosed(order, m, runs, k - 1);
      var a, b := order[k - 1], order[k];
      assert runs[..k][..k - 1] == runs[..k - 1];
      assert runs[k - 1] == ClosedRunAt(order, m, k - 1);
      EdgesOfArc(a, b - a, m);
      ArcJoins(order[0], a - order[0], b - a, m);
    }
  }

  /** The runs of an open path, whose two ends are corners, are its edges in order. */
  lemma OpenRunsCover(order: seq<nat>, m: nat, runs: seq<seq<int>>)
    requires Ascending(order, m) && |runs| == |order| - 1
    requires forall k :: 0 <= k < |runs| ==> runs[k] == OpenRunAt(order, m, k)
    ensures order[0] <= order[|order| - 1] && AllEdges(runs) == Arc(order[0], order[|order| - 1] - order[0], m)
  {
    PartOfOpen(order, m, runs, |runs|);
    assert runs[..|runs|] == runs;
  }

  lemma {:induction false} PartOfOpen(order: seq<nat>, m: nat, runs: seq<seq<int>>, k: nat)
    requires Ascending(order, m) && k < |order| == |runs| + 1
    requires forall j :: 0 <= j < |runs| ==> runs[j] == OpenRunAt(order, m, j)
    ensures order[0] <= order[k] && AllEdges(runs[..k]) == Arc(order[0], order[k] - order[0], m)
  {
    if k == 0 {
      assert AllEdges(runs[..0]) == Arc(order[0], 0, m);
    } else {
      hide Arc;
      PartOfOpen(order, m, runs, k - 1);
      var a, b := order[k - 1], order[k];
      assert runs[..k][..k - 1] == runs[..k - 1];
      assert runs[k - 1] == OpenRunAt(order, m, k - 1);
      EdgesOfArc(a, b - a, m);
      ArcJoins(order[0], a - order[0], b - a, m);
    }
  }

  /** Once round from anywhere meets every edge exactly once. */
  lemma OnceRound(a: nat, m: nat, e: nat)
    requires a < m && e < m
    ensures e in Arc(a, m, m)
    ensures forall i, j :: 0 <= i < j < m ==> Arc(a, m, m)[i] != Arc(a, m, m)[j]
  {
    ArcIndex(a, m, m);
    assert Arc(a, m, m)[if e >= a then e - a else e + m - a] == e;
  }

  // ---------------------------------------------------------------- the whole cut

  /** How `outline` takes a path: one point is a dot, a closed path with no corner stays whole, any other is cut. */
  datatype Cut = Dot | Whole | Cut(order: seq<nat>, runs: seq<seq<int>>)

  /** The corners in order, and a run from each to the next: for a closed path, from the last back to the first. */
  ghost predicate AtCorners(order: seq<nat>, runs: seq<seq<int>>, sharp: seq<bool>, closed: bool) {
    && Ascending(order, |sharp|)
    && (forall i :: 0 <= i < |sharp| ==> (i in order <==> Corner(sharp, closed, i)))
    && (closed ==>
          |runs| == |order| && forall k :: 0 <= k < |runs| ==> runs[k] == ClosedRunAt(order, |sharp|, k))
    && (!closed && order != [] ==>
          |runs| == |order| - 1 && forall k :: 0 <= k < |runs| ==> runs[k] == OpenRunAt(order, |sharp|, k))
    && (!closed && order == [] ==> runs == [])
  }

  /** Every edge of a closed path of m points, by its first point, is in the list exactly once. */
  ghost predicate EachOnce(edges: seq<int>, m: nat) {
    && |edges| == m
    && (forall e :: 0 <= e < m ==> e in edges)
    && (forall i, j :: 0 <= i < j < m ==> edges[i] != edges[j])
  }

  /**
   * `outline`, from which points turn sharply to the runs it strokes. Nothing is lost and nothing
   * repeated: the runs of an open path are its edges from end to end, and those of a closed path
   * are every edge once, each run reaching from a corner to the next.
   */
  method CutPath(sharp: seq<bool>, closed: bool) returns (cut: Cut)
    ensures cut.Dot? <==> |sharp| == 1
    ensures cut.Whole? <==> |sharp| != 1 && closed && forall i :: 0 <= i < |sharp| ==> !sharp[i]
    ensures cut.Cut? ==> AtCorners(cut.order, cut.runs, sharp, closed)
    ensures cut.Cut? && !closed && |sharp| > 0 ==> AllEdges(cut.runs) == seq(|sharp| - 1, i => i)
    ensures cut.Cut? && closed ==> EachOnce(AllEdges(cut.runs), |sharp|)
  {
    var m := |sharp|;
    if m == 1 { return Dot; }
    var order := Corners(sharp, closed);
    if closed && order == [] {
      forall i | 0 <= i < m ensures !sharp[i] {
        assert !Corner(sharp, closed, i);
      }
      return Whole;
    }
    if closed {
      var runs := ClosedRuns(order, m);
      ClosedRunsCover(order, m, runs);
      ArcIsEachOnce(order[0], m);
      assert Corner(sharp, closed, order[0]);
      return Cut(order, runs);
    }
    var runs := OpenRuns(order, m);
    if m > 0 {
      EndsAreCorners(sharp, order);
      OpenRunsCover(order, m, runs);
      ArcIndex(0, m - 1, m);
    }
    cut := Cut(order, runs);
  }

  /** The two ends of an open path are its first corner and its last. */
  lemma EndsAreCorners(sharp: seq<bool>, order: seq<nat>)
    requires |sharp| > 0 && Ascending(order, |sharp|)
    requires forall i :: 0 <= i < |sharp| ==> (i in order <==> Corner(sharp, false, i))
    ensures order != [] && order[0] == 0 && order[|order| - 1] == |sharp| - 1
  {
    var m := |sharp|;
    assert Corner(sharp, false, 0) && Corner(sharp, false, m - 1);
    var a :| 0 <= a < |order| && order[a] == 0;
    var b :| 0 <= b < |order| && order[b] == m - 1;
  }

  lemma ArcIsEachOnce(a: nat, m: nat)
    requires a < m
    ensures EachOnce(Arc(a, m, m), m)
  {
    ArcIndex(a, m, m);
    forall e | 0 <= e < m ensures e in Arc(a, m, m) {
      OnceRound(a, m, e);
    }
    OnceRound(a, m, 0);
  }

  // ---------------------------------------------------------------- winding

  type Pt = (real, real)

  function Cross(a: Pt, b: Pt): real {
    a.0 * b.1 - b.0 * a.1
  }

  /** One term of the shoelace sum. */
  function Term(p: seq<Pt>, i: nat): real
    requires i < |p|
  {
    Cross(p[i], p[if i + 1 == |p| then 0 else i + 1])
  }

  function Shoelace(p: seq<Pt>, k: nat): real
    requires k <= |p|
  {
    if k == 0 then 0.0 else Shoelace(p, k - 1) + Term(p, k - 1)
  }

  function Area(p: seq<Pt>): real {
    Shoelace(p, |p|) / 2.0
  }

  method ComputeArea(p: seq<Pt>) returns (a: real)
    ensures a == Area(p)
  {
    a := 0.0;
    for i := 0 to |p|
      invariant a == Shoelace(p, i)
    {
      ModIsWrap(i + 1, |p|);
      a := a + Cross(p[i], p[(i + 1) % |p|]);
    }
    a := a / 2.0;
  }

  lemma CrossFlips(a: Pt, b: Pt)
    ensures Cross(a, b) == -Cross(b, a)
  {
  }

  function Reverse(p: seq<Pt>): seq<Pt> {
    seq(|p|, i requires 0 <= i < |p| => p[|p| - 1 - i])
  }

  /** Round the other way from the same first point. */
  function TurnRound(p: seq<Pt>): seq<Pt> {
    seq(|p|, i requires 0 <= i < |p| => if i == 0 then p[0] else p[|p| - i])
  }

  lemma {:induction false} TurnRoundTerms(p: seq<Pt>, k: nat)
    requires k <= |p|
    ensures Shoelace(TurnRound(p), k) == Shoelace(p, |p| - k) - Shoelace(p, |p|)
  {
    if k > 0 {
      TurnRoundTerms(p, k - 1);
      var j := |p| - k;
      CrossFlips(p[j], p[if j + 1 == |p| then 0 else j + 1]);
      assert Term(TurnRound(p), k - 1) == -Term(p, j);
      assert Shoelace(p, j + 1) == Shoelace(p, j) + Term(p, j);
    }
  }

  lemma {:induction false} ReverseTerms(p: seq<Pt>, k: nat)
    requires k < |p|
    ensures Shoelace(Reverse(p), k) == Shoelace(p, |p| - 1 - k) - Shoelace(p, |p| - 1)
  {
    if k > 0 {
      ReverseTerms(p, k - 1);
      var j := |p| - 1 - k;
      CrossFlips(p[j], p[j + 1]);
      assert Term(Reverse(p), k - 1) == -Term(p, j);
      assert Shoelace(p, j + 1) == Shoelace(p, j) + Term(p, j);
    }
  }

  /** Turning a contour round, either way, negates its area. */
  lemma ReversingNegates(p: seq<Pt>)
    ensures Area(Reverse(p)) == -Area(p)
    ensures Area(TurnRound(p)) == -Area(p)
  {
    TurnRoundTerms(p, |p|);
    if p != [] {
      var n := |p|;
      ReverseTerms(p, n - 1);
      CrossFlips(p[0], p[n - 1]);
      assert Term(Reverse(p), n - 1) == -Term(p, n - 1);
      assert Shoelace(Reverse(p), n) == Shoelace(Reverse(p), n - 1) + Term(Reverse(p), n - 1);
    }
  }

  // ---------------------------------------------------------------- emit

  /** A contour's points; a quadratic one alternates on-curve points and controls. */
  datatype Contour = Contour(points: seq<Pt>, quadratic: bool)

  ghost predicate WellFormed(c: Contour) {
    c.quadratic ==> |c.points| % 2 == 0
  }

  /** The points the area is measured over. */
  function OnCurve(c: Contour): seq<Pt>
    requires c.quadratic ==> |c.points| % 2 == 0
  {
    if c.quadratic then seq(|c.points| / 2, i requires 0 <= i < |c.points| / 2 => c.points[2 * i]) else c.points
  }

  /** The reversed quadratic, as the loop pushes it: a point, then the control before it. */
  function ReversedQuadratic(p: seq<Pt>): seq<Pt>
    requires |p| % 2 == 0
  {
    seq(|p|, i requires 0 <= i < |p| => if i == 0 then p[0] else p[|p| - i])
  }

  method ReverseQuadratic(p: seq<Pt>) returns (rev: seq<Pt>)
    requires |p| % 2 == 0
    ensures rev == ReversedQuadratic(p)
  {
    rev := [];
    var i := |p|;
    while i > 0
      invariant 0 <= i <= |p| && i % 2 == 0 && |rev| == |p| - i
      invariant forall j :: 0 <= j < |rev| ==> rev[j] == ReversedQuadratic(p)[j]
    {
      ModIsWrap(i, |p|);
      rev := rev + [p[i % |p|], p[i - 1]];
      i := i - 2;
    }
  }

  /** Wound as asked: reversed when its area has the other sign. */
  function Wound(c: Contour, clockwise: bool): Contour
    requires c.quadratic ==> |c.points| % 2 == 0
  {
    if (Area(OnCurve(c)) < 0.0) == clockwise then c
    else Contour(if c.quadratic then ReversedQuadratic(c.points) else Reverse(c.points), c.quadratic)
  }

  method Wind(c: Contour, clockwise: bool) returns (wound: Contour)
    requires WellFormed(c)
    ensures wound == Wound(c, clockwise)
  {
    var area := ComputeArea(OnCurve(c));
    if (area < 0.0) == clockwise { return c; }
    if c.quadratic {
      var rev := ReverseQuadratic(c.points);
      return Contour(rev, true);
    }
    wound := Contour(Reverse(c.points), false);
  }

  /** A quadratic arc: from, control, to. */
  datatype Quad = Quad(from: Pt, control: Pt, to: Pt)

  function ArcAt(p: seq<Pt>, k: nat): Quad
    requires |p| % 2 == 0 && 2 * k + 1 < |p|
  {
    Quad(p[2 * k], p[2 * k + 1], p[if 2 * k + 2 == |p| then 0 else 2 * k + 2])
  }

  function Backwards(q: Quad): Quad {
    Quad(q.to, q.control, q.from)
  }

  /** Reversing keeps every arc with its own control point, run backwards. */
  lemma ReversingKeepsArcs(p: seq<Pt>, k: nat)
    requires |p| % 2 == 0 && 2 * k + 1 < |p|
    ensures ArcAt(ReversedQuadratic(p), k) == Backwards(ArcAt(p, |p| / 2 - 1 - k))
  {
  }

  /** The edge of a closed contour that starts at point k. */
  function EdgeAt(p: seq<Pt>, k: nat): (Pt, Pt)
    requires k < |p|
  {
    (p[k], p[if k + 1 == |p| then 0 else k + 1])
  }

  /**
   * What winding returns is the contour itself or the contour run backwards: of a plain one each edge is
   * there from its other end, of a quadratic one each arc, with its own control point, and nothing else.
   */
  lemma WindingKeepsShape(c: Contour, clockwise: bool)
    requires WellFormed(c)
    ensures var wound := Wound(c, clockwise);
            && wound.quadratic == c.quadratic && |wound.points| == |c.points|
            && (wound == c
                || (!c.quadratic && forall k :: 0 <= k < |c.points| ==>
                      var (a, b) := EdgeAt(c.points, if k == |c.points| - 1 then k else |c.points| - 2 - k);
                      EdgeAt(wound.points, k) == (b, a))
                || (c.quadratic && forall k :: 0 <= k < |c.points| / 2 ==>
                      ArcAt(wound.points, k) == Backwards(ArcAt(c.points, |c.points| / 2 - 1 - k))))
  {
    hide Area;
    var p := c.points;
    if c.quadratic {
      forall k | 0 <= k < |p| / 2 ensures ArcAt(ReversedQuadratic(p), k) == Backwards(ArcAt(p, |p| / 2 - 1 - k)) {
        ReversingKeepsArcs(p, k);
      }
    }
  }

  /** Every contour that is not flat comes out wound as asked; a flat one exactly when a hole was asked for. */
  lemma WoundAsAsked(c: Contour, clockwise: bool)
    requires WellFormed(c)
    ensures var wound := Wound(c, clockwise);
            && WellFormed(wound)
            && ((Area(OnCurve(wound)) < 0.0) == clockwise <==> Area(OnCurve(c)) != 0.0 || !clockwise)
            && (Area(OnCurve(wound)) == Area(OnCurve(c)) || Area(OnCurve(wound)) == -Area(OnCurve(c)))
  {
    hide Area;
    ReversingNegates(OnCurve(c));
    if c.quadratic {
      assert OnCurve(Contour(ReversedQuadratic(c.points), true)) == TurnRound(OnCurve(c));
    }
  }

  // ---------------------------------------------------------------- font space

  /** `toFont`: y turned up, scaled. */
  function ToFont(unit: real, p: Pt): Pt {
    (p.0 * unit, (16.0 - p.1) * unit)
  }

  function AllToFont(unit: real, p: seq<Pt>): seq<Pt> {
    seq(|p|, i requires 0 <= i < |p| => ToFont(unit, p[i]))
  }

  /** Turning the y axis round turns every contour's winding round, at any scale. */
  lemma ToFontNegates(unit: real, p: seq<Pt>)
    ensures Area(AllToFont(unit, p)) == -(unit * unit) * Area(p)
  {
    if p != [] {
      var n := |p|;
      ToFontTerms(unit, p, n - 1);
      CrossInFont(unit, p[n - 1], p[0]);
      assert Term(AllToFont(unit, p), n - 1) == Cross(ToFont(unit, p[n - 1]), ToFont(unit, p[0]));
      AreaStep(unit * unit, p[0].0, p[n - 1].0, Shoelace(p, n - 1), Term(p, n - 1));
      assert Shoelace(AllToFont(unit, p), n) == -(unit * unit) * Shoelace(p, n);
      assert -(unit * unit) * Shoelace(p, n) / 2.0 == -(unit * unit) * (Shoelace(p, n) / 2.0);
    }
  }

  /** The ends of the sum cancel. */
  lemma AreaStep(u: real, x: real, y: real, s: real, t: real)
    ensures (u * (16.0 * (x - y)) - u * s) + (u * (16.0 * (y - x)) - u * t) == -u * (s + t)
  {
  }

  lemma CrossInFont(unit: real, a: Pt, b: Pt)
    ensures Cross(ToFont(unit, a), ToFont(unit, b))
         == unit * unit * (16.0 * (a.0 - b.0)) - unit * unit * Cross(a, b)
  {
    var u := unit * unit;
    assert (a.0 * unit) * ((16.0 - b.1) * unit) == u * (16.0 * a.0 - a.0 * b.1);
    assert (b.0 * unit) * ((16.0 - a.1) * unit) == u * (16.0 * b.0 - b.0 * a.1);
  }

  lemma {:induction false} ToFontTerms(unit: real, p: seq<Pt>, k: nat)
    requires k < |p|
    ensures Shoelace(AllToFont(unit, p), k)
         == unit * unit * (16.0 * (p[0].0 - p[k].0)) - unit * unit * Shoelace(p, k)
  {
    var u := unit * unit;
    if k > 0 {
      ToFontTerms(unit, p, k - 1);
      CrossInFont(unit, p[k - 1], p[k]);
      assert Term(AllToFont(unit, p), k - 1) == Cross(ToFont(unit, p[k - 1]), ToFont(unit, p[k]));
      var x, y, z := p[0].0, p[k - 1].0, p[k].0;
      assert u * (16.0 * (x - y)) + u * (16.0 * (y - z)) == u * (16.0 * (x - z));
      assert u * Shoelace(p, k) == u * Shoelace(p, k - 1) + u * Term(p, k - 1);
    }
  }
}
