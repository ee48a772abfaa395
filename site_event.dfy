/** A site event: the new site's arc splits the arc under it, two
    breakpoints start on that arc, and the outer arcs have their circle
    events checked again. */
module SiteEvent {
  import opened Wrappers
  import opened Geometry
  import opened Rays
  import opened Events
  import opened BeachlineTree
  import opened TreeFacts
  import opened BeachlineArena
  import opened BeachlineQueries
  import opened BeachlineState
  import opened Sweep
  import opened QueueUpdates

  /** The two breakpoints a site event creates when the new site falls
      under an arc of arcSite: both start on that arc above the new site;
      xl separates (arcSite, site) and xr (site, arcSite), and they grow in
      opposite directions, perpendicular to the line between the sites; xl's
      direction is arcSite - site turned a quarter counter-clockwise. */
  function SiteBreakpoints(arcSite: Point, site: Point, yl: real): (r: (BreakPoint, BreakPoint))
    ensures r.0.origin == r.1.origin
    ensures arcSite.y != yl ==>
              r.0.origin.x == site.x && SqDist(r.0.origin, arcSite) == (r.0.origin.y - yl) * (r.0.origin.y - yl)
    ensures r.0.l == arcSite && r.0.r == site && r.1.l == site && r.1.r == arcSite
    ensures Dot(r.0.direction, Sub(arcSite, site)) == 0.0
    ensures Dot(r.0.direction, r.0.direction) == SqDist(arcSite, site)
    ensures Cross(Sub(arcSite, site), r.0.direction) == SqDist(arcSite, site)
    ensures r.1.direction == Scale(r.0.direction, -1.0)
  {
    PointOnArcAtXFacts(arcSite, yl, site.x);
    NormalVectorFacts(Sub(arcSite, site));
    var edgeOrigin := PointOnArcAtX(arcSite, yl, site.x);
    var xl := BreakPoint(edgeOrigin, NormalVector(Sub(arcSite, site)), arcSite, site);
    var xr := BreakPoint(edgeOrigin, NormalVector(Sub(site, arcSite)), site, arcSite);
    (xl, xr)
  }

  /** The source's two-site test with the sites side by side at height 500:
      the second site falls under the first one's degenerate arc, so both
      new breakpoints start midway, at (500, 500), and point straight down
      and straight up. */
  lemma VerticalLineBreakpoints()
    ensures PointOnArcAtX(Point(250.0, 500.0), 500.0, 750.0) == Point(500.0, 500.0)
    ensures Sub(Point(250.0, 500.0), Point(750.0, 500.0)) == Point(-500.0, 0.0)
    ensures Sub(Point(750.0, 500.0), Point(250.0, 500.0)) == Point(500.0, 0.0)
    ensures NormalVector(Point(-500.0, 0.0)) == Point(0.0, -500.0)
    ensures NormalVector(Point(500.0, 0.0)) == Point(0.0, 500.0)
  {
  }

  /** The same test's lower edge clipped to the box [0, 1000] x [0, 1000]:
      the vertical bisector from (500, 500) down to the bottom wall. */
  lemma VerticalLineDownEdge()
    ensures BoundedSegment(Point(500.0, 500.0), Point(0.0, -500.0), BoundingBox(0.0, 1000.0, 0.0, 1000.0))
            == Segment(Point(500.0, 500.0), Point(500.0, 0.0))
  {
  }

  /** The same test's upper edge: from (500, 500) up to the top wall. */
  lemma VerticalLineUpEdge()
    ensures BoundedSegment(Point(500.0, 500.0), Point(0.0, 500.0), BoundingBox(0.0, 1000.0, 0.0, 1000.0))
            == Segment(Point(500.0, 500.0), Point(500.0, 1000.0))
  {
  }

  /** The source's two-site test with the sites one above the other: the
      lower site meets the upper one's arc at (500, 500), and the two new
      breakpoints point left and right. */
  lemma HorizontalLineBreakpoints()
    ensures PointOnArcAtX(Point(500.0, 750.0), 250.0, 500.0) == Point(500.0, 500.0)
    ensures Sub(Point(500.0, 750.0), Point(500.0, 250.0)) == Point(0.0, 500.0)
    ensures Sub(Point(500.0, 250.0), Point(500.0, 750.0)) == Point(0.0, -500.0)
    ensures NormalVector(Point(0.0, 500.0)) == Point(-500.0, 0.0)
    ensures NormalVector(Point(0.0, -500.0)) == Point(500.0, 0.0)
  {
  }

  /** The same test's left edge clipped to the box: the horizontal
      bisector from (500, 500) to the left wall. */
  lemma HorizontalLineLeftEdge()
    ensures BoundedSegment(Point(500.0, 500.0), Point(-500.0, 0.0), BoundingBox(0.0, 1000.0, 0.0, 1000.0))
            == Segment(Point(500.0, 500.0), Point(0.0, 500.0))
  {
  }

  /** The same test's right edge: from (500, 500) to the right wall. */
  lemma HorizontalLineRightEdge()
    ensures BoundedSegment(Point(500.0, 500.0), Point(500.0, 0.0), BoundingBox(0.0, 1000.0, 0.0, 1000.0))
            == Segment(Point(500.0, 500.0), Point(1000.0, 500.0))
  {
  }

  /** The outcome of a site event at height yl on a non-empty beachline t,
      stored in arena ns: the arc under the site is split by the
      five-entry splice, the tree has the arc replaced by the five-node
      subtree, and the queue m loses that arc's circle event and has the
      circle events of the two new outer arcs checked. */
  ghost predicate ArcSplit(ns: seq<BeachlineEntry>, t: Tree, site: Point, yl: real, bpx: BreakpointAtXFn,
                           dist: DistanceFn, ns': seq<BeachlineEntry>, t': Tree,
                           m: map<Event, real>, m': map<Event, real>)
    requires Linked(ns, t)
  {
    var arcIdx := Descend(ns, t, site, yl, bpx);
    var n := |ns|;
    var under := ns[arcIdx].data.arc;
    var bps := SiteBreakpoints(under.site, site, yl);
    ns' == SpliceArc(ns, arcIdx, under, bps.0, Arc(site), bps.1, under)
    && t' == Replace(t, arcIdx, Five(n)) && WellFormed(ns', t')
    && LeafSet(t') == LeafSet(t) - {arcIdx} + {n, n + 2, n + 4}
    && LeafCount(t') == LeafCount(t) + 2 && NodeCount(t') == NodeCount(t) + 2
    && m' == Schedule(Schedule(m - {Circle(arcIdx)}, n, CircleTop(ns', t', n, yl, dist)),
                      n + 4, CircleTop(ns', t', n + 4, yl, dist))
  }

  /** The site-event outcome from the splice the arena performs on the arc
      found under the site. */
  lemma ArcSplitIntro(ns: seq<BeachlineEntry>, t: Tree, site: Point, yl: real, bpx: BreakpointAtXFn,
                      dist: DistanceFn, arcIdx: nat, arc: Arc, ns': seq<BeachlineEntry>, t': Tree,
                      m: map<Event, real>, m': map<Event, real>)
    requires WellFormed(ns, t) && Linked(ns, t)
    requires arcIdx == Descend(ns, t, site, yl, bpx) && ns[arcIdx].data == ArcData(arc)
    requires ns' == SpliceArc(ns, arcIdx, Arc(arc.site), SiteBreakpoints(arc.site, site, yl).0, Arc(site),
                              SiteBreakpoints(arc.site, site, yl).1, Arc(arc.site))
    requires t' == Replace(t, arcIdx, Five(|ns|)) && WellFormed(ns', t')
    requires LeafSet(t') == LeafSet(t) - {arcIdx} + {|ns|, |ns| + 2, |ns| + 4}
    requires m' == Schedule(Schedule(m - {Circle(arcIdx)}, |ns|, CircleTop(ns', t', |ns|, yl, dist)),
                            |ns| + 4, CircleTop(ns', t', |ns| + 4, yl, dist))
    ensures ArcSplit(ns, t, site, yl, bpx, dist, ns', t', m, m')
  {
    var bps := SiteBreakpoints(arc.site, site, yl);
    SpliceArcCorrect(ns, t, arcIdx, Arc(arc.site), bps.0, Arc(site), bps.1, Arc(arc.site));
  }

  /** The queue side of a site event, apart from the arena: arc arcIdx of t
      gave way to the five-node subtree with arcs n, n + 2 and n + 4, its
      circle event was dropped and the outer two arcs were scheduled at ti
      and tj, neither above yl and each only with neighbours on both sides.
      Queued circles then stay live (every other inner arc stays inner), yl
      still bounds the queue, and the site events keep their priorities. */
  lemma ArcSplitQueue(m: map<Event, real>, m': map<Event, real>, t: Tree, t': Tree, arcIdx: nat, n: nat,
                      ti: Option<real>, tj: Option<real>, yl: real)
    requires Distinct(t) && arcIdx in LeafSet(t) && t' == Replace(t, arcIdx, Five(n))
    requires forall k :: k in Indices(t) ==> k < n
    requires LeafSet(t') == LeafSet(t) - {arcIdx} + {n, n + 2, n + 4}
    requires (ti.Some? ==> ti.value <= yl && Interior(t', n)) && (tj.Some? ==> tj.value <= yl && Interior(t', n + 4))
    requires m' == Schedule(Schedule(m - {Circle(arcIdx)}, n, ti), n + 4, tj)
    ensures CirclesLive(m, Some(t)) ==> CirclesLive(m', Some(t'))
    ensures IsMaxPriority(m, yl) ==> IsMaxPriority(m', yl)
    ensures SitesKept(m, m')
  {
    LeafSetInIndices(t);
    forall k | Interior(t, k) && k != arcIdx
      ensures Interior(t', k)
    {
      ReplaceInterior(t, arcIdx, Five(n), k);
    }
    QueueAfterEvent(m, m - {Circle(arcIdx)}, m', t, t', n, ti, n + 4, tj, yl);
  }

  /** After a site event the queue keeps its invariants: queued circles
      stay live, yl still bounds the queue, and the site events keep
      their priorities. */
  lemma ArcSplitFacts(ns: seq<BeachlineEntry>, t: Tree, site: Point, yl: real, bpx: BreakpointAtXFn,
                      dist: DistanceFn, ns': seq<BeachlineEntry>, t': Tree,
                      m: map<Event, real>, m': map<Event, real>)
    requires WellFormed(ns, t) && Linked(ns, t) && ArcSplit(ns, t, site, yl, bpx, dist, ns', t', m, m')
    ensures CirclesLive(m, Some(t)) ==> CirclesLive(m', Some(t'))
    ensures IsMaxPriority(m, yl) ==> IsMaxPriority(m', yl)
    ensures SitesKept(m, m')
  {
    var arcIdx := Descend(ns, t, site, yl, bpx);
    var n := |ns|;
    LinkedInRange(ns, t);
    assert n in LeafSet(t') && n + 4 in LeafSet(t');
    ArcSplitQueue(m, m', t, t', arcIdx, n, CircleTop(ns', t', n, yl, dist), CircleTop(ns', t', n + 4, yl, dist), yl);
  }

  /** A site event stores the new site's arc and two copies of the split
      arc: the arena's arc sites gain exactly the new site. */
  lemma ArcSplitSites(ns: seq<BeachlineEntry>, t: Tree, site: Point, yl: real, bpx: BreakpointAtXFn,
                      dist: DistanceFn, ns': seq<BeachlineEntry>, t': Tree,
                      m: map<Event, real>, m': map<Event, real>)
    requires Linked(ns, t) && ArcSplit(ns, t, site, yl, bpx, dist, ns', t', m, m')
    ensures ArcSites(ns') == ArcSites(ns) + {site}
  {
    var arcIdx := Descend(ns, t, site, yl, bpx);
    var under := ns[arcIdx].data.arc;
    var bps := SiteBreakpoints(under.site, site, yl);
    assert under.site in ArcSites(ns);
    SpliceArcSites(ns, arcIdx, under, bps.0, Arc(site), bps.1, under);
  }

  /** A site event at height yl: the first site becomes the only arc;
      otherwise the arc under the site loses its circle event and is split
      into (old site, new site, old site) with the two new breakpoints. */
  method AddParabola(site: Point, yl: real, eq: EventQueue, beachline: Beachline,
                     bpx: BreakpointAtXFn, dist: DistanceFn)
    requires beachline.Valid()
    modifies eq, beachline
    ensures beachline.Valid() && beachline.shape.Some?
    ensures old(beachline.root).None? ==>
              beachline.nodes == old(beachline.nodes) + [BeachlineEntry(None, None, None, ArcData(Arc(site)))]
              && beachline.shape == Some(Leaf(|old(beachline.nodes)|))
              && eq.entries == old(eq.entries)
    ensures old(beachline.root).Some? ==>
              ArcSplit(old(beachline.nodes), old(beachline.shape).value, site, yl, bpx, dist,
                       beachline.nodes, beachline.shape.value, old(eq.entries), eq.entries)
    ensures old(beachline.root).None? ==> NodeCount(beachline.shape.value) == 0
    ensures old(beachline.root).Some? ==>
              NodeCount(beachline.shape.value) == old(NodeCount(beachline.shape.value)) + 2
    ensures old(CirclesLive(eq.entries, beachline.shape)) ==> CirclesLive(eq.entries, beachline.shape)
    ensures old(IsMaxPriority(eq.entries, yl)) ==> IsMaxPriority(eq.entries, yl)
    ensures SitesKept(old(eq.entries), eq.entries)
    ensures ArcSites(beachline.nodes) == old(ArcSites(beachline.nodes)) + {site}
  {
    var found := beachline.ArcUnderPoint(site, yl, bpx);
    if found.Some? {
      var arcIdx := found.value.1;
      var arc := found.value.0;
      ghost var t := beachline.shape.value;
      ghost var ns := beachline.nodes;
      ghost var m := eq.entries;
      RemoveCircleEvent(arcIdx, eq);
      var a := Arc(arc.site);
      var b := Arc(site);
      var c := Arc(arc.site);
      var edgeOrigin := PointOnArcAtX(arc.site, yl, site.x);
      var xl := BreakPoint(edgeOrigin, NormalVector(Sub(a.site, b.site)), a.site, b.site);
      var xr := BreakPoint(edgeOrigin, NormalVector(Sub(b.site, c.site)), b.site, c.site);
      assert (xl, xr) == SiteBreakpoints(arc.site, site, yl);
      beachline.ReplaceArc(arcIdx, a, xl, b, xr, c, eq, yl, dist);
      ghost var ns', t', m' := beachline.nodes, beachline.shape.value, eq.entries;
      ArcSplitIntro(ns, t, site, yl, bpx, dist, arcIdx, arc, ns', t', m, m');
      ArcSplitFacts(ns, t, site, yl, bpx, dist, ns', t', m, m');
      ArcSplitSites(ns, t, site, yl, bpx, dist, ns', t', m, m');
    } else {
      ghost var ns := beachline.nodes;
      beachline.AddFirstParabola(site);
      ghost var first := [BeachlineEntry(None, None, None, ArcData(Arc(site)))];
      ArcSitesAppend(ns, first);
      assert ArcSites(first) == {site} by {
        assert first[0].data.arc.site == site;
      }
    }
  }
}
