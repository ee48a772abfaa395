/** A circle event: a vanishing arc is removed, the two edges that bounded
    it are finished at the centre of the circle through the three sites,
    and its neighbours have their circle events checked again. */
module CircleEvent {
  import opened Wrappers
  import opened Geometry
  import opened Events
  import opened BeachlineTree
  import opened TreeFacts
  import opened BeachlineArena
  import opened BeachlineQueries
  import opened BeachlineState
  import opened Sweep
  import opened QueueUpdates

  /** Why a circle event on arc arcIdx of t, stored in arena ns, fails, if
      it does: the arc lacks a neighbour on either side, or its site and its
      neighbours' sites lie on one line. */
  ghost function CircleFailure(ns: seq<BeachlineEntry>, t: Tree, arcIdx: nat): Option<SweepError>
    requires WellFormed(ns, t) && arcIdx in LeafSet(t)
  {
    match Surroundings(ns, t, arcIdx)
    case None => Some(MissingNeighbour)
    case Some(sr) =>
      if Circumcenter(sr.0, ns[arcIdx].data.arc.site, sr.1).None? then Some(Collinear) else None
  }

  /** Event e failed with error on the beachline (ns, shape) it found: it is
      a circle event for an arc of that beachline, and CircleFailure names
      error. */
  ghost predicate FailsOn(e: Event, ns: seq<BeachlineEntry>, shape: Option<Tree>, error: SweepError)
  {
    e.Circle? && shape.Some? && WellFormed(ns, shape.value) && e.arcIdx in LeafSet(shape.value)
    && CircleFailure(ns, shape.value, e.arcIdx) == Some(error)
  }

  /** A circle event on arc arcIdx at height yl: the neighbours lose their
      circle events, the two edges bounding the arc are finished at the
      centre of the circle through the three sites, and the arc gives way
      to a breakpoint between its neighbours. The source panics where this
      returns an error. */
  method RemoveParabola(arcIdx: nat, eq: EventQueue, beachline: Beachline, segments: seq<Segment>,
                        yl: real, dist: DistanceFn)
    returns (r: Result<seq<Segment>, SweepError>)
    requires beachline.Valid() && beachline.shape.Some? && arcIdx in LeafSet(beachline.shape.value)
    modifies eq, beachline
    ensures r.Err? ==> unchanged(beachline)
    ensures (old(Surroundings(beachline.nodes, beachline.shape.value, arcIdx)).None?
             <==> r == Err(MissingNeighbour))
    ensures r == Err(MissingNeighbour) ==> eq.entries == old(eq.entries)
    ensures r != Err(MissingNeighbour) ==>
              var t := old(beachline.shape).value;
              var ns := old(beachline.nodes);
              var sr := Surroundings(ns, t, arcIdx).value;
              var m := old(eq.entries) - {Circle(NeighbourArc(t, arcIdx, Left).value),
                                          Circle(NeighbourArc(t, arcIdx, Right).value)};
              var s := Circumcenter(sr.0, ns[arcIdx].data.arc.site, sr.1);
              (s.None? <==> r == Err(Collinear))
              && (r == Err(Collinear) ==> eq.entries == m)
              && (r.Ok? ==> beachline.shape.Some?
                            && ArcClosed(ns, t, arcIdx, s.value, segments, r.value,
                                         beachline.nodes, beachline.shape.value, m, eq.entries, yl, dist))
    ensures r.Ok? ==> |r.value| == |segments| + 2
    ensures r.Ok? ==> beachline.Valid() && beachline.shape.Some?
                      && NodeCount(beachline.shape.value) + 1 == old(NodeCount(beachline.shape.value))
    ensures r.Ok? && old(CirclesLive(eq.entries, beachline.shape)) && Circle(arcIdx) !in old(eq.entries) ==>
              CirclesLive(eq.entries, beachline.shape)
    ensures r.Ok? && old(IsMaxPriority(eq.entries, yl)) ==> IsMaxPriority(eq.entries, yl)
    ensures SitesKept(old(eq.entries), eq.entries)
    ensures r.Err? ==> old(CircleFailure(beachline.nodes, beachline.shape.value, arcIdx)) == Some(r.error)
    ensures r.Ok? ==> old(CircleFailure(beachline.nodes, beachline.shape.value, arcIdx)).None?
  {
    ghost var t := beachline.shape.value;
    LinkedInRange(beachline.nodes, t);
    NeighbourFacts(beachline.nodes, t, arcIdx, Left);
    NeighbourFacts(beachline.nodes, t, arcIdx, Right);
    var p := beachline.ArcAt(arcIdx);
    var lOpt := beachline.LeftArc(arcIdx);
    var rOpt := beachline.RightArc(arcIdx);
    if lOpt.None? || rOpt.None? {
      return Err(MissingNeighbour);
    }
    var (l, lIdx) := lOpt.value;
    var (rArc, rIdx) := rOpt.value;
    RemoveCircleEvent(lIdx, eq);
    RemoveCircleEvent(rIdx, eq);
    assert eq.entries == old(eq.entries) - {Circle(lIdx), Circle(rIdx)};
    var s := Circumcenter(l.site, p.site, rArc.site);
    if s.None? {
      return Err(Collinear);
    }
    var segs := CloseArc(arcIdx, l, rArc, s.value, eq, beachline, segments, yl, dist);
    r := Ok(segs);
  }

  /** The outcome of a circle event on arc arcIdx of t, stored in arena ns,
      once the centre of its circle is known: the edge pieces from the two
      bounding breakpoints to the centre are appended to segments; the
      arena is the corrected splice of the arc with the merged breakpoint
      starting at the centre; the tree loses the arc and one breakpoint; and
      the queue m has the circle events of the two neighbours re-checked. */
  ghost predicate ArcClosed(ns: seq<BeachlineEntry>, t: Tree, arcIdx: nat, center: Point,
                            segments: seq<Segment>, segs: seq<Segment>,
                            ns': seq<BeachlineEntry>, t': Tree, m: map<Event, real>, m': map<Event, real>,
                            yl: real, dist: DistanceFn)
    requires WellFormed(ns, t) && arcIdx in LeafSet(t)
  {
    Surroundings(ns, t, arcIdx).Some?
    && var sr := Surroundings(ns, t, arcIdx).value;
       var li := NeighbourArc(t, arcIdx, Left).value;
       var ri := NeighbourArc(t, arcIdx, Right).value;
       var x := BreakPoint(center, NormalVector(Sub(sr.0, sr.1)), sr.0, sr.1);
       segs == segments + [Segment(sr.2.origin, center), Segment(sr.3.origin, center)]
       && SpliceFixed(ns, AncRoot(t, arcIdx, Left).value, arcIdx, AncRoot(t, arcIdx, Right).value, x) == Some(ns')
       && t' == RemoveLeaf(t, arcIdx) && WellFormed(ns', t')
       && LeafSet(t') == LeafSet(t) - {arcIdx}
       && LeafCount(t') + 1 == LeafCount(t) && NodeCount(t') + 1 == NodeCount(t)
       && li in LeafSet(t') && ri in LeafSet(t')
       && m' == Schedule(Schedule(m, li, CircleTop(ns', t', li, yl, dist)), ri, CircleTop(ns', t', ri, yl, dist))
  }

  /** The rest of a circle event once the centre is known: the edge pieces
      from the two bounding breakpoints to the centre are appended, the
      arena splice removes the arc and merges its breakpoints into one
      starting at the centre, and the neighbours' circle events are
      checked. */
  method CloseArc(arcIdx: nat, l: Arc, r: Arc, center: Point, eq: EventQueue, beachline: Beachline,
                  segments: seq<Segment>, yl: real, dist: DistanceFn)
    returns (segs: seq<Segment>)
    requires beachline.Valid() && beachline.shape.Some? && arcIdx in LeafSet(beachline.shape.value)
    requires Surroundings(beachline.nodes, beachline.shape.value, arcIdx).Some?
    requires l.site == Surroundings(beachline.nodes, beachline.shape.value, arcIdx).value.0
    requires r.site == Surroundings(beachline.nodes, beachline.shape.value, arcIdx).value.1
    modifies eq, beachline
    ensures beachline.Valid() && beachline.shape.Some? && |segs| == |segments| + 2
    ensures NodeCount(beachline.shape.value) + 1 == old(NodeCount(beachline.shape.value))
    ensures ArcClosed(old(beachline.nodes), old(beachline.shape).value, arcIdx, center, segments, segs,
                      beachline.nodes, beachline.shape.value, old(eq.entries), eq.entries, yl, dist)
    ensures old(CirclesLive(eq.entries, beachline.shape)) && Circle(arcIdx) !in old(eq.entries) ==>
              CirclesLive(eq.entries, beachline.shape)
    ensures old(IsMaxPriority(eq.entries, yl)) ==> IsMaxPriority(eq.entries, yl)
    ensures SitesKept(old(eq.entries), eq.entries)
  {
    ghost var t := beachline.shape.value;
    ghost var ns := beachline.nodes;
    ghost var m := eq.entries;
    NeighbourFacts(ns, t, arcIdx, Left);
    NeighbourFacts(ns, t, arcIdx, Right);
    var xlOpt := beachline.LeftEdge(arcIdx);
    var xrOpt := beachline.RightEdge(arcIdx);
    var (xl, xlIdx) := xlOpt.value;
    var (xr, xrIdx) := xrOpt.value;
    ghost var sr := Surroundings(ns, t, arcIdx).value;
    assert xl == sr.2 && xr == sr.3;
    segs := segments + [Segment(xl.origin, center)];
    segs := segs + [Segment(xr.origin, center)];
    assert segs == segments + [Segment(sr.2.origin, center), Segment(sr.3.origin, center)];
    var x := BreakPoint(center, NormalVector(Sub(l.site, r.site)), l.site, r.site);
    beachline.ReplaceBreakpoint(xlIdx, arcIdx, xrIdx, x, eq, yl, dist);
    ghost var ns', t', m' := beachline.nodes, beachline.shape.value, eq.entries;
    assert ArcClosed(ns, t, arcIdx, center, segments, segs, ns', t', m, m', yl, dist);
    ArcClosedFacts(ns, t, arcIdx, center, segments, segs, ns', t', m, m', yl, dist);
  }

  /** After a circle event there are two more edge pieces and one
      breakpoint fewer, and the queue keeps its invariants: queued circles
      stay live when the removed arc had none queued, yl still bounds the
      queue, and the site events keep their priorities. */
  lemma ArcClosedFacts(ns: seq<BeachlineEntry>, t: Tree, arcIdx: nat, center: Point,
                        segments: seq<Segment>, segs: seq<Segment>,
                        ns': seq<BeachlineEntry>, t': Tree, m: map<Event, real>, m': map<Event, real>,
                        yl: real, dist: DistanceFn)
    requires WellFormed(ns, t) && arcIdx in LeafSet(t)
    requires ArcClosed(ns, t, arcIdx, center, segments, segs, ns', t', m, m', yl, dist)
    ensures |segs| == |segments| + 2 && NodeCount(t') + 1 == NodeCount(t)
    ensures CirclesLive(m, Some(t)) && Circle(arcIdx) !in m ==> CirclesLive(m', Some(t'))
    ensures IsMaxPriority(m, yl) ==> IsMaxPriority(m', yl)
    ensures SitesKept(m, m')
  {
    var li := NeighbourArc(t, arcIdx, Left).value;
    var ri := NeighbourArc(t, arcIdx, Right).value;
    forall k | Interior(t, k) && k != arcIdx
      ensures Interior(t', k)
    {
      RemoveLeafInterior(t, arcIdx, k);
    }
    QueueAfterEvent(m, m, m', t, t', li, CircleTop(ns', t', li, yl, dist), ri, CircleTop(ns', t', ri, yl, dist), yl);
  }

  /** The outcome of a circle event on arc arcIdx of t, stored in arena ns,
      with the queue at m before: the arc has both neighbours, the circle
      through the three sites has a centre, and the event closes the arc at
      that centre once the neighbours' circle events are dropped from m. */
  ghost predicate CircleHandled(ns: seq<BeachlineEntry>, t: Tree, arcIdx: nat,
                                segments: seq<Segment>, segs: seq<Segment>,
                                ns': seq<BeachlineEntry>, t': Tree, m: map<Event, real>, m': map<Event, real>,
                                yl: real, dist: DistanceFn)
    requires WellFormed(ns, t) && arcIdx in LeafSet(t)
  {
    Surroundings(ns, t, arcIdx).Some?
    && var sr := Surroundings(ns, t, arcIdx).value;
       var s := Circumcenter(sr.0, ns[arcIdx].data.arc.site, sr.1);
       s.Some?
       && ArcClosed(ns, t, arcIdx, s.value, segments, segs, ns', t',
                    m - {Circle(NeighbourArc(t, arcIdx, Left).value), Circle(NeighbourArc(t, arcIdx, Right).value)},
                    m', yl, dist)
  }

  /** A handled circle event does not fail, stores no new arc, and adds two
      edge pieces that end at the centre of the circle through the arc's
      site and its neighbours' sites. */
  lemma CircleHandledFacts(ns: seq<BeachlineEntry>, t: Tree, arcIdx: nat,
                           segments: seq<Segment>, segs: seq<Segment>,
                           ns': seq<BeachlineEntry>, t': Tree, m: map<Event, real>, m': map<Event, real>,
                           yl: real, dist: DistanceFn)
    requires WellFormed(ns, t) && arcIdx in LeafSet(t)
    requires CircleHandled(ns, t, arcIdx, segments, segs, ns', t', m, m', yl, dist)
    ensures CircleFailure(ns, t, arcIdx).None?
    ensures ArcSites(ns') <= ArcSites(ns)
    ensures CirclePair(segments, segs, ArcSites(ns))
  {
    var sr := Surroundings(ns, t, arcIdx).value;
    LeafSetInIndices(t);
    NeighbourFacts(ns, t, arcIdx, Left);
    NeighbourFacts(ns, t, arcIdx, Right);
    var li := NeighbourArc(t, arcIdx, Left).value;
    var ri := NeighbourArc(t, arcIdx, Right).value;
    var site := ns[arcIdx].data.arc.site;
    assert sr.0 == ns[li].data.arc.site && sr.1 == ns[ri].data.arc.site;
    assert sr.0 in ArcSites(ns) && sr.1 in ArcSites(ns) && site in ArcSites(ns);
    var c := Circumcenter(sr.0, site, sr.1).value;
    assert CentreOf(c, sr.0, site, sr.1);
    assert segs[|segments|].end == c;
    var x := BreakPoint(c, NormalVector(Sub(sr.0, sr.1)), sr.0, sr.1);
    SpliceFixedSites(ns, AncRoot(t, arcIdx, Left).value, arcIdx, AncRoot(t, arcIdx, Right).value, x);
  }
}
