/** The sweep driver: sites are queued by height, the highest event is
    handled first (modules SiteEvent and CircleEvent), and the breakpoints
    left at the end are clipped to the box. */
module Fortunes {
  import opened Wrappers
  import opened Geometry
  import opened Events
  import opened BeachlineTree
  import opened BeachlineArena
  import opened BeachlineQueries
  import opened BeachlineState
  import opened Sweep
  import opened SiteEvent
  import opened CircleEvent
  import opened SweepRun

  /** One event taken off the queue: a site event adds a parabola (the
      first one becomes the root, any later one splits the arc under it),
      a circle event removes one and adds its two edge pieces to res, or
      fails leaving the beachline as it was. */
  method HandleEvent(e: Event, yl: real, eq: EventQueue, beachline: Beachline, res: seq<Segment>,
                     bpx: BreakpointAtXFn, dist: DistanceFn)
    returns (r: Result<seq<Segment>, SweepError>)
    requires beachline.Valid() && e !in eq.entries
    requires e.Circle? ==> beachline.shape.Some? && e.arcIdx in LeafSet(beachline.shape.value)
    modifies eq, beachline
    ensures e.Site? ==> r == Ok(res)
    ensures e.Site? && old(beachline.root).None? ==>
              beachline.nodes == old(beachline.nodes) + [BeachlineEntry(None, None, None, ArcData(Arc(e.site)))]
              && beachline.shape == Some(Leaf(|old(beachline.nodes)|)) && eq.entries == old(eq.entries)
    ensures e.Site? && old(beachline.root).Some? ==>
              beachline.shape.Some?
              && ArcSplit(old(beachline.nodes), old(beachline.shape).value, e.site, yl, bpx, dist,
                          beachline.nodes, beachline.shape.value, old(eq.entries), eq.entries)
    ensures e.Circle? && r.Err? ==> unchanged(beachline)
    ensures e.Circle? && r.Ok? ==>
              beachline.shape.Some?
              && CircleHandled(old(beachline.nodes), old(beachline.shape).value, e.arcIdx, res, r.value,
                               beachline.nodes, beachline.shape.value, old(eq.entries), eq.entries, yl, dist)
    ensures r.Ok? ==> beachline.Valid()
                      && EventHandled(e, old(eq.entries), eq.entries, old(beachline.shape), beachline.shape,
                                      |res|, |r.value|, yl)
    ensures r != Err(OutOfFuel)
    ensures e.Circle? ==>
              (r.Err? <==> old(CircleFailure(beachline.nodes, beachline.shape.value, e.arcIdx)).Some?)
    ensures e.Circle? && r.Err? ==>
              old(CircleFailure(beachline.nodes, beachline.shape.value, e.arcIdx)) == Some(r.error)
    ensures r.Ok? ==>
              ArcSites(beachline.nodes) <= old(ArcSites(beachline.nodes)) + (if e.Site? then {e.site} else {})
    ensures e.Circle? && r.Ok? ==> CirclePair(res, r.value, old(ArcSites(beachline.nodes)))
  {
    ghost var ns, t, m := beachline.nodes, beachline.shape, eq.entries;
    match e
    case Site(site) =>
      AddParabola(site, yl, eq, beachline, bpx, dist);
      r := Ok(res);
    case Circle(arcIdx) =>
      r := RemoveParabola(arcIdx, eq, beachline, res, yl, dist);
      if r.Ok? {
        CircleHandledFacts(ns, t.value, arcIdx, res, r.value, beachline.nodes, beachline.shape.value, m,
                           eq.entries, yl, dist);
      }
  }

  /** A fresh queue holding one site event per site, at the site's height. */
  method QueueSites(sites: seq<Point>) returns (eq: EventQueue)
    ensures fresh(eq) && eq.entries == InitialQueue(sites)
  {
    eq := new EventQueue();
    for k := 0 to |sites|
      invariant eq.entries == InitialQueue(sites[..k])
    {
      eq.Push(Site(sites[k]), sites[k].y);
      assert sites[..k + 1][..k] == sites[..k];
    }
    assert sites[..|sites|] == sites;
  }


  /** One turn of the sweep: event e, just taken off the queue at priority
      yl, is handled, and the sweep's bookkeeping moves on by one event;
      st is the sweep's state before it, and the event takes st one step
      on. */
  method SweepEvent(e: Event, yl: real, eq: EventQueue, beachline: Beachline, res: seq<Segment>,
                    bpx: BreakpointAtXFn, dist: DistanceFn, ghost sites: seq<Point>, ghost before: map<Event, real>,
                    ghost priorities: seq<real>, ghost handled: set<Point>, ghost circleEvents: nat,
                    ghost st: SweepState)
    returns (r: Result<seq<Segment>, SweepError>)
    requires beachline.Valid()
    requires st == SweepState(before, beachline.nodes, beachline.shape, res)
    requires SweepInvariant(sites, before, beachline.shape, priorities, handled, circleEvents, |res|)
    requires e in before && before[e] == yl && IsMaxPriority(before, yl) && eq.entries == before - {e}
    modifies eq, beachline
    ensures e.Site? ==> r == Ok(res)
    ensures r.Ok? ==> beachline.Valid()
                      && SweepInvariant(sites, eq.entries, beachline.shape, priorities + [yl],
                                        if e.Site? then handled + {e.site} else handled,
                                        if e.Site? then circleEvents else circleEvents + 1, |r.value|)
    ensures r.Ok? ==> EventStep(st, e, yl, SweepState(eq.entries, beachline.nodes, beachline.shape, r.value), bpx, dist)
    ensures r.Err? ==> FailsOn(e, old(beachline.nodes), old(beachline.shape), r.error)
    ensures r.Err? ==> r.error == Collinear
    ensures r.Err? ==> beachline.nodes == old(beachline.nodes) && beachline.shape == old(beachline.shape)
    ensures r.Ok? ==>
              ArcSites(beachline.nodes) <= old(ArcSites(beachline.nodes)) + (if e.Site? then {e.site} else {})
    ensures e.Circle? && r.Ok? ==> CirclePair(res, r.value, old(ArcSites(beachline.nodes)))
  {
    ghost var shape := beachline.shape;
    r := HandleEvent(e, yl, eq, beachline, res, bpx, dist);
    if r.Ok? {
      SweepStep(sites, before, eq.entries, shape, beachline.shape, priorities, handled, circleEvents,
                |res|, |r.value|, e, yl);
    }
  }


  /** One turn of the event loop, from state st: the top event is taken
      off the queue and handled, unless the queue is empty or no fuel
      remains. Handled (done false), it takes the run and the bookkeeping
      one event on and Progress holds of the new state st'. Otherwise
      (done true) the sweep stops in st, with the beachline as it is in st:
      with no error when the queue was empty, with OutOfFuel when events
      were left and no fuel, or with the event that failed because its
      arc's sites are collinear. */
  method SweepTurn(eq: EventQueue, beachline: Beachline, pieces: seq<Segment>, fuel: nat, bpx: BreakpointAtXFn,
                   dist: DistanceFn, ghost sites: seq<Point>, ghost states: seq<SweepState>,
                   ghost trace: seq<(Event, real)>, ghost priorities: seq<real>, ghost handled: set<Point>,
                   ghost circleEvents: nat, ghost st: SweepState)
    returns (done: bool, err: Option<SweepError>, pieces': seq<Segment>, ghost failed: Option<Event>,
             ghost st': SweepState, ghost states': seq<SweepState>, ghost trace': seq<(Event, real)>,
             ghost priorities': seq<real>, ghost handled': set<Point>, ghost circleEvents': nat)
    requires beachline.Valid()
    requires Progress(sites, states, trace, priorities, handled, circleEvents, st, bpx, dist)
    requires st == SweepState(eq.entries, beachline.nodes, beachline.shape, pieces)
    modifies eq, beachline
    ensures !done ==>
              err.None? && fuel > 0 && beachline.Valid()
              && st' == SweepState(eq.entries, beachline.nodes, beachline.shape, pieces')
              && |trace'| == |trace| + 1
              && Progress(sites, states', trace', priorities', handled', circleEvents', st', bpx, dist)
    ensures done ==> beachline.nodes == st.nodes && beachline.shape == st.shape
    ensures done && err.None? ==> beachline.Valid() && st.queue == map[]
    ensures done && err == Some(OutOfFuel) ==> fuel == 0 && st.queue != map[]
    ensures done && err.Some? && err != Some(OutOfFuel) ==>
              err == Some(Collinear) && failed.Some? && failed.value in st.queue
              && IsMaxPriority(st.queue, st.queue[failed.value])
              && FailsOn(failed.value, st.nodes, st.shape, err.value)
  {
    done, err, pieces', failed := true, None, pieces, None;
    st', states', trace', priorities', handled', circleEvents' := st, states, trace, priorities, handled, circleEvents;
    var next := eq.Pop();
    if next.None? {
      return;
    }
    if fuel == 0 {
      err := Some(OutOfFuel);
      return;
    }
    var (e, yl) := next.value;
    var r := SweepEvent(e, yl, eq, beachline, pieces, bpx, dist, sites, st.queue, priorities, handled, circleEvents,
                        st);
    if r.Err? {
      err, failed := Some(r.error), Some(e);
      return;
    }
    done, pieces' := false, r.value;
    st' := SweepState(eq.entries, beachline.nodes, beachline.shape, pieces');
    ProgressStep(sites, states, trace, priorities, handled, circleEvents, st, e, yl, st', bpx, dist);
    states', trace', priorities' := states + [st'], trace + [(e, yl)], priorities + [yl];
    handled' := if e.Site? then handled + {e.site} else handled;
    circleEvents' := if e.Site? then circleEvents else circleEvents + 1;
  }

  /** The event loop of the sweep: events are taken off the queue highest
      first and handled until the queue is empty, an event fails, or an
      event is taken after fuel events have been handled. The ghost states
      are the run of the sweep along the ghost trace of handled events,
      from the start state to last, the state before the last event taken
      (with the beachline still as it is then); the trace matches the
      sweep's bookkeeping (priorities, handled sites, circle events), and
      pieces holds the edge pieces emitted, in pairs that end at the centre
      of a circle through three input sites. Without an error the last queue is empty. An error is
      either fuel spent while events are still queued, or a circle event
      taken off the top of the last queue whose sites are collinear; no
      circle event lacks a neighbour. At most 3·S − 2 events are handled
      for S distinct sites, so fuel of 3·S − 1 or more is never spent. */
  method SweepLoop(sites: seq<Point>, eq: EventQueue, beachline: Beachline, bpx: BreakpointAtXFn, dist: DistanceFn,
                   fuel: nat)
    returns (err: Option<SweepError>, pieces: seq<Segment>, ghost trace: seq<(Event, real)>,
             ghost states: seq<SweepState>, ghost priorities: seq<real>, ghost handled: set<Point>,
             ghost circleEvents: nat, ghost last: SweepState, ghost failed: Option<Event>)
    requires beachline.Valid() && beachline.nodes == [] && beachline.shape.None? && eq.entries == InitialQueue(sites)
    modifies eq, beachline
    ensures Progress(sites, states, trace, priorities, handled, circleEvents, last, bpx, dist)
    ensures last.nodes == beachline.nodes && last.shape == beachline.shape && last.pieces == pieces
    ensures |trace| <= fuel
    ensures err.None? ==> beachline.Valid() && last.queue == map[]
    ensures err == Some(OutOfFuel) ==> |trace| == fuel && last.queue != map[]
    ensures err.Some? && err != Some(OutOfFuel) ==>
              err == Some(Collinear) && failed.Some? && failed.value in last.queue
              && IsMaxPriority(last.queue, last.queue[failed.value])
              && FailsOn(failed.value, last.nodes, last.shape, err.value)
  {
    err, failed := None, None;
    pieces := [];
    trace := [];
    priorities := [];
    circleEvents := 0;
    handled := {};
    states := [StartState(sites)];
    last := SweepState(eq.entries, beachline.nodes, beachline.shape, pieces);
    var remaining := fuel;
    while true
      invariant beachline.Valid()
      invariant last == SweepState(eq.entries, beachline.nodes, beachline.shape, pieces)
      invariant Progress(sites, states, trace, priorities, handled, circleEvents, last, bpx, dist)
      invariant |trace| + remaining == fuel
      decreases remaining
    {
      var done, stepErr, stepPieces;
      ghost var stepFailed, st', states', trace', priorities', handled', circleEvents';
      done, stepErr, stepPieces, stepFailed, st', states', trace', priorities', handled', circleEvents' :=
        SweepTurn(eq, beachline, pieces, remaining, bpx, dist, sites, states, trace, priorities, handled,
                  circleEvents, last);
      if done {
        err, failed := stepErr, stepFailed;
        break;
      }
      states, trace, priorities, handled, circleEvents := states', trace', priorities', handled', circleEvents';
      pieces, remaining, last := stepPieces, remaining - 1, st';
    }
  }

  /** The sweep over the given sites, clipped to box. Every site is queued
      at its height; events are handled highest first until the queue is
      empty; the breakpoints left on the beachline are then clipped to the
      box. The ghost run is the sweep's state after each event of the
      ghost trace, from the start state; its last state holds the final
      arena and pieces. The trace's priorities never increase; a completed
      sweep handles every site exactly once, at its height. The result is
      the edge pieces of the circle events, two per event, each pair ending
      at the centre of a circle through three input sites, followed by one
      clipped segment per breakpoint of the final beachline: 2·S − 2 + C
      segments for S distinct sites and C circle events. No sites give no
      segments. At most 3·S − 2 events are handled. The loop runs for at
      most fuel events, and fuel of 3·S − 1 or more is never spent; the
      only other error is a circle event whose sites are collinear, where
      the source panics (the ghost failure names the event and the final
      beachline, on which it failed). */
  method FortunesAlgorithm(sites: seq<Point>, box: BoundingBox, bpx: BreakpointAtXFn, dist: DistanceFn,
                           fuel: nat)
    returns (r: Result<seq<Segment>, SweepError>, ghost trace: seq<(Event, real)>, ghost run: seq<SweepState>,
             ghost finalNodes: seq<BeachlineEntry>, ghost finalShape: Option<Tree>, ghost pieces: seq<Segment>,
             ghost failure: Option<(Event, seq<BeachlineEntry>, Option<Tree>)>)
    ensures |run| == |trace| + 1 && run[0] == StartState(sites) && IsRun(run, trace, bpx, dist)
    ensures run[|trace|].nodes == finalNodes && run[|trace|].shape == finalShape && run[|trace|].pieces == pieces
    ensures forall k :: 0 < k < |trace| ==> trace[k].1 <= trace[k - 1].1
    ensures forall k :: 0 <= k < |trace| && trace[k].0.Site? ==>
              trace[k].0.site in SiteSet(sites) && trace[k].1 == trace[k].0.site.y
    ensures SitesOnce(trace)
    ensures ArcSites(finalNodes) <= SiteSet(sites)
    ensures CirclePieces(pieces, SiteSet(sites))
    ensures r.Ok? ==> run[|trace|].queue == map[]
    ensures r.Ok? ==> TraceSites(trace) == SiteSet(sites) && |trace| == |SiteSet(sites)| + CircleCount(trace)
    ensures r.Ok? ==> |pieces| == 2 * CircleCount(trace)
    ensures r.Ok? && finalShape.None? ==> r.value == pieces
    ensures r.Ok? && finalShape.Some? ==>
              WellFormed(finalNodes, finalShape.value) && Linked(finalNodes, finalShape.value)
              && r.value == pieces + EdgeSegments(finalNodes, finalShape.value, box)
    ensures r.Ok? && |sites| == 0 ==> finalShape.None? && r.value == []
    ensures r.Ok? && |sites| > 0 ==> finalShape.Some? && |r.value| + 2 == 2 * |SiteSet(sites)| + CircleCount(trace)
    ensures |sites| == 0 ==> r == Ok([]) && trace == []
    ensures |sites| > 0 ==> |trace| + 2 <= 3 * |SiteSet(sites)|
    ensures fuel + 2 > 3 * |SiteSet(sites)| ==> r != Err(OutOfFuel)
    ensures r == Err(OutOfFuel) ==> |trace| == fuel && run[|trace|].queue != map[]
    ensures r.Err? && r.error != OutOfFuel ==>
              r.error == Collinear && failure.Some?
              && failure.value.0 in run[|trace|].queue
              && IsMaxPriority(run[|trace|].queue, run[|trace|].queue[failure.value.0])
              && failure.value.1 == finalNodes && failure.value.2 == finalShape
              && FailsOn(failure.value.0, failure.value.1, failure.value.2, r.error)
  {
    var eq := QueueSites(sites);
    var beachline := new Beachline();
    var err, res;
    ghost var priorities, handled, circleEvents, last, failed;
    err, res, trace, run, priorities, handled, circleEvents, last, failed :=
      SweepLoop(sites, eq, beachline, bpx, dist, fuel);
    TraceFacts(sites, last.queue, last.shape, trace, priorities, handled, circleEvents, |res|);
    finalNodes, finalShape, pieces := beachline.nodes, beachline.shape, res;
    failure := if failed.Some? then Some((failed.value, last.nodes, last.shape)) else None;
    if err.Some? {
      return Err(err.value), trace, run, finalNodes, finalShape, pieces, failure;
    }
    SweepDone(sites, beachline.shape, priorities, handled, circleEvents, |res|);
    var edges := beachline.ExtendEdgesToBoundingBox(box, res);
    r := Ok(edges);
  }
}
