/** The run of the sweep: its state between events, one event step, and
    what stays true from event to event. */
module SweepRun {
  import opened Wrappers
  import opened Geometry
  import opened Events
  import opened BeachlineTree
  import opened BeachlineArena
  import opened BeachlineQueries
  import opened BeachlineState
  import opened Sweep
  import opened SiteEvent
  import opened CircleEvent

  /** The queue before the sweep: a site event per site at the site's
      height; a repeated site is queued once. */
  function InitialQueue(sites: seq<Point>): (m: map<Event, real>)
    ensures forall e :: e in m ==> e.Site? && e.site in sites && m[e] == e.site.y
    ensures forall p :: p in sites ==> Site(p) in m
  {
    if |sites| == 0 then map[]
    else
      var last := sites[|sites| - 1];
      var m' := InitialQueue(sites[..|sites| - 1]);
      assert forall p :: p in sites[..|sites| - 1] ==> p in sites;
      assert forall p :: p in sites ==> p == last || p in sites[..|sites| - 1];
      m'[Site(last) := last.y]
  }

  /** The sweep between two events: the queue, the arena with the tree it
      forms, and the edge pieces emitted so far. */
  datatype SweepState = SweepState(queue: map<Event, real>, nodes: seq<BeachlineEntry>, shape: Option<Tree>,
                                   pieces: seq<Segment>)

  /** Before the first event: every site queued, an empty beachline, no
      pieces. */
  function StartState(sites: seq<Point>): SweepState
  {
    SweepState(InitialQueue(sites), [], None, [])
  }

  /** Event e, on top of st's queue at priority yl, is handled without an
      error and leads to st': the first site becomes the only arc, a later
      site splits the arc under it (ArcSplit), and a circle event closes
      its arc (CircleHandled), both on the queue without e. */
  ghost predicate EventStep(st: SweepState, e: Event, yl: real, st': SweepState, bpx: BreakpointAtXFn,
                            dist: DistanceFn)
  {
    e in st.queue && st.queue[e] == yl && IsMaxPriority(st.queue, yl)
    && match e
       case Site(site) =>
         st'.pieces == st.pieces
         && (st.shape.None? ==>
               st'.nodes == st.nodes + [BeachlineEntry(None, None, None, ArcData(Arc(site)))]
               && st'.shape == Some(Leaf(|st.nodes|)) && st'.queue == st.queue - {e})
         && (st.shape.Some? ==>
               st'.shape.Some? && Linked(st.nodes, st.shape.value)
               && ArcSplit(st.nodes, st.shape.value, site, yl, bpx, dist, st'.nodes, st'.shape.value,
                           st.queue - {e}, st'.queue))
       case Circle(arcIdx) =>
         st.shape.Some? && st'.shape.Some? && WellFormed(st.nodes, st.shape.value)
         && arcIdx in LeafSet(st.shape.value)
         && CircleHandled(st.nodes, st.shape.value, arcIdx, st.pieces, st'.pieces, st'.nodes, st'.shape.value,
                          st.queue - {e}, st'.queue, yl, dist)
  }

  /** The k-th handled event of trace takes states[k] to states[k + 1]. */
  ghost predicate StepAt(states: seq<SweepState>, trace: seq<(Event, real)>, k: nat, bpx: BreakpointAtXFn,
                         dist: DistanceFn)
  {
    k < |trace| && k + 1 < |states| && EventStep(states[k], trace[k].0, trace[k].1, states[k + 1], bpx, dist)
  }

  /** states is a run of the sweep along trace: each handled event takes
      one state to the next. */
  ghost predicate IsRun(states: seq<SweepState>, trace: seq<(Event, real)>, bpx: BreakpointAtXFn, dist: DistanceFn)
  {
    |states| == |trace| + 1 && forall k: nat :: k < |trace| ==> StepAt(states, trace, k, bpx, dist)
  }

  /** A run extended by one more handled event is a run. */
  lemma {:induction false} RunExtend(states: seq<SweepState>, trace: seq<(Event, real)>, st: SweepState,
                                     e: Event, yl: real, bpx: BreakpointAtXFn, dist: DistanceFn)
    requires IsRun(states, trace, bpx, dist) && EventStep(states[|trace|], e, yl, st, bpx, dist)
    ensures IsRun(states + [st], trace + [(e, yl)], bpx, dist)
  {
    var states', trace' := states + [st], trace + [(e, yl)];
    forall k: nat | k < |trace'|
      ensures StepAt(states', trace', k, bpx, dist)
    {
      if k < |trace| {
        assert StepAt(states, trace, k, bpx, dist);
        assert states'[k] == states[k] && states'[k + 1] == states[k + 1] && trace'[k] == trace[k];
      } else {
        assert states'[k] == states[|trace|] && states'[k + 1] == st && trace'[k] == (e, yl);
      }
    }
  }

  /** What the sweep keeps true between events, with the sweep now in
      state now: states is the run so far from the start state along trace and ends in now, the bookkeeping
      (priorities, handled sites, circle events) matches the trace and
      keeps the sweep invariant, the arena stores arcs of input sites
      only, the pieces come in pairs ending at circle centres, and at most
      3·S − 2 events have been handled for S distinct sites. */
  ghost predicate Progress(sites: seq<Point>, states: seq<SweepState>,
                           trace: seq<(Event, real)>, priorities: seq<real>, handled: set<Point>, circleEvents: nat,
                           now: SweepState, bpx: BreakpointAtXFn, dist: DistanceFn)
  {
    SweepInvariant(sites, now.queue, now.shape, priorities, handled, circleEvents, |now.pieces|)
    && TraceMatches(trace, priorities, handled, circleEvents)
    && |states| == |trace| + 1 && states[0] == StartState(sites) && IsRun(states, trace, bpx, dist)
    && states[|trace|] == now
    && ArcSites(now.nodes) <= SiteSet(sites)
    && CirclePieces(now.pieces, SiteSet(sites))
    && (|sites| > 0 ==> |trace| + 2 <= 3 * |SiteSet(sites)|)
    && (|sites| == 0 ==> now.queue == map[] && trace == [])
  }

  /** Handling the top event e of state st, which leads to st' and keeps
      the sweep invariant one event on, keeps Progress. */
  lemma {:induction false} ProgressStep(sites: seq<Point>, states: seq<SweepState>, trace: seq<(Event, real)>,
                                        priorities: seq<real>, handled: set<Point>, circleEvents: nat,
                                        st: SweepState, e: Event, yl: real, st': SweepState,
                                        bpx: BreakpointAtXFn, dist: DistanceFn)
    requires Progress(sites, states, trace, priorities, handled, circleEvents, st, bpx, dist)
    requires EventStep(st, e, yl, st', bpx, dist)
    requires SweepInvariant(sites, st'.queue, st'.shape, priorities + [yl],
                            if e.Site? then handled + {e.site} else handled,
                            if e.Site? then circleEvents else circleEvents + 1, |st'.pieces|)
    requires ArcSites(st'.nodes) <= ArcSites(st.nodes) + (if e.Site? then {e.site} else {})
    requires e.Circle? ==> CirclePair(st.pieces, st'.pieces, ArcSites(st.nodes))
    requires e.Site? ==> st'.pieces == st.pieces
    ensures Progress(sites, states + [st'], trace + [(e, yl)], priorities + [yl],
                     if e.Site? then handled + {e.site} else handled,
                     if e.Site? then circleEvents else circleEvents + 1, st', bpx, dist)
  {
    TraceStep(trace, priorities, handled, circleEvents, e, yl);
    RunExtend(states, trace, st', e, yl, bpx, dist);
    if e.Circle? {
      CirclePiecesStep(st.pieces, st'.pieces, ArcSites(st.nodes), SiteSet(sites));
    }
    EventBound(sites, st'.queue, st'.shape, priorities + [yl], if e.Site? then handled + {e.site} else handled,
               if e.Site? then circleEvents else circleEvents + 1, |st'.pieces|);
  }
}
