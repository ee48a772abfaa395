/** The sweep's bookkeeping between events: which sites are handled,
    which circle events are live, how many breakpoints and edge pieces
    there are, and how one handled event moves these on. */
module Sweep {
  import opened Wrappers
  import opened Geometry
  import opened Events
  import opened BeachlineTree

  function SiteSet(sites: seq<Point>): set<Point>
  {
    set p | p in sites
  }

  /** Every queued circle event names an arc currently on the beachline,
      with an arc on either side of it. */
  ghost predicate CirclesLive(m: map<Event, real>, shape: Option<Tree>)
  {
    forall e :: e in m && e.Circle? ==> shape.Some? && Interior(shape.value, e.arcIdx)
  }

  /** m' holds the same site events as m, at the same priorities. */
  ghost predicate SitesKept(m: map<Event, real>, m': map<Event, real>)
  {
    forall e: Event :: e.Site? ==> (e in m' <==> e in m) && (e in m' ==> m'[e] == m[e])
  }

  /** What handling event e at height yl guarantees, with m and shape
      before and m' and shape' after, and pieces edge pieces growing to
      pieces': the beachline is non-empty; a site event adds two
      breakpoints (none for the first site) and no piece; a circle event
      removes one breakpoint and adds two pieces; queued circles stay live,
      yl still bounds the queue, and the site events keep their priorities. */
  ghost predicate EventHandled(e: Event, m: map<Event, real>, m': map<Event, real>, shape: Option<Tree>,
                               shape': Option<Tree>, pieces: nat, pieces': nat, yl: real)
  {
    shape'.Some?
    && (e.Site? ==> pieces' == pieces
                    && (shape.None? ==> NodeCount(shape'.value) == 0)
                    && (shape.Some? ==> NodeCount(shape'.value) == NodeCount(shape.value) + 2))
    && (e.Circle? ==> pieces' == pieces + 2 && shape.Some?
                      && NodeCount(shape'.value) + 1 == NodeCount(shape.value))
    && (CirclesLive(m, shape) ==> CirclesLive(m', shape'))
    && (IsMaxPriority(m, yl) ==> IsMaxPriority(m', yl))
    && SitesKept(m, m')
  }

  /** What the sweep keeps true between events: queued circles are live,
      the last handled priority bounds the queue and the handled priorities
      never increase, each site is either handled or still queued (never
      both) and a queued site sits at its own height, and the counts of priorities, edge pieces and breakpoints
      follow from the numbers of handled sites and circle events. */
  ghost predicate SweepInvariant(sites: seq<Point>, m: map<Event, real>, shape: Option<Tree>,
                                 priorities: seq<real>, handled: set<Point>, circleEvents: nat, pieces: nat)
  {
    CirclesLive(m, shape)
    && (|priorities| > 0 ==> IsMaxPriority(m, priorities[|priorities| - 1]))
    && (forall k :: 0 < k < |priorities| ==> priorities[k] <= priorities[k - 1])
    && (forall e :: e in m && e.Site? ==> e.site in SiteSet(sites) && e.site !in handled && m[e] == e.site.y)
    && (forall p :: p in SiteSet(sites) ==> p in handled || Site(p) in m)
    && handled <= SiteSet(sites)
    && |priorities| == |handled| + circleEvents
    && pieces == 2 * circleEvents
    && (shape.None? <==> handled == {})
    && (handled == {} ==> circleEvents == 0)
    && (shape.Some? ==> NodeCount(shape.value) + circleEvents + 2 == 2 * |handled|)
  }

  /** Taking the top event e off queue m0 and handling it as HandleEvent
      promises (the queue becomes m, the shape shape', pieces grows to
      pieces') keeps the sweep invariant. */
  lemma SweepStep(sites: seq<Point>, m0: map<Event, real>, m: map<Event, real>, shape: Option<Tree>,
                  shape': Option<Tree>, priorities: seq<real>, handled: set<Point>, circleEvents: nat,
                  pieces: nat, pieces': nat, e: Event, yl: real)
    requires SweepInvariant(sites, m0, shape, priorities, handled, circleEvents, pieces)
    requires e in m0 && m0[e] == yl && IsMaxPriority(m0, yl)
    requires EventHandled(e, m0 - {e}, m, shape, shape', pieces, pieces', yl)
    ensures SweepInvariant(sites, m, shape', priorities + [yl],
                           if e.Site? then handled + {e.site} else handled,
                           if e.Site? then circleEvents else circleEvents + 1, pieces')
  {
    var m1 := m0 - {e};
    assert forall e' :: e' in m1 ==> e' in m0 && m1[e'] == m0[e'];
    assert CirclesLive(m1, shape) && IsMaxPriority(m1, yl);
    var ps := priorities + [yl];
    assert |priorities| > 0 ==> yl <= priorities[|priorities| - 1] by {
      if |priorities| > 0 {
        assert e in m0;
      }
    }
    assert forall k :: 0 < k < |ps| ==> ps[k] <= ps[k - 1] by {
      forall k | 0 < k < |ps|
        ensures ps[k] <= ps[k - 1]
      {
        if k < |priorities| {
          assert ps[k] == priorities[k] && ps[k - 1] == priorities[k - 1];
        }
      }
    }
    if e.Site? {
      var h := handled + {e.site};
      assert e.site !in handled && e.site in SiteSet(sites);
      assert |h| == |handled| + 1;
      forall p | p in SiteSet(sites)
        ensures p in h || Site(p) in m
      {
        if p !in h {
          assert Site(p) in m0 && Site(p) != e;
        }
      }
    } else {
      forall p | p in SiteSet(sites)
        ensures p in handled || Site(p) in m
      {
        if p !in handled {
          assert Site(p) in m0 && Site(p) != e;
        }
      }
    }
  }

  /** The sites whose events appear in a trace of handled (event, priority)
      pairs. */
  function TraceSites(trace: seq<(Event, real)>): set<Point>
  {
    set k | 0 <= k < |trace| && trace[k].0.Site? :: trace[k].0.site
  }

  /** The number of circle events in a trace. */
  function CircleCount(trace: seq<(Event, real)>): nat
  {
    if |trace| == 0 then 0
    else CircleCount(trace[..|trace| - 1]) + (if trace[|trace| - 1].0.Circle? then 1 else 0)
  }

  /** No site event appears twice in the trace. */
  predicate SitesOnce(trace: seq<(Event, real)>)
  {
    forall i, j :: 0 <= i < j < |trace| && trace[j].0.Site? ==> trace[i].0 != trace[j].0
  }

  /** The trace of handled events agrees with the sweep's bookkeeping: its
      priorities are the handled priorities, its sites are the handled
      sites, each once and at its own height, and it holds circleEvents
      circle events. */
  ghost predicate TraceMatches(trace: seq<(Event, real)>, priorities: seq<real>, handled: set<Point>,
                               circleEvents: nat)
  {
    |trace| == |priorities|
    && (forall k :: 0 <= k < |trace| ==> trace[k].1 == priorities[k])
    && (forall k :: 0 <= k < |trace| && trace[k].0.Site? ==> trace[k].1 == trace[k].0.site.y)
    && TraceSites(trace) == handled && CircleCount(trace) == circleEvents
    && SitesOnce(trace)
  }

  /** Appending event e, taken at priority yl, to a trace that matches the
      bookkeeping gives a trace that matches the bookkeeping one event on,
      as long as a site event is for a site not yet handled and is taken
      at the site's height (which SweepInvariant guarantees for a queued
      site event). */
  lemma TraceStep(trace: seq<(Event, real)>, priorities: seq<real>, handled: set<Point>, circleEvents: nat,
                  e: Event, yl: real)
    requires TraceMatches(trace, priorities, handled, circleEvents)
    requires e.Site? ==> e.site !in handled && yl == e.site.y
    ensures TraceMatches(trace + [(e, yl)], priorities + [yl],
                         if e.Site? then handled + {e.site} else handled,
                         if e.Site? then circleEvents else circleEvents + 1)
  {
    var t := trace + [(e, yl)];
    assert t[..|trace|] == trace;
    var h := if e.Site? then handled + {e.site} else handled;
    forall p | p in TraceSites(t)
      ensures p in h
    {
      var k :| 0 <= k < |t| && t[k].0.Site? && t[k].0.site == p;
      if k < |trace| {
        assert trace[k] == t[k];
      }
    }
    forall p | p in h
      ensures p in TraceSites(t)
    {
      if p in handled {
        var k :| 0 <= k < |trace| && trace[k].0.Site? && trace[k].0.site == p;
        assert t[k] == trace[k];
      } else {
        assert t[|trace|].0.site == p;
      }
    }
    forall i, j | 0 <= i < j < |t| && t[j].0.Site?
      ensures t[i].0 != t[j].0
    {
      if j == |trace| {
        assert t[i] == trace[i];
        assert trace[i].0.Site? ==> trace[i].0.site in TraceSites(trace);
      } else {
        assert t[i] == trace[i] && t[j] == trace[j];
      }
    }
  }

  /** What a trace that matches the bookkeeping tells about the sweep so
      far: its priorities never increase, each site event in it is for a
      site of the input, at the site's height, and appears once, and it
      holds one event per handled site and circle event. */
  lemma TraceFacts(sites: seq<Point>, m: map<Event, real>, shape: Option<Tree>, trace: seq<(Event, real)>,
                   priorities: seq<real>, handled: set<Point>, circleEvents: nat, pieces: nat)
    requires SweepInvariant(sites, m, shape, priorities, handled, circleEvents, pieces)
    requires TraceMatches(trace, priorities, handled, circleEvents)
    ensures forall k :: 0 < k < |trace| ==> trace[k].1 <= trace[k - 1].1
    ensures forall k :: 0 <= k < |trace| && trace[k].0.Site? ==>
              trace[k].0.site in SiteSet(sites) && trace[k].1 == trace[k].0.site.y
    ensures SitesOnce(trace)
    ensures |trace| == |handled| + CircleCount(trace)
  {
    forall k | 0 <= k < |trace| && trace[k].0.Site?
      ensures trace[k].0.site in SiteSet(sites)
    {
      assert trace[k].0.site in TraceSites(trace);
    }
  }

  /** When the queue is empty every site has been handled: one priority per
      site and circle event, and pieces plus the breakpoints still on the
      beachline add up to 2·S − 2 + C for S distinct sites. */
  lemma SweepDone(sites: seq<Point>, shape: Option<Tree>, priorities: seq<real>, handled: set<Point>,
                  circleEvents: nat, pieces: nat)
    requires SweepInvariant(sites, map[], shape, priorities, handled, circleEvents, pieces)
    ensures handled == SiteSet(sites)
    ensures |priorities| == |SiteSet(sites)| + circleEvents
    ensures |sites| == 0 ==> shape.None? && pieces == 0
    ensures |sites| > 0 ==> shape.Some? && pieces + NodeCount(shape.value) + 2 == 2 * |SiteSet(sites)| + circleEvents
  {
    assert handled == SiteSet(sites);
    if |sites| > 0 {
      assert sites[0] in SiteSet(sites);
    }
  }

  /** No set is larger than a set that holds it. */
  lemma {:induction false} SubsetSize<T>(a: set<T>, b: set<T>)
    requires a <= b
    ensures |a| <= |b|
    decreases a
  {
    if a != {} {
      var x :| x in a;
      SubsetSize(a - {x}, b - {x});
    }
  }

  /** The sweep handles at most 3·S − 2 events for S distinct sites: every
      handled site adds at most two breakpoints, every circle event takes
      one away, and the breakpoints never run out. */
  lemma EventBound(sites: seq<Point>, m: map<Event, real>, shape: Option<Tree>, priorities: seq<real>,
                   handled: set<Point>, circleEvents: nat, pieces: nat)
    requires SweepInvariant(sites, m, shape, priorities, handled, circleEvents, pieces)
    ensures |sites| > 0 ==> |priorities| + 2 <= 3 * |SiteSet(sites)|
  {
    SubsetSize(handled, SiteSet(sites));
    if |sites| > 0 {
      assert sites[0] in SiteSet(sites);
    }
  }

  /** c is the centre of the circle through a, b and d, three points not
      on one line: it is as far from each of them. */
  ghost predicate CentreOf(c: Point, a: Point, b: Point, d: Point)
  {
    Cross(Sub(b, a), Sub(d, a)) != 0.0 && SqDist(c, a) == SqDist(c, d) && SqDist(c, b) == SqDist(c, d)
  }

  /** c is the centre of a circle through three sites of S that are not on
      one line. */
  ghost predicate CircleCentre(c: Point, S: set<Point>)
  {
    exists a, b, d :: a in S && b in S && d in S && CentreOf(c, a, b, d)
  }

  /** pieces' is pieces with two more edge pieces that end at one point,
      the centre of a circle through three sites of S. */
  ghost predicate CirclePair(pieces: seq<Segment>, pieces': seq<Segment>, S: set<Point>)
  {
    |pieces'| == |pieces| + 2 && pieces'[..|pieces|] == pieces
    && pieces'[|pieces|].end == pieces'[|pieces| + 1].end && CircleCentre(pieces'[|pieces|].end, S)
  }

  /** The edge pieces come in pairs, and the two pieces of a pair end at
      one point: the centre of a circle through three sites of S that are
      not on one line. */
  ghost predicate CirclePieces(pieces: seq<Segment>, S: set<Point>)
  {
    |pieces| % 2 == 0
    && forall k :: 0 <= k && k + 1 < |pieces| && k % 2 == 0 ==>
         pieces[k + 1].end == pieces[k].end && CircleCentre(pieces[k].end, S)
  }

  /** A pair of pieces ending at the centre of a circle through three sites
      of S keeps the pairing, also against any larger set of sites. */
  lemma CirclePiecesStep(pieces: seq<Segment>, pieces': seq<Segment>, S: set<Point>, S': set<Point>)
    requires CirclePieces(pieces, S') && CirclePair(pieces, pieces', S) && S <= S'
    ensures CirclePieces(pieces', S')
  {
    var n := |pieces|;
    var c := pieces'[n].end;
    var a, b, d :| a in S && b in S && d in S && CentreOf(c, a, b, d);
    assert CircleCentre(c, S') by {
      assert a in S' && b in S' && d in S';
    }
    forall k | 0 <= k && k + 1 < |pieces'| && k % 2 == 0
      ensures pieces'[k + 1].end == pieces'[k].end && CircleCentre(pieces'[k].end, S')
    {
      if k < n {
        assert k + 1 < n;
        assert pieces'[k] == pieces'[..n][k] == pieces[k];
        assert pieces'[k + 1] == pieces'[..n][k + 1] == pieces[k + 1];
      } else {
        assert k == n;
      }
    }
  }

  /** Where the source panics: a circle event whose arc lacks a neighbour
      (an `unwrap` of a missing arc), three collinear sites (the
      circumcentre's panic), and a sweep that did not finish within its
      fuel. */
  datatype SweepError = MissingNeighbour | Collinear | OutOfFuel
}
