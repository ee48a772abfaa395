/** How the event queue changes while the sweep runs: scheduling and
    dropping circle events keeps every queued circle event on a live arc,
    keeps the sweep height an upper bound, and leaves site events alone. */
module QueueUpdates {
  import opened Wrappers
  import opened Events
  import opened BeachlineTree
  import opened BeachlineQueries
  import opened Sweep

  /** Scheduling a circle event, at a priority not above yl, only for an
      arc with neighbours on both sides keeps every queued circle live,
      keeps yl an upper bound of the queue, and leaves the site events and
      their priorities as they were. */
  lemma ScheduleKeeps(m: map<Event, real>, i: nat, top: Option<real>, yl: real, shape: Option<Tree>)
    requires top.Some? ==> top.value <= yl
    requires shape.Some? && (top.Some? ==> Interior(shape.value, i))
    ensures IsMaxPriority(m, yl) ==> IsMaxPriority(Schedule(m, i, top), yl)
    ensures CirclesLive(m, shape) ==> CirclesLive(Schedule(m, i, top), shape)
    ensures SitesKept(m, Schedule(m, i, top))
  {
  }

  /** Circle events of arcs that left the beachline, or became its first or
      last arc, are gone from m': then every circle event still queued is
      live on the new shape. */
  lemma LiveAfter(m: map<Event, real>, m': map<Event, real>, shape: Option<Tree>, shape': Option<Tree>)
    requires CirclesLive(m, shape) && shape.Some? && shape'.Some?
    requires forall e :: e in m' ==> e in m
    requires forall e :: e in m' && e.Circle? ==>
               Interior(shape.value, e.arcIdx) ==> Interior(shape'.value, e.arcIdx)
    ensures CirclesLive(m', shape')
  {
  }

  /** The queue after an event handler: m1 is m0 with some circle events
      removed, then arcs i and j are scheduled, each only when it has
      neighbours on both sides. When no arc that stops being inner keeps a
      circle event in m1, queued circles stay live; yl stays an upper
      bound; site events keep their priorities. */
  lemma {:induction false} QueueAfterEvent(m0: map<Event, real>, m1: map<Event, real>, m: map<Event, real>,
                                           t: Tree, t': Tree, i: nat, ti: Option<real>, j: nat,
                                           tj: Option<real>, yl: real)
    requires forall e :: e in m1 ==> e in m0 && m1[e] == m0[e]
    requires forall e :: e in m0 && e !in m1 ==> e.Circle?
    requires m == Schedule(Schedule(m1, i, ti), j, tj)
    requires (ti.Some? ==> ti.value <= yl) && (tj.Some? ==> tj.value <= yl)
    requires (ti.Some? ==> Interior(t', i)) && (tj.Some? ==> Interior(t', j))
    ensures CirclesLive(m0, Some(t))
            && (forall k :: Interior(t, k) && !Interior(t', k) ==> Circle(k) !in m1)
            ==> CirclesLive(m, Some(t'))
    ensures IsMaxPriority(m0, yl) ==> IsMaxPriority(m, yl)
    ensures SitesKept(m0, m)
  {
    var m2 := Schedule(m1, i, ti);
    if CirclesLive(m0, Some(t)) && (forall k :: Interior(t, k) && !Interior(t', k) ==> Circle(k) !in m1) {
      forall e | e in m1 && e.Circle? && Interior(t, e.arcIdx)
        ensures Interior(t', e.arcIdx)
      {
        assert e == Circle(e.arcIdx);
      }
      LiveAfter(m0, m1, Some(t), Some(t'));
    }
    ScheduleKeeps(m1, i, ti, yl, Some(t'));
    ScheduleKeeps(m2, j, tj, yl, Some(t'));
  }

  /** Drop the pending circle event of arc arcIdx, if any. */
  method RemoveCircleEvent(arcIdx: nat, eq: EventQueue)
    modifies eq
    ensures eq.entries == old(eq.entries) - {Circle(arcIdx)}
  {
    eq.Remove(Circle(arcIdx));
  }
}
