/** The sweep's pending events and the priority queue that holds them. The
    queue is an external crate in the source; it is modelled by what the
    sweep uses of it: a map from event to priority with push (insert or
    re-prioritise), pop of a highest-priority entry, and removal by key. */
module Events {
  import opened Wrappers
  import opened Geometry

  /** A site event carries its point; a circle event names the arena index
      of the arc that would vanish. */
  datatype Event = Site(site: Point) | Circle(arcIdx: nat)

  /** True when no entry of the map has a higher priority than p. */
  predicate IsMaxPriority(m: map<Event, real>, p: real)
  {
    forall e :: e in m ==> m[e] <= p
  }

  /** A non-empty finite queue has an entry of highest priority. */
  lemma {:induction false} MaxExists(m: map<Event, real>)
    requires |m| > 0
    ensures exists e :: e in m && IsMaxPriority(m, m[e])
  {
    var e0 :| e0 in m;
    var rest := m - {e0};
    assert rest.Keys == m.Keys - {e0};
    if |rest| == 0 {
      assert m.Keys == {e0};
      assert IsMaxPriority(m, m[e0]);
    } else {
      MaxExists(rest);
      var e1 :| e1 in rest && IsMaxPriority(rest, rest[e1]);
      forall e | e in m ensures e == e0 || (e in rest && m[e] <= m[e1]) {
        if e != e0 { assert e in rest && rest[e] == m[e]; }
      }
      if m[e0] <= m[e1] {
        assert IsMaxPriority(m, m[e1]);
      } else {
        assert IsMaxPriority(m, m[e0]);
      }
    }
  }

  class EventQueue {
    var entries: map<Event, real>

    constructor ()
      ensures entries == map[]
    {
      entries := map[];
    }

    /** Insert the event, or update its priority when it is already queued. */
    method Push(e: Event, priority: real)
      modifies this
      ensures entries == old(entries)[e := priority]
    {
      entries := entries[e := priority];
    }

    /** Remove and return an entry of highest priority; None on an empty
        queue. Which of several equal-priority entries comes out is not
        specified, as in the source's queue. */
    method Pop() returns (r: Option<(Event, real)>)
      modifies this
      ensures r.None? <==> old(entries) == map[]
      ensures r.Some? ==> r.value.0 in old(entries) && r.value.1 == old(entries)[r.value.0]
      ensures r.Some? ==> IsMaxPriority(old(entries), r.value.1)
      ensures r.Some? ==> entries == old(entries) - {r.value.0}
      ensures r.None? ==> entries == old(entries)
    {
      if |entries| == 0 {
        return None;
      }
      MaxExists(entries);
      var e :| e in entries && IsMaxPriority(entries, entries[e]);
      r := Some((e, entries[e]));
      entries := entries - {e};
    }

    /** Remove the event if it is queued; otherwise nothing happens. */
    method Remove(e: Event)
      modifies this
      ensures entries == old(entries) - {e}
    {
      entries := entries - {e};
    }
  }
}
