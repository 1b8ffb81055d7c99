/** The invariant that every walk created by the application keeps under
    joins, and its tie to the notification log: capacity is never exceeded,
    nobody is listed twice, a walk is confirmed exactly when it is full,
    each participant was announced by exactly one `joined`, and each walk
    has had at most one `capacity_reached` (one exactly when confirmed). */
module Invariant {
  import opened WalkTypes
  import opened Joining

  /** A walk as createWalk builds it and as joins keep it. */
  predicate WellFormed(w: Walk)
  {
    && 0 < w.maxSize
    && |w.participants| <= w.maxSize
    && NoDuplicates(w.participants)
    && (w.status == Scheduled || w.status == Confirmed)
    && (w.status == Confirmed <==> |w.participants| == w.maxSize)
  }

  /** The walk list and the log of notifications sent so far agree. */
  ghost predicate ValidState(ws: seq<Walk>, log: seq<Event>)
  {
    && DistinctIds(ws)
    && (forall i :: 0 <= i < |ws| ==> WellFormed(ws[i]))
    && (forall i :: 0 <= i < |ws| ==> JoinedCount(log, ws[i].id) == |ws[i].participants|)
    && (forall i :: 0 <= i < |ws| ==>
          CapacityCount(log, ws[i].id) == if ws[i].status == Confirmed then 1 else 0)
    && (forall e :: e in log ==> e.walk.id in Ids(ws))
  }

  /** In a consistent state no walk has had more than one
      `capacity_reached`, and none has more participants than its capacity. */
  lemma ValidStateBounds(ws: seq<Walk>, log: seq<Event>, i: nat)
    requires ValidState(ws, log) && i < |ws|
    ensures CapacityCount(log, ws[i].id) <= 1
    ensures |ws[i].participants| <= ws[i].maxSize
    ensures ws[i].status == Confirmed <==> CapacityCount(log, ws[i].id) == 1
  {
  }

  /** A well-formed walk stays well-formed through the join update. */
  lemma StepKeepsWellFormed(w: Walk, id: string, u: User)
    requires WellFormed(w)
    ensures WellFormed(Step(w, id, u).walk)
  {
  }

  /** A log none of whose notifications is about `x` counts nothing for `x`. */
  lemma {:induction false} CountsAbsent(evs: seq<Event>, x: string)
    requires forall e :: e in evs ==> e.walk.id != x
    ensures JoinedCount(evs, x) == 0 && CapacityCount(evs, x) == 0
  {
    if evs != [] {
      assert evs[0] in evs;
      CountsAbsent(evs[1..], x);
    }
  }

  /** Replacing a walk by one with the same id keeps the set of ids. */
  lemma IdsUpdate(ws: seq<Walk>, k: nat, v: Walk)
    requires k < |ws| && v.id == ws[k].id
    ensures Ids(ws[k := v]) == Ids(ws)
  {
    forall x | x in Ids(ws) ensures x in Ids(ws[k := v]) {
      var w :| w in ws && w.id == x;
      var j :| 0 <= j < |ws| && ws[j] == w;
      if j == k { assert ws[k := v][k] == v; } else { assert ws[k := v][j] == w; }
    }
    forall x | x in Ids(ws[k := v]) ensures x in Ids(ws) {
      var w :| w in ws[k := v] && w.id == x;
      var j :| 0 <= j < |ws| && ws[k := v][j] == w;
      assert ws[j] in ws;
    }
  }

  /** The counts of a one-notification log. */
  lemma CountsOne(e: Event, x: string)
    ensures JoinedCount([e], x) == if e.Joined? && e.walk.id == x then 1 else 0
    ensures CapacityCount([e], x) == if e.CapacityReached? && e.walk.id == x then 1 else 0
  {
    assert [e][1..] == [];
  }

  /** The counts of the notifications of one update for its own walk. */
  lemma StepCounts(w: Walk, u: User)
    requires WellFormed(w)
    ensures var s := Step(w, w.id, u);
      && JoinedCount(s.events, w.id) == |s.walk.participants| - |w.participants|
      && CapacityCount(s.events, w.id) ==
           (if s.walk.status == Confirmed then 1 else 0) - (if w.status == Confirmed then 1 else 0)
  {
    var s := Step(w, w.id, u);
    if !Rejects(w, u.id) {
      var counts := Counts(|w.participants| + 1, w.maxSize);
      var j := Joined(PickPublic(w), HostContact(w), UserContact(u), counts);
      CountsOne(j, w.id);
      if |w.participants| + 1 == w.maxSize {
        var c := CapacityReached(PickPublic(w), HostContact(w), UserContact(u), counts);
        assert s.events == [j] + [c];
        CountsOne(c, w.id);
        CountsAppend([j], [c], w.id);
      } else {
        assert s.events == [j];
      }
    }
  }

  /** The counts for walk `i` after the walk at `k` is updated: the
      update's notifications count only for the walk at `k`. */
  lemma UpdateCountsAt(ws: seq<Walk>, log: seq<Event>, k: nat, u: User, i: nat)
    requires ValidState(ws, log) && k < |ws| && i < |ws|
    ensures var s := Step(ws[k], ws[k].id, u);
      var v := ws[k := s.walk][i];
      && JoinedCount(log + s.events, v.id) == |v.participants|
      && CapacityCount(log + s.events, v.id) == if v.status == Confirmed then 1 else 0
  {
    var s := Step(ws[k], ws[k].id, u);
    var v := ws[k := s.walk][i];
    CountsAppend(log, s.events, v.id);
    if i == k {
      StepCounts(ws[k], u);
    } else {
      assert v == ws[i] && ws[i].id != ws[k].id;
      StepEventsAboutTarget(ws[k], ws[k].id, u);
      CountsAbsent(s.events, ws[i].id);
    }
  }

  /** Updating the walk at `k` for a join, and logging the update's
      notifications, keeps the walk list and the log consistent. */
  lemma UpdateKeepsValid(ws: seq<Walk>, log: seq<Event>, k: nat, u: User)
    requires ValidState(ws, log) && k < |ws|
    ensures var s := Step(ws[k], ws[k].id, u);
      ValidState(ws[k := s.walk], log + s.events)
  {
    var s := Step(ws[k], ws[k].id, u);
    var ws' := ws[k := s.walk];
    var log' := log + s.events;
    StepEventsAboutTarget(ws[k], ws[k].id, u);
    StepKeepsWellFormed(ws[k], ws[k].id, u);
    IdsUpdate(ws, k, s.walk);
    assert DistinctIds(ws') by {
      forall i, j | 0 <= i < j < |ws'| ensures ws'[i].id != ws'[j].id {
        assert ws'[i].id == ws[i].id && ws'[j].id == ws[j].id;
      }
    }
    assert forall i :: 0 <= i < |ws'| ==> WellFormed(ws'[i]);
    forall i | 0 <= i < |ws'|
      ensures JoinedCount(log', ws'[i].id) == |ws'[i].participants|
      ensures CapacityCount(log', ws'[i].id) == if ws'[i].status == Confirmed then 1 else 0
    {
      UpdateCountsAt(ws, log, k, u, i);
    }
    forall e | e in log' ensures e.walk.id in Ids(ws') {
      if e !in log {
        assert e in s.events;
        assert ws[k] in ws;
      }
    }
  }

  /** A join keeps the walk list and the log consistent. */
  lemma JoinKeepsValid(ws: seq<Walk>, log: seq<Event>, id: string, u: User)
    requires ValidState(ws, log)
    ensures var r := JoinMap(ws, id, u);
      ValidState(r.walks, log + r.events)
  {
    if id !in Ids(ws) {
      JoinMapMiss(ws, id, u);
      assert log + [] == log;
    } else {
      var w0 :| w0 in ws && w0.id == id;
      var k :| 0 <= k < |ws| && ws[k] == w0;
      JoinMapHit(ws, k, u);
      UpdateKeepsValid(ws, log, k, u);
    }
  }
}
