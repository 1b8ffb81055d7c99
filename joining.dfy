/** Joining a walk (joinWalk): the per-walk update applied by the `map` over
    the walk list, the notifications it emits, and the properties of the
    update over one walk, over the whole list and over a run of joins. */
module Joining {
  import opened WalkTypes

  /** What the per-walk update yields: the walk to put in the new list and
      the notifications emitted while producing it, in emission order. */
  datatype StepResult = StepResult(walk: Walk, events: seq<Event>)

  /** What joining yields over the whole list. */
  datatype JoinResult = JoinResult(walks: seq<Walk>, events: seq<Event>)

  /** The guard of the update: the user is already listed or the walk is full. */
  predicate Rejects(w: Walk, userId: string)
  {
    userId in w.participants || |w.participants| >= w.maxSize
  }

  /** The callback of `ws.map(...)` for the walk `w` when user `u` joins the
      walk with id `id`. The status is not consulted. */
  function Step(w: Walk, id: string, u: User): (r: StepResult)
    ensures r.walk.id == w.id && r.walk.maxSize == w.maxSize
    ensures r.walk == w <==> r.events == []
    ensures r.events == [] <==> w.id != id || Rejects(w, u.id)
    ensures r.walk != w ==> r.walk.participants == w.participants + [u.id]
  {
    if w.id != id then StepResult(w, [])
    else if Rejects(w, u.id) then StepResult(w, [])
    else
      var newCount := |w.participants| + 1;
      var counts := Counts(newCount, w.maxSize);
      var joined := Joined(PickPublic(w), HostContact(w), UserContact(u), counts);
      if newCount >= w.maxSize then
        StepResult(w.(participants := w.participants + [u.id], status := Confirmed),
                   [joined, CapacityReached(PickPublic(w), HostContact(w), UserContact(u), counts)])
      else
        StepResult(w.(participants := w.participants + [u.id]), [joined])
  }

  /** `ws.map(...)`: every walk passed through the update, in list order,
      with the notifications of the walks concatenated in the same order. */
  function JoinMap(ws: seq<Walk>, id: string, u: User): (r: JoinResult)
    ensures |r.walks| == |ws|
    ensures forall i :: 0 <= i < |ws| ==> r.walks[i].id == ws[i].id
  {
    if ws == [] then JoinResult([], [])
    else
      var head := Step(ws[0], id, u);
      var tail := JoinMap(ws[1..], id, u);
      JoinResult([head.walk] + tail.walks, head.events + tail.events)
  }

  /** The number of `joined` notifications about walk `x` in a log. */
  function JoinedCount(log: seq<Event>, x: string): nat
  {
    if log == [] then 0
    else (if log[0].Joined? && log[0].walk.id == x then 1 else 0) + JoinedCount(log[1..], x)
  }

  /** The number of `capacity_reached` notifications about walk `x` in a log. */
  function CapacityCount(log: seq<Event>, x: string): nat
  {
    if log == [] then 0
    else (if log[0].CapacityReached? && log[0].walk.id == x then 1 else 0) + CapacityCount(log[1..], x)
  }

  /** Successive joins of the users `us` to the walk `w`, one after the
      other: the final walk and every notification emitted on the way. */
  function JoinTrace(w: Walk, us: seq<User>): (r: StepResult)
    ensures r.walk.id == w.id && r.walk.maxSize == w.maxSize
    ensures w.participants <= r.walk.participants
    decreases us
  {
    if us == [] then StepResult(w, [])
    else
      var first := Step(w, w.id, us[0]);
      var rest := JoinTrace(first.walk, us[1..]);
      StepResult(rest.walk, first.events + rest.events)
  }

  // ---------------------------------------------------------------------
  // One walk

  /** A walk whose id is not the one being joined is passed through, and
      nothing is emitted for it. */
  lemma StepLeavesOtherWalks(w: Walk, id: string, u: User)
    requires w.id != id
    ensures Step(w, id, u) == StepResult(w, [])
  {
  }

  /** A user already listed, or a full walk, leaves the walk unchanged and
      emits nothing. */
  lemma StepRejects(w: Walk, u: User)
    requires u.id in w.participants || |w.participants| >= w.maxSize
    ensures Step(w, w.id, u) == StepResult(w, [])
  {
  }

  /** An admitted join appends the user's id at the end, raises the count
      by exactly one, keeps the count within `maxSize` and changes no field
      other than `participants` and `status`. */
  lemma StepAppends(w: Walk, u: User)
    requires u.id !in w.participants && |w.participants| < w.maxSize
    ensures var w' := Step(w, w.id, u).walk;
      && w'.participants == w.participants + [u.id]
      && |w'.participants| == |w.participants| + 1
      && |w'.participants| <= w.maxSize
      && w' == w.(participants := w'.participants, status := w'.status)
  {
  }

  /** An admitted join emits exactly one `joined` notification, first,
      carrying the public projection of the walk, the host's and the
      joiner's contacts and the counts (old count + 1, maxSize). */
  lemma StepJoinedEvent(w: Walk, u: User)
    requires u.id !in w.participants && |w.participants| < w.maxSize
    ensures var evs := Step(w, w.id, u).events;
      && 1 <= |evs| <= 2
      && evs[0] == Joined(PickPublic(w), Contact(w.hostName, w.hostEmail), Contact(u.name, u.email),
                          Counts(|w.participants| + 1, w.maxSize))
      && forall k :: 1 <= k < |evs| ==> !evs[k].Joined?
  {
  }

  /** The join that brings the count to `maxSize`, and only that join,
      emits `capacity_reached` (after `joined`, with the same payload) and
      sets the status to confirmed; any other admitted join keeps the
      status. Under the guard, `newCount >= maxSize` means `newCount == maxSize`. */
  lemma StepConfirmsExactlyWhenFull(w: Walk, u: User)
    requires u.id !in w.participants && |w.participants| < w.maxSize
    ensures var r := Step(w, w.id, u);
      var full := |r.walk.participants| == w.maxSize;
      && (|r.events| == 2 <==> full)
      && (full ==> r.walk.status == Confirmed
                   && r.events[1] == CapacityReached(PickPublic(w), Contact(w.hostName, w.hostEmail),
                                                     Contact(u.name, u.email), Counts(w.maxSize, w.maxSize)))
      && (!full ==> r.walk.status == w.status)
  {
  }

  /** A list without duplicate ids keeps that property through a join. */
  lemma StepKeepsNoDuplicates(w: Walk, id: string, u: User)
    requires NoDuplicates(w.participants)
    ensures NoDuplicates(Step(w, id, u).walk.participants)
  {
  }

  /** The status never goes back from confirmed, and is otherwise either
      kept or set to confirmed. */
  lemma StepStatusMonotone(w: Walk, id: string, u: User)
    ensures var s := Step(w, id, u).walk.status;
      s == w.status || s == Confirmed
  {
  }

  /** The public projection, and so the walk's id, is the same before and
      after the update: the payload of the notifications describes the
      walk as it is in the new list too. */
  lemma StepKeepsPublicProjection(w: Walk, id: string, u: User)
    ensures PickPublic(Step(w, id, u).walk) == PickPublic(w)
  {
  }

  /** Every notification emitted by the update is about the walk joined. */
  lemma StepEventsAboutTarget(w: Walk, id: string, u: User)
    ensures forall e :: e in Step(w, id, u).events ==> e.walk.id == id && id == w.id
  {
  }

  /** Applying the update a second time for the same user changes nothing
      and emits nothing. */
  lemma StepTwiceIsStepOnce(w: Walk, id: string, u: User)
    ensures var once := Step(w, id, u).walk;
      Step(once, id, u) == StepResult(once, [])
  {
  }

  // ---------------------------------------------------------------------
  // The walk list

  /** The new list has the same length and order: position `i` holds the
      update of the walk at position `i`, and every walk with another id is
      passed through unchanged. */
  lemma {:induction false} JoinMapShape(ws: seq<Walk>, id: string, u: User)
    ensures var r := JoinMap(ws, id, u);
      && |r.walks| == |ws|
      && (forall i :: 0 <= i < |ws| ==> r.walks[i] == Step(ws[i], id, u).walk)
      && (forall i :: 0 <= i < |ws| && ws[i].id != id ==> r.walks[i] == ws[i])
  {
    if ws != [] {
      JoinMapShape(ws[1..], id, u);
      var r := JoinMap(ws, id, u);
      forall i | 0 <= i < |ws|
        ensures r.walks[i] == Step(ws[i], id, u).walk
      {
        if i > 0 {
          assert r.walks[i] == JoinMap(ws[1..], id, u).walks[i - 1];
        }
      }
    }
  }

  /** A list with a first walk is joined through that walk's update and
      the join of the rest. */
  lemma JoinMapCons(w: Walk, ws: seq<Walk>, id: string, u: User)
    ensures var s := Step(w, id, u);
      var t := JoinMap(ws, id, u);
      JoinMap([w] + ws, id, u) == JoinResult([s.walk] + t.walks, s.events + t.events)
  {
    assert ([w] + ws)[0] == w && ([w] + ws)[1..] == ws;
  }

  /** A list of one walk is joined through that walk's update. */
  lemma JoinMapSingle(w: Walk, id: string, u: User)
    ensures var s := Step(w, id, u);
      JoinMap([w], id, u) == JoinResult([s.walk], s.events)
  {
    assert [w][1..] == [];
  }

  /** Joining an id that no walk has changes nothing and emits nothing. */
  lemma {:induction false} JoinMapMiss(ws: seq<Walk>, id: string, u: User)
    requires id !in Ids(ws)
    ensures JoinMap(ws, id, u) == JoinResult(ws, [])
  {
    if ws != [] {
      assert ws[0] in ws;
      assert Ids(ws[1..]) <= Ids(ws) by {
        forall x | x in Ids(ws[1..]) ensures x in Ids(ws) {
          var w :| w in ws[1..] && w.id == x;
          assert w in ws;
        }
      }
      JoinMapMiss(ws[1..], id, u);
      assert [ws[0]] + ws[1..] == ws;
    }
  }

  /** The rest of a list with distinct ids has distinct ids and lacks the
      first walk's id. */
  lemma DistinctTail(ws: seq<Walk>)
    requires DistinctIds(ws) && ws != []
    ensures DistinctIds(ws[1..]) && ws[0].id !in Ids(ws[1..])
  {
    var rest := ws[1..];
    forall i, j | 0 <= i < j < |rest| ensures rest[i].id != rest[j].id {
      assert rest[i] == ws[i + 1] && rest[j] == ws[j + 1];
    }
    forall w | w in rest
      ensures w.id != ws[0].id
    {
      var j :| 0 <= j < |rest| && rest[j] == w;
      assert ws[j + 1] == w;
    }
  }

  /** With distinct ids, the notifications of joining the id of the walk at
      position `k` are those of that walk's update. */
  lemma {:induction false} JoinMapHitEvents(ws: seq<Walk>, k: nat, u: User)
    requires DistinctIds(ws) && k < |ws|
    ensures JoinMap(ws, ws[k].id, u).events == Step(ws[k], ws[k].id, u).events
  {
    var id := ws[k].id;
    var rest := ws[1..];
    DistinctTail(ws);
    JoinMapCons(ws[0], rest, id, u);
    assert [ws[0]] + rest == ws;
    if k == 0 {
      JoinMapMiss(rest, id, u);
      assert Step(ws[0], id, u).events + [] == Step(ws[0], id, u).events;
    } else {
      assert rest[k - 1] == ws[k];
      JoinMapHitEvents(rest, k - 1, u);
      StepLeavesOtherWalks(ws[0], id, u);
    }
  }

  /** With distinct ids, joining the id of the walk at position `k` replaces
      that walk by its update, and the notifications are exactly those of
      that one update. */
  lemma JoinMapHit(ws: seq<Walk>, k: nat, u: User)
    requires DistinctIds(ws) && k < |ws|
    ensures var s := Step(ws[k], ws[k].id, u);
      JoinMap(ws, ws[k].id, u) == JoinResult(ws[k := s.walk], s.events)
  {
    var id := ws[k].id;
    var r := JoinMap(ws, id, u);
    JoinMapShape(ws, id, u);
    JoinMapHitEvents(ws, k, u);
    var ws' := ws[k := Step(ws[k], id, u).walk];
    forall i | 0 <= i < |ws|
      ensures r.walks[i] == ws'[i]
    {
      if i != k {
        assert ws[i].id != id;
      }
    }
    assert r.walks == ws';
  }

  /** Every notification emitted by a join is about the walk joined. */
  lemma {:induction false} JoinMapEventsAboutTarget(ws: seq<Walk>, id: string, u: User)
    ensures forall e :: e in JoinMap(ws, id, u).events ==> e.walk.id == id
  {
    if ws != [] {
      StepEventsAboutTarget(ws[0], id, u);
      JoinMapEventsAboutTarget(ws[1..], id, u);
    }
  }

  /** Joining twice with the same user has the effect of joining once: the
      second join changes nothing and emits nothing. */
  lemma {:induction false} JoinTwiceIsJoinOnce(ws: seq<Walk>, id: string, u: User)
    ensures var once := JoinMap(ws, id, u).walks;
      JoinMap(once, id, u) == JoinResult(once, [])
  {
    if ws != [] {
      var once := JoinMap(ws, id, u).walks;
      JoinTwiceIsJoinOnce(ws[1..], id, u);
      StepTwiceIsStepOnce(ws[0], id, u);
      assert once[0] == Step(ws[0], id, u).walk;
      assert once[1..] == JoinMap(ws[1..], id, u).walks;
    }
  }

  // ---------------------------------------------------------------------
  // Counting notifications

  lemma {:induction false} CountsAppend(a: seq<Event>, b: seq<Event>, x: string)
    ensures JoinedCount(a + b, x) == JoinedCount(a, x) + JoinedCount(b, x)
    ensures CapacityCount(a + b, x) == CapacityCount(a, x) + CapacityCount(b, x)
  {
    if a != [] {
      assert (a + b)[0] == a[0];
      assert (a + b)[1..] == a[1..] + b;
      CountsAppend(a[1..], b, x);
    } else {
      assert a + b == b;
    }
  }

  // ---------------------------------------------------------------------
  // A run of joins on one walk

  /** Each join of a run that is admitted is announced by exactly one
      `joined`: the run's `joined` notifications for the walk number the
      participants it added. */
  lemma {:induction false} TraceJoinedCount(w: Walk, us: seq<User>)
    ensures var r := JoinTrace(w, us);
      && |w.participants| <= |r.walk.participants|
      && JoinedCount(r.events, w.id) == |r.walk.participants| - |w.participants|
    decreases us
  {
    if us != [] {
      var s := Step(w, w.id, us[0]);
      TraceJoinedCount(s.walk, us[1..]);
      CountsAppend(s.events, JoinTrace(s.walk, us[1..]).events, w.id);
      if !Rejects(w, us[0].id) {
        var j := s.events[0];
        assert s.events[1..] == [] || (s.events[1..][0].CapacityReached? && s.events[1..][1..] == []);
        assert JoinedCount(s.events, w.id) == 1;
      }
    }
  }

  /** A walk that is already full rejects every later join: the run leaves
      it unchanged and emits nothing. */
  lemma {:induction false} FullWalkRejectsAll(w: Walk, us: seq<User>)
    requires |w.participants| >= w.maxSize
    ensures JoinTrace(w, us) == StepResult(w, [])
  {
    if us != [] {
      StepRejects(w, us[0]);
      FullWalkRejectsAll(w, us[1..]);
    }
  }

  /** However many joins are made to one walk, at most one
      `capacity_reached` is emitted for it, none at all when the walk was
      full to begin with, and one exactly when the run takes the walk from
      below capacity to full. */
  lemma {:induction false} AtMostOneCapacityReached(w: Walk, us: seq<User>)
    ensures var r := JoinTrace(w, us);
      && r.walk.id == w.id
      && CapacityCount(r.events, w.id) <= 1
      && (CapacityCount(r.events, w.id) == 1 <==>
            |w.participants| < w.maxSize && |r.walk.participants| == w.maxSize)
    decreases us
  {
    var r := JoinTrace(w, us);
    if us == [] {
    } else if |w.participants| >= w.maxSize {
      FullWalkRejectsAll(w, us);
    } else {
      var s := Step(w, w.id, us[0]);
      var rest := JoinTrace(s.walk, us[1..]);
      CountsAppend(s.events, rest.events, w.id);
      AtMostOneCapacityReached(s.walk, us[1..]);
      assert s.walk.id == w.id && s.walk.maxSize == w.maxSize;
      if Rejects(w, us[0].id) {
        assert s == StepResult(w, []);
      } else if |w.participants| + 1 == w.maxSize {
        assert CapacityCount(s.events, w.id) == 1;
        FullWalkRejectsAll(s.walk, us[1..]);
      } else {
        assert CapacityCount(s.events, w.id) == 0;
      }
    }
  }
}
