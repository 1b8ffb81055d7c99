/** A walk from creation to confirmation: `a` and `b` join a new walk,
    `a`'s repeated join is ignored while there is still room, `c` fills the
    walk, and a fourth user `d` is turned away. */
module Scenario {
  import opened WalkTypes
  import opened Joining
  import opened Invariant
  import opened Creation

  /** The first two joins to a new walk are admitted with counts (1, 3) and
      (2, 3), the walk stays scheduled, and `a` joining again while the walk
      still has room changes nothing and notifies nothing. */
  lemma FillNewWalkStart(f: WalkForm, host: User, id: string, now: int, a: User, b: User)
    requires a.id != b.id
    ensures var w0 := NewWalk(f, host, id, now);
      var s1 := Step(w0, id, a);
      var s2 := Step(s1.walk, id, b);
      var s3 := Step(s2.walk, id, a);
      && s1.walk == w0.(participants := [a.id])
      && s1.events == [Joined(PickPublic(w0), HostContact(w0), UserContact(a), Counts(1, 3))]
      && s2.walk == w0.(participants := [a.id, b.id])
      && s2.events == [Joined(PickPublic(w0), HostContact(w0), UserContact(b), Counts(2, 3))]
      && |s2.walk.participants| < s2.walk.maxSize
      && s3 == StepResult(s2.walk, [])
  {
    var w0 := NewWalk(f, host, id, now);
    var w1 := Step(w0, id, a).walk;
    assert w1 == w0.(participants := [a.id]);
    assert PickPublic(w1) == PickPublic(w0);
  }

  /** The third distinct user fills the walk: counts (3, 3), `joined` then
      `capacity_reached`, status confirmed; a fourth user is turned away. */
  lemma FillNewWalkEnd(f: WalkForm, host: User, id: string, now: int, a: User, b: User, c: User, d: User)
    requires c.id != a.id && c.id != b.id
    ensures var w0 := NewWalk(f, host, id, now);
      var w2 := w0.(participants := [a.id, b.id]);
      var s4 := Step(w2, id, c);
      && s4.walk == w0.(participants := [a.id, b.id, c.id], status := Confirmed)
      && s4.events == [Joined(PickPublic(w0), HostContact(w0), UserContact(c), Counts(3, 3)),
                       CapacityReached(PickPublic(w0), HostContact(w0), UserContact(c), Counts(3, 3))]
      && Step(s4.walk, id, d) == StepResult(s4.walk, [])
  {
    var w0 := NewWalk(f, host, id, now);
    var w2 := w0.(participants := [a.id, b.id]);
    assert c.id !in w2.participants;
    assert PickPublic(w2) == PickPublic(w0);
  }

  /** The whole run `a, b, a, c, d`: the walk ends confirmed with `a`, `b`,
      `c` in join order, and three `joined` and one `capacity_reached` were
      sent for it. */
  lemma {:induction false} FillNewWalk(f: WalkForm, host: User, id: string, now: int,
                                       a: User, b: User, c: User, d: User)
    requires a.id != b.id && a.id != c.id && b.id != c.id
    ensures var w := NewWalk(f, host, id, now);
      var r := JoinTrace(w, [a, b, a, c, d]);
      && r.walk == w.(participants := [a.id, b.id, c.id], status := Confirmed)
      && JoinedCount(r.events, id) == 3
      && CapacityCount(r.events, id) == 1
  {
    var w0 := NewWalk(f, host, id, now);
    FillNewWalkStart(f, host, id, now, a, b);
    FillNewWalkEnd(f, host, id, now, a, b, c, d);
    var w1 := Step(w0, id, a).walk;
    var w2 := Step(w1, id, b).walk;
    var w4 := Step(w2, id, c).walk;
    FullWalkRejectsAll(w4, [d]);
    assert [a, b, a, c, d][1..] == [b, a, c, d];
    assert [b, a, c, d][1..] == [a, c, d];
    assert [a, c, d][1..] == [c, d];
    assert [c, d][1..] == [d];
    assert JoinTrace(w2, [c, d]).walk == w4;
    assert JoinTrace(w2, [a, c, d]).walk == w4;
    assert JoinTrace(w1, [b, a, c, d]).walk == w4;
    assert JoinTrace(w0, [a, b, a, c, d]).walk == w4;
    TraceJoinedCount(w0, [a, b, a, c, d]);
    AtMostOneCapacityReached(w0, [a, b, a, c, d]);
  }
}
