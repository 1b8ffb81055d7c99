/** The application state held by the App component: the signed-in user,
    the walk list and, in place of the webhook, the log of every
    notification handed to it. Each setter call of the component is a
    method that replaces the state it names. */
module AppState {
  import opened WalkTypes
  import opened Joining
  import opened Invariant
  import opened Creation
  import opened Listing

  class App {
    var user: Option<User>
    var walks: seq<Walk>
    var log: seq<Event>

    /** The walk list and the notification log agree (see ValidState). */
    ghost predicate Valid()
      reads this
    {
      ValidState(walks, log)
    }

    /** A fresh application: no walks and nothing notified yet. */
    constructor (user: Option<User>)
      ensures this.user == user && walks == [] && log == []
      ensures Valid()
    {
      this.user := user;
      walks := [];
      log := [];
    }

    /** `setUser`: onboarding completes, or the profile is edited. */
    method SetUser(u: User)
      modifies this
      ensures user == Some(u) && walks == old(walks) && log == old(log)
      ensures old(Valid()) ==> Valid()
    {
      user := Some(u);
    }

    /** The walks as listed to the user: sorted by start time, stable, and
        exactly the walks of the state. */
    function Visible(): (r: seq<Walk>)
      reads this
      ensures SortedByStart(r) && multiset(r) == multiset(walks)
      ensures forall t :: StartingAt(r, t) == StartingAt(walks, t)
    {
      SortByStartCorrect(walks);
      SortByStart(walks)
    }

    /** joinWalk: without a user nothing happens; otherwise the walk list is
        replaced by the result of the join map and its notifications are
        appended to the log, and the state stays consistent. */
    method Join(id: string)
      modifies this
      ensures user == old(user)
      ensures old(user).None? ==> walks == old(walks) && log == old(log)
      ensures old(user).Some? ==>
        var r := JoinMap(old(walks), id, old(user).value);
        walks == r.walks && log == old(log) + r.events
      ensures old(Valid()) ==> Valid()
    {
      if user.None? {
        return;
      }
      var r := JoinMap(walks, id, user.value);
      if Valid() {
        JoinKeepsValid(walks, log, id, user.value);
      }
      walks := r.walks;
      log := log + r.events;
    }

    /** createWalk: without a user nothing happens; otherwise exactly one
        new walk is appended at the end and nothing is notified. The state
        stays consistent when the fresh id is not in use yet. */
    method Create(f: WalkForm, freshId: string, now: int)
      modifies this
      ensures user == old(user) && log == old(log)
      ensures old(user).None? ==> walks == old(walks)
      ensures old(user).Some? ==> walks == old(walks) + [NewWalk(f, old(user).value, freshId, now)]
      ensures old(Valid()) && freshId !in Ids(old(walks)) ==> Valid()
    {
      if user.None? {
        return;
      }
      var w := NewWalk(f, user.value, freshId, now);
      if Valid() && freshId !in Ids(walks) {
        CreateKeepsValid(walks, log, f, user.value, freshId, now);
      }
      walks := walks + [w];
    }
  }

  /** A host publishes a walk and a guest then joins it through the
      class: the list holds the one walk with the guest listed and still
      scheduled, the log holds the one `joined` with counts (1, 3), and the
      state is consistent. */
  method HostAndJoin(host: User, guest: User, f: WalkForm, id: string, now: int)
    returns (walks: seq<Walk>, log: seq<Event>)
    ensures var w := NewWalk(f, host, id, now);
      && walks == [w.(participants := [guest.id])]
      && log == [Joined(PickPublic(w), HostContact(w), UserContact(guest), Counts(1, 3))]
      && ValidState(walks, log)
  {
    var app := new App(Some(host));
    app.Create(f, id, now);
    ghost var w := NewWalk(f, host, id, now);
    assert app.walks == [w];
    app.SetUser(guest);
    JoinMapSingle(w, id, guest);
    StepAppends(w, guest);
    StepConfirmsExactlyWhenFull(w, guest);
    ghost var s := Step(w, id, guest);
    assert [] + [guest.id] == [guest.id];
    assert s.walk == w.(participants := [guest.id]);
    app.Join(id);
    assert app.walks == [s.walk];
    walks, log := app.walks, app.log;
  }
}
