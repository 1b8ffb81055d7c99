/** The condition under which the walk list offers the join button (Find).
    Only this condition looks at the status; the join update itself does not. */
module Offer {
  import opened WalkTypes
  import opened Joining
  import opened Invariant

  /** The button is shown for a scheduled walk that does not list `me` and
      has room left. */
  predicate CanOfferJoin(w: Walk, me: User): (r: bool)
    ensures r ==> !Rejects(w, me.id)
    ensures r ==> w.status != Confirmed
  {
    w.status == Scheduled && me.id !in w.participants && |w.participants| < w.maxSize
  }

  /** Pressing an offered button is an admitted join: the user is appended
      and a `joined` notification is emitted. */
  lemma OfferedJoinIsAdmitted(w: Walk, me: User)
    requires CanOfferJoin(w, me)
    ensures var r := Step(w, w.id, me);
      && r.walk.participants == w.participants + [me.id]
      && |r.events| >= 1 && r.events[0].Joined?
  {
  }

  /** For a walk as the application builds and keeps them, the button is
      offered exactly when the join update would admit the user. */
  lemma OfferMatchesGuard(w: Walk, me: User)
    requires WellFormed(w)
    ensures CanOfferJoin(w, me) <==> !Rejects(w, me.id)
  {
  }

  /** The join update admits a user to a walk with room whatever its
      status, canceled included: the status check lives only in the button. */
  lemma JoinIgnoresStatus(w: Walk, me: User)
    requires w.status == Canceled && me.id !in w.participants && |w.participants| < w.maxSize
    ensures !CanOfferJoin(w, me)
    ensures Step(w, w.id, me).walk.participants == w.participants + [me.id]
  {
  }
}
