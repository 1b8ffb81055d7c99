/** The records of the WalkTalk application: users, walks, the public
    projection of a walk and the notification events sent to the webhook.
    Timestamps (the ISO strings of the application) are abstract integers,
    compared as the application compares the dates they denote. */
module WalkTypes {

  datatype Option<T> = None | Some(value: T)

  datatype ConvoMode = Silent | Light | Talk
  datatype Pace = Slow | Medium | Fast
  datatype Terrain = City | Nature | Mixed
  datatype DogPolicy = Yes | No | Indifferent
  datatype Status = Scheduled | Confirmed | Started | Done | Canceled

  /** The signed-in user, as built by the onboarding form. */
  datatype User = User(
    id: string,
    name: string,
    email: string,
    ageBracket: string,
    languages: seq<string>,
    nonSmoker: bool,
    bringsDog: bool,
    accessibilityOk: bool,
    convoMode: ConvoMode,
    reliability: int,
    attended: int)

  /** A walk as stored in the application's walk list. */
  datatype Walk = Walk(
    id: string,
    title: string,
    hostId: string,
    hostName: string,
    hostEmail: string,
    startISO: int,
    endISO: int,
    pace: Pace,
    terrain: Terrain,
    convoMode: ConvoMode,
    dogAllowed: DogPolicy,
    nonSmokersOnly: bool,
    maxSize: int,
    participants: seq<string>,
    areaLabel: string,
    status: Status,
    createdAt: int)

  /** The part of a walk that is sent out in notifications. */
  datatype PublicWalk = PublicWalk(
    id: string,
    title: string,
    startISO: int,
    endISO: int,
    areaLabel: string,
    maxSize: int)

  datatype Contact = Contact(name: string, email: string)

  datatype Counts = Counts(now: int, max: int)

  /** A notification handed to the webhook: `joined` for every admitted
      join, `capacity_reached` for the join that fills the walk. */
  datatype Event =
    | Joined(walk: PublicWalk, host: Contact, joiner: Contact, counts: Counts)
    | CapacityReached(walk: PublicWalk, host: Contact, lastJoiner: Contact, counts: Counts)

  /** The public projection of a walk (pickPublic): the six fields a
      notification may show, and none of the host's contact, the
      participants or the status. */
  function PickPublic(w: Walk): (p: PublicWalk)
    ensures p.id == w.id && p.title == w.title && p.areaLabel == w.areaLabel
    ensures p.startISO == w.startISO && p.endISO == w.endISO && p.maxSize == w.maxSize
  {
    PublicWalk(w.id, w.title, w.startISO, w.endISO, w.areaLabel, w.maxSize)
  }

  /** Two walks look the same in a notification exactly when they agree on
      the six public fields; whatever else differs (host, participants,
      status, preferences, creation time) is not visible. */
  lemma PickPublicIgnoresPrivate(w: Walk, v: Walk)
    ensures PickPublic(w) == PickPublic(v) <==>
      && w.id == v.id && w.title == v.title && w.startISO == v.startISO
      && w.endISO == v.endISO && w.areaLabel == v.areaLabel && w.maxSize == v.maxSize
  {
  }

  function HostContact(w: Walk): Contact
  {
    Contact(w.hostName, w.hostEmail)
  }

  function UserContact(u: User): Contact
  {
    Contact(u.name, u.email)
  }

  /** No participant id is listed twice. */
  predicate NoDuplicates(s: seq<string>)
  {
    forall i, j :: 0 <= i < j < |s| ==> s[i] != s[j]
  }

  /** The set of walk ids present in a walk list. */
  function Ids(ws: seq<Walk>): set<string>
  {
    set w | w in ws :: w.id
  }

  /** No two walks in the list share an id. */
  predicate DistinctIds(ws: seq<Walk>)
  {
    forall i, j :: 0 <= i < j < |ws| ==> ws[i].id != ws[j].id
  }
}
