/** Creating a walk (createWalk): the record built from the creation form
    and the signed-in host. The fresh id (uid) and the creation time are
    given as parameters. */
module Creation {
  import opened WalkTypes
  import opened Joining
  import opened Invariant

  /** The fields the creation form hands over. */
  datatype WalkForm = WalkForm(
    title: string,
    startISO: int,
    endISO: int,
    pace: Pace,
    terrain: Terrain,
    convoMode: ConvoMode,
    dogAllowed: DogPolicy,
    nonSmokersOnly: bool,
    areaLabel: string)

  /** Every walk is created for a group of three. */
  const Capacity: int := 3
  /** The title used when the form's title is empty. */
  const DefaultTitle: string := "Procházka"
  /** The area label used when the form's area is empty. */
  const DefaultArea: string := "veřejné místo"

  /** The walk createWalk appends: hosted by `host`, for three people, with
      nobody listed yet and status scheduled; an empty title or area falls
      back to the defaults. */
  function NewWalk(f: WalkForm, host: User, id: string, createdAt: int): (w: Walk)
    ensures w.id == id && w.createdAt == createdAt
    ensures w.hostId == host.id && w.hostName == host.name && w.hostEmail == host.email
    ensures w.maxSize == 3 && w.participants == [] && w.status == Scheduled
    ensures f.title == "" ==> w.title == DefaultTitle
    ensures f.title != "" ==> w.title == f.title
    ensures f.areaLabel == "" ==> w.areaLabel == DefaultArea
    ensures f.areaLabel != "" ==> w.areaLabel == f.areaLabel
    ensures w.title != "" && w.areaLabel != ""
    ensures WellFormed(w)
  {
    Walk(
      id := id,
      title := if f.title != "" then f.title else DefaultTitle,
      hostId := host.id,
      hostName := host.name,
      hostEmail := host.email,
      startISO := f.startISO,
      endISO := f.endISO,
      pace := f.pace,
      terrain := f.terrain,
      convoMode := f.convoMode,
      dogAllowed := f.dogAllowed,
      nonSmokersOnly := f.nonSmokersOnly,
      maxSize := Capacity,
      participants := [],
      areaLabel := if f.areaLabel != "" then f.areaLabel else DefaultArea,
      status := Scheduled,
      createdAt := createdAt)
  }

  /** Appending a new walk under an id not yet in use keeps the walk list
      and the notification log consistent. */
  lemma CreateKeepsValid(ws: seq<Walk>, log: seq<Event>, f: WalkForm, host: User, id: string, now: int)
    requires ValidState(ws, log) && id !in Ids(ws)
    ensures ValidState(ws + [NewWalk(f, host, id, now)], log)
  {
    var w := NewWalk(f, host, id, now);
    var ws' := ws + [w];
    forall i | 0 <= i < |ws|
      ensures ws[i].id != id
    {
      assert ws[i] in ws;
    }
    forall e | e in log
      ensures e.walk.id != id
    {
      assert e.walk.id in Ids(ws);
    }
    CountsAbsent(log, id);
    forall x | x in Ids(ws)
      ensures x in Ids(ws')
    {
      var v :| v in ws && v.id == x;
      assert v in ws';
    }
    forall i | 0 <= i < |ws'|
      ensures JoinedCount(log, ws'[i].id) == |ws'[i].participants|
      ensures CapacityCount(log, ws'[i].id) == if ws'[i].status == Confirmed then 1 else 0
    {
      if i < |ws| { assert ws'[i] == ws[i]; }
    }
  }
}
