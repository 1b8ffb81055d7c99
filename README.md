# WalkTalk walk joining, modelled in Dafny

WalkTalk lets a host publish a small walk that holds three people. Other
users join it, and a webhook is notified of each join. When the walk
becomes full it is marked confirmed and a `capacity_reached` notification
goes out. This project models the application state held by the `App`
component of `src/App.jsx`. That state is the signed-in user, the walk
list, and the notifications handed to the webhook, kept as an append-only
log. The model covers the two operations that change it, `joinWalk` and
`createWalk`. It also covers the pure helpers around them: the public
projection `pickPublic`, the start-time ordering `visible`, the condition
for offering the join button, and the language toggle of onboarding.

Files and modules:

- `types.dfy` (`WalkTypes`): users, walks, the public projection and the notification events.
- `joining.dfy` (`Joining`): the per-walk update of `joinWalk` (`Step`), the `map` over the list (`JoinMap`), and runs of joins on one walk (`JoinTrace`), with their lemmas.
- `invariant.dfy` (`Invariant`): the invariant the application keeps, which ties the walk list to the log, and its preservation by joins.
- `creation.dfy` (`Creation`): the record built by `createWalk`, and the proof that creation keeps the invariant.
- `listing.dfy` (`Listing`): `visible` as a stable insertion sort by start time.
- `offer.dfy` (`Offer`): the condition under which the walk list shows the join button.
- `languages.dfy` (`Languages`): `toggleLang`.
- `app.dfy` (`AppState`): class `App`, whose fields are the state and whose methods are the state updates.
- `scenario.dfy` (`Scenario`): a new walk joined by two users, a repeated join while there is room, a third user who fills it and a fourth who is turned away.

## Behaviour as implemented

The model follows `src/App.jsx` as written:

- The join update never looks at `status`. Only the join button does (`CanOfferJoin`), so the update admits a user to a canceled walk that has room (`Offer.JoinIgnoresStatus`).
- A rejected join (user already listed, or walk full) returns the walk unchanged and notifies nothing. `joinWalk` returns no result value, so the caller cannot tell an admitted join from a rejected one.
- The walk list is updated by one sequential `map` over the list, inside the state setter, with no locking.
- `capacity_reached` carries the same payload shape as `joined`, with the last joiner's contact. It does not carry the participant list.
- `createWalk` does not check that the start is before the end.

## Model

| member | source | states |
|---|---|---|
| `WalkTypes.PickPublic` | src/App.jsx:151-154 | the projection sent in notifications agrees with the walk on id, title, start, end, area and `maxSize` |
| `WalkTypes.PickPublicIgnoresPrivate` | src/App.jsx:151-154 | two walks have the same projection exactly when they agree on those six fields; host contact, participants, status and the rest are not visible |
| `Joining.Step` | src/App.jsx:95-116 | the `map` callback for one walk: it keeps the walk's id and `maxSize`; the walk is unchanged exactly when nothing is notified, which happens exactly when the id differs or the guard rejects; a changed walk has the user appended to `participants` |
| `Joining.JoinMap` | src/App.jsx:94-116 | `ws.map(...)` with the notifications concatenated in list order: the new list has the same length and the same id at every position |
| `Joining.JoinTrace` | src/App.jsx:92-117 | successive joins of a list of users to one walk: the walk keeps its id and `maxSize`, and the old participants stay a prefix of the new ones |
| `Joining.StepLeavesOtherWalks` | src/App.jsx:95 | a walk whose id differs from the one being joined is returned as is, with no notification |
| `Joining.StepRejects` | src/App.jsx:96 | a user already listed, or a walk with `participants.length >= maxSize`, leaves the walk unchanged and emits nothing |
| `Joining.StepAppends` | src/App.jsx:96-115 | an admitted join appends the user's id at the end, raises the count by exactly one, keeps it `<= maxSize`, and changes no field but `participants` and `status` |
| `Joining.StepJoinedEvent` | src/App.jsx:97-105 | an admitted join emits exactly one `joined`, first, with `pickPublic(w)`, the host's and the joiner's name and email, and counts (old length + 1, maxSize) |
| `Joining.StepConfirmsExactlyWhenFull` | src/App.jsx:98-115 | `capacity_reached` is emitted and the status becomes confirmed iff the new count equals `maxSize`; otherwise the status is kept |
| `Joining.StepKeepsNoDuplicates` | src/App.jsx:96-115 | a participant list without duplicates has none after the update |
| `Joining.StepStatusMonotone` | src/App.jsx:106-115 | the update either keeps the status or sets it to confirmed, so confirmed never reverts |
| `Joining.StepKeepsPublicProjection` | src/App.jsx:151-154 | the public projection (id, title, start, end, area, maxSize) of the updated walk is that of the original walk |
| `Joining.StepEventsAboutTarget` | src/App.jsx:95-112 | every notification of the update is about the walk with the joined id |
| `Joining.StepTwiceIsStepOnce` | src/App.jsx:96 | a second update for the same user changes nothing and emits nothing |
| `Joining.JoinMapShape` | src/App.jsx:94-116 | the new list has the same length and order, position i holds the update of walk i, and walks with another id are unchanged |
| `Joining.JoinMapMiss` | src/App.jsx:94-95 | joining an id that no walk has changes nothing and emits nothing |
| `Joining.JoinMapHit` | src/App.jsx:94-116 | with distinct ids, only the walk with the joined id is replaced, and the notifications are exactly its update's |
| `Joining.JoinMapEventsAboutTarget` | src/App.jsx:94-112 | every notification of a join is about the joined id |
| `Joining.JoinTwiceIsJoinOnce` | src/App.jsx:92-117 | joining twice with the same user has the effect of joining once; the second join changes nothing and notifies nothing |
| `Joining.TraceJoinedCount` | src/App.jsx:100-105 | over any run of joins on a walk, the `joined` notifications for it number exactly the participants added |
| `Joining.FullWalkRejectsAll` | src/App.jsx:96 | a full walk rejects every later join in a run |
| `Joining.AtMostOneCapacityReached` | src/App.jsx:96-113 | over any run of joins on one walk, at most one `capacity_reached` is emitted, and one exactly when the run takes the walk from below capacity to full |
| `Invariant.StepKeepsWellFormed` | src/App.jsx:96-115 | a walk within capacity, with no duplicates, scheduled or confirmed, and confirmed iff full, stays so through the update |
| `Invariant.StepCounts` | src/App.jsx:96-115 | for a well-formed walk, the update's `joined` count is the growth of the list, and its `capacity_reached` count is the change of the confirmed flag |
| `Invariant.JoinKeepsValid` | src/App.jsx:92-117 | a join keeps the walk list and log consistent: walks well-formed, ids distinct, one `joined` per participant, one `capacity_reached` exactly for confirmed walks, no notification about an unknown walk |
| `Invariant.ValidStateBounds` | src/App.jsx:92-117 | in a consistent state every walk has had at most one `capacity_reached`, is within capacity, and is confirmed iff it has had one |
| `Creation.NewWalk` | src/App.jsx:69-87 | the created walk has the given id and the user as host, `maxSize` 3, no participants and status scheduled; an empty title or area falls back to `Procházka` / `veřejné místo`; the walk is well-formed |
| `Creation.CreateKeepsValid` | src/App.jsx:67-90 | appending a new walk under an unused id keeps the walk list and log consistent |
| `Listing.SortByStartCorrect` | src/App.jsx:65 | `visible` is a permutation of the walk list, ordered by non-decreasing start time, and walks with equal start keep their list order |
| `Listing.SortByStart` | src/App.jsx:65 | `visible` computed as a stable insertion sort of a copy of the list; it has as many walks as the list and holds each of them |
| `Offer.CanOfferJoin` | src/App.jsx:233 | the join button is shown only for a walk the join update would admit the user to, and never for a confirmed walk |
| `Offer.OfferedJoinIsAdmitted` | src/App.jsx:233-234 | pressing an offered join button is an admitted join: the user is appended and `joined` is emitted |
| `Offer.OfferMatchesGuard` | src/App.jsx:233 | for a well-formed walk, the button is offered exactly when the join update would admit the user |
| `Offer.JoinIgnoresStatus` | src/App.jsx:96 | a canceled walk with room is not offered, yet the join update admits the user |
| `Languages.Without` | src/App.jsx:166 | `arr.filter(x=>x!==code)`: the result lacks the code, is no longer than the list, and holds only languages of the list |
| `Languages.ToggleLang` | src/App.jsx:166 | `toggleLang`: after it the code is listed exactly when it was not before |
| `Languages.WithoutCounts` | src/App.jsx:166 | the `filter` drops every occurrence of the code and keeps every other language as often as it was there |
| `Languages.WithoutAbsent` | src/App.jsx:166 | filtering out a code that is not listed gives the same list back |
| `Languages.WithoutCons` | src/App.jsx:166 | the first language stays in front exactly when it differs from the code, and the rest is filtered |
| `Languages.WithoutAppend` | src/App.jsx:166 | filtering a concatenation is the concatenation of the filtered parts, so the kept languages stay in their order |
| `Languages.ToggleLangMembership` | src/App.jsx:166 | after a toggle the code is listed iff it was not, and every other language iff it was; a code that was not listed is appended at the end |
| `Languages.ToggleLangTwice` | src/App.jsx:166 | toggling an unlisted language twice gives the list back |
| `AppState.App.constructor` | src/App.jsx:31-33 | the state starts with the given user, no walks and an empty log, and is consistent |
| `AppState.App.SetUser` | src/App.jsx:137 | signing in or editing the profile replaces the user and leaves walks and log alone |
| `AppState.App.Visible` | src/App.jsx:65 | the listed walks are the state's walks, sorted by start time and stably |
| `AppState.App.Join` | src/App.jsx:92-117 | without a user nothing changes; otherwise the walks become the join map's result, its notifications are appended to the log, and consistency is kept |
| `AppState.App.Create` | src/App.jsx:67-90 | without a user nothing changes; otherwise exactly one new walk is appended at the end, nothing is notified, and consistency is kept when the id is unused |
| `Scenario.FillNewWalkStart` | src/App.jsx:67-117 | on a new walk, `a` then `b` are admitted with counts (1, 3) and (2, 3) and the walk stays scheduled; `a` joining again while there is room changes nothing and notifies nothing |
| `Scenario.FillNewWalkEnd` | src/App.jsx:92-117 | the third distinct user brings counts (3, 3), `joined` then `capacity_reached`, and status confirmed; a fourth user is then turned away |
| `Scenario.FillNewWalk` | src/App.jsx:67-117 | the run `a, b, a, c, d` leaves the walk confirmed with `a`, `b`, `c` in join order, with three `joined` and one `capacity_reached` sent |
| `AppState.HostAndJoin` | src/App.jsx:67-117 | through the class, a created walk joined by a guest is the one walk in the list with the guest listed and still scheduled, the log is the one `joined` with counts (1, 3), and the state is consistent |

## Left out

- Rendering, the `Onboarding`, `Find`, `Create` and `Profile` markup, and tab routing (including `setTab('find')` after creation) are user interface.
- `notify` sends a `fetch` to the webhook, only when a webhook URL is configured, and swallows failures. The model appends every call to the log instead, and leaves out the `{app, ts}` envelope.
- `localStorage` persistence (`save`, `load` and the two effects) is I/O. The constructor starts with no walks, an empty log and the given (possibly absent) user, as when no walk list is stored.
- `uid` and `nowISO` are randomness and clock, so the fresh id and the creation time are parameters. Timestamps are integers, and `new Date(...).toISOString()` normalisation (and its failure on an invalid date) is not modelled.
- AppState.App.Create: consistency is promised only when the fresh id is not already in use, because `uid` is random and nothing in the code rules out a collision.
- The seeded demo walk is a user-interface bootstrap that builds the same record shape as `createWalk`.
- The onboarding checks (trimmed name, e-mail regex) and the construction of the user record are not modelled; a user is given whole.
- Defaults for an empty title or area are modelled for the empty string; other falsy form values do not arise with typed fields.
- Concurrency is not modelled: the code performs one sequential update of the list.
