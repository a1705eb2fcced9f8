# Spyfall server, modelled in Dafny

This project models the server of a Spyfall party game: rooms of players in
which one player, the spy, does not know the location everybody else shares.
It covers four parts:

- the room state machine `Game` (`GameRoom` module, `game.dfy`);
- the directory of rooms and sockets `GameManager` (`Directory`, `game_manager.dfy`);
- the decision logic of the HTTP and socket handlers (`Gateway`, `gateway.dfy`);
- the location catalog (`Catalog`, `catalog.dfy`).

Two supporting modules hold the rest. `verdict.dfy` (`Verdict`) has the vote
tally and the winner rule of `endGame`. `ordered_map.dfy` (`OrderedMap`)
models JavaScript's `Map` as the sequence of its entries in insertion order.
`base.dfy` (`Base`) holds `Option`, `Result` and `Array.prototype.splice` on
one element.

The model follows the code's form:

- **`Game` and `GameManager`** are classes whose fields the methods
  reassign, as the JavaScript does.
- **`players` and `votes`** are sequences of (key, value) pairs. `set` on a
  present key overwrites the entry where it stands. `set` on a new key
  appends. `delete` cuts the entry out.
- **Loops.** The role-dealing loop of `startGame`, the reset loop of
  `resetGame`, the vote-removal loop of `removePlayer`, the tally loop of
  `endGame`, the cleanup loop of `cleanupOldGames` and the code loop of
  `generateRoomCode` are `while`/`for` loops. Each is proved against a
  function that states its result (`DealAll`, `ClearAll`,
  `DeleteWhereValue`, `Tally`/`PickMax`).
- **Handlers** take the directory (and the room) and return what they
  would emit.
- **Randomness** is an input. `Draws` holds the spy, location and role
  draws of one `startGame`. `attempts` holds the six character draws of
  each room-code try.
- **The clock** is the integer parameter `now`, in milliseconds.

The room keeps one invariant, `Game.Valid`, through every operation:

- ids are the keys;
- exactly the player `spyId` names is marked as the spy;
- the spy holds the spy role and no location, everybody else the room's location;
- votes are one per voter, between current players;
- a round in progress has its spy, location and start time;
- a winner exists exactly once the game ended.

The directory's invariant says every room is valid and filed under its own
code.

Where the code is the authority and the documented product behaviour
differs, the model follows the code:

- `canStartGame` needs one player (`MinPlayers`), not three.
- The duplicate-name check is in `joinGame`, not `addPlayer`.
- `getTimeRemaining` returns the full duration outside a running round.
- A room has no size cap. Past seven players the role draws find the list
  empty and the role is `undefined`, modelled as `None`.
- `removePlayer` may remove the spy mid-round. `spyId` then names nobody.
  The invariant allows that, and `startGame` is what puts `spyId` among the
  players.
- `endGame` has no phase guard.
- The server accepts a vote for oneself.

## Model

The role lists of the catalog are checked in five lemmas of three locations
each (`Catalog.RolesGroupOne` to `RolesGroupFive`), only to keep each proof
small; together they are `Catalog.RolesAt`. `Catalog.Tag`, `NameTags` and
`TagsDistinct` are likewise proof helpers for `Catalog.NamesDistinct`.

| member | source | states |
|---|---|---|
| Base.Splice | server/models/Game.js:98 | `splice(idx, 1)` shortens the list by one when `idx` is inside it and leaves it alone otherwise |
| Base.SpliceKeeps | server/models/Game.js:98 | splicing never introduces an element: everything left was in the list before |
| Base.SpliceTakes | server/models/Game.js:98 | on a list without repeats, the spliced element is gone and the rest stays free of repeats |
| OrderedMap.Get | server/models/Game.js:106 | `get` finds a value exactly when the key is in the map |
| OrderedMap.GetMember | server/models/Game.js:106 | what `get` returns is the value of an entry with that key |
| OrderedMap.GetAt | server/models/Game.js:106 | with distinct keys, `get` on the key of entry `i` returns entry `i`'s value |
| OrderedMap.Set | server/models/Game.js:125 | `set` keeps the size for a present key and grows it by one for a new key |
| OrderedMap.SetGet | server/models/Game.js:125 | after `set`, `get` finds the new value at that key and the old value at every other key |
| OrderedMap.SetPlace | server/models/Game.js:125 | overwriting keeps every key in its place and its position in iteration order; a new key goes last |
| OrderedMap.SetMembers | server/models/Game.js:35 | after `set`, every entry is the new one or an old one |
| OrderedMap.SetHasKey | server/models/Game.js:35 | after `set`, the keys are the old keys plus the one set |
| OrderedMap.SetDistinct | server/models/Game.js:125 | `set` keeps the keys distinct |
| OrderedMap.Delete | server/models/Game.js:40-41 | `delete` never grows the map |
| OrderedMap.DeleteGet | server/models/Game.js:40-41 | after `delete`, the key is gone and every other key keeps its value |
| OrderedMap.DeleteEntries | server/models/Game.js:40-41 | after `delete`, exactly the old entries with other keys remain |
| OrderedMap.DeleteDistinct | server/models/Game.js:40-41 | `delete` keeps the keys distinct |
| OrderedMap.DeleteOnly | server/models/Game.js:46 | deleting a key held by one entry cuts out exactly that entry and keeps the rest in order |
| OrderedMap.DeleteWhereValue | server/models/Game.js:44-48 | dropping the entries with a given value never grows the map |
| OrderedMap.DeleteWhereValueEntries | server/models/Game.js:44-48 | the entries kept are exactly those whose value differs, and their keys stay distinct |
| OrderedMap.KeysHas | server/index.js:235 | the key set holds exactly the keys of the entries |
| OrderedMap.KeysCount | server/index.js:235 | under distinct keys, `size` is the number of keys |
| OrderedMap.SubsetSameSize | server/index.js:235 | a set of keys inside another of the same size equals it |
| OrderedMap.SizesMatch | server/index.js:235 | when the votes' keys are players, the two sizes are equal exactly when every player has voted |
| Catalog.Names | server/index.js:86 | `Object.keys(LOCATIONS)`: one name per location, in declaration order |
| Catalog.KeysOf | server/models/Game.js:81 | the key list of an entry list, position by position |
| Catalog.CatalogShape | server/data/locations.js:1-17 | fifteen locations with distinct names; each has six distinct roles, none of them `"Spy"` |
| Catalog.NamesDistinct | server/data/locations.js:1-17 | no two locations share a name |
| Catalog.RolesAt | server/data/locations.js:2-16 | every location's role list has six distinct roles without `"Spy"` |
| Catalog.RolesGroupOne | server/data/locations.js:2-4 | the role lists of the first three locations are well formed |
| Catalog.RolesGroupTwo | server/data/locations.js:5-7 | the same for locations four to six |
| Catalog.RolesGroupThree | server/data/locations.js:8-10 | the same for locations seven to nine |
| Catalog.RolesGroupFour | server/data/locations.js:11-13 | the same for locations ten to twelve |
| Catalog.RolesGroupFive | server/data/locations.js:14-16 | the same for the last three locations |
| Catalog.LookupByName | server/models/Game.js:86 | `LOCATIONS[name]` for the i-th name is the i-th role list |
| Verdict.First | server/models/Game.js:180-183 | the position of the first vote naming a target: that vote names it and none before does |
| Verdict.Count | server/models/Game.js:181-182 | the number of votes naming a target; TallyCounts states that `voteCount` holds it |
| Verdict.FirstExtend | server/models/Game.js:181-182 | appending a vote moves no earlier first vote; it is the first for its target only if there was none |
| Verdict.CountFirst | server/models/Game.js:181-182 | a target has votes exactly when some vote names it |
| Verdict.TallyCounts | server/models/Game.js:180-183 | `voteCount` holds each voted-for target once, with exactly its number of votes, and nobody else |
| Verdict.Tally | server/models/Game.js:180-183 | the `voteCount` map the counting loop builds, one `set` per vote in map order; TallyCounts and TallyOrder state what it holds |
| Verdict.CountStep | server/models/Game.js:182 | one counting step adds one to the last vote's target and changes no other count |
| Verdict.TallyKeyVoted | server/models/Game.js:180-183 | every entry of `voteCount` is a target with at least one vote, carrying that count |
| Verdict.TallyStep | server/models/Game.js:182 | a counting step keeps the places of targets already counted and appends a new target last |
| Verdict.TallyOrder | server/models/Game.js:180-183 | `voteCount` lists targets in the order their first votes were cast |
| Verdict.PickMaxFirstLargest | server/models/Game.js:186-193 | over positive counts, the scan returns the first entry whose count is the largest |
| Verdict.PickMax | server/models/Game.js:186-193 | the scan over `voteCount` that keeps an entry only when its count is strictly above the best so far; PickMaxFirstLargest states its result |
| Verdict.Accused | server/models/Game.js:177-193 | `mostVotedPlayer` after both loops, none without votes; AccusedIsFirstMaximum states who it is |
| Verdict.Decide | server/models/Game.js:166-206 | the winner rule: a guess decides by the location, otherwise the votes by whether the accused is the spy, otherwise the spy wins; VoteVerdict and SilenceFavoursSpy state it in terms of the votes |
| Verdict.TallyFind | server/models/Game.js:180-183 | every target with a vote has an entry in `voteCount` |
| Verdict.AccusedIsFirstMaximum | server/models/Game.js:177-193 | somebody is accused exactly when a vote was cast; the accused has the most votes, and of tied targets is the one voted for first |
| Verdict.VoteVerdict | server/models/Game.js:194-202 | without a guess, innocents win exactly when the spy has the most votes and every tied target was first voted for after the spy |
| Verdict.SilenceFavoursSpy | server/models/Game.js:203-206 | with no guess and no votes, the spy wins |
| Verdict.WrongPluralityFavoursSpy | server/models/Game.js:177-202 | two votes for a non-spy and one elsewhere: the spy wins in every vote order |
| Verdict.CountThree | server/models/Game.js:181-183 | the count over three votes is the number of them naming the target |
| Verdict.MostVoted | server/models/Game.js:179-193 | the two loops of `endGame` return the accused of the votes |
| GameRoom.ClearAll | server/models/Game.js:258-264 | the players after the reset loop: same players, same order, each with round fields cleared |
| GameRoom.ClearSeated | server/models/Game.js:258-264 | after the reset nobody is the spy or holds a role or location, and ids stay distinct |
| GameRoom.SameKeysPreserve | server/models/Game.js:88-100 | rewriting players in place keeps their keys distinct and adds no key |
| GameRoom.DurationMs | server/models/Game.js:12 | `gameDuration`: minutes × 60 × 1000, null for `'unlimited'` |
| GameRoom.Remaining | server/models/Game.js:235-236 | `Math.max(0, gameDuration - elapsed)`; GetTimeRemaining states its bounds |
| GameRoom.Records | server/models/Game.js:52 | the values of a players map in its order, the record at each position being that entry's |
| GameRoom.RemoveSeated | server/models/Game.js:39-40 | removing a player, spy or not, keeps the players invariant; exactly that key is gone |
| GameRoom.RemoveBallots | server/models/Game.js:41-48 | dropping the player's vote and every vote naming them leaves votes only between remaining players |
| GameRoom.PoolShape | server/models/Game.js:97-98 | after k role draws the pool has one role fewer per draw (none below empty) and only roles of the list |
| GameRoom.PoolDistinct | server/models/Game.js:97-98 | pools from a list without repeats have no repeats |
| GameRoom.PoolShrinks | server/models/Game.js:97-98 | a later pool holds only roles of an earlier one |
| GameRoom.TakenLeaves | server/models/Game.js:98 | the role a draw hands out is gone from the next pool |
| GameRoom.DrawGone | server/models/Game.js:98 | from a list without repeats, a handed-out role is gone from the next pool |
| GameRoom.NotTakenAgain | server/models/Game.js:98 | a role missing from a pool cannot be handed out from a later pool |
| GameRoom.TakenDistinct | server/models/Game.js:97-98 | a role handed out once is never handed out again |
| GameRoom.DealFirst | server/models/Game.js:88-100 | the first n players as the deal leaves them, each at its own position |
| GameRoom.Dealt | server/models/Game.js:89-99 | what the deal gives the player at one position: the spy mark, `"Spy"` and no location for the spy, the location and the role spliced by its draw for anyone else; DealRoles states its properties |
| GameRoom.DealAll | server/models/Game.js:88-100 | every player as the role loop leaves them, position by position; DealRoles and DealSeated state its properties |
| GameRoom.DealRoles | server/models/Game.js:86-100 | after the deal the spy holds `"Spy"` and no location; every other player holds the location and a role of its list exactly while roles remain; no two players share a role |
| GameRoom.DealEveryone | server/models/Game.js:97-98 | with at most seven players everybody gets a role |
| GameRoom.DealSeated | server/models/Game.js:75-100 | after the deal the players invariant holds for the drawn spy and location, with the same keys in the same places |
| GameRoom.Game.constructor | server/models/Game.js:5-18 | a new room waits with no players and nothing of a round; duration in ms is minutes × 60000, none if unlimited |
| GameRoom.Game.AddPlayer | server/models/Game.js:20-37 | fails outside waiting; otherwise the new player has no role, location or spy mark and is `set` into the map (last when new) |
| GameRoom.Game.PlayerList | server/models/Game.js:51-53 | `getPlayerList`: one record per player, in join order, each the value of its entry |
| GameRoom.Game.PlayerListLookup | server/models/Game.js:51-53 | under the invariant, each record of the list is what `get` finds under its id, and no two records share an id |
| GameRoom.Game.Host | server/index.js:143-144 | the id of the first player in join order, none for an empty room |
| GameRoom.Game.CanStartGame | server/models/Game.js:55-57 | at least one player and waiting |
| GameRoom.Game.RemovePlayer | server/models/Game.js:39-49 | the player, their vote and every vote naming them are gone; an absent id changes nothing; the invariant holds |
| GameRoom.Game.DropVotesFor | server/models/Game.js:43-48 | the loop over the votes deletes exactly those naming the player and keeps the rest in order |
| GameRoom.Game.DropStep | server/models/Game.js:44-47 | one loop step: deleting the current voter's entry equals filtering one more vote |
| GameRoom.Game.DropPrefix | server/models/Game.js:44-47 | filtering one more vote appends it unless it names the player |
| GameRoom.Game.OtherKeys | server/models/Game.js:44-47 | no other remaining vote shares the current voter's key |
| GameRoom.Game.StartGame | server/models/Game.js:59-103 | fails and changes nothing unless `canStartGame`; otherwise `RoundDealt`: playing from `now`, the spy is the drawn player, the location the drawn one, and the players are dealt from its roles; the invariant holds |
| GameRoom.Game.RoundDealt | server/models/Game.js:70-100 | the state `startGame` leaves: playing since `now`, the spy at the spy draw, the drawn location, and the players equal to the deal |
| GameRoom.Game.BeginRound | server/models/Game.js:70-100 | past the guard: phase, start time, spy and location are set and the players equal the deal |
| GameRoom.Game.Deal | server/models/Game.js:85-100 | the role loop over `players.entries()` with `availableRoles.splice` yields exactly the deal |
| GameRoom.Game.GetPlayerRole | server/models/Game.js:105-114 | present exactly for players of the room; the spy sees `"Spy"` and no location, others the room's location, and nobody has a role while waiting |
| GameRoom.Game.SubmitVote | server/models/Game.js:116-126 | fails outside voting or when either id is not a player (a self-vote is accepted); otherwise the voter's entry is `set`, in place if they voted before |
| GameRoom.Game.SubmitSpyGuess | server/models/Game.js:128-147 | a non-spy is refused first, then a phase other than playing or voting; otherwise the game ends and the spy wins exactly when the guess is the location |
| GameRoom.Game.StartVoting | server/models/Game.js:149-156 | fails outside playing; otherwise voting with no votes |
| GameRoom.Game.EndGame | server/models/Game.js:158-209 | in any phase the game ends and the winner is the verdict on guess, votes and spy |
| GameRoom.Game.GetTimeRemaining | server/models/Game.js:230-237 | none exactly when unlimited; the full duration outside a running round; never negative, never above the duration, zero exactly from the deadline |
| GameRoom.Game.Running | server/models/Game.js:231 | the negation of the first test of `getTimeRemaining`: started, and playing or voting |
| GameRoom.Game.IsTimeUp | server/models/Game.js:239-242 | never for an unlimited room; in a round exactly from the deadline; outside one only for a zero-minute room |
| GameRoom.Game.GetGameState | server/models/Game.js:211-228 | spy and location are hidden until ended and shown then; votes are shown exactly while voting or ended; players in join order; time as `GetTimeRemaining` |
| GameRoom.Game.ResetGame | server/models/Game.js:244-268 | in any phase: waiting with nothing of the round left, same players in the same order with round fields cleared; the invariant holds |
| GameRoom.Game.ClearRound | server/models/Game.js:250-256 | the field resets: waiting, with no start, spy, location, guess, winner or votes |
| GameRoom.Game.ClearPlayers | server/models/Game.js:259-264 | the player loop of `resetGame` clears every player's round fields in place |
| Directory.Lower | server/models/GameManager.js:38 | lowering keeps the length; SameUpToCase says which names it identifies |
| Directory.LowerIdempotent | server/models/GameManager.js:38 | lowering twice is lowering once, and leaves no capital letter |
| Directory.SameUpToCase | server/models/GameManager.js:38 | two names lower to the same string exactly when they have the same length and differ only in the case of ASCII letters |
| Directory.NameTaken | server/models/GameManager.js:37-38 | some record of `getPlayerList` has the name, compared after lowering both |
| Directory.NameTakenUpToCase | server/models/GameManager.js:37-39 | a name is taken exactly when some player's name matches it letter for letter up to case |
| Directory.CaseClashes | server/models/GameManager.js:37-39 | next to "Alice", the names "ALICE" and "alice" are taken |
| Directory.OtherNamesFree | server/models/GameManager.js:37-39 | next to "Alice", the names "Alicf", "Alice1" and "Al ce" are free |
| Directory.CodeOf | server/models/GameManager.js:12-14 | the six characters `chars.charAt(draw)` of one try, in order |
| Directory.GameManager.constructor | server/models/GameManager.js:4-7 | an empty directory |
| Directory.GameManager.GenerateRoomCode | server/models/GameManager.js:9-22 | six characters of `A-Z0-9`, not in use, spelled by the first try whose code is free |
| Directory.GameManager.CreateGame | server/models/GameManager.js:24 | one new waiting room with no players under a fresh code; the other rooms are untouched |
| Directory.GameManager.GetGame | server/models/GameManager.js:26-28 | the room under the code, present exactly when filed, and valid |
| Directory.GameManager.GetPlayerInfo | server/models/GameManager.js:70-72 | the socket's record, present exactly when the socket joined |
| Directory.GameManager.JoinGame | server/models/GameManager.js:30-46 | unknown room, a name already in the room ignoring case, and a room not waiting each fail, leaving the sockets and the room unchanged; otherwise the player is `set` into the room's players, nothing else of the room changes (the frame is its players), and the socket is recorded |
| Directory.GameManager.LeaveGame | server/models/GameManager.js:48-68 | an unknown socket changes nothing; otherwise the player, their vote and every vote naming them leave the room and nothing else of it changes (the frame is its players and votes), the room is dropped exactly when left empty, the socket is forgotten and its record returned |
| Directory.GameManager.CleanupOldGames | server/models/GameManager.js:74-83 | exactly the rooms older than two hours and empty are dropped; the rest stay as they were |
| Directory.GameManager.Stale | server/models/GameManager.js:79 | created more than two hours before `now` and without players |
| Directory.GameManager.WithoutStale | server/models/GameManager.js:78-82 | the loop keeps exactly the rooms that are not stale |
| Gateway.Lookup | server/index.js:221-230 | "Player not found" exactly for an unknown socket, "Game not found" exactly for a known socket whose room is gone, otherwise its record and room |
| Gateway.Message | server/models/Game.js:22-151 | the message of each error `Game` throws, as `socket.emit('error', { message })` sends it |
| Gateway.JoinMessage | server/models/GameManager.js:33-39 | the messages `joinGame` throws, and `Game`'s own for a refused `addPlayer` |
| Gateway.SeatRoomOfLookup | server/index.js:221-230 | the room a handler may change is exactly the room the lookup finds, and none when it fails |
| Gateway.IsHost | server/index.js:143-144 | the first record of `getPlayerList` has the asking player's id; HostJoinedFirst relates it to the join order |
| Gateway.HostJoinedFirst | server/index.js:142-144 | the host check passes exactly for the player who joined first |
| Gateway.EveryoneVoted | server/index.js:235 | `votes.size === players.size` holds exactly when every player of the room has voted |
| Gateway.RoleMessages | server/index.js:157-165 | one role message per player |
| Gateway.Roles | server/index.js:157-165 | the message for each entry: its id, spy mark, role and location, in join order |
| Gateway.RoleMessagesMatch | server/index.js:157-165 | every player is sent their own `getPlayerRole`, in join order |
| Gateway.CreateRoom | server/index.js:50 | a new waiting room under a fresh code, six minutes unless a duration is given; every other room stays filed under its code |
| Gateway.ValidateRoom | server/index.js:52-81 | success exactly for an existing waiting room, listing its players in join order; "Room not found" or "Game already in progress" otherwise |
| Gateway.JoinRoom | server/index.js:94-124 | the join errors are sent back as `joined-room` failures and change nothing; a join records the socket and `set`s the player into the room; only that room's players can change |
| Gateway.StartGame | server/index.js:126-216 | lookup errors change nothing; otherwise `StartOutcome` on the looked-up room and player, and only the fields `startGame` sets can change; no other room changes |
| Gateway.StartOutcome | server/index.js:142-175 | a non-host and a room that cannot start are refused and change nothing; otherwise the room is in `RoundDealt` (spy, location and deal from the draws), its guess, votes and winner are kept, each player is sent their role and the timers are armed exactly when the room is timed |
| Gateway.StartInRoom | server/index.js:142-175 | the host check, then `startGame`: `StartOutcome` holds, and only the fields `startGame` sets can change |
| Gateway.VoteInRoom | server/index.js:232-244 | the vote is recorded; the game ends exactly when every player has voted, otherwise `vote-submitted` |
| Gateway.SubmitVote | server/index.js:218-249 | lookup errors change nothing; no room but the voter's changes |
| Gateway.GuessInRoom | server/index.js:265-270 | the guess is refused for a non-spy or outside playing and voting; otherwise the game ends with the guess's verdict |
| Gateway.SpyGuess | server/index.js:251-275 | lookup errors change nothing; no room but the guesser's changes |
| Gateway.ForceVoting | server/index.js:277-299 | voting starts exactly when the room is playing, changing only its phase and votes; otherwise nothing is sent or changed; no other room changes |
| Gateway.ResetGame | server/index.js:301-332 | any player of the room resets it, in any phase, with no host check |
| Gateway.Disconnect | server/index.js:334-345 | an unknown socket changes nothing and sends nothing; a known one is forgotten, its player leaves the room as `leaveGame` has it (votes included, the room dropped when left empty) and `player-left` is sent |
| Gateway.TimerTick | server/index.js:179-199 | while playing: the time left is sent, and once none is left voting starts and the timer stops, changing only the phase and votes; in any other phase it stops and changes nothing |
| Gateway.FallbackTimeout | server/index.js:202-209 | as written: voting starts whenever the room is playing, changing only the phase and votes |
| Gateway.FallbackFires | server/index.js:203 | the fallback timer's test as written: the room is playing |
| Gateway.StaleFallbackFires | server/index.js:202-209 | the timer of an earlier round fires into a later round that still has time left |
| Gateway.FallbackTimeoutForRound | server/index.js:202-209 | corrected: voting starts only in the round the timer was armed for, and then its time is up; only the phase and votes change |
| Gateway.FallbackForRoundOnTime | server/index.js:202-209 | whenever the corrected timer fires, the round's time is up |

## Left out

- The client (React components, context, socket and HTTP clients, build configuration): it only displays server state.
- Express, socket.io and CORS wiring, the health endpoint, `console.log`, and the fan-out of `io.to(room).emit`: handlers return what they would send instead.
- The socket search that delivers `role-assigned` (server/index.js:158-162) is transport: `Gateway.RoleMessages` is the list of messages, not which socket receives each.
- `uuidv4`, `Math.random` and `new Date()` are inputs: the player id, the `Draws` and room-code attempts, and `now`. Uniformity of the draws is not modelled.
- `setInterval`, `setTimeout` and `startCleanup` scheduling: each callback is an operation (`TimerTick`, `FallbackTimeout`, `CleanupOldGames`) that the environment calls; when it is called is not modelled.
- Player records are values inside the players map. `getPlayerList` (`Game.PlayerList`) hands out references to the same objects in the source; aliasing through them is not modelled.
- Durations other than a natural number of minutes or `'unlimited'` (negative, fractional, non-numeric) are not modelled.
- `GET /api/locations` is `Catalog.Names`; its HTTP wrapper is not modelled.
- Directory.Lower: lowers only the ASCII letters `A-Z`; the source's `toLowerCase` also folds other scripts' capitals.
- Directory.GameManager.GenerateRoomCode: requires that some try in the supplied list draws a free code; the source retries until one does, and a run that never finds one is not modelled.
- Gateway.SubmitVote: states the lookup errors and the frame only; the vote's outcome is stated on Gateway.VoteInRoom, which it calls with the looked-up room and player.
- Gateway.SpyGuess: states the lookup errors and the frame only; the guess's outcome is stated on Gateway.GuessInRoom, which it calls.
- Gateway.StartGame: requires that the supplied draws fit the room (`DrawsFor`), as `Math.floor(Math.random() * n)` always does.
- The `try`/`catch` blocks' 500 replies: no modelled operation throws anything other than the errors listed in `GameError` and `JoinError`.

## Findings

| source | as written | input that shows it | evidently intended | confidence | as-written member | corrected member |
|---|---|---|---|---|---|---|
| server/index.js:202-209 | the fallback `setTimeout` is never cancelled and only checks that the room is playing | start a timed round at t0, reset and start a new round at t1 > t0; at t0 + duration the old timer starts the voting although the new round has t1 - t0 ms left | the timer ends only the round it was armed for, once its time is up | medium, not executed | Gateway.StaleFallbackFires | Gateway.FallbackForRoundOnTime |
