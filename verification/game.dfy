/**
 * One room (`Game`): its players in join order, its phase, and the round's
 * spy, location, votes, guess and winner. The phase runs
 * waiting -> playing -> voting -> ended, and `ResetGame` leads back to waiting.
 */
module GameRoom {
  import opened Base
  import opened OrderedMap
  import Catalog
  import opened Verdict

  datatype Phase = Waiting | Playing | Voting | Ended

  /** The round length a room is created with: minutes, or `'unlimited'`. */
  datatype Duration = Minutes(minutes: nat) | Unlimited

  /** `gameDuration` in milliseconds; none when unlimited. */
  function DurationMs(d: Duration): Option<nat> {
    match d
    case Minutes(m) => Some(m * 60 * 1000)
    case Unlimited => None
  }

  /** A player record; `role` and `location` are null outside a round. */
  datatype Player = Player(
    id: PlayerId, name: string, role: Option<string>, location: Option<string>,
    isSpy: bool, isReady: bool, joinedAt: int)

  /** The errors `Game` throws. */
  datatype GameError =
    | GameInProgress      // addPlayer outside waiting
    | CannotStartGame     // startGame when canStartGame is false
    | VotingNotActive     // submitVote outside voting
    | InvalidPlayerId     // submitVote naming somebody not in the room
    | OnlySpyCanGuess     // submitSpyGuess from somebody other than the spy
    | NotPlayingOrVoting  // submitSpyGuess outside playing and voting
    | CannotStartVoting   // startVoting outside playing

  /** `getPlayerRole`: what one player is told privately. */
  datatype RoleView = RoleView(isSpy: bool, role: Option<string>, location: Option<string>)

  /** A player as the room-wide snapshot shows them. */
  datatype PlayerView = PlayerView(id: PlayerId, name: string, isReady: bool)

  /** `getGameState`: the view broadcast to the whole room. */
  datatype Snapshot = Snapshot(
    roomCode: string, gameState: Phase, players: seq<PlayerView>,
    timeRemaining: Option<int>, gameDurationMinutes: Duration, winner: Option<Winner>,
    spyId: Option<PlayerId>, location: Option<string>, votes: Option<seq<(PlayerId, PlayerId)>>)

  /** `canStartGame`'s minimum number of players. */
  const MinPlayers: nat := 1

  /**
   * The random draws of one `startGame`, each `Math.floor(Math.random() * n)`:
   * the spy's position, the location's position, and one role position per
   * player who is not the spy, in join order.
   */
  datatype Draws = Draws(spy: nat, location: nat, roles: seq<nat>)

  /** A draw over `n` choices: below `n`, or 0 when there is nothing to choose from. */
  predicate IsDraw(d: nat, n: nat) {
    if n == 0 then d == 0 else d < n
  }

  /** Roles still unassigned after `k` players have taken one from a list of `total`. */
  function RolesLeft(total: nat, k: nat): nat {
    if k < total then total - k else 0
  }

  /**
   * The draws cover a room of `n` players: a spy position within the room
   * and a role draw for everybody but the spy.
   */
  predicate SeatDraws(d: Draws, n: nat) {
    (n > 0 ==> d.spy < n) && |d.roles| + 1 >= n
  }

  /** Draws that `startGame` can make over a role list: each within what is left. */
  predicate RoleDraws(roles: seq<string>, draws: seq<nat>) {
    forall j :: 0 <= j < |draws| ==> IsDraw(draws[j], RolesLeft(|roles|, j))
  }

  /** The draws are ones `startGame` can make in a room of `n` players. */
  predicate DrawsFit(d: Draws, n: nat) {
    && SeatDraws(d, n)
    && d.location < |Catalog.Locations|
    && RoleDraws(Catalog.Locations[d.location].1, d.roles)
  }

  /** How many of the players before position `i` are not the spy at `spy`. */
  function Rank(i: nat, spy: nat): nat {
    if spy < i then i - 1 else i
  }

  /** No two players hold the same role. */
  predicate DistinctRoles(ps: seq<(PlayerId, Player)>) {
    forall i, j :: 0 <= i < j < |ps| && ps[i].1.role.Some? ==> ps[i].1.role != ps[j].1.role
  }

  /**
   * What a player who is not the spy receives at the location `name` with
   * role list `roles`: the location, and a role from the list exactly when
   * fewer than its number of roles were handed out before.
   */
  predicate NonSpyDealt(p: Player, name: string, roles: seq<string>, rank: nat) {
    && !p.isSpy
    && p.location == Some(name)
    && (p.role.Some? <==> rank < |roles|)
    && (p.role.Some? ==> p.role.value in roles)
  }

  /** What the spy receives: the spy role and no location. */
  predicate SpyDealt(p: Player) {
    p.isSpy && p.role == Some(Catalog.SpyRole) && p.location == None
  }

  /** A player with every round field cleared, as `resetGame` leaves them. */
  function Cleared(e: (PlayerId, Player)): (PlayerId, Player) {
    (e.0, e.1.(role := None, location := None, isSpy := false, isReady := false))
  }

  /** The players map after `resetGame`: the same players in the same order, cleared. */
  function ClearAll(ps: seq<(PlayerId, Player)>): (r: seq<(PlayerId, Player)>)
    ensures |r| == |ps| && forall i :: 0 <= i < |ps| ==> r[i] == Cleared(ps[i])
  {
    if ps == [] then [] else ClearAll(ps[..|ps| - 1]) + [Cleared(ps[|ps| - 1])]
  }

  /** After a reset nobody is the spy, nobody holds a role or a location, and the keys stay. */
  lemma ClearSeated(ps: seq<(PlayerId, Player)>)
    requires DistinctKeys(ps) && forall e :: e in ps ==> e.1.id == e.0
    ensures Seated(ClearAll(ps), None, None)
    ensures forall e :: e in ClearAll(ps) ==> e.1.role.None?
  {
    var after := ClearAll(ps);
    assert SameKeys(after, ps);
    SameKeysPreserve(after, ps);
    forall e | e in after ensures e.1.id == e.0 {
      var j :| 0 <= j < |after| && after[j] == e;
      assert ps[j] in ps;
    }
  }

  /** The values of a players map, in its order. */
  function Records(ps: seq<(PlayerId, Player)>): (r: seq<Player>)
    ensures |r| == |ps| && forall i :: 0 <= i < |ps| ==> r[i] == ps[i].1
  {
    if ps == [] then [] else Records(ps[..|ps| - 1]) + [ps[|ps| - 1].1]
  }

  /** `Math.max(0, gameDuration - (now - gameStartTime))`. */
  function Remaining(durationMs: nat, start: int, now: int): int {
    Max(0, durationMs - (now - start))
  }

  /** Two seatings with the same keys in the same places. */
  predicate SameKeys(a: seq<(PlayerId, Player)>, b: seq<(PlayerId, Player)>) {
    |a| == |b| && forall i :: 0 <= i < |a| ==> a[i].0 == b[i].0
  }

  lemma SameKeysPreserve(a: seq<(PlayerId, Player)>, b: seq<(PlayerId, Player)>)
    requires SameKeys(a, b) && DistinctKeys(b)
    ensures DistinctKeys(a)
    ensures forall k :: HasKey(a, k) ==> HasKey(b, k)
  {
    forall k | HasKey(a, k) ensures HasKey(b, k) {
      var i :| 0 <= i < |a| && a[i].0 == k;
      assert b[i].0 == k;
    }
  }

  /**
   * The players map's invariant: each record's id is its key; a record is
   * marked as the spy exactly when `spyId` names it; the spy holds the spy
   * role and no location, and everybody else holds the room's location.
   */
  predicate Seated(ps: seq<(PlayerId, Player)>, spyId: Option<PlayerId>, location: Option<string>) {
    DistinctKeys(ps) && forall e :: e in ps ==> SeatOk(e, spyId, location)
  }

  /** One entry of the players map as its invariant wants it. */
  predicate SeatOk(e: (PlayerId, Player), spyId: Option<PlayerId>, location: Option<string>) {
    && e.1.id == e.0
    && (e.1.isSpy <==> spyId == Some(e.0))
    && (e.1.isSpy ==> e.1.role == Some(Catalog.SpyRole) && e.1.location.None?)
    && (!e.1.isSpy ==> e.1.location == location)
  }

  /** The votes map's invariant: one vote per voter, cast by and for players of the room. */
  predicate Ballots(vs: seq<(PlayerId, PlayerId)>, ps: seq<(PlayerId, Player)>) {
    && DistinctKeys(vs)
    && (forall v :: v in vs ==> HasKey(ps, v.0) && HasKey(ps, v.1))
  }

  /** Removing a player keeps the players map's invariant, whoever the spy was. */
  lemma RemoveSeated(ps: seq<(PlayerId, Player)>, spyId: Option<PlayerId>, location: Option<string>, id: PlayerId)
    requires Seated(ps, spyId, location)
    ensures Seated(Delete(ps, id), spyId, location) && !HasKey(Delete(ps, id), id)
    ensures forall k :: HasKey(Delete(ps, id), k) <==> k != id && HasKey(ps, k)
  {
    DeleteEntries(ps, id);
    DeleteDistinct(ps, id);
    forall k ensures HasKey(Delete(ps, id), k) <==> k != id && HasKey(ps, k) {
      DeleteGet(ps, id, k);
    }
  }

  /** Dropping the player's own vote and every vote naming them keeps the votes valid. */
  lemma RemoveBallots(vs: seq<(PlayerId, PlayerId)>, ps: seq<(PlayerId, Player)>, spyId: Option<PlayerId>, location: Option<string>, id: PlayerId)
    requires Ballots(vs, ps) && Seated(ps, spyId, location)
    ensures Ballots(DeleteWhereValue(Delete(vs, id), id), Delete(ps, id))
    ensures forall v :: v in DeleteWhereValue(Delete(vs, id), id) ==> v.0 != id && v.1 != id
  {
    RemoveSeated(ps, spyId, location, id);
    DeleteEntries(vs, id);
    DeleteDistinct(vs, id);
    DeleteWhereValueEntries(Delete(vs, id), id);
  }

  /** The role list after the first `k` role draws have each spliced one role out. */
  function Pool(roles: seq<string>, draws: seq<nat>, k: nat): seq<string>
    requires k <= |draws|
  {
    if k == 0 then roles else Splice(Pool(roles, draws, k - 1), draws[k - 1])
  }

  /** `splice(idx, 1)[0]`: the role at `idx`, or undefined past the end. */
  function Taken(pool: seq<string>, idx: nat): Option<string> {
    if idx < |pool| then Some(pool[idx]) else None
  }

  /**
   * Each draw takes one role out of the pool while roles are left: the pool
   * shrinks by one, and holds only roles of the list.
   */
  lemma {:induction false} PoolShape(roles: seq<string>, draws: seq<nat>, k: nat)
    requires RoleDraws(roles, draws) && k <= |draws|
    ensures |Pool(roles, draws, k)| == RolesLeft(|roles|, k)
    ensures forall x :: x in Pool(roles, draws, k) ==> x in roles
  {
    if k > 0 {
      PoolShape(roles, draws, k - 1);
      SpliceKeeps(Pool(roles, draws, k - 1), draws[k - 1]);
    }
  }

  /** A role list without repeats gives pools without repeats. */
  lemma {:induction false} PoolDistinct(roles: seq<string>, draws: seq<nat>, k: nat)
    requires NoDup(roles) && k <= |draws|
    ensures NoDup(Pool(roles, draws, k))
  {
    if k > 0 {
      PoolDistinct(roles, draws, k - 1);
      var prev := Pool(roles, draws, k - 1);
      if draws[k - 1] < |prev| {
        SpliceTakes(prev, draws[k - 1]);
      }
    }
  }

  /** Later pools are contained in earlier ones. */
  lemma {:induction false} PoolShrinks(roles: seq<string>, draws: seq<nat>, k: nat, k': nat)
    requires k <= k' <= |draws|
    ensures forall x :: x in Pool(roles, draws, k') ==> x in Pool(roles, draws, k)
  {
    if k < k' {
      PoolShrinks(roles, draws, k, k' - 1);
      SpliceKeeps(Pool(roles, draws, k' - 1), draws[k' - 1]);
    }
  }

  /** A role handed out by draw `k` is gone from the next pool. */
  lemma TakenLeaves(roles: seq<string>, draws: seq<nat>, k: nat)
    requires k < |draws| && NoDup(Pool(roles, draws, k))
    requires Taken(Pool(roles, draws, k), draws[k]).Some?
    ensures Taken(Pool(roles, draws, k), draws[k]).value !in Pool(roles, draws, k + 1)
  {
    SpliceTakes(Pool(roles, draws, k), draws[k]);
  }

  /** From a role list without repeats, the role a draw hands out is gone from the next pool. */
  lemma DrawGone(roles: seq<string>, draws: seq<nat>, k: nat)
    requires NoDup(roles) && k < |draws|
    ensures Taken(Pool(roles, draws, k), draws[k]).Some? ==>
      Taken(Pool(roles, draws, k), draws[k]).value !in Pool(roles, draws, k + 1)
  {
    PoolDistinct(roles, draws, k);
    if Taken(Pool(roles, draws, k), draws[k]).Some? {
      TakenLeaves(roles, draws, k);
    }
  }

  /** A role missing from a pool cannot be taken from any later pool within it. */
  lemma NotTakenAgain(t: string, rest: seq<string>, later: seq<string>, idx: nat)
    requires t !in rest && forall x :: x in later ==> x in rest
    ensures Taken(later, idx) != Some(t)
  {
    if idx < |later| {
      assert later[idx] in later;
    }
  }

  /** A role handed out by draw `k1` and gone from the next pool is not handed out again. */
  lemma TakenDistinct(roles: seq<string>, draws: seq<nat>, k1: nat, k2: nat)
    requires k1 < k2 < |draws|
    requires Taken(Pool(roles, draws, k1), draws[k1]).Some?
    requires Taken(Pool(roles, draws, k1), draws[k1]).value !in Pool(roles, draws, k1 + 1)
    ensures Taken(Pool(roles, draws, k1), draws[k1]) != Taken(Pool(roles, draws, k2), draws[k2])
  {
    PoolShrinks(roles, draws, k1 + 1, k2);
    NotTakenAgain(Taken(Pool(roles, draws, k1), draws[k1]).value,
      Pool(roles, draws, k1 + 1), Pool(roles, draws, k2), draws[k2]);
  }

  /**
   * What player `i` of the room holds after `startGame` dealt with draws `d`
   * at the location `name` with role list `roles`.
   */
  function Dealt(e: (PlayerId, Player), i: nat, d: Draws, name: string, roles: seq<string>): (PlayerId, Player)
    requires i != d.spy ==> Rank(i, d.spy) < |d.roles|
  {
    if i == d.spy then
      (e.0, e.1.(isSpy := true, role := Some(Catalog.SpyRole), location := None))
    else
      var k := Rank(i, d.spy);
      var pool := Pool(roles, d.roles, k);
      (e.0, e.1.(isSpy := false, location := Some(name),
                 role := Taken(pool, d.roles[k])))
  }

  /** The players map after `startGame` dealt with draws `d`. */
  function DealAll(before: seq<(PlayerId, Player)>, d: Draws, name: string, roles: seq<string>): seq<(PlayerId, Player)>
    requires |before| > 0 && SeatDraws(d, |before|)
  {
    DealFirst(before, d, name, roles, |before|)
  }

  /** The first `n` players as `startGame` deals them. */
  function DealFirst(before: seq<(PlayerId, Player)>, d: Draws, name: string, roles: seq<string>, n: nat): (r: seq<(PlayerId, Player)>)
    requires n <= |before| && SeatDraws(d, |before|)
    ensures |r| == n && forall i :: 0 <= i < n ==> r[i] == Dealt(before[i], i, d, name, roles)
  {
    if n == 0 then []
    else DealFirst(before, d, name, roles, n - 1) + [Dealt(before[n - 1], n - 1, d, name, roles)]
  }

  /**
   * The deal at a location whose list has six distinct roles: the spy holds
   * the spy role and no location; everybody else holds the location and a
   * role of its list, until the roles run out; no two players hold the same role.
   */
  lemma DealRoles(before: seq<(PlayerId, Player)>, d: Draws, name: string, roles: seq<string>)
    requires |before| > 0 && SeatDraws(d, |before|)
    requires Catalog.WellFormedRoles(roles) && RoleDraws(roles, d.roles)
    ensures var after := DealAll(before, d, name, roles);
      && (forall i :: 0 <= i < |after| && i == d.spy ==> SpyDealt(after[i].1))
      && (forall i :: 0 <= i < |after| && i != d.spy ==> NonSpyDealt(after[i].1, name, roles, Rank(i, d.spy)))
      && DistinctRoles(after)
  {
    var after := DealAll(before, d, name, roles);
    forall i | 0 <= i < |after| && i != d.spy
      ensures NonSpyDealt(after[i].1, name, roles, Rank(i, d.spy))
    {
      var k := Rank(i, d.spy);
      PoolShape(roles, d.roles, k);
      var pool := Pool(roles, d.roles, k);
      if d.roles[k] < |pool| {
        assert pool[d.roles[k]] in pool;
      }
    }
    forall i, j | 0 <= i < j < |after| && after[i].1.role.Some?
      ensures after[i].1.role != after[j].1.role
    {
      if i == d.spy {
        assert after[j].1.role.Some? ==> after[j].1.role.value in roles;
      } else if j == d.spy {
        assert after[i].1.role.value in roles;
      } else {
        DrawGone(roles, d.roles, Rank(i, d.spy));
        TakenDistinct(roles, d.roles, Rank(i, d.spy), Rank(j, d.spy));
      }
    }
  }

  /** A room of at most seven players gets a role for everyone. */
  lemma DealEveryone(before: seq<(PlayerId, Player)>, d: Draws, name: string, roles: seq<string>)
    requires |before| > 0 && SeatDraws(d, |before|)
    requires Catalog.WellFormedRoles(roles) && RoleDraws(roles, d.roles)
    requires |before| <= Catalog.RolesPerLocation + 1
    ensures forall i :: 0 <= i < |before| ==> DealAll(before, d, name, roles)[i].1.role.Some?
  {
    DealRoles(before, d, name, roles);
  }

  /** After the deal the players map satisfies its invariant for the new spy and location. */
  lemma DealSeated(before: seq<(PlayerId, Player)>, d: Draws, name: string, roles: seq<string>)
    requires |before| > 0 && SeatDraws(d, |before|)
    requires DistinctKeys(before) && forall e :: e in before ==> e.1.id == e.0
    ensures Seated(DealAll(before, d, name, roles), Some(before[d.spy].0), Some(name))
    ensures SameKeys(DealAll(before, d, name, roles), before)
  {
    var after := DealAll(before, d, name, roles);
    assert SameKeys(after, before);
    SameKeysPreserve(after, before);
    forall e | e in after
      ensures e.1.id == e.0
      ensures e.1.isSpy <==> Some(before[d.spy].0) == Some(e.0)
    {
      var i :| 0 <= i < |after| && after[i] == e;
      assert before[i] in before;
      if e.0 == before[d.spy].0 { assert i == d.spy; }
    }
  }

  class Game {
    const roomCode: string
    /** `players`: playerId -> player, in join order; the first entry is the host. */
    var players: seq<(PlayerId, Player)>
    var gameState: Phase
    var location: Option<string>
    var spyId: Option<PlayerId>
    var gameStartTime: Option<int>
    const gameDuration: Option<nat>
    const gameDurationMinutes: Duration
    /** `votes`: voterId -> votedForId, in map order. */
    var votes: seq<(PlayerId, PlayerId)>
    var spyGuess: Option<string>
    var winner: Option<Winner>
    const createdAt: int

    /** Nothing of a round is left: the state of a room in `waiting`. */
    ghost predicate RoundCleared()
      reads this
    {
      && spyId.None? && location.None? && gameStartTime.None?
      && spyGuess.None? && winner.None? && votes == []
      && forall e :: e in players ==> e.1.role.None?
    }

    /**
     * The room's invariant: player ids are the map keys; exactly the player
     * named by `spyId` (if present) is marked as the spy; votes are between
     * current players, one per voter; a round in progress has its spy,
     * location and start time; a winner exists exactly once the game ended.
     */
    ghost predicate Valid()
      reads this
    {
      && Seated(players, spyId, location)
      && Ballots(votes, players)
      && gameDuration == DurationMs(gameDurationMinutes)
      && (gameState == Waiting ==> RoundCleared())
      && (gameState == Playing ==> votes == [])
      && (gameState == Playing || gameState == Voting ==>
            spyId.Some? && location.Some? && gameStartTime.Some?)
      && (winner.Some? <==> gameState == Ended)
    }

    constructor (roomCode: string, gameDurationMinutes: Duration, now: int)
      ensures Valid()
      ensures this.roomCode == roomCode && this.gameDurationMinutes == gameDurationMinutes
      ensures gameDuration == DurationMs(gameDurationMinutes) && createdAt == now
      ensures players == [] && gameState == Waiting && RoundCleared()
    {
      this.roomCode := roomCode;
      players := [];
      gameState := Waiting;
      location := None;
      spyId := None;
      gameStartTime := None;
      gameDuration := DurationMs(gameDurationMinutes);
      this.gameDurationMinutes := gameDurationMinutes;
      votes := [];
      spyGuess := None;
      winner := None;
      createdAt := now;
    }

    /** The host: the first player in join order. */
    function Host(): Option<PlayerId>
      reads this
    {
      if |players| > 0 then Some(players[0].0) else None
    }

    /** `getPlayerList`: `Array.from(players.values())`, the player records in join order. */
    function PlayerList(): (r: seq<Player>)
      reads this
      ensures |r| == |players| && forall i :: 0 <= i < |players| ==> r[i] == players[i].1
    {
      Records(players)
    }

    /**
     * Under the invariant, the list holds each player of the map once: the
     * record at position `i` is what `get` finds under its own id, and no
     * two records share an id.
     */
    lemma PlayerListLookup()
      requires Valid()
      ensures forall i :: 0 <= i < |PlayerList()| ==> Get(players, PlayerList()[i].id) == Some(PlayerList()[i])
      ensures forall i, j :: 0 <= i < j < |PlayerList()| ==> PlayerList()[i].id != PlayerList()[j].id
    {
      forall i | 0 <= i < |players| ensures players[i].1.id == players[i].0 && Get(players, players[i].0) == Some(players[i].1) {
        assert players[i] in players;
        GetAt(players, i);
      }
    }

    /** `addPlayer`: only while waiting; a new player is appended with no round fields. */
    method AddPlayer(playerId: PlayerId, playerName: string, now: int) returns (r: Result<Player, GameError>)
      requires Valid()
      modifies this`players
      ensures Valid()
      ensures old(gameState) != Waiting ==> r == Err(GameInProgress) && players == old(players)
      ensures old(gameState) == Waiting ==>
        && r == Ok(Player(playerId, playerName, None, None, false, false, now))
        && players == Set(old(players), playerId, r.value)
      ensures old(gameState) == Waiting && !HasKey(old(players), playerId) ==>
        players == old(players) + [(playerId, r.value)]
    {
      if gameState != Waiting {
        return Err(GameInProgress);
      }
      var player := Player(playerId, playerName, None, None, false, false, now);
      SetMembers(players, playerId, player);
      SetDistinct(players, playerId, player);
      SetPlace(players, playerId, player);
      players := Set(players, playerId, player);
      r := Ok(player);
    }

    /**
     * `removePlayer`: the player, the vote they cast and every vote naming
     * them are gone; an absent id changes nothing.
     */
    method RemovePlayer(playerId: PlayerId)
      requires Valid()
      modifies this`players, this`votes
      ensures Valid()
      ensures players == Delete(old(players), playerId)
      ensures votes == DeleteWhereValue(Delete(old(votes), playerId), playerId)
      ensures !HasKey(players, playerId)
      ensures forall v :: v in votes ==> v.0 != playerId && v.1 != playerId
    {
      RemoveSeated(players, spyId, location, playerId);
      RemoveBallots(votes, players, spyId, location, playerId);
      DeleteEntries(players, playerId);
      DeleteDistinct(votes, playerId);
      var remaining := DropVotesFor(Delete(votes, playerId), playerId);
      players := Delete(players, playerId);
      votes := remaining;
    }

    /**
     * The loop of `removePlayer` over the votes left after the player's own:
     * each vote naming `playerId` is deleted where it stands.
     */
    static method DropVotesFor(snapshot: seq<(PlayerId, PlayerId)>, playerId: PlayerId)
      returns (remaining: seq<(PlayerId, PlayerId)>)
      requires DistinctKeys(snapshot)
      ensures remaining == DeleteWhereValue(snapshot, playerId)
    {
      remaining := snapshot;
      var i := 0;
      while i < |snapshot|
        invariant 0 <= i <= |snapshot|
        invariant remaining == DeleteWhereValue(snapshot[..i], playerId) + snapshot[i..]
      {
        DropStep(snapshot, i, playerId);
        if snapshot[i].1 == playerId {
          remaining := Delete(remaining, snapshot[i].0);
        }
        i := i + 1;
      }
      assert snapshot[..|snapshot|] == snapshot;
    }

    /** One step of the vote-removal loop: a vote naming `playerId` is cut out where it stands. */
    static lemma DropStep(snapshot: seq<(PlayerId, PlayerId)>, i: nat, playerId: PlayerId)
      requires DistinctKeys(snapshot) && i < |snapshot|
      ensures snapshot[i].1 == playerId ==>
        Delete(DeleteWhereValue(snapshot[..i], playerId) + snapshot[i..], snapshot[i].0)
          == DeleteWhereValue(snapshot[..i + 1], playerId) + snapshot[i + 1..]
      ensures snapshot[i].1 != playerId ==>
        DeleteWhereValue(snapshot[..i], playerId) + snapshot[i..]
          == DeleteWhereValue(snapshot[..i + 1], playerId) + snapshot[i + 1..]
    {
      var kept := DeleteWhereValue(snapshot[..i], playerId);
      DropPrefix(snapshot, i, playerId);
      assert snapshot[i..] == [snapshot[i]] + snapshot[i + 1..];
      if snapshot[i].1 == playerId {
        OtherKeys(snapshot, i, playerId);
        DeleteOnly(kept, snapshot[i], snapshot[i + 1..]);
        assert kept + [snapshot[i]] + snapshot[i + 1..] == kept + snapshot[i..];
      } else {
        assert kept + [snapshot[i]] + snapshot[i + 1..] == kept + snapshot[i..];
      }
    }

    /** Filtering one more vote appends it unless it names `playerId`. */
    static lemma DropPrefix(snapshot: seq<(PlayerId, PlayerId)>, i: nat, playerId: PlayerId)
      requires i < |snapshot|
      ensures DeleteWhereValue(snapshot[..i + 1], playerId) ==
        DeleteWhereValue(snapshot[..i], playerId) + (if snapshot[i].1 == playerId then [] else [snapshot[i]])
    {
      assert snapshot[..i + 1][..i] == snapshot[..i];
    }

    /** Under distinct voters, no vote kept before `i` or left after it has the voter of vote `i`. */
    static lemma OtherKeys(snapshot: seq<(PlayerId, PlayerId)>, i: nat, playerId: PlayerId)
      requires DistinctKeys(snapshot) && i < |snapshot|
      ensures forall x :: x in DeleteWhereValue(snapshot[..i], playerId) + snapshot[i + 1..] ==> x.0 != snapshot[i].0
    {
      var kept := DeleteWhereValue(snapshot[..i], playerId);
      DeleteWhereValueEntries(snapshot[..i], playerId);
      forall x | x in kept + snapshot[i + 1..] ensures x.0 != snapshot[i].0 {
        if x in kept {
          var j :| 0 <= j < i && snapshot[..i][j] == x;
          assert snapshot[j] == x;
        } else {
          var j :| 0 <= j < |snapshot[i + 1..]| && snapshot[i + 1..][j] == x;
          assert snapshot[i + 1 + j] == x;
        }
      }
    }

    /** `canStartGame`: at least `MinPlayers` players, and waiting. */
    predicate CanStartGame()
      reads this
    {
      |players| >= MinPlayers && gameState == Waiting
    }
    /**
     * The round `startGame` begins at `now` from the seating `before` with
     * the draws `d`: playing since `now`, the spy is the player at the spy
     * draw, the location is the drawn one, and the players are dealt from
     * its role list.
     */
    predicate RoundDealt(before: seq<(PlayerId, Player)>, d: Draws, now: int)
      reads this
    {
      && |before| > 0 && SeatDraws(d, |before|) && d.location < |Catalog.Locations|
      && gameState == Playing && gameStartTime == Some(now)
      && spyId == Some(before[d.spy].0)
      && location == Some(Catalog.Locations[d.location].0)
      && players == DealAll(before, d, Catalog.Locations[d.location].0, Catalog.Locations[d.location].1)
    }

    /**
     * `startGame`: from waiting with at least one player, the room moves to
     * playing at `now`; the spy and the location are drawn, and the players
     * are dealt their roles in join order. Otherwise the room is untouched.
     */
    method StartGame(now: int, d: Draws) returns (err: Option<GameError>)
      requires Valid()
      requires DrawsFit(d, |players|)
      modifies this`players, this`gameState, this`gameStartTime, this`spyId, this`location
      ensures Valid()
      ensures !old(CanStartGame()) ==> err == Some(CannotStartGame) && unchanged(this)
      ensures old(CanStartGame()) ==> err == None && RoundDealt(old(players), d, now)
    {
      if !CanStartGame() {
        return Some(CannotStartGame);
      }
      var locationName := Catalog.Locations[d.location].0;
      var availableRoles := Catalog.Locations[d.location].1;
      BeginRound(now, d, locationName, availableRoles);
      err := None;
    }

    /**
     * The body of `startGame` past its guard, once the location `name` with
     * role list `roles` is drawn: the spy is the player at the spy draw, and
     * the players are dealt from the role list.
     */
    method BeginRound(now: int, d: Draws, name: string, roles: seq<string>)
      requires Valid() && CanStartGame()
      requires SeatDraws(d, |players|)
      modifies this`players, this`gameState, this`gameStartTime, this`spyId, this`location
      ensures Valid()
      ensures gameState == Playing && gameStartTime == Some(now)
      ensures spyId == Some(old(players)[d.spy].0) && location == Some(name)
      ensures players == DealAll(old(players), d, name, roles)
    {
      var spy := players[d.spy].0;
      DealSeated(players, d, name, roles);
      players := Deal(players, d, name, roles);
      gameState := Playing;
      gameStartTime := Some(now);
      spyId := Some(spy);
      location := Some(name);
    }

    /**
     * The role loop of `startGame`, over the players in join order: the spy
     * gets the spy role; everybody else gets the location `name` and a role
     * spliced out of what is left of `roles` by the next role draw.
     */
    static method Deal(before: seq<(PlayerId, Player)>, d: Draws, name: string, roles: seq<string>)
      returns (after: seq<(PlayerId, Player)>)
      requires |before| > 0 && SeatDraws(d, |before|) && DistinctKeys(before)
      ensures after == DealAll(before, d, name, roles)
    {
      var spy := before[d.spy].0;
      var availableRoles := roles;
      after := before;
      var k := 0;
      var i := 0;
      while i < |after|
        invariant 0 <= i <= |after| == |before|
        invariant k == Rank(i, d.spy) && k <= |d.roles|
        invariant availableRoles == Pool(roles, d.roles, k)
        invariant forall j :: 0 <= j < i ==> after[j] == Dealt(before[j], j, d, name, roles)
        invariant forall j :: i <= j < |after| ==> after[j] == before[j]
      {
        var (playerId, player) := after[i];
        if playerId == spy {
          assert i == d.spy;
          player := player.(isSpy := true, role := Some(Catalog.SpyRole), location := None);
        } else {
          var roleIndex := d.roles[k];
          var role := if roleIndex < |availableRoles| then Some(availableRoles[roleIndex]) else None;
          availableRoles := Splice(availableRoles, roleIndex);
          player := player.(isSpy := false, location := Some(name), role := role);
          k := k + 1;
        }
        after := after[i := (playerId, player)];
        i := i + 1;
      }
    }

    /**
     * `getPlayerRole`: present exactly for players of the room; the spy sees
     * the spy role and no location, anybody else sees the room's location.
     */
    function GetPlayerRole(playerId: PlayerId): (r: Option<RoleView>)
      requires Valid()
      reads this
      ensures r.Some? <==> HasKey(players, playerId)
      ensures r.Some? ==> (r.value.isSpy <==> spyId == Some(playerId))
      ensures r.Some? && r.value.isSpy ==> r.value.role == Some(Catalog.SpyRole) && r.value.location.None?
      ensures r.Some? && !r.value.isSpy ==> r.value.location == location
      ensures r.Some? && gameState == Waiting ==> r.value.role.None? && r.value.location.None?
    {
      GetMember(players, playerId);
      match Get(players, playerId)
      case None => None
      case Some(p) => Some(RoleView(p.isSpy, p.role, p.location))
    }

    /**
     * `submitVote`: only while voting, and only between players of the room;
     * a voter's later vote replaces the earlier one where it stands.
     */
    method SubmitVote(playerId: PlayerId, votedForPlayerId: PlayerId) returns (err: Option<GameError>)
      requires Valid()
      modifies this`votes
      ensures Valid()
      ensures gameState != Voting ==> err == Some(VotingNotActive) && votes == old(votes)
      ensures gameState == Voting && !(HasKey(players, playerId) && HasKey(players, votedForPlayerId)) ==>
        err == Some(InvalidPlayerId) && votes == old(votes)
      ensures gameState == Voting && HasKey(players, playerId) && HasKey(players, votedForPlayerId) ==>
        err == None && votes == Set(old(votes), playerId, votedForPlayerId)
    {
      if gameState != Voting {
        return Some(VotingNotActive);
      }
      if !HasKey(players, playerId) || !HasKey(players, votedForPlayerId) {
        return Some(InvalidPlayerId);
      }
      SetMembers(votes, playerId, votedForPlayerId);
      SetDistinct(votes, playerId, votedForPlayerId);
      votes := Set(votes, playerId, votedForPlayerId);
      err := None;
    }

    /**
     * `submitSpyGuess`: only the spy, and only while playing or voting; the
     * guess ends the game at once, and the spy wins exactly when it is right.
     */
    method SubmitSpyGuess(playerId: PlayerId, guessedLocation: string) returns (err: Option<GameError>)
      requires Valid()
      modifies this`spyGuess, this`gameState, this`winner
      ensures Valid()
      ensures spyId != Some(playerId) ==> err == Some(OnlySpyCanGuess) && unchanged(this)
      ensures spyId == Some(playerId) && old(gameState) != Playing && old(gameState) != Voting ==>
        err == Some(NotPlayingOrVoting) && unchanged(this)
      ensures spyId == Some(playerId) && (old(gameState) == Playing || old(gameState) == Voting) ==>
        && err == None && spyGuess == Some(guessedLocation) && gameState == Ended
        && winner == Some(if location == Some(guessedLocation) then Spy else Innocent)
    {
      if spyId != Some(playerId) {
        return Some(OnlySpyCanGuess);
      }
      if gameState != Playing && gameState != Voting {
        return Some(NotPlayingOrVoting);
      }
      spyGuess := Some(guessedLocation);
      EndGame();
      err := None;
    }

    /** `startVoting`: only from playing; the ballot starts empty. */
    method StartVoting() returns (err: Option<GameError>)
      requires Valid()
      modifies this`gameState, this`votes
      ensures Valid()
      ensures old(gameState) != Playing ==> err == Some(CannotStartVoting) && unchanged(this)
      ensures old(gameState) == Playing ==> err == None && gameState == Voting && votes == []
    {
      if gameState != Playing {
        return Some(CannotStartVoting);
      }
      gameState := Voting;
      votes := [];
      err := None;
    }

    /**
     * `endGame`, whatever the phase: the game is over and the winner is the
     * verdict on the spy's guess, else the votes, else the spy.
     */
    method EndGame()
      requires Valid()
      modifies this`gameState, this`winner
      ensures Valid()
      ensures gameState == Ended && winner == Some(Decide(spyGuess, location, votes, spyId))
    {
      gameState := Ended;
      if spyGuess.Some? {
        winner := Some(if spyGuess == location then Spy else Innocent);
      } else if |votes| > 0 {
        var mostVotedPlayer := MostVoted(votes);
        winner := Some(if mostVotedPlayer == spyId then Innocent else Spy);
      } else {
        winner := Some(Spy);
      }
    }

    /** The round is on the clock: started, and playing or voting. */
    predicate Running()
      reads this
    {
      gameStartTime.Some? && (gameState == Playing || gameState == Voting)
    }

    /**
     * `getTimeRemaining` at `now`: none for an unlimited room; the full
     * duration outside a running round; otherwise never negative, never above
     * the duration once the round started, and zero exactly from the deadline on.
     */
    function GetTimeRemaining(now: int): (r: Option<int>)
      reads this
      ensures r.None? <==> gameDuration.None?
      ensures r.Some? ==> r.value >= 0
      ensures !Running() ==> r == gameDuration
      ensures Running() && r.Some? && now >= gameStartTime.value ==> r.value <= gameDuration.value
      ensures Running() && r.Some? ==> (r.value == 0 <==> now - gameStartTime.value >= gameDuration.value)
    {
      if !Running() || gameDuration.None? then gameDuration
      else Some(Remaining(gameDuration.value, gameStartTime.value, now))
    }

    /**
     * `isTimeUp` at `now`: never for an unlimited room; during a round, exactly
     * from the deadline on; outside one, only for a zero-minute room.
     */
    predicate IsTimeUp(now: int): (up: bool)
      reads this
      ensures up <==> (gameDuration.Some? &&
        if Running() then now - gameStartTime.value >= gameDuration.value else gameDuration.value == 0)
    {
      if gameDuration.None? then false else GetTimeRemaining(now) == Some(0)
    }

    /**
     * `getGameState` at `now`: the spy and the location are hidden until the
     * game ended and shown then; the votes are shown while voting and after.
     */
    function GetGameState(now: int): (r: Snapshot)
      requires Valid()
      reads this
      ensures r.gameState == gameState && r.roomCode == roomCode && r.winner == winner
      ensures gameState != Ended ==> r.spyId.None? && r.location.None? && r.winner.None?
      ensures gameState == Ended ==> r.spyId == spyId && r.location == location && r.winner.Some?
      ensures r.votes.Some? <==> gameState == Voting || gameState == Ended
      ensures r.votes.Some? ==> r.votes.value == votes
      ensures |r.players| == |players|
      ensures forall i :: 0 <= i < |players| ==> r.players[i].id == players[i].0 && r.players[i].name == players[i].1.name
      ensures r.timeRemaining == GetTimeRemaining(now)
    {
      assert forall i :: 0 <= i < |players| ==> players[i].1.id == players[i].0 by {
        forall i | 0 <= i < |players| ensures players[i].1.id == players[i].0 {
          assert players[i] in players;
        }
      }
      Snapshot(
        roomCode, gameState,
        seq(|players|, i requires 0 <= i < |players| reads this =>
          PlayerView(players[i].1.id, players[i].1.name, players[i].1.isReady)),
        GetTimeRemaining(now), gameDurationMinutes, winner,
        if gameState == Ended then spyId else None,
        if gameState == Ended then location else None,
        if gameState == Voting || gameState == Ended then Some(votes) else None)
    }

    /**
     * `resetGame`, whatever the phase: back to waiting with nothing of the
     * round left; every player stays, in order, with their round fields cleared.
     */
    method ResetGame()
      requires Valid()
      modifies this`gameState, this`gameStartTime, this`spyId, this`location, this`spyGuess,
               this`winner, this`votes, this`players
      ensures Valid()
      ensures gameState == Waiting && RoundCleared()
      ensures players == ClearAll(old(players))
    {
      ClearSeated(players);
      players := ClearPlayers(players);
      ClearRound();
    }

    /** The field resets of `resetGame`: back to waiting, with no spy, location, start, guess, winner or votes. */
    method ClearRound()
      modifies this`gameState, this`gameStartTime, this`spyId, this`location, this`spyGuess,
               this`winner, this`votes
      ensures gameState == Waiting && gameStartTime.None? && spyId.None? && location.None?
      ensures spyGuess.None? && winner.None? && votes == []
    {
      gameState := Waiting;
      gameStartTime := None;
      spyId := None;
      location := None;
      spyGuess := None;
      winner := None;
      votes := [];
    }

    /** The loop of `resetGame` over the players in join order, clearing each one's round fields. */
    static method ClearPlayers(before: seq<(PlayerId, Player)>) returns (after: seq<(PlayerId, Player)>)
      ensures after == ClearAll(before)
    {
      after := before;
      var i := 0;
      while i < |after|
        invariant 0 <= i <= |after| == |before|
        invariant forall j :: 0 <= j < i ==> after[j] == Cleared(before[j])
        invariant forall j :: i <= j < |after| ==> after[j] == before[j]
      {
        var (playerId, player) := after[i];
        after := after[i := (playerId, player.(role := None, location := None, isSpy := false, isReady := false))];
        i := i + 1;
      }
    }
  }
}
