/**
 * The server's directory of rooms (`GameManager`): room code -> room, and
 * socket id -> which player of which room that connection is.
 */
module Directory {
  import opened Base
  import opened OrderedMap
  import opened Verdict
  import opened GameRoom

  /** The characters of a room code. */
  const CodeChars: string := "ABCDEFGHIJKLMNOPQRSTUVWXYZ0123456789"

  /** The length of a room code. */
  const CodeLength: nat := 6

  /** Rooms created longer ago than this and left empty are dropped: two hours. */
  const MaxAgeMs: int := 2 * 60 * 60 * 1000

  /** Six draws `Math.floor(Math.random() * chars.length)`, one per character. */
  predicate IsAttempt(a: seq<nat>) {
    |a| == CodeLength && forall j :: 0 <= j < |a| ==> a[j] < |CodeChars|
  }

  predicate IsRoomCode(code: string) {
    |code| == CodeLength && forall j :: 0 <= j < |code| ==> code[j] in CodeChars
  }

  /** The code one attempt spells. */
  function CodeOf(a: seq<nat>): string
    requires IsAttempt(a)
  {
    seq(CodeLength, j requires 0 <= j < CodeLength => CodeChars[a[j]])
  }

  /** Attempt `i` is the first one whose code is not taken. */
  predicate FirstFreshAt(attempts: seq<seq<nat>>, taken: set<string>, i: nat)
    requires forall j :: 0 <= j < |attempts| ==> IsAttempt(attempts[j])
  {
    && i < |attempts| && CodeOf(attempts[i]) !in taken
    && forall j :: 0 <= j < i ==> CodeOf(attempts[j]) in taken
  }

  /** `{ playerId, roomCode, playerName }` kept per socket. */
  datatype PlayerInfo = PlayerInfo(playerId: PlayerId, roomCode: string, playerName: string)

  /** Why `joinGame` fails. */
  datatype JoinError = GameNotFound | NameAlreadyTaken | Refused(cause: GameError)

  /** `toLowerCase` on one character, for the ASCII letters. */
  function LowerChar(c: char): char {
    if 'A' <= c <= 'Z' then (c as int + 32) as char else c
  }

  function Lower(s: string): (r: string)
    ensures |r| == |s|
  {
    seq(|s|, i requires 0 <= i < |s| => LowerChar(s[i]))
  }

  /** Lowering is idempotent and never leaves a capital letter. */
  lemma LowerIdempotent(s: string)
    ensures Lower(Lower(s)) == Lower(s)
    ensures forall i :: 0 <= i < |s| ==> !('A' <= Lower(s)[i] <= 'Z')
  {
    forall i | 0 <= i < |s| ensures LowerChar(LowerChar(s[i])) == LowerChar(s[i]) {
    }
  }

  /** Two characters that are equal, or the capital and small form of one ASCII letter. */
  predicate CaseTwins(x: char, y: char) {
    || x == y
    || ('A' <= x <= 'Z' && y as int == x as int + 32)
    || ('A' <= y <= 'Z' && x as int == y as int + 32)
  }

  /** Two strings lower to the same string exactly when they differ only in the case of letters. */
  lemma SameUpToCase(a: string, b: string)
    ensures Lower(a) == Lower(b) <==> |a| == |b| && forall i :: 0 <= i < |a| ==> CaseTwins(a[i], b[i])
  {
    if Lower(a) == Lower(b) {
      forall i | 0 <= i < |a| ensures CaseTwins(a[i], b[i]) {
        assert Lower(a)[i] == Lower(b)[i];
      }
    }
    if |a| == |b| && forall i :: 0 <= i < |a| ==> CaseTwins(a[i], b[i]) {
      forall i | 0 <= i < |a| ensures Lower(a)[i] == Lower(b)[i] {
        assert CaseTwins(a[i], b[i]);
      }
    }
  }

  /** Somebody in the player list already has this name, ignoring case. */
  predicate NameTaken(ps: seq<Player>, name: string) {
    exists i :: 0 <= i < |ps| && Lower(ps[i].name) == Lower(name)
  }

  /**
   * A name is taken exactly when some player's name has its length and
   * matches it letter for letter up to case.
   */
  lemma NameTakenUpToCase(ps: seq<Player>, name: string)
    ensures NameTaken(ps, name) <==>
      exists i :: 0 <= i < |ps| && |ps[i].name| == |name| &&
        forall j :: 0 <= j < |name| ==> CaseTwins(ps[i].name[j], name[j])
  {
    forall i | 0 <= i < |ps| {
      SameUpToCase(ps[i].name, name);
    }
  }

  /** In a room with "Alice", the names "ALICE" and "alice" are taken. */
  lemma CaseClashes(joinedAt: int)
    ensures var ps := [Player("p1", "Alice", None, None, false, false, joinedAt)];
      NameTaken(ps, "ALICE") && NameTaken(ps, "alice")
  {
    var ps := [Player("p1", "Alice", None, None, false, false, joinedAt)];
    SameUpToCase(ps[0].name, "ALICE");
    assert CaseTwins(ps[0].name[0], "ALICE"[0]) && CaseTwins(ps[0].name[1], "ALICE"[1]);
    assert Lower(ps[0].name) == Lower("ALICE");
    SameUpToCase(ps[0].name, "alice");
    assert CaseTwins(ps[0].name[0], "alice"[0]);
    assert Lower(ps[0].name) == Lower("alice");
  }

  /**
   * In a room with "Alice", a name differing in a letter ("Alicf"), in
   * length ("Alice1") or by a space where a letter was ("Al ce") is free.
   */
  lemma OtherNamesFree(joinedAt: int)
    ensures var ps := [Player("p1", "Alice", None, None, false, false, joinedAt)];
      !NameTaken(ps, "Alicf") && !NameTaken(ps, "Alice1") && !NameTaken(ps, "Al ce")
  {
    var ps := [Player("p1", "Alice", None, None, false, false, joinedAt)];
    assert Lower("Alicf")[4] != Lower(ps[0].name)[4];
    assert Lower("Al ce")[2] != Lower(ps[0].name)[2];
  }

  class GameManager {
    /** `games`: room code -> room. */
    var games: map<string, Game>
    /** `players`: socket id -> the player that socket joined as. */
    var players: map<string, PlayerInfo>

    /** Every room satisfies its invariant and is filed under its own code. */
    ghost predicate Valid()
      reads this, games.Values
    {
      && (forall c :: c in games ==> games[c].roomCode == c)
      && (forall g :: g in games.Values ==> g.Valid())
    }

    /** The room filed under the code, as a frame: empty when there is none. */
    function Room(roomCode: string): set<Game>
      reads this
    {
      if roomCode in games then {games[roomCode]} else {}
    }

    /** The room of the socket's player, as a frame: empty when there is none. */
    function SeatRoom(socketId: string): set<Game>
      reads this
    {
      if socketId in players then Room(players[socketId].roomCode) else {}
    }

    constructor ()
      ensures Valid() && games == map[] && players == map[]
    {
      games := map[];
      players := map[];
    }

    /**
     * `generateRoomCode` over the draws of successive tries: the code of the
     * first try not already in use.
     */
    method GenerateRoomCode(attempts: seq<seq<nat>>) returns (code: string)
      requires forall j :: 0 <= j < |attempts| ==> IsAttempt(attempts[j])
      requires exists i :: 0 <= i < |attempts| && CodeOf(attempts[i]) !in games
      ensures code !in games && IsRoomCode(code)
      ensures exists i: nat :: FirstFreshAt(attempts, games.Keys, i) && code == CodeOf(attempts[i])
      decreases |attempts|
    {
      var draws := attempts[0];
      code := "";
      for i := 0 to CodeLength
        invariant code == CodeOf(draws)[..i]
      {
        code := code + [CodeChars[draws[i]]];
      }
      assert code == CodeOf(draws);
      if code in games {
        assert exists i :: 1 <= i < |attempts| && CodeOf(attempts[i]) !in games;
        assert forall j :: 0 <= j < |attempts| - 1 ==> attempts[1..][j] == attempts[j + 1];
        code := GenerateRoomCode(attempts[1..]);
        ghost var i: nat :| FirstFreshAt(attempts[1..], games.Keys, i) && code == CodeOf(attempts[1..][i]);
        assert attempts[1..][i] == attempts[i + 1];
        assert FirstFreshAt(attempts, games.Keys, i + 1);
      } else {
        assert FirstFreshAt(attempts, games.Keys, 0);
      }
    }
    /**
     * `createGame`: a new waiting room with no players, filed under a code
     * not in use before; the other rooms are untouched.
     */
    method CreateGame(gameDurationMinutes: Duration, attempts: seq<seq<nat>>, now: int) returns (game: Game)
      requires Valid()
      requires forall j :: 0 <= j < |attempts| ==> IsAttempt(attempts[j])
      requires exists i :: 0 <= i < |attempts| && CodeOf(attempts[i]) !in games
      modifies this`games
      ensures Valid() && fresh(game)
      ensures game.roomCode !in old(games) && IsRoomCode(game.roomCode)
      ensures games == old(games)[game.roomCode := game]
      ensures game.gameState == Waiting && game.players == [] && game.RoundCleared()
      ensures game.gameDurationMinutes == gameDurationMinutes && game.createdAt == now
    {
      var roomCode := GenerateRoomCode(attempts);
      game := new Game(roomCode, gameDurationMinutes, now);
      games := games[roomCode := game];
    }

    /** `getGame`: the room filed under the code, if any. */
    function GetGame(roomCode: string): (r: Option<Game>)
      requires Valid()
      reads this, games.Values
      ensures r.Some? <==> roomCode in games
      ensures r.Some? ==> r.value.roomCode == roomCode && r.value.Valid()
    {
      if roomCode in games then Some(games[roomCode]) else None
    }

    /** `getPlayerInfo`: what the socket joined as, if it joined. */
    function GetPlayerInfo(socketId: string): (r: Option<PlayerInfo>)
      reads this
      ensures r.Some? <==> socketId in players
      ensures r.Some? ==> r.value == players[socketId]
    {
      if socketId in players then Some(players[socketId]) else None
    }

    /**
     * `joinGame`: fails for an unknown room, for a name already in the room
     * (ignoring case), and for a room not waiting, and a failure changes
     * nothing; otherwise the player is added to the room's players, nothing
     * else of the room changes, and the socket is recorded as that player.
     */
    method JoinGame(roomCode: string, playerId: PlayerId, playerName: string, socketId: string, now: int)
      returns (r: Result<(Game, Player), JoinError>)
      requires Valid()
      modifies this`players, Room(roomCode)`players
      ensures Valid()
      ensures r.Err? ==> players == old(players) && unchanged(Room(roomCode))
      ensures roomCode !in games ==> r == Err(GameNotFound)
      ensures roomCode in games && NameTaken(old(games[roomCode].PlayerList()), playerName) ==>
        r == Err(NameAlreadyTaken)
      ensures roomCode in games && !NameTaken(old(games[roomCode].PlayerList()), playerName) &&
              games[roomCode].gameState != Waiting ==>
        r == Err(Refused(GameInProgress))
      ensures roomCode in games && !NameTaken(old(games[roomCode].PlayerList()), playerName) &&
              games[roomCode].gameState == Waiting ==>
        && r.Ok? && r.value.0 == games[roomCode]
        && r.value.1 == Player(playerId, playerName, None, None, false, false, now)
        && games[roomCode].players == Set(old(games[roomCode].players), playerId, r.value.1)
        && players == old(players)[socketId := PlayerInfo(playerId, roomCode, playerName)]
    {
      if roomCode !in games {
        return Err(GameNotFound);
      }
      var game := games[roomCode];
      if NameTaken(game.PlayerList(), playerName) {
        return Err(NameAlreadyTaken);
      }
      var added := game.AddPlayer(playerId, playerName, now);
      if added.Err? {
        return Err(Refused(added.error));
      }
      players := players[socketId := PlayerInfo(playerId, roomCode, playerName)];
      r := Ok((game, added.value));
    }

    /**
     * `leaveGame`: an unknown socket changes nothing; otherwise the player
     * leaves their room (their vote and every vote for them go too, and
     * nothing else of the room changes), a room left empty is dropped, and
     * the socket is forgotten. The record the socket had is returned.
     */
    method LeaveGame(socketId: string) returns (r: Option<PlayerInfo>)
      requires Valid()
      modifies this`games, this`players, SeatRoom(socketId)`players, SeatRoom(socketId)`votes
      ensures Valid()
      ensures r == old(GetPlayerInfo(socketId))
      ensures r.None? ==> games == old(games) && players == old(players)
      ensures r.Some? ==> players == old(players) - {socketId}
      ensures r.Some? && r.value.roomCode !in old(games) ==> games == old(games)
      ensures r.Some? && r.value.roomCode in old(games) ==>
        var game := old(games)[r.value.roomCode];
        && game.players == Delete(old(game.players), r.value.playerId)
        && game.votes == DeleteWhereValue(Delete(old(game.votes), r.value.playerId), r.value.playerId)
        && (game.players == [] ==> games == old(games) - {r.value.roomCode})
        && (game.players != [] ==> games == old(games))
    {
      if socketId !in players {
        return None;
      }
      var info := players[socketId];
      if info.roomCode in games {
        var game := games[info.roomCode];
        game.RemovePlayer(info.playerId);
        if |game.players| == 0 {
          games := games - {info.roomCode};
        }
      }
      players := players - {socketId};
      r := Some(info);
    }

    /** The room is older than two hours at `now` and has nobody in it. */
    static predicate Stale(game: Game, now: int)
      reads game
    {
      now - game.createdAt > MaxAgeMs && |game.players| == 0
    }

    /** `cleanupOldGames` at `now`: exactly the stale rooms are dropped. */
    method CleanupOldGames(now: int)
      requires Valid()
      modifies this`games
      ensures Valid()
      ensures forall c :: c in games <==> c in old(games) && !Stale(old(games)[c], now)
      ensures forall c :: c in games ==> games[c] == old(games)[c]
    {
      games := WithoutStale(games, now);
    }

    /** The loop of `cleanupOldGames`: every room is visited once and the stale ones deleted. */
    static method WithoutStale(all: map<string, Game>, now: int) returns (kept: map<string, Game>)
      ensures forall c :: c in kept ==> c in all && kept[c] == all[c] && !Stale(all[c], now)
      ensures forall c :: c in all && !Stale(all[c], now) ==> c in kept
    {
      kept := all;
      var codes := all.Keys;
      while codes != {}
        invariant codes <= all.Keys
        invariant forall c :: c in kept ==> c in all && kept[c] == all[c]
        invariant forall c :: c in kept && c !in codes ==> !Stale(all[c], now)
        invariant forall c :: c in all && !Stale(all[c], now) ==> c in kept
        invariant forall c :: c in codes ==> c in kept
        decreases codes
      {
        var roomCode :| roomCode in codes;
        if Stale(kept[roomCode], now) {
          kept := kept - {roomCode};
        }
        codes := codes - {roomCode};
      }
    }
  }
}
