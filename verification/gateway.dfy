/**
 * The server's event handlers: what each HTTP request or socket event does
 * to the rooms, and what it sends back. Each handler returns what it emits:
 * a reply to the asking socket, or a broadcast to the room (which carries
 * the room's `getGameState` at that moment).
 */
module Gateway {
  import opened Base
  import opened OrderedMap
  import opened Verdict
  import opened GameRoom
  import opened Directory

  /** `create-room` without a duration gets six minutes. */
  const DefaultDuration: Duration := Minutes(6)

  /** What a handler sends. */
  datatype Emit =
    | Error(message: string)                       // 'error' to the socket
    | RoomCreated(roomCode: string, gameDurationMinutes: Duration)
    | Joined(playerId: PlayerId, roomCode: string, player: Player)
                                                   // 'joined-room' to the socket, 'player-joined' to the room
    | JoinFailed(message: string)                  // 'joined-room' with success false
    | GameStarted(roles: seq<(PlayerId, RoleView)>, timerArmed: bool)
                                                   // 'role-assigned' to each player, 'game-started' to the room
    | VoteSubmitted                                // 'vote-submitted' to the room
    | GameEnded                                    // 'game-ended' to the room
    | SpyGuessed(guessedLocation: string)          // 'game-ended' to the room, with the guess
    | VotingStarted                                // 'voting-started' to the room
    | GameReset                                    // 'game-reset' to the room
    | PlayerLeft(playerId: PlayerId, playerName: string)
    | TimerUpdate(timeRemaining: int)              // 'timer-update' to the room
    | Silent

  /** The message of each error `Game` throws. */
  function Message(e: GameError): string {
    match e
    case GameInProgress => "Cannot join game in progress"
    case CannotStartGame => "Cannot start game"
    case VotingNotActive => "Voting is not active"
    case InvalidPlayerId => "Invalid player ID"
    case OnlySpyCanGuess => "Only the spy can guess the location"
    case NotPlayingOrVoting => "Game is not in playing or voting state"
    case CannotStartVoting => "Cannot start voting"
  }

  /** The message of each error `joinGame` throws. */
  function JoinMessage(e: JoinError): string {
    match e
    case GameNotFound => "Game not found"
    case NameAlreadyTaken => "Player name already taken"
    case Refused(cause) => Message(cause)
  }

  /**
   * The lookup every socket event starts with: the socket's player record,
   * then that player's room; otherwise the error sent back.
   */
  function Lookup(m: GameManager, socketId: string): (r: Result<(PlayerInfo, Game), string>)
    reads m
    ensures r == Err("Player not found") <==> socketId !in m.players
    ensures r == Err("Game not found") <==> socketId in m.players && m.players[socketId].roomCode !in m.games
    ensures r.Ok? ==>
      && socketId in m.players && r.value.0 == m.players[socketId]
      && r.value.0.roomCode in m.games && r.value.1 == m.games[r.value.0.roomCode]
  {
    if socketId !in m.players then Err("Player not found")
    else if m.players[socketId].roomCode !in m.games then Err("Game not found")
    else Ok((m.players[socketId], m.games[m.players[socketId].roomCode]))
  }

  /**
   * The room a handler may change is the room `Lookup` finds for the socket,
   * and none when the lookup fails.
   */
  lemma SeatRoomOfLookup(m: GameManager, socketId: string)
    ensures Lookup(m, socketId).Err? <==> m.SeatRoom(socketId) == {}
    ensures Lookup(m, socketId).Ok? ==> m.SeatRoom(socketId) == {Lookup(m, socketId).value.1}
  {
  }

  /** The host check of `start-game`: the asking player is the first of `getPlayerList`. */
  predicate IsHost(g: Game, playerId: PlayerId)
    reads g
  {
    var players := g.PlayerList();
    |players| > 0 && players[0].id == playerId
  }

  /** Under the room's invariant, the host is the player that joined first. */
  lemma HostJoinedFirst(g: Game, playerId: PlayerId)
    requires g.Valid()
    ensures IsHost(g, playerId) <==> g.Host() == Some(playerId)
  {
    if |g.players| > 0 {
      assert g.players[0] in g.players;
    }
  }

  /**
   * Under the room's invariant, `votes.size === players.size` holds exactly
   * when every player of the room has a vote in.
   */
  lemma EveryoneVoted(g: Game)
    requires g.Valid()
    ensures |g.votes| == |g.players| <==> forall k :: HasKey(g.players, k) ==> HasKey(g.votes, k)
  {
    SizesMatch(g.votes, g.players);
  }

  /** The role each player is sent after `start-game`, in join order. */
  function RoleMessages(g: Game): (r: seq<(PlayerId, RoleView)>)
    reads g
    ensures |r| == |g.players|
  {
    Roles(g.players)
  }

  /** The role message of each entry of a players map, in its order. */
  function Roles(ps: seq<(PlayerId, Player)>): (r: seq<(PlayerId, RoleView)>)
    ensures |r| == |ps|
    ensures forall i :: 0 <= i < |ps| ==> r[i] == (ps[i].0, RoleView(ps[i].1.isSpy, ps[i].1.role, ps[i].1.location))
  {
    if ps == [] then [] else Roles(ps[..|ps| - 1]) + [(ps[|ps| - 1].0, RoleView(ps[|ps| - 1].1.isSpy, ps[|ps| - 1].1.role, ps[|ps| - 1].1.location))]
  }

  /** Every player of the room is sent their own `getPlayerRole`, and nobody else's. */
  lemma RoleMessagesMatch(g: Game)
    requires g.Valid()
    ensures forall i :: 0 <= i < |RoleMessages(g)| ==>
      RoleMessages(g)[i].0 == g.players[i].0 && Some(RoleMessages(g)[i].1) == g.GetPlayerRole(RoleMessages(g)[i].0)
  {
    forall i | 0 <= i < |g.players| ensures Get(g.players, g.players[i].0) == Some(g.players[i].1) {
      GetAt(g.players, i);
    }
  }

  /** The draws `start-game` makes fit the room of the asking socket. */
  predicate DrawsFor(m: GameManager, socketId: string, d: Draws)
    reads m, m.games.Values
  {
    Lookup(m, socketId).Ok? ==> DrawsFit(d, |Lookup(m, socketId).value.1.players|)
  }

  /** `POST /api/create-room`: a new room, six minutes unless asked otherwise. */
  method CreateRoom(m: GameManager, gameDurationMinutes: Option<Duration>, attempts: seq<seq<nat>>, now: int)
    returns (out: Emit)
    requires m.Valid()
    requires forall j :: 0 <= j < |attempts| ==> IsAttempt(attempts[j])
    requires exists i :: 0 <= i < |attempts| && CodeOf(attempts[i]) !in m.games
    modifies m`games
    ensures m.Valid()
    ensures out.RoomCreated? && out.roomCode !in old(m.games) && out.roomCode in m.games
    ensures fresh(m.games[out.roomCode]) && m.games == old(m.games)[out.roomCode := m.games[out.roomCode]]
    ensures out.gameDurationMinutes == gameDurationMinutes.GetOr(DefaultDuration)
    ensures m.games[out.roomCode].gameState == Waiting && m.games[out.roomCode].players == []
  {
    var duration := gameDurationMinutes.GetOr(DefaultDuration);
    var game := m.CreateGame(duration, attempts, now);
    out := RoomCreated(game.roomCode, game.gameDurationMinutes);
  }

  /**
   * `POST /api/validate-room`: a room can be joined exactly when it exists
   * and is waiting; the answer then lists who is in it, in join order.
   */
  function ValidateRoom(m: GameManager, roomCode: string): (r: Result<seq<(PlayerId, string)>, string>)
    reads m, m.games.Values
    ensures r.Ok? <==> roomCode in m.games && m.games[roomCode].gameState == Waiting
    ensures roomCode !in m.games ==> r == Err("Room not found")
    ensures roomCode in m.games && r.Err? ==> r == Err("Game already in progress")
    ensures r.Ok? ==> |r.value| == |m.games[roomCode].players|
    ensures r.Ok? ==> forall i :: 0 <= i < |r.value| ==>
      r.value[i] == (m.games[roomCode].players[i].1.id, m.games[roomCode].players[i].1.name)
  {
    if roomCode !in m.games then Err("Room not found")
    else
      var g := m.games[roomCode];
      if g.gameState != Waiting then Err("Game already in progress")
      else
        var players := g.PlayerList();
        Ok(seq(|players|, i requires 0 <= i < |players| => (players[i].id, players[i].name)))
  }

  /**
   * `join-room` with the fresh id `playerId`: joins the room and records the
   * socket, or answers with why not; a refusal changes nothing.
   */
  method JoinRoom(m: GameManager, socketId: string, roomCode: string, playerName: string, playerId: PlayerId, now: int)
    returns (out: Emit)
    requires m.Valid()
    modifies m`players, m.Room(roomCode)`players
    ensures m.Valid()
    ensures out.JoinFailed? ==> m.players == old(m.players) && unchanged(m.Room(roomCode))
    ensures roomCode !in m.games ==> out == JoinFailed("Game not found")
    ensures roomCode in m.games && NameTaken(old(m.games[roomCode].PlayerList()), playerName) ==>
      out == JoinFailed("Player name already taken")
    ensures roomCode in m.games && !NameTaken(old(m.games[roomCode].PlayerList()), playerName) &&
            old(m.games[roomCode].gameState) != Waiting ==>
      out == JoinFailed("Cannot join game in progress")
    ensures roomCode in m.games && !NameTaken(old(m.games[roomCode].PlayerList()), playerName) &&
            old(m.games[roomCode].gameState) == Waiting ==>
      && out == Joined(playerId, roomCode, Player(playerId, playerName, None, None, false, false, now))
      && m.players == old(m.players)[socketId := PlayerInfo(playerId, roomCode, playerName)]
      && m.games[roomCode].players == Set(old(m.games[roomCode].players), playerId, out.player)
      && HasKey(m.games[roomCode].players, playerId)
  {
    ghost var before := if roomCode in m.games then m.games[roomCode].players else [];
    var r := m.JoinGame(roomCode, playerId, playerName, socketId, now);
    if r.Err? {
      out := JoinFailed(JoinMessage(r.error));
    } else {
      SetHasKey(before, playerId, r.value.1, playerId);
      out := Joined(playerId, roomCode, r.value.1);
    }
  }

  /**
   * `start-game`: only the host may start; the room then deals the round,
   * every player is sent their role, and the round timers are armed unless
   * the room is unlimited.
   */
  method StartGame(m: GameManager, socketId: string, now: int, d: Draws) returns (out: Emit)
    requires m.Valid() && DrawsFor(m, socketId, d)
    modifies m.SeatRoom(socketId)`players, m.SeatRoom(socketId)`gameState, m.SeatRoom(socketId)`gameStartTime,
      m.SeatRoom(socketId)`spyId, m.SeatRoom(socketId)`location
    ensures m.Valid()
    ensures Lookup(m, socketId).Err? ==> out == Error(Lookup(m, socketId).error) && unchanged(m.games.Values)
    ensures forall g :: g in m.games.Values && g !in m.SeatRoom(socketId) ==> unchanged(g)
    ensures Lookup(m, socketId).Ok? ==>
      StartOutcome(Lookup(m, socketId).value.1, Lookup(m, socketId).value.0.playerId, now, d, out)
  {
    var lookup := Lookup(m, socketId);
    if lookup.Err? {
      return Error(lookup.error);
    }
    out := StartInRoom(lookup.value.1, lookup.value.0.playerId, now, d);
    forall h | h in m.games.Values && h != lookup.value.1 ensures h.Valid() {
      assert old(h.Valid());
    }
  }

  /**
   * What `start-game` does to the room `g` of the asking player `playerId`:
   * anybody but the host is refused, a room that cannot start is refused,
   * and both refusals change nothing; otherwise the round is dealt, the
   * guess, votes and winner stay as they were, and every player is sent
   * their role.
   */
  twostate predicate StartOutcome(g: Game, playerId: PlayerId, now: int, d: Draws, out: Emit)
    reads g
  {
    && (!old(IsHost(g, playerId)) ==> out == Error("Only the host can start the game") && unchanged(g))
    && (old(IsHost(g, playerId)) && !old(g.CanStartGame()) ==> out == Error("Cannot start game") && unchanged(g))
    && (old(IsHost(g, playerId) && g.CanStartGame()) ==>
          && out == GameStarted(RoleMessages(g), g.gameDuration.Some?)
          && g.RoundDealt(old(g.players), d, now)
          && unchanged(g`spyGuess, g`votes, g`winner))
  }

  /** `start-game` once the socket's player and room are found. */
  method StartInRoom(g: Game, playerId: PlayerId, now: int, d: Draws) returns (out: Emit)
    requires g.Valid() && DrawsFit(d, |g.players|)
    modifies g`players, g`gameState, g`gameStartTime, g`spyId, g`location
    ensures g.Valid()
    ensures StartOutcome(g, playerId, now, d, out)
  {
    if !IsHost(g, playerId) {
      return Error("Only the host can start the game");
    }
    var err := g.StartGame(now, d);
    if err.Some? {
      return Error(Message(err.value));
    }
    out := GameStarted(RoleMessages(g), g.gameDuration.Some?);
  }

  /**
   * `submit-vote` once the socket's player and room are found: the vote is
   * recorded; the game ends as soon as every player of the room has voted,
   * and otherwise the room is told of the vote.
   */
  method VoteInRoom(g: Game, voter: PlayerId, votedForPlayerId: PlayerId) returns (out: Emit)
    requires g.Valid()
    modifies g`votes, g`gameState, g`winner
    ensures g.Valid()
    ensures g.players == old(g.players)
    ensures old(g.gameState) != Voting ==> out == Error("Voting is not active") && unchanged(g)
    ensures old(g.gameState) == Voting && !(HasKey(g.players, voter) && HasKey(g.players, votedForPlayerId)) ==>
      out == Error("Invalid player ID") && unchanged(g)
    ensures old(g.gameState) == Voting && HasKey(g.players, voter) && HasKey(g.players, votedForPlayerId) ==>
      && g.votes == Set(old(g.votes), voter, votedForPlayerId)
      && (out == GameEnded <==> forall k :: HasKey(g.players, k) ==> HasKey(g.votes, k))
      && (out == GameEnded ==> g.gameState == Ended && g.winner == Some(Decide(g.spyGuess, g.location, g.votes, g.spyId)))
      && (out != GameEnded ==> out == VoteSubmitted && g.gameState == Voting)
  {
    var err := g.SubmitVote(voter, votedForPlayerId);
    if err.Some? {
      return Error(Message(err.value));
    }
    EveryoneVoted(g);
    if |g.votes| == |g.players| {
      g.EndGame();
      out := GameEnded;
    } else {
      out := VoteSubmitted;
    }
  }

  /** `submit-vote`: the socket's player votes in their room. */
  method SubmitVote(m: GameManager, socketId: string, votedForPlayerId: PlayerId) returns (out: Emit)
    requires m.Valid()
    modifies m.SeatRoom(socketId)`votes, m.SeatRoom(socketId)`gameState, m.SeatRoom(socketId)`winner
    ensures m.Valid()
    ensures Lookup(m, socketId).Err? ==> out == Error(Lookup(m, socketId).error) && unchanged(m.games.Values)
    ensures forall g :: g in m.games.Values && g !in m.SeatRoom(socketId) ==> unchanged(g)
  {
    var lookup := Lookup(m, socketId);
    if lookup.Err? {
      return Error(lookup.error);
    }
    out := VoteInRoom(lookup.value.1, lookup.value.0.playerId, votedForPlayerId);
  }

  /**
   * `spy-guess` once the socket's player and room are found: the spy's guess
   * ends the game; anybody else is refused.
   */
  method GuessInRoom(g: Game, guesser: PlayerId, guessedLocation: string) returns (out: Emit)
    requires g.Valid()
    modifies g`spyGuess, g`gameState, g`winner
    ensures g.Valid()
    ensures g.spyId != Some(guesser) ==> out == Error("Only the spy can guess the location") && unchanged(g)
    ensures g.spyId == Some(guesser) && old(g.gameState) != Playing && old(g.gameState) != Voting ==>
      out == Error("Game is not in playing or voting state") && unchanged(g)
    ensures g.spyId == Some(guesser) && (old(g.gameState) == Playing || old(g.gameState) == Voting) ==>
      && out == SpyGuessed(guessedLocation) && g.gameState == Ended
      && g.winner == Some(if g.location == Some(guessedLocation) then Spy else Innocent)
  {
    var err := g.SubmitSpyGuess(guesser, guessedLocation);
    if err.Some? {
      return Error(Message(err.value));
    }
    out := SpyGuessed(guessedLocation);
  }

  /** `spy-guess`: the socket's player guesses the location of their room. */
  method SpyGuess(m: GameManager, socketId: string, guessedLocation: string) returns (out: Emit)
    requires m.Valid()
    modifies m.SeatRoom(socketId)`spyGuess, m.SeatRoom(socketId)`gameState, m.SeatRoom(socketId)`winner
    ensures m.Valid()
    ensures Lookup(m, socketId).Err? ==> out == Error(Lookup(m, socketId).error) && unchanged(m.games.Values)
    ensures forall g :: g in m.games.Values && g !in m.SeatRoom(socketId) ==> unchanged(g)
  {
    var lookup := Lookup(m, socketId);
    if lookup.Err? {
      return Error(lookup.error);
    }
    out := GuessInRoom(lookup.value.1, lookup.value.0.playerId, guessedLocation);
  }

  /**
   * `force-voting`: any player moves a playing room to voting, which changes
   * only its phase and votes; otherwise nothing happens.
   */
  method ForceVoting(m: GameManager, socketId: string) returns (out: Emit)
    requires m.Valid()
    modifies m.SeatRoom(socketId)`gameState, m.SeatRoom(socketId)`votes
    ensures m.Valid()
    ensures Lookup(m, socketId).Err? ==> out == Error(Lookup(m, socketId).error) && unchanged(m.games.Values)
    ensures forall g :: g in m.games.Values && g !in m.SeatRoom(socketId) ==> unchanged(g)
    ensures Lookup(m, socketId).Ok? ==>
      var g := Lookup(m, socketId).value.1;
      && (old(g.gameState) == Playing ==>
            && out == VotingStarted && g.gameState == Voting && g.votes == []
            && unchanged(g`players, g`spyId, g`location, g`spyGuess, g`winner, g`gameStartTime))
      && (old(g.gameState) != Playing ==> out == Silent && unchanged(g))
  {
    var lookup := Lookup(m, socketId);
    if lookup.Err? {
      return Error(lookup.error);
    }
    var game := lookup.value.1;
    if game.gameState == Playing {
      var err := game.StartVoting();
      out := VotingStarted;
    } else {
      out := Silent;
    }
  }

  /** `reset-game`: any player, in any phase, sends the room back to waiting. */
  method ResetGame(m: GameManager, socketId: string) returns (out: Emit)
    requires m.Valid()
    modifies m.SeatRoom(socketId)
    ensures m.Valid()
    ensures Lookup(m, socketId).Err? ==> out == Error(Lookup(m, socketId).error) && unchanged(m.games.Values)
    ensures forall g :: g in m.games.Values && g !in m.SeatRoom(socketId) ==> unchanged(g)
    ensures Lookup(m, socketId).Ok? ==>
      var g := Lookup(m, socketId).value.1;
      out == GameReset && g.gameState == Waiting && g.RoundCleared() && g.players == ClearAll(old(g.players))
  {
    var lookup := Lookup(m, socketId);
    if lookup.Err? {
      return Error(lookup.error);
    }
    var game := lookup.value.1;
    game.ResetGame();
    out := GameReset;
  }

  /**
   * `disconnect`: an unknown socket changes nothing; otherwise the socket's
   * player leaves their room as `leaveGame` has it, and the room is told who
   * left.
   */
  method Disconnect(m: GameManager, socketId: string) returns (out: Emit)
    requires m.Valid()
    modifies m`games, m`players, m.SeatRoom(socketId)`players, m.SeatRoom(socketId)`votes
    ensures m.Valid()
    ensures socketId !in m.players
    ensures old(socketId !in m.players) ==>
      out == Silent && m.games == old(m.games) && m.players == old(m.players) && unchanged(m.games.Values)
    ensures old(socketId in m.players) ==>
      var info := old(m.players[socketId]);
      && out == PlayerLeft(info.playerId, info.playerName)
      && m.players == old(m.players) - {socketId}
      && (info.roomCode !in old(m.games) ==> m.games == old(m.games))
      && (info.roomCode in old(m.games) ==>
            var game := old(m.games)[info.roomCode];
            && game.players == Delete(old(game.players), info.playerId)
            && game.votes == DeleteWhereValue(Delete(old(game.votes), info.playerId), info.playerId)
            && (game.players == [] ==> m.games == old(m.games) - {info.roomCode})
            && (game.players != [] ==> m.games == old(m.games)))
  {
    var info := m.LeaveGame(socketId);
    if info.Some? {
      out := PlayerLeft(info.value.playerId, info.value.playerName);
    } else {
      out := Silent;
    }
  }

  /**
   * One tick of the one-second timer armed by `start-game` for a timed room:
   * while playing it sends the time left and, once none is left, starts
   * the voting and stops; in any other phase it just stops.
   */
  method TimerTick(g: Game, now: int) returns (emits: seq<Emit>, keepTicking: bool)
    requires g.Valid() && g.gameDuration.Some?
    modifies g`gameState, g`votes
    ensures g.Valid()
    ensures old(g.gameState) != Playing ==> emits == [] && !keepTicking && unchanged(g)
    ensures old(g.gameState) == Playing && !old(g.IsTimeUp(now)) ==>
      && keepTicking && unchanged(g)
      && emits == [TimerUpdate(old(g.GetTimeRemaining(now)).value)] && emits[0].timeRemaining > 0
    ensures old(g.gameState) == Playing && old(g.IsTimeUp(now)) ==>
      && !keepTicking && emits == [TimerUpdate(0), VotingStarted]
      && g.gameState == Voting && g.votes == []
  {
    if g.gameState != Playing {
      return [], false;
    }
    var timeRemaining := g.GetTimeRemaining(now).value;
    emits := [TimerUpdate(timeRemaining)];
    if timeRemaining <= 0 {
      var err := g.StartVoting();
      emits := emits + [VotingStarted];
      keepTicking := false;
    } else {
      keepTicking := true;
    }
  }

  /** The one-off timer armed by `start-game`, as written: it fires into whatever round is playing. */
  predicate FallbackFires(gameState: Phase) {
    gameState == Playing
  }

  /**
   * The one-off timer armed by `start-game` for the full duration, as
   * written: if the room is playing, voting starts.
   */
  method FallbackTimeout(g: Game) returns (emits: seq<Emit>)
    requires g.Valid()
    modifies g`gameState, g`votes
    ensures g.Valid()
    ensures FallbackFires(old(g.gameState)) ==> emits == [VotingStarted] && g.gameState == Voting && g.votes == []
    ensures !FallbackFires(old(g.gameState)) ==> emits == [] && unchanged(g)
  {
    if g.gameState == Playing {
      var err := g.StartVoting();
      emits := [VotingStarted];
    } else {
      emits := [];
    }
  }

  /**
   * The timer armed for a round that started at `armedStart` goes off at
   * `armedStart + duration`. If the room was reset and a new round started
   * at `laterStart` in the meantime, the timer as written still fires, with
   * `laterStart - armedStart` milliseconds left on the new round's clock.
   */
  lemma StaleFallbackFires(g: Game, armedStart: int, laterStart: int)
    requires g.Valid() && g.gameDuration.Some?
    requires g.gameState == Playing && g.gameStartTime == Some(laterStart) && armedStart < laterStart
    ensures FallbackFires(g.gameState)
    ensures g.GetTimeRemaining(armedStart + g.gameDuration.value) == Some(laterStart - armedStart)
    ensures !g.IsTimeUp(armedStart + g.gameDuration.value)
  {
  }

  /** The one-off timer, corrected: it fires only into the round it was armed for. */
  predicate FallbackFiresForRound(gameState: Phase, gameStartTime: Option<int>, armedStart: int) {
    gameState == Playing && gameStartTime == Some(armedStart)
  }

  /**
   * The corrected one-off timer, going off at `now`, no earlier than the
   * deadline of the round it was armed for: when it starts the voting, that
   * round's time is up.
   */
  method FallbackTimeoutForRound(g: Game, armedStart: int, now: int) returns (emits: seq<Emit>)
    requires g.Valid() && g.gameDuration.Some? && now >= armedStart + g.gameDuration.value
    modifies g`gameState, g`votes
    ensures g.Valid()
    ensures FallbackFiresForRound(old(g.gameState), old(g.gameStartTime), armedStart) ==>
      emits == [VotingStarted] && g.gameState == Voting && g.votes == []
    ensures !FallbackFiresForRound(old(g.gameState), old(g.gameStartTime), armedStart) ==>
      emits == [] && unchanged(g)
    ensures emits != [] ==> old(g.IsTimeUp(now))
  {
    if g.gameState == Playing && g.gameStartTime == Some(armedStart) {
      var err := g.StartVoting();
      emits := [VotingStarted];
    } else {
      emits := [];
    }
  }

  /** The corrected timer never cuts a round short: whenever it fires, the round's time is up. */
  lemma FallbackForRoundOnTime(g: Game, armedStart: int, now: int)
    requires g.Valid() && g.gameDuration.Some? && now >= armedStart + g.gameDuration.value
    requires FallbackFiresForRound(g.gameState, g.gameStartTime, armedStart)
    ensures g.IsTimeUp(now) && g.GetTimeRemaining(now) == Some(0)
  {
  }
}
