/** The game-list screen (`GameListComponent`): the guard in front of game
    creation, starting a game together with its players, and the status
    badge. The component's `games` list is the game service's list (the same
    array object), so it is read through `gameService.games`. */
module GameList {
  import opened Wrappers
  import opened Seqs
  import opened Models
  import opened PlayerServices
  import opened GameServices

  /** How many games are still Not Started. */
  function PendingCount(gs: seq<Game>): nat
  {
    |Filter(gs, GameStatusIs(NOT_STARTED))|
  }

  /** Appending a game adds one pending game exactly when it is Not Started. */
  lemma PendingAfterAppend(gs: seq<Game>, g: Game)
    ensures PendingCount(gs + [g]) == PendingCount(gs) + (if g.status == NOT_STARTED then 1 else 0)
  {
    FilterConcat(gs, [g], GameStatusIs(NOT_STARTED));
    assert [g][1..] == [];
  }

  /** Giving game `i` a status other than Not Started takes it out of the
      pending count if it was pending, and changes nothing else in the count. */
  lemma PendingAfterStatus(gs: seq<Game>, i: nat, st: string)
    requires i < |gs|
    requires st != NOT_STARTED
    ensures PendingCount(gs[i := gs[i].(status := st)])
      == PendingCount(gs) - (if gs[i].status == NOT_STARTED then 1 else 0)
  {
    var p := GameStatusIs(NOT_STARTED);
    var hs := gs[i := gs[i].(status := st)];
    assert gs == gs[..i] + [gs[i]] + gs[i + 1..];
    assert hs == gs[..i] + [hs[i]] + gs[i + 1..];
    FilterConcat(gs[..i] + [gs[i]], gs[i + 1..], p);
    FilterConcat(gs[..i], [gs[i]], p);
    FilterConcat(gs[..i] + [hs[i]], gs[i + 1..], p);
    FilterConcat(gs[..i], [hs[i]], p);
    assert [gs[i]][1..] == [] && [hs[i]][1..] == [];
  }

  /** `getGameStatusClass(status)`: the badge style of a game status. */
  function GameStatusClass(status: string): (c: string)
    ensures c == "in-game-status" <==> status == IN_GAME
    ensures c == "completed-status" <==> status == COMPLETED
    ensures c == "" <==> status != IN_GAME && status != COMPLETED
  {
    if status == IN_GAME then "in-game-status"
    else if status == COMPLETED then "completed-status"
    else ""
  }

  /** The roster after `startGame` resolved the game to `idx`: the four
      players are In Game, every other field and every other player as
      before. */
  lemma StartedPlayers(ps: seq<Player>, idx: seq<nat>)
    requires |idx| == 4
    ensures SameNames(ps, StatusAtSlots(ps, idx, IN_GAME))
    ensures forall j :: 0 <= j < 4 && idx[j] < |ps| ==>
      StatusAtSlots(ps, idx, IN_GAME)[idx[j]] == ps[idx[j]].(status := IN_GAME)
    ensures forall k :: 0 <= k < |ps| && k !in idx ==> StatusAtSlots(ps, idx, IN_GAME)[k] == ps[k]
  {
  }

  /** Starting a game never sets any player Resting, so the rest invariant
      holds afterwards whenever it held before. */
  lemma StartKeepsRestInvariant(ps: seq<Player>, idx: seq<nat>)
    requires |idx| == 4
    requires RestingHaveEndTime(ps)
    ensures RestingHaveEndTime(StatusAtSlots(ps, idx, IN_GAME))
  {
    forall k | 0 <= k < |ps| && StatusAtSlots(ps, idx, IN_GAME)[k].status == RESTING
      ensures StatusAtSlots(ps, idx, IN_GAME)[k].restEndTime != 0
    {
      assert Hits(idx, k) == 0;
    }
  }

  class GameListComponent {
    const gameService: GameService
    const playerService: PlayerService

    /** Both screens share the one player registry. */
    predicate Valid()
    {
      gameService.playerService == playerService
    }

    constructor (gameService: GameService, playerService: PlayerService)
      requires gameService.playerService == playerService
      ensures this.gameService == gameService && this.playerService == playerService
      ensures Valid()
    {
      this.gameService := gameService;
      this.playerService := playerService;
    }

    /** `createGame()`: refuses (with an alert, left out) while a game is
        still Not Started or fewer than four players are Available;
        otherwise the game service creates the game from the pool `pool`.
        A list with at most one pending game keeps at most one. */
    method CreateGame() returns (ghost pool: seq<Player>)
      requires Valid()
      modifies gameService
      ensures unchanged(playerService)
      ensures PendingCount(old(gameService.games)) > 0 ==> gameService.games == old(gameService.games)
      ensures PendingCount(old(gameService.games)) == 0 && |AvailableOf(playerService.players)| < 4
        ==> gameService.games == old(gameService.games)
      ensures PendingCount(old(gameService.games)) == 0 && |AvailableOf(playerService.players)| >= 4
        ==> multiset(pool) == multiset(AvailableOf(playerService.players))
            && gameService.games == old(gameService.games) + [NewGame(SortPlayersByGamesPlayed(pool))]
      ensures PendingCount(old(gameService.games)) <= 1 ==> PendingCount(gameService.games) <= 1
    {
      pool := [];
      var availablePlayers := playerService.GetAvailablePlayers();
      var notStartedGames := Filter(gameService.games, GameStatusIs(NOT_STARTED));
      if |notStartedGames| > 0 {
        return;
      }
      if |availablePlayers| >= 4 {
        pool := gameService.CreateGame();
        assert |pool| == |AvailableOf(playerService.players)| by {
          assert |multiset(pool)| == |multiset(AvailableOf(playerService.players))|;
        }
        PendingAfterAppend(old(gameService.games), NewGame(SortPlayersByGamesPlayed(pool)));
      }
    }

    /** `startGame(game)`: the game becomes In Game (with no check of its
        status), and when all four names resolve, those players become In
        Game; otherwise no player changes. */
    method StartGame(g: nat)
      requires Valid()
      requires g < |gameService.games|
      modifies gameService, playerService
      ensures gameService.games == old(gameService.games)[g := old(gameService.games)[g].(status := IN_GAME)]
      ensures var r := Resolve(old(playerService.players), old(gameService.games)[g]);
        playerService.players == if r.Some? then StatusAtSlots(old(playerService.players), r.value, IN_GAME)
                                 else old(playerService.players)
      ensures PendingCount(gameService.games) <= PendingCount(old(gameService.games))
    {
      gameService.StartGame(g);
      PendingAfterStatus(old(gameService.games), g, IN_GAME);
      var game := gameService.games[g];
      var ps := playerService.players;
      var player1 := FindByName(ps, game.player1);
      var player2 := FindByName(ps, game.player2);
      var player3 := FindByName(ps, game.player3);
      var player4 := FindByName(ps, game.player4);
      if player1.Some? && player2.Some? && player3.Some? && player4.Some? {
        var i1, i2, i3, i4 := player1.value, player2.value, player3.value, player4.value;
        ghost var idx := [i1, i2, i3, i4];
        assert forall j :: 0 <= j < 4 ==> idx[j] < |ps|;
        playerService.UpdatePlayerStatus(i1, IN_GAME);
        playerService.UpdatePlayerStatus(i2, IN_GAME);
        playerService.UpdatePlayerStatus(i3, IN_GAME);
        playerService.UpdatePlayerStatus(i4, IN_GAME);
        StatusSteps(ps, idx, IN_GAME);
        assert Resolve(ps, game) == Some(idx);
      }
    }
  }
}
