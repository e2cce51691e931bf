/** The records the services keep in their lists: a player of the roster and
    a four-player game. Both keep their status as the plain strings the app
    compares against, so a status the app never writes is representable. */
module Models {

  const AVAILABLE: string := "Available"
  const IN_GAME: string := "In Game"
  const RESTING: string := "Resting"
  const ON_HOLD: string := "On Hold"
  const NOT_STARTED: string := "Not Started"
  const COMPLETED: string := "Completed"

  /** A roster entry. `restEndTime` is an absolute time in milliseconds (0 when
      unset) and `restTime` the countdown text shown while resting. */
  datatype Player = Player(
    name: string,
    gamesPlayed: int,
    status: string,
    isRestStarted: bool,
    restEndTime: int,
    restTime: string)

  /** A game refers to its players by name: team one is `player1` and
      `player2`, team two is `player3` and `player4`. */
  datatype Game = Game(
    player1: string,
    player2: string,
    player3: string,
    player4: string,
    status: string)

  function GameNames(g: Game): seq<string>
  {
    [g.player1, g.player2, g.player3, g.player4]
  }

  function GamesPlayed(p: Player): int { p.gamesPlayed }

  /** The filter predicate `player => player.status === st`. */
  function StatusIs(st: string): Player -> bool
  {
    (p: Player) => p.status == st
  }

  /** The filter predicate `game => game.status === st`. */
  function GameStatusIs(st: string): Game -> bool
  {
    (g: Game) => g.status == st
  }

  /** No two players share a name. */
  predicate NamesDistinct(ps: seq<Player>)
  {
    forall i, j :: 0 <= i < j < |ps| ==> ps[i].name != ps[j].name
  }
}
