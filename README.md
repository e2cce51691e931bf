# Badminton rotation app: a Dafny model

This project models the core of a small Angular app that runs a badminton
club evening. Players are registered by name. The app builds games from the
four least-played Available players. Starting a game puts its players In
Game. Finishing it sends them to a five-minute rest, and a countdown that
ticks once a second brings them back. Screens show the game list, the
roster, a summary of player counts and an add-player form. A separate
pairing service keeps name lists, a queue and a games-played map, and
generates candidate pairings by repeated shuffles.

Each service and component is a Dafny `class`. Its lists are `seq` fields
that the methods reassign. The records it holds (`Player`, `Game`, the
pairing entries) are datatypes. Structure:

- `models.dfy`: the records.
- `player_service.dfy`: the player registry.
- `game_service.dfy`: the game registry, the rest countdown and the
  countdown text.
- `game_list.dfy`, `add_player.dfy`, `player_list.dfy` and
  `player_summary.dfy`: the screens.
- `pairing_service.dfy`: the pairing service.
- `util.dfy`: the JavaScript library behaviour the code relies on:
  - `filter`;
  - `splice(start, 1)`;
  - the comparator `sort`;
  - number-to-text conversion;
  - `padStart`;
  - `toUpperCase`.

Modelling choices:

- **References.** A JavaScript reference to a player or game record is that
  record's index in its list. A component's `players` or `games` list is the
  same array object as the service's list, so the components read and
  change the service field directly.
- **Time.** Clock readings are a `now: int` parameter, in milliseconds.
- **Randomness.** Random draws are Dafny's non-deterministic choice
  (`:|`). A shuffle may therefore produce any permutation, and the random
  comparator sort in `getAvailablePlayers` may return any ordering.
- **Library sort.** `Array.prototype.sort` with a numeric comparator is a
  stable insertion sort (`SortBy`).

Behaviour of the code worth knowing:

- **Countdown text.** `formatRestTime` puts a space after the bar, so one
  minute left reads `| 1:00` (`FormatRestTimeOneMinute`).
- **Overriding a rest.** The override (`overrideRest`) only sets the status
  to Available. It does not clear `restEndTime` or `restTime`
  (`OverrideKeepsStaleEndTime`). So an Available player can still carry an
  end time. The invariant the model proves is "every Resting player has a
  positive end time" (`RestingHaveEndTime`). Finishing a game, a tick,
  starting a game, an override and a removal all preserve it.
- **Starting a game.** `startGame` sets a game In Game whatever its status
  was.
- **`setPlayers` on an empty list.** It records `undefined` (here `None`)
  as the latest player, in the games map and in the Available list.
- **`generatePairings` with fewer than four players.** Reading past the
  shuffled array makes it throw, so the model returns `None` and leaves no
  pairings.

## Model

| member | source | states |
|---|---|---|
| PlayerServices.FindByName | src/app/service/player.service.ts:66-68 | the lookup by exact name returns the first matching index or nothing; nothing only when no record has that name |
| PlayerServices.HasNameIffFound | src/app/service/player.service.ts:111-113 | the existence check is true exactly when the lookup by name finds a player |
| PlayerServices.FindByNameAfterAppend | src/app/service/player.service.ts:66-68 | after an append, every name that resolved still resolves to the same record; a new name resolves to the appended record |
| PlayerServices.FindByNameSameNames | src/app/service/player.service.ts:66-68 | updates that keep every name at its position keep every lookup result |
| PlayerServices.AvailableOfExactly | src/app/service/player.service.ts:70-72 | the Available filter keeps each Available record as often as the roster holds it and drops every other record |
| PlayerServices.SortPlayersByGamesPlayed | src/app/service/player.service.ts:107-109 | the sort returns a permutation of its input with games played non-decreasing |
| Seqs.SortBy | src/app/service/player.service.ts:107-109 | the comparator sort `key(a) - key(b)` yields the same length, sorted by key, as a permutation |
| PlayerServices.PlayerService.constructor | src/app/service/player.service.ts:14-23 | the registry starts with the stored roster |
| PlayerServices.PlayerService.ClearPlayers | src/app/service/player.service.ts:31-36 | clearing the storage leaves an empty roster |
| PlayerServices.PlayerService.AddPlayer | src/app/service/player.service.ts:38-49 | exactly one record is appended: the name, 0 games, Available, rest flag false, end time 0, empty text; earlier records unchanged; the name is then found |
| PlayerServices.PlayerService.UpdatePlayerStatus | src/app/service/player.service.ts:51-54 | only that record's status changes; games, end time and text and every other record stay |
| PlayerServices.PlayerService.IncrementGamesPlayed | src/app/service/player.service.ts:56-59 | only that record's games played grows by one |
| PlayerServices.PlayerService.GetAvailablePlayers | src/app/service/player.service.ts:70-72 | the result is a permutation of exactly the Available records: none missing, none extra |
| PlayerServices.PlayerService.ResetPlayerStatus | src/app/service/player.service.ts:74-79 | every record becomes Available and no other field changes |
| PlayerServices.PlayerService.ShufflePlayers | src/app/service/player.service.ts:81-86 | the shuffle keeps the length and the multiset of records |
| GameServices.NewGame | src/app/service/game.service.ts:32-40 | the new game is Not Started; team one is the first two sorted players, team two the next two |
| GameServices.CreatedGameIsFair | src/app/service/game.service.ts:29-39 | the four chosen are Available records of the roster, and none has more games than any Available player left out |
| GameServices.CreatedGameNamesDistinct | src/app/service/game.service.ts:32-39 | on a roster with distinct names the new game names four different players |
| GameServices.GameService.constructor | src/app/service/game.service.ts:13-22 | the registry starts with the stored games over the shared player registry |
| GameServices.GameService.ClearGames | src/app/service/game.service.ts:108-113 | clearing leaves no games |
| GameServices.GameService.CreateGame | src/app/service/game.service.ts:28-45 | with fewer than 4 Available players nothing changes; otherwise exactly one game from the four least-played is appended; no player record changes |
| GameServices.GameService.StartGame | src/app/service/game.service.ts:47-50 | that game becomes In Game whatever its status, nothing else changes |
| GameServices.Resolve | src/app/service/game.service.ts:54-58 | the four names resolve to four roster indices holding those names, each the first record with that name (what `find` returns, also on a roster with duplicate names), or fail exactly when some name is missing |
| GameServices.ResolveDistinct | src/app/service/game.service.ts:54-58 | a game with four different names resolves to four different records |
| GameServices.StatusSteps | src/app/service/game.service.ts:60-63 | four status writes, one per resolved slot, leave exactly the roster with those players' status overwritten |
| GameServices.FinishSteps | src/app/service/game.service.ts:59-75 | the twelve writes of `finishGame` (statuses, increments, end times) in source order give `FinishAll` |
| GameServices.FinishAllDistinct | src/app/service/game.service.ts:52-79 | with four different records each becomes Resting with one more game and end time now + 300000; all other records and every name unchanged |
| GameServices.FinishAllKeepsRestInvariant | src/app/service/game.service.ts:59-74 | finishing keeps every Resting player's end time positive when now > -300000 |
| GameServices.GameService.FinishGame | src/app/service/game.service.ts:52-79 | the game becomes Completed; when all names resolve the players rest as `FinishAll` says, otherwise no player changes |
| GameServices.JsRem | src/app/service/game.service.ts:104 | JavaScript `%` by a positive number: magnitude below the divisor, the dividend's sign (never positive for a negative dividend), and the dividend minus the result is a multiple of the divisor; equal to Dafny's `%` on non-negative numbers |
| Text.PadStartAt | src/app/service/game.service.ts:105 | each character of the `padStart` result: the fill character in the first `width - length` places, then the original string |
| GameServices.FormatRestTimeShape | src/app/service/game.service.ts:102-106 | for a non-negative time the text is `| ` + whole minutes + `:` + two-digit seconds, seconds below 60 |
| GameServices.FormatRestTimeSeconds | src/app/service/game.service.ts:102-106 | two non-negative times give the same text if and only if they fall in the same whole second |
| GameServices.FormatRestTimeOneMinute | src/app/service/game.service.ts:102-106 | 60000 ms reads `| 1:00` |
| GameServices.TickPlayerChanges | src/app/service/game.service.ts:84-95 | a tick never changes name, games or rest flag; status only moves from Resting to Available; a still-Resting player keeps its end time |
| GameServices.TickReleasesExpired | src/app/service/game.service.ts:84-95 | after a tick no Resting player has an end time at or before now (other than unset) |
| GameServices.TickPlayerCompose | src/app/service/game.service.ts:84-95 | a tick followed by a later one equals the later one alone; a repeated tick changes nothing |
| GameServices.TickAllCompose | src/app/service/game.service.ts:83-97 | the same over the whole roster |
| GameServices.TickAllKeepsRestInvariant | src/app/service/game.service.ts:84-95 | a tick keeps every Resting player's end time positive |
| GameServices.TickExample | src/app/service/game.service.ts:84-95 | end at now+125000: a tick at now+65000 shows `| 1:00`; a tick at the end makes the player Available with end time 0 |
| GameServices.GameService.TickOne | src/app/service/game.service.ts:84-95 | the callback for one player writes exactly `TickPlayer` of that record and leaves every other record alone |
| GameServices.GameService.Tick | src/app/service/game.service.ts:81-100 | the interval body updates the players one by one to exactly `TickAll` at now |
| GameList.PendingAfterAppend | src/app/game-list/game-list.component.ts:40-58 | appending a game adds one pending game exactly when it is Not Started |
| GameList.PendingAfterStatus | src/app/game-list/game-list.component.ts:60-61 | giving a game a status other than Not Started lowers the pending count by one if it was pending, else keeps it |
| GameList.GameStatusClass | src/app/game-list/game-list.component.ts:88-95 | In Game maps to `in-game-status`, Completed to `completed-status`, anything else to the empty class, in both directions |
| GameList.StartedPlayers | src/app/game-list/game-list.component.ts:60-72 | the resolved players get status In Game and no other field changes; every other player and every name is unchanged |
| GameList.StartKeepsRestInvariant | src/app/game-list/game-list.component.ts:60-72 | starting a game keeps every Resting player's end time positive |
| GameList.GameListComponent.constructor | src/app/game-list/game-list.component.ts:17-19 | the screen shares the game service's player registry |
| GameList.GameListComponent.CreateGame | src/app/game-list/game-list.component.ts:40-58 | refuses while a game is pending or fewer than 4 are Available; otherwise exactly the service's new game is appended; keeps at most one pending game; no player changes |
| GameList.GameListComponent.StartGame | src/app/game-list/game-list.component.ts:60-72 | the game becomes In Game; when all names resolve exactly those players become In Game, otherwise no player changes; the pending count does not grow |
| Text.ToUpperAscii | src/app/add-player/add-player.component.ts:21 | upper-casing keeps the length, turns each lower-case ASCII letter into the upper-case letter at the same place in the alphabet, leaves no lower-case letter and keeps every other character |
| Text.ToUpperIdempotent | src/app/add-player/add-player.component.ts:27 | an upper-cased name upper-cases to itself |
| AddPlayer.AddKeepsNamesDistinct | src/app/add-player/add-player.component.ts:19-30 | appending a name not on the roster keeps names pairwise distinct |
| AddPlayer.AddKeepsNamesUpper | src/app/add-player/add-player.component.ts:26-29 | appending an upper-cased name keeps every name upper-case |
| AddPlayer.SecondAddRefused | src/app/add-player/add-player.component.ts:19-30 | after one `addPlayer()`, a second one whose field has the same upper-case form is refused and leaves the roster as the first left it |
| AddPlayer.AddPlayerComponent.constructor | src/app/add-player/add-player.component.ts:12-17 | the field starts empty |
| AddPlayer.AddPlayerComponent.AddPlayer | src/app/add-player/add-player.component.ts:19-30 | the roster becomes `AddedRoster`: an existing upper-cased name or an empty field leaves the roster and the field as they were, otherwise exactly the upper-cased name is appended and the field cleared; distinct and upper-case names are kept |
| PlayerList.PlayerStatusClass | src/app/player-list/player-list.component.ts:46-55 | Available, In Game and Resting map to their classes, anything else (On Hold too) to the empty class, in both directions |
| PlayerList.OverrideRestEffect | src/app/player-list/player-list.component.ts:37-39 | the override gives Available and keeps end time and text, which later ticks leave alone; the rest invariant is kept |
| PlayerList.OverrideKeepsStaleEndTime | src/app/player-list/player-list.component.ts:37-39 | an overridden player is Available with its old end time and text still set |
| Seqs.SpliceOneAt | src/app/player-list/player-list.component.ts:41-44 | `splice(i, 1)` at a valid index drops exactly that element and keeps the others in order |
| PlayerList.RemoveKeepsInvariants | src/app/player-list/player-list.component.ts:41-44 | a removal keeps names distinct and the rest invariant |
| PlayerList.PlayerListComponent.constructor | src/app/player-list/player-list.component.ts:18-20 | the screen works on the registry's list |
| PlayerList.PlayerListComponent.OverrideRest | src/app/player-list/player-list.component.ts:37-39 | only that player's status becomes Available |
| PlayerList.PlayerListComponent.RemovePlayer | src/app/player-list/player-list.component.ts:41-44 | the shared roster becomes its `splice(index, 1)`; at a valid index one fewer copy of exactly that record |
| Summary.StatusCountsPartition | src/app/player-summary/player-summary.component.ts:46-49 | the four status counts plus the players with any other status make up the total |
| Summary.StatusCountsCover | src/app/player-summary/player-summary.component.ts:45-49 | the four counts sum to at most the total, with equality exactly when every status is one of the four |
| Summary.SummaryTextInjective | src/app/player-summary/player-summary.component.ts:51-54 | the summary line determines its three numbers |
| Summary.PlayerSummaryComponent.constructor | src/app/player-summary/player-summary.component.ts:24-26 | the counters start at zero over the registry's roster |
| Summary.PlayerSummaryComponent.GetPlayersSummary | src/app/player-summary/player-summary.component.ts:43-55 | re-reads the roster, stores the total and the four exact status counts, returns the line with the same total, Available and In Game numbers; no player changes |
| Pairing.WithGames | src/app/pairing.service.ts:47-50 | each entry has the roster's name at that position and the map's games for it, 0 when absent |
| Pairing.GameCountMatchesLoop | src/app/pairing.service.ts:42-52 | the loop bound `max(5, n/4)` on reals admits exactly `GameCount(n)` rounds, at least 5 and at least n/4 |
| Pairing.DrainIsQueueOrder | src/app/pairing.service.ts:108-114 | successive dequeues return the queue's names in order, then empty names |
| Pairing.PopAfterPush | src/app/pairing.service.ts:124-154 | a push followed by a pop gives the list back |
| Pairing.RemoveByNameExactly | src/app/pairing.service.ts:35-38 | removal by name drops every entry with that name and keeps every other entry as often as before |
| Pairing.RemoveByNameIdempotent | src/app/pairing.service.ts:35-38 | removing a name twice is removing it once |
| Pairing.RemoveUndoesAdd | src/app/pairing.service.ts:30-38 | removing a name just added to a list without it restores the list |
| Pairing.PairingService.constructor | src/app/pairing.service.ts:8-19 | every list, the map and the pairings start empty |
| Pairing.PairingService.SetPlayers | src/app/pairing.service.ts:21-28 | roster and queue become the list; the last name (undefined for an empty list) maps to 0 and is pushed as Available |
| Pairing.PairingService.AddPlayer | src/app/pairing.service.ts:30-33 | one `Player(name, 0, "Available")` appended, earlier entries unchanged |
| Pairing.PairingService.RemovePlayer | src/app/pairing.service.ts:35-38 | the list keeps, in order, exactly the entries with another name |
| Pairing.PairingService.ShuffleArrayWithGames | src/app/pairing.service.ts:83-95 | the same array comes back, rearranged in place: same length, same multiset |
| Pairing.PairingService.GeneratePairings | src/app/pairing.service.ts:40-81 | with fewer than 4 players it fails with no pairings; otherwise `GameCount(n)` pairings, each the first four entries of that round's permutation of the roster with games |
| Pairing.PairingService.UpdatePlayerQueue | src/app/pairing.service.ts:104-106 | the queue is replaced |
| Pairing.PairingService.GetPlayerFromQueue | src/app/pairing.service.ts:108-114 | a non-empty queue yields its head and keeps its tail; an empty one yields the empty name and stays empty |
| Pairing.PairingService.SetPlayersAvailable | src/app/pairing.service.ts:124-126 | pushes onto the end |
| Pairing.PairingService.RemovePlayersAvailable | src/app/pairing.service.ts:128-130 | pops the last name whatever the argument; nothing on an empty list |
| Pairing.PairingService.SetPlayersInGame | src/app/pairing.service.ts:136-138 | pushes onto the end |
| Pairing.PairingService.RemovePlayersInGame | src/app/pairing.service.ts:140-142 | pops the last name whatever the argument; nothing on an empty list |
| Pairing.PairingService.SetPlayersInRest | src/app/pairing.service.ts:148-150 | pushes onto the end |
| Pairing.PairingService.RemovePlayersInRest | src/app/pairing.service.ts:152-154 | pops the last name whatever the argument; nothing on an empty list |
| Pairing.PairingService.RestPeriodElapsed | src/app/pairing.service.ts:158-163 | the most recently rested name moves to the Available list; nothing when no one rests; the two lists keep their combined length |

## Left out

- Persistence: reading and writing `localStorage` and the JSON conversion. The constructors take the stored lists as parameters, and every save is a no-op.
- Change events and subscriptions: `EventEmitter` emits, `ngOnInit`, `ngOnDestroy` and the list refreshes they trigger. One consequence is not modelled. After `removePlayersToStorage` or `removeGamesToStorage` assigns a new array, a screen's own list keeps pointing at the old array until its refresh runs. The model always reads the service's current list.
- Timers: `setInterval` in `startRestCountdown`, `setTimeout` in `executeRestPeriod`, and the overlapping intervals that each finished game starts. Only the callback bodies are modelled (`GameService.Tick` and `PairingService.RestPeriodElapsed`). The test in `executeRestPeriod` that schedules the callback only when someone is resting is left out with the timer.
- The clock: `finishGame` reads the clock four times and the tick reads it once per player. The model uses one `now` for each call.
- `Math.random`: no claim about the distribution of shuffles or of the random comparator sort, only that they produce permutations. Because the draws are non-deterministic choices, those methods are not compilable.
- Dialogs: alerts and confirmations, including the confirmations behind `resetGames` and `resetPlayers`. After confirmation these only call `ClearGames` and `ClearPlayers`.
- `GameListComponent.finishGame`: it only calls `GameService.FinishGame`.
- Unused registry operations: `setRestStarted`, `setPlayersInRest` and `setPlayersAvailable` in the player registry. None of them is called outside commented-out code.
- Getters with no effect: the pairing service's getters, `updatePairing` (it returns `pairings`) and `getPlayerGamesMap`.
- JavaScript numbers: integers are unbounded, and `NaN` and fractional values are not modelled. This matters in two places. The games-map default `|| 0` is modelled only for an absent key. The real-valued loop bound of `generatePairings` is related to its integer count by `GameCountMatchesLoop`.
- `toUpperCase`: only ASCII letters are upper-cased. Full Unicode case mapping is not modelled.
- `setPlayers` stores the caller's array, so later changes to that array would be visible. The model stores a value copy.
- The `Player` model files and `PlayerSummary` are not part of this model. Their fields are inferred from their use.
- Pagination (`GamePagination` in the game model) is not used by any modelled code.
- GameServices.CreatedGameNamesDistinct: holds only for a roster whose names are distinct. The registry does not enforce distinct names itself. Only the add-player path keeps them distinct (`AddPlayer.AddKeepsNamesDistinct`).
- PlayerServices.PlayerService.ShufflePlayers: states only that the result is a permutation, because the source's order depends on random draws.
- Pairing.PairingService.GeneratePairings: states only that each round is some permutation of the roster with games, for the same reason.
