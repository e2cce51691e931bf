/** The game registry (`GameService`): creating a game from the four
    least-played Available players, moving games through their statuses,
    sending players to rest when a game finishes, and the once-a-second
    countdown that brings them back. Clock readings are the `now` parameter
    (milliseconds); a JavaScript reference to a game is its index in `games`. */
module GameServices {
  import opened Wrappers
  import opened Seqs
  import opened Text
  import opened Models
  import opened PlayerServices

  /** Five minutes of rest, in milliseconds. */
  const REST_DURATION: int := 5 * 60 * 1000

  /** The game `createGame` pushes: the first two sorted players form team
      one, the next two team two. */
  function NewGame(sorted: seq<Player>): (g: Game)
    requires |sorted| >= 4
    ensures g.status == NOT_STARTED
    ensures forall j :: 0 <= j < 4 ==> GameNames(g)[j] == sorted[j].name
  {
    Game(sorted[0].name, sorted[1].name, sorted[2].name, sorted[3].name, NOT_STARTED)
  }

  /** The four names of a game are four different names. */
  predicate GameNamesDistinct(g: Game)
  {
    forall i, j :: 0 <= i < j < 4 ==> GameNames(g)[i] != GameNames(g)[j]
  }

  /** The players `createGame` picks from an ordering `pool` of the
      Available players: four Available records of the roster, and no chosen
      player has played more games than any Available player left out. */
  lemma CreatedGameIsFair(ps: seq<Player>, pool: seq<Player>)
    requires multiset(pool) == multiset(AvailableOf(ps))
    requires |pool| >= 4
    ensures var sorted := SortPlayersByGamesPlayed(pool);
      && multiset(sorted[..4]) + multiset(sorted[4..]) == multiset(AvailableOf(ps))
      && (forall c :: c in sorted[..4] ==> c in ps && c.status == AVAILABLE)
      && (forall c, l :: c in sorted[..4] && l in sorted[4..] ==> c.gamesPlayed <= l.gamesPlayed)
  {
    var sorted := SortPlayersByGamesPlayed(pool);
    var chosen := sorted[..4];
    SortedSplit(sorted, GamesPlayed, 4);
    forall c | c in chosen ensures c in ps && c.status == AVAILABLE {
      assert c in multiset(sorted);
      assert c in multiset(AvailableOf(ps));
    }
  }

  /** On a roster with distinct names, the game `createGame` builds names
      four different players. */
  lemma CreatedGameNamesDistinct(ps: seq<Player>, pool: seq<Player>)
    requires multiset(pool) == multiset(AvailableOf(ps))
    requires |pool| >= 4
    requires NamesDistinct(ps)
    ensures GameNamesDistinct(NewGame(SortPlayersByGamesPlayed(pool)))
  {
    var sorted := SortPlayersByGamesPlayed(pool);
    var chosen := sorted[..4];
    assert sorted == chosen + sorted[4..];
    FilterSubMultiset(ps, StatusIs(AVAILABLE));
    assert multiset(chosen) <= multiset(ps);
    NamesDistinctSubMultiset(ps, chosen);
    var g := NewGame(sorted);
    forall i, j | 0 <= i < j < 4 ensures GameNames(g)[i] != GameNames(g)[j] {
      assert GameNames(g)[i] == chosen[i].name && GameNames(g)[j] == chosen[j].name;
    }
  }

  /** JavaScript's `%` on numbers: the remainder takes the dividend's sign. */
  function JsRem(a: int, b: int): (r: int)
    requires b > 0
    ensures -b < r < b
    ensures a >= 0 ==> r == a % b
    ensures a < 0 ==> r <= 0
    ensures (a - r) % b == 0
  {
    RemCongruent(a, b);
    if a >= 0 then a % b else -((-a) % b)
  }

  /** The dividend and either remainder differ by a multiple of `b`. */
  lemma RemCongruent(a: int, b: int)
    requires b > 0
    ensures (a - a % b) % b == 0
    ensures (a + (-a) % b) % b == 0
  {
    assert a - a % b == b * (a / b);
    MultipleRem(b, a / b);
    assert a + (-a) % b == b * -((-a) / b);
    MultipleRem(b, -((-a) / b));
  }

  /** A multiple of `b` leaves no remainder. */
  lemma MultipleRem(b: int, k: int)
    requires b > 0
    ensures (b * k) % b == 0
  {
    var x := b * k;
    var d := k - x / b;
    assert b * d == x % b by {
      assert b * d == b * k - b * (x / b);
    }
    if d >= 1 {
      assert b * d == b + b * (d - 1);
    } else if d <= -1 {
      assert b * d == -b + b * (d + 1);
    }
  }

  /** `formatRestTime(remainingTime)`: `| m:ss` with whole minutes and the
      seconds of the last minute padded to two digits. `Math.floor` of a
      division by a positive constant is Dafny's `/`. */
  function FormatRestTime(remaining: int): string
  {
    var minutes := remaining / 60000;
    var seconds := JsRem(remaining, 60000) / 1000;
    "| " + IntToString(minutes) + ":" + PadStart(IntToString(seconds), 2, '0')
  }

  /** Two decimal digits of a number below 100. */
  function TwoDigits(n: nat): (s: string)
    requires n < 100
    ensures |s| == 2
  {
    [DigitChar(n / 10), DigitChar(n % 10)]
  }

  /** Seconds below 60 rendered and padded to two characters are their two
      digits. */
  lemma PaddedSeconds(sec: nat)
    requires sec < 60
    ensures PadStart(IntToString(sec), 2, '0') == TwoDigits(sec)
  {
    var str := NatToString(sec);
    if sec < 10 {
      assert str == [DigitChar(sec)];
      assert DigitChar(0) == '0';
      assert PadStart(str, 2, '0') == ['0'] + str;
    } else {
      assert str == NatToString(sec / 10) + [DigitChar(sec % 10)];
      assert NatToString(sec / 10) == [DigitChar(sec / 10)];
      assert PadStart(str, 2, '0') == str;
    }
  }

  /** For a non-negative time the text is `| ` + minutes + `:` + two digits of
      seconds, and the seconds are below 60. */
  lemma FormatRestTimeShape(r: nat)
    ensures (r % 60000) / 1000 < 60
    ensures FormatRestTime(r) == "| " + NatToString(r / 60000) + ":" + TwoDigits((r % 60000) / 1000)
  {
    var sec := JsRem(r, 60000) / 1000;
    assert JsRem(r, 60000) == r % 60000;
    PaddedSeconds(sec);
    assert IntToString(r / 60000) == NatToString(r / 60000);
  }

  lemma DigitCharInjective(a: nat, b: nat)
    requires a < 10 && b < 10 && DigitChar(a) == DigitChar(b)
    ensures a == b
  {
  }

  /** Whole seconds split into whole minutes and the seconds of the last
      minute. */
  lemma SecondsParts(r: nat)
    ensures r / 1000 == 60 * (r / 60000) + (r % 60000) / 1000
  {
    var m, t := r / 60000, r % 60000;
    var s, a := t / 1000, t % 1000;
    assert r == 1000 * (60 * m + s) + a;
  }

  lemma MinutesSecondsUnique(m1: nat, s1: nat, m2: nat, s2: nat)
    requires s1 < 60 && s2 < 60 && 60 * m1 + s1 == 60 * m2 + s2
    ensures m1 == m2 && s1 == s2
  {
  }

  lemma SplitRestText(a1: string, b1: string, a2: string, b2: string)
    requires |b1| == 2 && |b2| == 2
    requires "| " + a1 + ":" + b1 == "| " + a2 + ":" + b2
    ensures a1 == a2 && b1 == b2
  {
    var t1, t2 := "| " + a1 + ":" + b1, "| " + a2 + ":" + b2;
    assert a1 == t1[2..|t1| - 3] && a2 == t2[2..|t2| - 3];
    assert b1 == t1[|t1| - 2..] && b2 == t2[|t2| - 2..];
  }

  /** The countdown text tells remaining times apart exactly to the whole
      second: two non-negative times give the same text if and only if they
      fall in the same second. */
  lemma FormatRestTimeSeconds(r1: nat, r2: nat)
    ensures FormatRestTime(r1) == FormatRestTime(r2) <==> r1 / 1000 == r2 / 1000
  {
    FormatRestTimeShape(r1);
    FormatRestTimeShape(r2);
    SecondsParts(r1);
    SecondsParts(r2);
    var m1, s1 := r1 / 60000, (r1 % 60000) / 1000;
    var m2, s2 := r2 / 60000, (r2 % 60000) / 1000;
    if FormatRestTime(r1) == FormatRestTime(r2) {
      SplitRestText(NatToString(m1), TwoDigits(s1), NatToString(m2), TwoDigits(s2));
      NatToStringInjective(m1, m2);
      DigitCharInjective(s1 / 10, s2 / 10);
      DigitCharInjective(s1 % 10, s2 % 10);
    }
    if r1 / 1000 == r2 / 1000 {
      MinutesSecondsUnique(m1, s1, m2, s2);
    }
  }

  /** One minute left reads `| 1:00`. */
  lemma FormatRestTimeOneMinute()
    ensures FormatRestTime(60000) == "| 1:00"
  {
    assert JsRem(60000, 60000) == 0;
    assert IntToString(1) == "1" by {
      assert NatToString(1) == [DigitChar(1)];
    }
    assert PadStart(IntToString(0), 2, '0') == "00" by {
      assert NatToString(0) == [DigitChar(0)];
    }
  }

  /** The body of the countdown interval for one player: a Resting player
      with an end time set either gets the remaining time as text or, once
      the end time has passed, becomes Available with the rest cleared. */
  function TickPlayer(p: Player, now: int): Player
  {
    if p.status == RESTING && p.restEndTime != 0 then
      var remaining := Max(p.restEndTime - now, 0);
      if remaining > 0 then p.(restTime := FormatRestTime(remaining))
      else p.(status := AVAILABLE, restEndTime := 0, restTime := "")
    else p
  }

  /** One countdown tick over the whole roster. */
  function TickAll(ps: seq<Player>, now: int): (r: seq<Player>)
    ensures |r| == |ps|
  {
    seq(|ps|, k requires 0 <= k < |ps| => TickPlayer(ps[k], now))
  }

  /** A tick moves a player only along its rest: the name, the games played
      and the rest flag never change, and the status changes only from
      Resting to Available. */
  lemma TickPlayerChanges(p: Player, now: int)
    ensures var q := TickPlayer(p, now);
      && q.name == p.name && q.gamesPlayed == p.gamesPlayed && q.isRestStarted == p.isRestStarted
      && (q.status != p.status ==> p.status == RESTING && q.status == AVAILABLE)
      && (q.status == RESTING ==> q.restEndTime == p.restEndTime)
  {
  }

  /** After a tick at `now` nobody is left Resting with an end time that has
      passed: a Resting player has no end time or one still ahead. */
  lemma TickReleasesExpired(ps: seq<Player>, now: int)
    ensures forall k :: 0 <= k < |ps| && TickAll(ps, now)[k].status == RESTING ==>
      TickAll(ps, now)[k].restEndTime == 0 || TickAll(ps, now)[k].restEndTime > now
  {
  }

  /** Ticks compose: a tick at `t1` followed by one at a later `t2` leaves the
      same roster as the tick at `t2` alone, so a missed or repeated tick
      changes nothing (a repeated one is the case `t1 == t2`). */
  lemma TickPlayerCompose(p: Player, t1: int, t2: int)
    requires t1 <= t2
    ensures TickPlayer(TickPlayer(p, t1), t2) == TickPlayer(p, t2)
  {
  }

  lemma TickAllCompose(ps: seq<Player>, t1: int, t2: int)
    requires t1 <= t2
    ensures TickAll(TickAll(ps, t1), t2) == TickAll(ps, t2)
  {
    forall k | 0 <= k < |ps| ensures TickAll(TickAll(ps, t1), t2)[k] == TickAll(ps, t2)[k] {
      TickPlayerCompose(ps[k], t1, t2);
    }
  }

  /** Every Resting player has an end time in the future of 0. */
  predicate RestingHaveEndTime(ps: seq<Player>)
  {
    forall k :: 0 <= k < |ps| && ps[k].status == RESTING ==> ps[k].restEndTime > 0
  }

  /** A tick keeps every Resting player's end time positive. */
  lemma TickAllKeepsRestInvariant(ps: seq<Player>, now: int)
    requires RestingHaveEndTime(ps)
    ensures RestingHaveEndTime(TickAll(ps, now))
  {
    forall k | 0 <= k < |ps| && TickAll(ps, now)[k].status == RESTING
      ensures TickAll(ps, now)[k].restEndTime > 0
    {
      TickPlayerChanges(ps[k], now);
    }
  }

  /** With the rest ending at `now + 125000`, a tick at `now + 65000` shows
      one minute left, and a tick at the end time makes the player Available
      with the end time cleared. */
  lemma TickExample(p: Player, now: int)
    requires p.status == RESTING && p.restEndTime == now + 125000 && p.restEndTime != 0
    ensures TickPlayer(p, now + 65000).restTime == "| 1:00"
    ensures TickPlayer(p, now + 125000).status == AVAILABLE
    ensures TickPlayer(p, now + 125000).restEndTime == 0
  {
    FormatRestTimeOneMinute();
  }

  /** The four indices `finishGame` and the game list's `startGame` resolve
      a game's names to, when all four names are found. */
  function Resolve(ps: seq<Player>, g: Game): (r: Option<seq<nat>>)
    ensures r.Some? ==> |r.value| == 4 && forall j :: 0 <= j < 4 ==> r.value[j] < |ps| && ps[r.value[j]].name == GameNames(g)[j]
    ensures r.Some? ==> forall j :: 0 <= j < 4 ==> FindByName(ps, GameNames(g)[j]) == Some(r.value[j])
    ensures r.None? <==> (!HasName(ps, g.player1) || !HasName(ps, g.player2)
                          || !HasName(ps, g.player3) || !HasName(ps, g.player4))
  {
    var a, b, c, d := FindByName(ps, g.player1), FindByName(ps, g.player2),
                      FindByName(ps, g.player3), FindByName(ps, g.player4);
    HasNameIffFound(ps, g.player1);
    HasNameIffFound(ps, g.player2);
    HasNameIffFound(ps, g.player3);
    HasNameIffFound(ps, g.player4);
    if a.Some? && b.Some? && c.Some? && d.Some? then
      var idx := [a.value, b.value, c.value, d.value];
      assert forall j :: 0 <= j < 4 ==> FindByName(ps, GameNames(g)[j]) == Some(idx[j]) by {
        var names := GameNames(g);
        assert names[0] == g.player1 && names[1] == g.player2 && names[2] == g.player3 && names[3] == g.player4;
        forall j | 0 <= j < 4 ensures FindByName(ps, names[j]) == Some(idx[j]) {
          if j == 0 { } else if j == 1 { } else if j == 2 { } else { assert j == 3; }
        }
      }
      Some(idx)
    else None
  }

  /** A game whose four names differ resolves to four different players. */
  lemma ResolveDistinct(ps: seq<Player>, g: Game)
    requires GameNamesDistinct(g)
    requires Resolve(ps, g).Some?
    ensures var idx := Resolve(ps, g).value;
      forall i, j :: 0 <= i < j < 4 ==> idx[i] != idx[j]
  {
  }

  /** One resolved slot's share of `finishGame`: Resting, `times` more games
      (the number of slots that resolved to this player) and a fresh end
      time. */
  function Rested(p: Player, times: nat, now: int): Player
  {
    p.(status := RESTING, gamesPlayed := p.gamesPlayed + times, restEndTime := now + REST_DURATION)
  }

  /** How many of the four resolved slots point at player `k`. */
  function Hits(idx: seq<nat>, k: nat): (n: nat)
    requires |idx| == 4
    ensures n > 0 <==> k in idx
    ensures n <= 4
  {
    (if idx[0] == k then 1 else 0) + (if idx[1] == k then 1 else 0)
    + (if idx[2] == k then 1 else 0) + (if idx[3] == k then 1 else 0)
  }

  /** The roster after `finishGame` resolved the game to `idx`: every status
      update and increment goes through the record the slot resolved to, so a
      player named in two slots gets two more games. */
  function FinishAll(ps: seq<Player>, idx: seq<nat>, now: int): (r: seq<Player>)
    requires |idx| == 4
    ensures |r| == |ps|
  {
    seq(|ps|, k requires 0 <= k < |ps| => if Hits(idx, k) > 0 then Rested(ps[k], Hits(idx, k), now) else ps[k])
  }

  /** The roster with the status of every player a slot resolved to
      overwritten. */
  function StatusAtSlots(ps: seq<Player>, idx: seq<nat>, st: string): (r: seq<Player>)
    requires |idx| == 4
    ensures |r| == |ps|
  {
    seq(|ps|, k requires 0 <= k < |ps| => if Hits(idx, k) > 0 then ps[k].(status := st) else ps[k])
  }

  /** Four status writes, one per slot, in slot order. */
  lemma StatusPhase(ps: seq<Player>, idx: seq<nat>, st: string)
    requires |idx| == 4 && forall j :: 0 <= j < 4 ==> idx[j] < |ps|
    ensures var r := WithStatusAt(WithStatusAt(WithStatusAt(WithStatusAt(ps, idx[0], st), idx[1], st), idx[2], st), idx[3], st);
      |r| == |ps| && forall k :: 0 <= k < |ps| ==> r[k] == if Hits(idx, k) > 0 then ps[k].(status := st) else ps[k]
  {
  }

  /** The four status writes leave exactly `StatusAtSlots`. */
  lemma StatusSteps(ps: seq<Player>, idx: seq<nat>, st: string)
    requires |idx| == 4 && forall j :: 0 <= j < 4 ==> idx[j] < |ps|
    ensures WithStatusAt(WithStatusAt(WithStatusAt(WithStatusAt(ps, idx[0], st), idx[1], st), idx[2], st), idx[3], st)
      == StatusAtSlots(ps, idx, st)
  {
    StatusPhase(ps, idx, st);
  }

  lemma GamesPhase(ps: seq<Player>, idx: seq<nat>)
    requires |idx| == 4 && forall j :: 0 <= j < 4 ==> idx[j] < |ps|
    ensures var r := WithGameAddedAt(WithGameAddedAt(WithGameAddedAt(WithGameAddedAt(ps, idx[0]), idx[1]), idx[2]), idx[3]);
      |r| == |ps| && forall k :: 0 <= k < |ps| ==> r[k] == ps[k].(gamesPlayed := ps[k].gamesPlayed + Hits(idx, k))
  {
    var g1 := WithGameAddedAt(ps, idx[0]);
    var g2 := WithGameAddedAt(g1, idx[1]);
    var g3 := WithGameAddedAt(g2, idx[2]);
    var g4 := WithGameAddedAt(g3, idx[3]);
    forall k | 0 <= k < |ps| ensures g4[k] == ps[k].(gamesPlayed := ps[k].gamesPlayed + Hits(idx, k)) {
      var c0 := if idx[0] == k then 1 else 0;
      var c1 := c0 + if idx[1] == k then 1 else 0;
      var c2 := c1 + if idx[2] == k then 1 else 0;
      assert g1[k] == ps[k].(gamesPlayed := ps[k].gamesPlayed + c0);
      assert g2[k] == ps[k].(gamesPlayed := ps[k].gamesPlayed + c1);
      assert g3[k] == ps[k].(gamesPlayed := ps[k].gamesPlayed + c2);
    }
  }

  lemma EndPhase(ps: seq<Player>, idx: seq<nat>, end: int)
    requires |idx| == 4 && forall j :: 0 <= j < 4 ==> idx[j] < |ps|
    ensures var r := WithRestEndAt(WithRestEndAt(WithRestEndAt(WithRestEndAt(ps, idx[0], end), idx[1], end), idx[2], end), idx[3], end);
      |r| == |ps| && forall k :: 0 <= k < |ps| ==> r[k] == if Hits(idx, k) > 0 then ps[k].(restEndTime := end) else ps[k]
  {
  }

  /** The twelve writes `finishGame` makes, in its order (four statuses, four
      increments, four end times), leave the roster `FinishAll` describes. */
  lemma FinishSteps(ps: seq<Player>, idx: seq<nat>, now: int)
    requires |idx| == 4 && forall j :: 0 <= j < 4 ==> idx[j] < |ps|
    ensures var s := WithStatusAt(WithStatusAt(WithStatusAt(WithStatusAt(ps, idx[0], RESTING), idx[1], RESTING), idx[2], RESTING), idx[3], RESTING);
      var g := WithGameAddedAt(WithGameAddedAt(WithGameAddedAt(WithGameAddedAt(s, idx[0]), idx[1]), idx[2]), idx[3]);
      var e := now + REST_DURATION;
      WithRestEndAt(WithRestEndAt(WithRestEndAt(WithRestEndAt(g, idx[0], e), idx[1], e), idx[2], e), idx[3], e)
        == FinishAll(ps, idx, now)
  {
    var s := WithStatusAt(WithStatusAt(WithStatusAt(WithStatusAt(ps, idx[0], RESTING), idx[1], RESTING), idx[2], RESTING), idx[3], RESTING);
    StatusPhase(ps, idx, RESTING);
    var g := WithGameAddedAt(WithGameAddedAt(WithGameAddedAt(WithGameAddedAt(s, idx[0]), idx[1]), idx[2]), idx[3]);
    GamesPhase(s, idx);
    var e := now + REST_DURATION;
    var r := WithRestEndAt(WithRestEndAt(WithRestEndAt(WithRestEndAt(g, idx[0], e), idx[1], e), idx[2], e), idx[3], e);
    EndPhase(g, idx, e);
    forall k | 0 <= k < |ps| ensures r[k] == FinishAll(ps, idx, now)[k] {
      if Hits(idx, k) > 0 {
        assert s[k] == ps[k].(status := RESTING);
      } else {
        assert s[k] == ps[k];
      }
    }
  }

  /** When the four players are four different records, each of them becomes
      Resting with exactly one more game and the rest ending five minutes
      after `now`; every other player is unchanged, and no name changes. */
  lemma FinishAllDistinct(ps: seq<Player>, idx: seq<nat>, now: int)
    requires |idx| == 4 && forall i, j :: 0 <= i < j < 4 ==> idx[i] != idx[j]
    ensures forall j :: 0 <= j < 4 && idx[j] < |ps| ==>
      FinishAll(ps, idx, now)[idx[j]]
        == ps[idx[j]].(status := RESTING, gamesPlayed := ps[idx[j]].gamesPlayed + 1, restEndTime := now + REST_DURATION)
    ensures forall k :: 0 <= k < |ps| && k !in idx ==> FinishAll(ps, idx, now)[k] == ps[k]
    ensures SameNames(ps, FinishAll(ps, idx, now))
  {
  }

  /** `finishGame` keeps every Resting player's end time positive, provided
      the clock is not more than five minutes before time 0. */
  lemma FinishAllKeepsRestInvariant(ps: seq<Player>, idx: seq<nat>, now: int)
    requires |idx| == 4
    requires RestingHaveEndTime(ps)
    requires now > -REST_DURATION
    ensures RestingHaveEndTime(FinishAll(ps, idx, now))
  {
  }

  class GameService {
    var games: seq<Game>
    const playerService: PlayerService

    /** The game list as loaded from storage, over the shared registry. */
    constructor (playerService: PlayerService, stored: seq<Game>)
      ensures this.playerService == playerService && games == stored
    {
      this.playerService := playerService;
      games := stored;
    }

    /** `games = []` in `removeGamesToStorage`. */
    method ClearGames()
      modifies this
      ensures games == []
    {
      games := [];
    }

    /** `createGame()`: with at least four Available players (in the random
        order `pool`), the four least-played form a new Not Started game;
        otherwise nothing happens. No player record changes. */
    method CreateGame() returns (ghost pool: seq<Player>)
      modifies this
      ensures unchanged(playerService)
      ensures multiset(pool) == multiset(AvailableOf(playerService.players))
      ensures |pool| < 4 ==> games == old(games)
      ensures |pool| >= 4 ==> games == old(games) + [NewGame(SortPlayersByGamesPlayed(pool))]
    {
      var availablePlayers := playerService.GetAvailablePlayers();
      pool := availablePlayers;
      if |availablePlayers| >= 4 {
        var sortedPlayers := SortPlayersByGamesPlayed(availablePlayers);
        var team1 := sortedPlayers[0..2];
        var team2 := sortedPlayers[2..4];
        var game := Game(team1[0].name, team1[1].name, team2[0].name, team2[1].name, NOT_STARTED);
        assert game == NewGame(sortedPlayers);
        games := games + [game];
      }
    }

    /** `startGame(game)`: the game is In Game, whatever its status was. */
    method StartGame(g: nat)
      requires g < |games|
      modifies this
      ensures games == old(games)[g := old(games)[g].(status := IN_GAME)]
    {
      games := games[g := games[g].(status := IN_GAME)];
    }

    /** `finishGame(game, now)`: the game is Completed; when all four names
        resolve, those players rest (see `FinishAll`), otherwise no player
        changes. */
    method FinishGame(g: nat, now: int)
      requires g < |games|
      modifies this, playerService
      ensures games == old(games)[g := old(games)[g].(status := COMPLETED)]
      ensures var r := Resolve(old(playerService.players), old(games)[g]);
        playerService.players == if r.Some? then FinishAll(old(playerService.players), r.value, now)
                                 else old(playerService.players)
    {
      games := games[g := games[g].(status := COMPLETED)];
      var game := games[g];
      var ps := playerService.players;
      var player1 := FindByName(ps, game.player1);
      var player2 := FindByName(ps, game.player2);
      var player3 := FindByName(ps, game.player3);
      var player4 := FindByName(ps, game.player4);
      if player1.Some? && player2.Some? && player3.Some? && player4.Some? {
        var i1, i2, i3, i4 := player1.value, player2.value, player3.value, player4.value;
        ghost var idx := [i1, i2, i3, i4];
        assert forall j :: 0 <= j < 4 ==> idx[j] < |ps|;
        playerService.UpdatePlayerStatus(i1, RESTING);
        playerService.UpdatePlayerStatus(i2, RESTING);
        playerService.UpdatePlayerStatus(i3, RESTING);
        playerService.UpdatePlayerStatus(i4, RESTING);
        ghost var rested := playerService.players;
        assert rested == WithStatusAt(WithStatusAt(WithStatusAt(WithStatusAt(ps, i1, RESTING), i2, RESTING), i3, RESTING), i4, RESTING);

        playerService.IncrementGamesPlayed(i1);
        playerService.IncrementGamesPlayed(i2);
        playerService.IncrementGamesPlayed(i3);
        playerService.IncrementGamesPlayed(i4);
        assert playerService.players == WithGameAddedAt(WithGameAddedAt(WithGameAddedAt(WithGameAddedAt(rested, i1), i2), i3), i4);
        assert |playerService.players| == |ps|;

        var end := now + REST_DURATION;
        playerService.players := WithRestEndAt(playerService.players, i1, end);
        playerService.players := WithRestEndAt(playerService.players, i2, end);
        playerService.players := WithRestEndAt(playerService.players, i3, end);
        playerService.players := WithRestEndAt(playerService.players, i4, end);

        FinishSteps(ps, idx, now);
        assert Resolve(ps, game) == Some(idx);
      }
    }

    /** The `forEach` callback of the countdown for player `i`. */
    method TickOne(i: nat, now: int)
      requires i < |playerService.players|
      modifies playerService
      ensures playerService.players == old(playerService.players)[i := TickPlayer(old(playerService.players)[i], now)]
    {
      var player := playerService.players[i];
      if player.status == RESTING && player.restEndTime != 0 {
        var remainingTime := Max(player.restEndTime - now, 0);
        if remainingTime > 0 {
          player := player.(restTime := FormatRestTime(remainingTime));
        } else {
          player := player.(status := AVAILABLE, restEndTime := 0, restTime := "");
        }
        playerService.players := playerService.players[i := player];
      }
    }

    /** The body of the interval `startRestCountdown` arms: one tick at
        `now` over every player, in roster order. */
    method Tick(now: int)
      modifies playerService
      ensures playerService.players == TickAll(old(playerService.players), now)
    {
      var i := 0;
      while i < |playerService.players|
        invariant 0 <= i <= |playerService.players| == |old(playerService.players)|
        invariant forall k :: 0 <= k < i ==> playerService.players[k] == TickPlayer(old(playerService.players)[k], now)
        invariant forall k :: i <= k < |playerService.players| ==> playerService.players[k] == old(playerService.players)[k]
      {
        TickOne(i, now);
        i := i + 1;
      }
    }
  }
}
