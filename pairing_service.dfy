/** The pairing service (`PairingService`): name lists (roster, queue, and
    stacks of Available, In Game and Resting names), a games-played map, a
    roster of `Player` objects, and the generator of candidate pairings. A
    JavaScript `undefined` that the service can store (the latest player of
    an empty list) is `None`. */
module Pairing {
  import opened Wrappers
  import opened Seqs
  import opened Models

  /** One entry of a pairing: a name with its games played. */
  datatype Pick = Pick(name: string, gamesPlayed: int)

  /** An object of the `Player` class this service keeps in `playerList`. */
  datatype RosterEntry = RosterEntry(name: string, gamesPlayed: int, status: string)

  function PickGames(p: Pick): int { p.gamesPlayed }

  /** `playerGamesMap.get(player) || 0`. */
  function GamesOf(m: map<Option<string>, int>, name: string): int
  {
    if Some(name) in m then m[Some(name)] else 0
  }

  /** `players.map(player => ({ name: player, gamesPlayed: ... }))`. */
  function WithGames(names: seq<string>, m: map<Option<string>, int>): (r: seq<Pick>)
    ensures |r| == |names|
    ensures forall i :: 0 <= i < |r| ==> r[i].name == names[i] && r[i].gamesPlayed == GamesOf(m, names[i])
  {
    seq(|names|, i requires 0 <= i < |names| => Pick(names[i], GamesOf(m, names[i])))
  }

  /** The number of rounds `generatePairings` runs for `n` players. */
  function GameCount(n: nat): nat
  {
    Max(5, (n + 3) / 4)
  }

  /** `Math.max(5, n / 4)`, computed on reals as JavaScript numbers are. */
  function RoundBound(n: nat): real
  {
    if 5.0 >= n as real / 4.0 then 5.0 else n as real / 4.0
  }

  /** The loop `for (game = 0; game < Math.max(5, n / 4); game++)` runs
      exactly `GameCount(n)` times: at least five rounds, and one round per
      four players, rounded up. */
  lemma GameCountMatchesLoop(n: nat, game: nat)
    ensures game < GameCount(n) <==> (game as real) < RoundBound(n)
    ensures GameCount(n) >= 5 && 4 * GameCount(n) >= n
  {
    assert (game as real) < n as real / 4.0 <==> 4 * game < n;
  }

  /** The front of the queue as `getPlayerFromQueue` returns it. */
  function Front(q: seq<string>): string
  {
    if q == [] then "" else q[0]
  }

  /** The queue after one `getPlayerFromQueue`. */
  function Rest(q: seq<string>): seq<string>
  {
    if q == [] then [] else q[1..]
  }

  /** The names `n` successive `getPlayerFromQueue` calls return. */
  function Drain(q: seq<string>, n: nat): (r: seq<string>)
    ensures |r| == n
  {
    if n == 0 then [] else [Front(q)] + Drain(Rest(q), n - 1)
  }

  /** The queue is first in, first out: draining it returns its names in
      order, then empty names once it is exhausted. */
  lemma {:induction false} DrainIsQueueOrder(q: seq<string>, n: nat)
    ensures n <= |q| ==> Drain(q, n) == q[..n]
    ensures n > |q| ==> Drain(q, n) == q + seq(n - |q|, _ => "")
  {
    if n > 0 {
      DrainIsQueueOrder(Rest(q), n - 1);
      if q == [] {
        assert seq(n, _ => "") == [""] + seq(n - 1, _ => "");
      } else {
        assert q == [q[0]] + q[1..];
        if n <= |q| {
          assert q[..n] == [q[0]] + q[1..][..n - 1];
        }
      }
    }
  }

  /** What `array.pop()` leaves of a list: the last element removed, an
      empty list left empty. */
  function Pop<T>(s: seq<T>): (r: seq<T>)
    ensures |r| == if s == [] then 0 else |s| - 1
  {
    if s == [] then [] else s[..|s| - 1]
  }

  /** Pushing then popping gives the list back. */
  lemma PopAfterPush<T>(s: seq<T>, x: T)
    ensures Pop(s + [x]) == s
  {
    assert (s + [x])[..|s|] == s;
  }

  /** Exchanging two entries keeps the same entries. */
  lemma SwapKeepsMultiset<T>(s: seq<T>, i: nat, j: nat)
    requires i < |s| && j < |s|
    ensures multiset(s[i := s[j]][j := s[i]]) == multiset(s)
  {
  }

  /** The first `n` entries of a list are some of its entries. */
  lemma PrefixSubMultiset<T>(s: seq<T>, n: nat)
    requires n <= |s|
    ensures multiset(s[..n]) <= multiset(s)
  {
    assert s == s[..n] + s[n..];
  }

  /** The filter predicate `inPlayer => inPlayer.getName() !== player`. */
  function NameIsNot(name: string): RosterEntry -> bool
  {
    (e: RosterEntry) => e.name != name
  }

  /** `removePlayer` drops every entry with that name and keeps every other
      entry as often as it occurred. */
  lemma RemoveByNameExactly(es: seq<RosterEntry>, name: string, e: RosterEntry)
    ensures multiset(Filter(es, NameIsNot(name)))[e] == if e.name != name then multiset(es)[e] else 0
  {
    FilterMultiset(es, NameIsNot(name), e);
  }

  /** Removing a name twice is removing it once. */
  lemma RemoveByNameIdempotent(es: seq<RosterEntry>, name: string)
    ensures Filter(Filter(es, NameIsNot(name)), NameIsNot(name)) == Filter(es, NameIsNot(name))
  {
    FilterIdempotent(es, NameIsNot(name));
  }

  /** Removing a name just added to a roster without it gives the roster
      back. */
  lemma RemoveUndoesAdd(es: seq<RosterEntry>, name: string)
    requires forall k :: 0 <= k < |es| ==> es[k].name != name
    ensures Filter(es + [RosterEntry(name, 0, AVAILABLE)], NameIsNot(name)) == es
  {
    var e := RosterEntry(name, 0, AVAILABLE);
    FilterConcat(es, [e], NameIsNot(name));
    FilterKeepsAll(es, NameIsNot(name));
    assert [e][1..] == [];
  }

  class PairingService {
    var players: seq<string>
    var playerQueue: seq<string>
    var playersAvailable: seq<Option<string>>
    var playersInGame: seq<string>
    var playersInRest: seq<string>
    var pairings: seq<seq<Pick>>
    var playerGamesMap: map<Option<string>, int>
    var playerList: seq<RosterEntry>

    constructor ()
      ensures players == [] && playerQueue == [] && playersAvailable == [] && playersInGame == []
      ensures playersInRest == [] && pairings == [] && playerGamesMap == map[] && playerList == []
    {
      players := [];
      playerQueue := [];
      playersAvailable := [];
      playersInGame := [];
      playersInRest := [];
      pairings := [];
      playerGamesMap := map[];
      playerList := [];
    }

    /** `setPlayers(players)`: the roster and a copy of it as the queue; the
        last name (`undefined` for an empty list) gets zero games in the map
        and is pushed as Available. */
    method SetPlayers(ps: seq<string>)
      modifies this`players, this`playerQueue, this`playerGamesMap, this`playersAvailable
      ensures players == ps && playerQueue == ps
      ensures var latest := if ps == [] then None else Some(ps[|ps| - 1]);
        playerGamesMap == old(playerGamesMap)[latest := 0]
        && playersAvailable == old(playersAvailable) + [latest]
    {
      players := ps;
      playerQueue := ps;
      var latestPlayer := if ps == [] then None else Some(ps[|ps| - 1]);
      playerGamesMap := playerGamesMap[latestPlayer := 0];
      SetPlayersAvailable(latestPlayer);
    }

    /** `addPlayer(player)`: a new `Player(player, 0, "Available")` at the end. */
    method AddPlayer(player: string)
      modifies this`playerList
      ensures playerList == old(playerList) + [RosterEntry(player, 0, AVAILABLE)]
    {
      playerList := playerList + [RosterEntry(player, 0, AVAILABLE)];
    }

    /** `removePlayer(player)`: every entry with that name is dropped, the
        others keep their order (see `RemoveByNameExactly`). */
    method RemovePlayer(player: string)
      modifies this`playerList
      ensures playerList == Filter(old(playerList), NameIsNot(player))
      ensures forall k :: 0 <= k < |playerList| ==> playerList[k].name != player
    {
      playerList := Filter(playerList, NameIsNot(player));
    }

    /** `shuffleArrayWithGames(array)`: sorts the array in place by games
        played, then Fisher-Yates shuffles it in place (`j` is the random
        draw in `0..i`); the same array comes back, holding the same
        entries. */
    method ShuffleArrayWithGames(a: array<Pick>) returns (r: array<Pick>)
      modifies a
      ensures r == a
      ensures multiset(a[..]) == multiset(old(a[..]))
    {
      var sorted := SortBy(a[..], PickGames);
      forall k | 0 <= k < a.Length {
        a[k] := sorted[k];
      }
      assert a[..] == sorted;
      var i := a.Length - 1;
      while i > 0
        invariant i < a.Length
        invariant multiset(a[..]) == multiset(old(a[..]))
      {
        var j :| 0 <= j <= i;
        ghost var before := a[..];
        a[i], a[j] := a[j], a[i];
        assert a[..] == before[i := before[j]][j := before[i]];
        SwapKeepsMultiset(before, i, j);
        i := i - 1;
      }
      r := a;
    }

    /** `generatePairings()`: `GameCount(|players|)` rounds, each shuffling
        the same working array again (`rounds[k]` is its order in round `k`,
        some permutation of the roster with games) and taking its first four
        entries.
        With fewer than four players the first round reads past the end of
        the array and throws (`None`), leaving no pairings. */
    method GeneratePairings() returns (result: Option<seq<seq<Pick>>>, ghost rounds: seq<seq<Pick>>)
      modifies this`pairings
      ensures |players| < 4 ==> result == None && pairings == []
      ensures |players| >= 4 ==> result == Some(pairings) && |pairings| == GameCount(|players|)
      ensures |rounds| == |pairings|
      ensures forall k :: 0 <= k < |pairings| ==>
        multiset(rounds[k]) == multiset(WithGames(players, playerGamesMap))
        && |rounds[k]| >= 4 && pairings[k] == rounds[k][..4]
      ensures forall k :: 0 <= k < |pairings| ==>
        |pairings[k]| == 4 && multiset(pairings[k]) <= multiset(WithGames(players, playerGamesMap))
    {
      rounds := [];
      pairings := [];
      var totalPlayers := |players|;
      var playersWithGames := WithGames(players, playerGamesMap);
      var work := new Pick[totalPlayers](i requires 0 <= i < totalPlayers => playersWithGames[i]);
      assert work[..] == playersWithGames;
      var game := 0;
      while game < GameCount(totalPlayers)
        invariant 0 <= game <= GameCount(totalPlayers)
        invariant |pairings| == game == |rounds|
        invariant forall k :: 0 <= k < |pairings| ==>
          multiset(rounds[k]) == multiset(playersWithGames) && |rounds[k]| >= 4 && pairings[k] == rounds[k][..4]
        invariant totalPlayers < 4 ==> game == 0
        invariant work.Length == totalPlayers
        invariant multiset(work[..]) == multiset(playersWithGames)
      {
        var shuffledPlayers := ShuffleArrayWithGames(work);
        if shuffledPlayers.Length < 4 {
          result := None;
          return;
        }
        var pairing := [shuffledPlayers[0], shuffledPlayers[1], shuffledPlayers[2], shuffledPlayers[3]];
        assert pairing == work[..][..4];
        pairings := pairings + [pairing];
        rounds := rounds + [work[..]];
        game := game + 1;
      }
      result := Some(pairings);
      forall k | 0 <= k < |pairings|
        ensures |pairings[k]| == 4 && multiset(pairings[k]) <= multiset(WithGames(players, playerGamesMap))
      {
        PrefixSubMultiset(rounds[k], 4);
      }
    }

    /** `updatePlayerQueue(queue)`. */
    method UpdatePlayerQueue(queue: seq<string>)
      modifies this`playerQueue
      ensures playerQueue == queue
    {
      playerQueue := queue;
    }

    /** `getPlayerFromQueue()`: takes the front name off the queue, or
        returns the empty name when the queue is empty (see
        `DrainIsQueueOrder`). */
    method GetPlayerFromQueue() returns (player: string)
      modifies this`playerQueue
      ensures player == Front(old(playerQueue)) && playerQueue == Rest(old(playerQueue))
    {
      if |playerQueue| > 0 {
        player := playerQueue[0];
        playerQueue := playerQueue[1..];
      } else {
        player := "";
      }
    }

    method SetPlayersAvailable(player: Option<string>)
      modifies this`playersAvailable
      ensures playersAvailable == old(playersAvailable) + [player]
    {
      playersAvailable := playersAvailable + [player];
    }

    /** `removePlayersAvailable(player)`: pops the last name, whichever it
        is; the argument is not used. */
    method RemovePlayersAvailable(player: string)
      modifies this`playersAvailable
      ensures playersAvailable == Pop(old(playersAvailable))
    {
      playersAvailable := Pop(playersAvailable);
    }

    method SetPlayersInGame(player: string)
      modifies this`playersInGame
      ensures playersInGame == old(playersInGame) + [player]
    {
      playersInGame := playersInGame + [player];
    }

    /** `removePlayersInGame(player)`: pops the last name; the argument is
        not used. */
    method RemovePlayersInGame(player: string)
      modifies this`playersInGame
      ensures playersInGame == Pop(old(playersInGame))
    {
      playersInGame := Pop(playersInGame);
    }

    method SetPlayersInRest(player: string)
      modifies this`playersInRest
      ensures playersInRest == old(playersInRest) + [player]
    {
      playersInRest := playersInRest + [player];
    }

    /** `removePlayersInRest(player)`: pops the last name; the argument is
        not used. */
    method RemovePlayersInRest(player: string)
      modifies this`playersInRest
      ensures playersInRest == Pop(old(playersInRest))
    {
      playersInRest := Pop(playersInRest);
    }

    /** The callback `executeRestPeriod` schedules two minutes ahead: the
        most recently rested name moves to the Available list; nothing
        happens when no one is resting by then. */
    method RestPeriodElapsed()
      modifies this`playersInRest, this`playersAvailable
      ensures old(playersInRest) == [] ==> playersInRest == [] && playersAvailable == old(playersAvailable)
      ensures old(playersInRest) != [] ==>
        playersInRest == Pop(old(playersInRest))
        && playersAvailable == old(playersAvailable) + [Some(old(playersInRest)[|old(playersInRest)| - 1])]
      ensures |playersInRest| + |playersAvailable| == |old(playersInRest)| + |old(playersAvailable)|
    {
      if playersInRest != [] {
        var player := playersInRest[|playersInRest| - 1];
        playersInRest := Pop(playersInRest);
        SetPlayersAvailable(Some(player));
      }
    }
  }
}
