/** The player registry (`PlayerService`): the roster list, the queries on it
    and the updates the rest of the app makes to its records. A JavaScript
    reference to a player record is modelled as that record's index in
    `players`. */
module PlayerServices {
  import opened Wrappers
  import opened Seqs
  import opened Models

  /** The record `addPlayer` pushes for a new name. */
  function NewPlayer(name: string): Player
  {
    Player(name, 0, AVAILABLE, false, 0, "")
  }

  /** The roster with record `i`'s status overwritten. */
  function WithStatusAt(ps: seq<Player>, i: nat, status: string): seq<Player>
    requires i < |ps|
  {
    ps[i := ps[i].(status := status)]
  }

  /** The roster with one more game for record `i`. */
  function WithGameAddedAt(ps: seq<Player>, i: nat): seq<Player>
    requires i < |ps|
  {
    ps[i := ps[i].(gamesPlayed := ps[i].gamesPlayed + 1)]
  }

  /** The roster with record `i`'s rest end time overwritten. */
  function WithRestEndAt(ps: seq<Player>, i: nat, end: int): seq<Player>
    requires i < |ps|
  {
    ps[i := ps[i].(restEndTime := end)]
  }

  /** `players.find(player => player.name === name)`: the first player with
      exactly that name, or nothing. */
  function FindByName(ps: seq<Player>, name: string): (r: Option<nat>)
    ensures r.Some? ==> r.value < |ps| && ps[r.value].name == name
    ensures r.Some? ==> forall j :: 0 <= j < r.value ==> ps[j].name != name
    ensures r.None? ==> forall j :: 0 <= j < |ps| ==> ps[j].name != name
  {
    if ps == [] then None
    else if ps[0].name == name then Some(0)
    else
      match FindByName(ps[1..], name)
      case None => None
      case Some(k) => Some(k + 1)
  }

  /** `players.some(player => player.name === name)`. */
  predicate HasName(ps: seq<Player>, name: string)
  {
    ps != [] && (ps[0].name == name || HasName(ps[1..], name))
  }

  /** `isPlayerAlreadyExist(n)` holds exactly when `getPlayerByName(n)` finds
      a player. */
  lemma {:induction false} HasNameIffFound(ps: seq<Player>, name: string)
    ensures HasName(ps, name) <==> FindByName(ps, name).Some?
  {
    if ps != [] {
      HasNameIffFound(ps[1..], name);
    }
  }

  /** `players.filter(player => player.status === 'Available')`. */
  function AvailableOf(ps: seq<Player>): seq<Player>
  {
    Filter(ps, StatusIs(AVAILABLE))
  }

  /** The available list holds each Available record as often as the roster
      does, and nothing else. */
  lemma AvailableOfExactly(ps: seq<Player>, p: Player)
    ensures multiset(AvailableOf(ps))[p] == if p.status == AVAILABLE then multiset(ps)[p] else 0
  {
    FilterMultiset(ps, StatusIs(AVAILABLE), p);
  }

  /** `sortPlayersByGamesPlayed`: `sort((a, b) => a.gamesPlayed - b.gamesPlayed)`,
      ascending in games played and a permutation of its input. */
  function SortPlayersByGamesPlayed(ps: seq<Player>): (r: seq<Player>)
    ensures |r| == |ps| && multiset(r) == multiset(ps)
    ensures forall i, j :: 0 <= i < j < |r| ==> r[i].gamesPlayed <= r[j].gamesPlayed
  {
    var r := SortBy(ps, GamesPlayed);
    assert forall i, j :: 0 <= i < j < |r| ==> GamesPlayed(r[i]) <= GamesPlayed(r[j]);
    r
  }

  /** Appending a record leaves the first match of every name that already
      had one, and makes a name that had none resolve to the new record. */
  lemma FindByNameAfterAppend(ps: seq<Player>, p: Player, name: string)
    ensures FindByName(ps, name).Some? ==> FindByName(ps + [p], name) == FindByName(ps, name)
    ensures FindByName(ps, name).None? && p.name == name ==> FindByName(ps + [p], name) == Some(|ps|)
    ensures FindByName(ps, name).None? && p.name != name ==> FindByName(ps + [p], name).None?
  {
    var qs := ps + [p];
    assert forall j :: 0 <= j < |ps| ==> qs[j] == ps[j];
    if FindByName(ps, name).None? && p.name == name {
      var r := FindByName(qs, name);
      assert qs[|ps|].name == name;
      assert r.Some? && !(r.value < |ps|);
    }
  }

  /** Two rosters with the same names at the same positions. */
  predicate SameNames(ps: seq<Player>, qs: seq<Player>)
  {
    |ps| == |qs| && forall i :: 0 <= i < |ps| ==> ps[i].name == qs[i].name
  }

  /** Lookups only look at names, so updates that keep every name keep every
      lookup. */
  lemma FindByNameSameNames(ps: seq<Player>, qs: seq<Player>, name: string)
    requires SameNames(ps, qs)
    ensures FindByName(ps, name) == FindByName(qs, name)
  {
    var a, b := FindByName(ps, name), FindByName(qs, name);
    if a.Some? && b.Some? {
      assert !(a.value < b.value) && !(b.value < a.value);
    }
  }

  lemma {:induction false} CountAtMostOne(ps: seq<Player>, p: Player)
    requires NamesDistinct(ps)
    ensures multiset(ps)[p] <= 1
  {
    if ps != [] {
      assert ps == [ps[0]] + ps[1..];
      assert NamesDistinct(ps[1..]) by {
        forall i, j | 0 <= i < j < |ps[1..]| ensures ps[1..][i].name != ps[1..][j].name {
          assert ps[1..][i] == ps[i + 1] && ps[1..][j] == ps[j + 1];
        }
      }
      CountAtMostOne(ps[1..], p);
      if ps[0] == p {
        assert p !in ps[1..] by {
          forall k | 0 <= k < |ps[1..]| ensures ps[1..][k] != p {
            assert ps[1..][k] == ps[k + 1];
          }
        }
      }
    }
  }

  lemma CountAtLeastTwo(q: seq<Player>, a: nat, b: nat)
    requires a < b < |q| && q[a] == q[b]
    ensures multiset(q)[q[a]] >= 2
  {
    assert q == q[..a] + [q[a]] + q[a + 1..b] + [q[b]] + q[b + 1..];
  }

  /** Records drawn (without repetition) from a roster whose names are
      distinct have distinct names too. */
  lemma {:induction false} NamesDistinctSubMultiset(ps: seq<Player>, q: seq<Player>)
    requires NamesDistinct(ps)
    requires multiset(q) <= multiset(ps)
    ensures NamesDistinct(q)
  {
    forall a, b | 0 <= a < b < |q| ensures q[a].name != q[b].name {
      if q[a].name == q[b].name {
        assert q[a] in multiset(ps) && q[b] in multiset(ps);
        var i :| 0 <= i < |ps| && ps[i] == q[a];
        var j :| 0 <= j < |ps| && ps[j] == q[b];
        assert i == j;
        CountAtLeastTwo(q, a, b);
        CountAtMostOne(ps, q[a]);
        assert false;
      }
    }
  }

  /** The registry. Every mutating method of the source ends by saving to
      local storage and emitting a change event; both are left out. */
  class PlayerService {
    var players: seq<Player>

    /** The roster as loaded from storage (empty when nothing was stored). */
    constructor (stored: seq<Player>)
      ensures players == stored
    {
      players := stored;
    }

    /** The list-clearing part of `removePlayersToStorage`. */
    method ClearPlayers()
      modifies this
      ensures players == []
    {
      players := [];
    }

    /** `addPlayer(name)`: pushes a fresh Available record; nothing is checked
        here (the add-player form checks for duplicates). */
    method AddPlayer(name: string)
      modifies this
      ensures players == old(players) + [NewPlayer(name)]
      ensures HasName(players, name)
    {
      players := players + [NewPlayer(name)];
      FindByNameAfterAppend(old(players), NewPlayer(name), name);
      HasNameIffFound(players, name);
    }

    /** `updatePlayerStatus(player, status)`: overwrites the status only. */
    method UpdatePlayerStatus(i: nat, status: string)
      requires i < |players|
      modifies this
      ensures players == WithStatusAt(old(players), i, status)
    {
      players := players[i := players[i].(status := status)];
    }

    /** `incrementGamesPlayed(player)`: one more game, nothing else. */
    method IncrementGamesPlayed(i: nat)
      requires i < |players|
      modifies this
      ensures players == WithGameAddedAt(old(players), i)
    {
      players := players[i := players[i].(gamesPlayed := players[i].gamesPlayed + 1)];
    }

    /** `getAvailablePlayers()`: the Available records in a random order (the
        source sorts with a random comparator); any order may come back. */
    method GetAvailablePlayers() returns (r: seq<Player>)
      ensures |r| == |AvailableOf(players)|
      ensures multiset(r) == multiset(AvailableOf(players))
      ensures forall k :: 0 <= k < |r| ==> r[k].status == AVAILABLE && r[k] in players
    {
      var filtered := AvailableOf(players);
      r :| multiset(r) == multiset(filtered);
      assert |r| == |multiset(r)| == |multiset(filtered)| == |filtered|;
      forall k | 0 <= k < |r| ensures r[k].status == AVAILABLE && r[k] in players {
        assert r[k] in multiset(filtered);
      }
    }

    /** `resetPlayerStatus()`: every status becomes Available; no other
        field changes. */
    method ResetPlayerStatus()
      modifies this
      ensures |players| == |old(players)|
      ensures forall i :: 0 <= i < |players| ==> players[i] == old(players)[i].(status := AVAILABLE)
    {
      var i := 0;
      while i < |players|
        invariant 0 <= i <= |players| == |old(players)|
        invariant forall k :: 0 <= k < i ==> players[k] == old(players)[k].(status := AVAILABLE)
        invariant forall k :: i <= k < |players| ==> players[k] == old(players)[k]
      {
        players := players[i := players[i].(status := AVAILABLE)];
        i := i + 1;
      }
    }

    /** `shufflePlayers()`: a Fisher-Yates shuffle in place; `j` is the
        random draw in `0..i`. The roster keeps its length and its records. */
    method ShufflePlayers()
      modifies this
      ensures |players| == |old(players)|
      ensures multiset(players) == multiset(old(players))
    {
      var i := |players| - 1;
      while i > 0
        invariant i < |players| == |old(players)|
        invariant multiset(players) == multiset(old(players))
      {
        var j :| 0 <= j <= i;
        players := players[i := players[j]][j := players[i]];
        i := i - 1;
      }
    }
  }
}
