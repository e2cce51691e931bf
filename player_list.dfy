/** The roster screen (`PlayerListComponent`): overriding a rest, removing a
    row, and the status badge. The component's `players` list is the
    registry's list (the same array object), so it is read and spliced
    through `playerService.players`. */
module PlayerList {
  import opened Seqs
  import opened Models
  import opened PlayerServices
  import opened GameServices

  /** `getPlayerStatusClass(status)`: the badge style of a player status. */
  function PlayerStatusClass(status: string): (c: string)
    ensures c == "available-status" <==> status == AVAILABLE
    ensures c == "in-game-status" <==> status == IN_GAME
    ensures c == "resting-status" <==> status == RESTING
    ensures c == "" <==> status != AVAILABLE && status != IN_GAME && status != RESTING
  {
    if status == AVAILABLE then "available-status"
    else if status == IN_GAME then "in-game-status"
    else if status == RESTING then "resting-status"
    else ""
  }

  /** An override makes the player Available and leaves their end time and
      countdown text as they were, so the rest invariant is kept and the
      countdown, which only looks at Resting players, never touches them
      again. */
  lemma OverrideRestEffect(ps: seq<Player>, i: nat, now: int)
    requires i < |ps|
    ensures var r := WithStatusAt(ps, i, AVAILABLE);
      r[i].status == AVAILABLE && r[i].restEndTime == ps[i].restEndTime && r[i].restTime == ps[i].restTime
      && TickPlayer(r[i], now) == r[i]
    ensures RestingHaveEndTime(ps) ==> RestingHaveEndTime(WithStatusAt(ps, i, AVAILABLE))
  {
    var r := WithStatusAt(ps, i, AVAILABLE);
    if RestingHaveEndTime(ps) {
      forall k | 0 <= k < |r| && r[k].status == RESTING ensures r[k].restEndTime != 0 {
        assert k != i && r[k] == ps[k];
      }
    }
  }

  /** An Available player can still carry a rest end time: the override does
      not clear it. */
  lemma OverrideKeepsStaleEndTime()
    ensures var ps := [Player("A", 1, RESTING, false, 300000, "| 5:00")];
      var r := WithStatusAt(ps, 0, AVAILABLE);
      r[0].status == AVAILABLE && r[0].restEndTime == 300000 && r[0].restTime == "| 5:00"
  {
  }

  /** Removing a row keeps the rest of the roster in order, so distinct
      names and the rest invariant survive it. */
  lemma RemoveKeepsInvariants(ps: seq<Player>, index: int)
    ensures NamesDistinct(ps) ==> NamesDistinct(SpliceOne(ps, index))
    ensures RestingHaveEndTime(ps) ==> RestingHaveEndTime(SpliceOne(ps, index))
  {
    var k := if index < 0 then Max(|ps| + index, 0) else Min(index, |ps|);
    if k < |ps| {
      var r := SpliceOne(ps, index);
      assert r == ps[..k] + ps[k + 1..];
      assert forall j :: 0 <= j < |r| ==> r[j] == if j < k then ps[j] else ps[j + 1];
    }
  }

  class PlayerListComponent {
    const playerService: PlayerService

    constructor (playerService: PlayerService)
      ensures this.playerService == playerService
    {
      this.playerService := playerService;
    }

    /** `overrideRest(player)`: the player becomes Available; nothing else
        about the record changes. */
    method OverrideRest(i: nat)
      requires i < |playerService.players|
      modifies playerService
      ensures playerService.players == WithStatusAt(old(playerService.players), i, AVAILABLE)
    {
      playerService.UpdatePlayerStatus(i, AVAILABLE);
    }

    /** `removePlayer(index)`: `players.splice(index, 1)`; a valid index drops
        exactly that row. */
    method RemovePlayer(index: int)
      modifies playerService
      ensures playerService.players == SpliceOne(old(playerService.players), index)
      ensures 0 <= index < |old(playerService.players)| ==>
        multiset(playerService.players) + multiset{old(playerService.players)[index]}
          == multiset(old(playerService.players))
    {
      if 0 <= index < |playerService.players| {
        SpliceOneAt(playerService.players, index);
      }
      playerService.players := SpliceOne(playerService.players, index);
    }
  }
}
