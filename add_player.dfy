/** The add-player form (`AddPlayerComponent`): the typed name is upper-cased,
    refused when the roster already holds it, and otherwise added. */
module AddPlayer {
  import opened Text
  import opened Models
  import opened PlayerServices

  /** Every name on the roster is upper-case. */
  predicate NamesUpper(ps: seq<Player>)
  {
    forall k :: 0 <= k < |ps| ==> IsUpperAscii(ps[k].name)
  }

  /** Adding a name the roster does not hold keeps the names distinct. */
  lemma AddKeepsNamesDistinct(ps: seq<Player>, name: string)
    requires NamesDistinct(ps)
    requires !HasName(ps, name)
    ensures NamesDistinct(ps + [NewPlayer(name)])
  {
    HasNameIffFound(ps, name);
    var qs := ps + [NewPlayer(name)];
    forall i, j | 0 <= i < j < |qs| ensures qs[i].name != qs[j].name {
      if j < |ps| {
        assert qs[i] == ps[i] && qs[j] == ps[j];
      } else {
        assert qs[i] == ps[i];
      }
    }
  }

  /** Adding an upper-cased name keeps every name upper-case. */
  lemma AddKeepsNamesUpper(ps: seq<Player>, typed: string)
    requires NamesUpper(ps)
    ensures NamesUpper(ps + [NewPlayer(ToUpperAscii(typed))])
  {
    ToUpperIdempotent(typed);
    var qs := ps + [NewPlayer(ToUpperAscii(typed))];
    forall k | 0 <= k < |qs| ensures IsUpperAscii(qs[k].name) {
      if k < |ps| {
        assert qs[k] == ps[k];
      }
    }
  }

  /** Whether `addPlayer()` adds the typed text: its upper-case form is not
      on the roster yet and the field is not empty. */
  predicate Accepted(ps: seq<Player>, typed: string)
  {
    !HasName(ps, ToUpperAscii(typed)) && typed != ""
  }

  /** The roster after `addPlayer()` with `typed` in the field. */
  function AddedRoster(ps: seq<Player>, typed: string): seq<Player>
  {
    if Accepted(ps, typed) then ps + [NewPlayer(ToUpperAscii(typed))] else ps
  }

  /** Once a name is added, a second `addPlayer()` with the same name in any
      letter case is refused and leaves the roster as the first one left it:
      the duplicate check compares upper-cased names. */
  lemma SecondAddRefused(ps: seq<Player>, first: string, second: string)
    requires ToUpperAscii(first) == ToUpperAscii(second)
    ensures !Accepted(AddedRoster(ps, first), second)
    ensures AddedRoster(AddedRoster(ps, first), second) == AddedRoster(ps, first)
  {
    var name := ToUpperAscii(first);
    if Accepted(ps, first) {
      FindByNameAfterAppend(ps, NewPlayer(name), name);
      HasNameIffFound(ps + [NewPlayer(name)], name);
    } else if first == "" {
      assert |second| == |name| == 0;
    }
  }

  class AddPlayerComponent {
    /** The text bound to the name field. */
    var newPlayerName: string
    const playerService: PlayerService

    constructor (playerService: PlayerService)
      ensures this.playerService == playerService && newPlayerName == ""
    {
      this.playerService := playerService;
      newPlayerName := "";
    }

    /** `addPlayer()`: a name whose upper-case form is already on the roster
        is refused (with an alert, left out) and the field keeps its text;
        an empty field does nothing; otherwise the upper-cased name is added
        and the field is cleared. The roster keeps distinct, upper-case
        names. */
    method AddPlayer()
      modifies this, playerService
      ensures playerService.players == AddedRoster(old(playerService.players), old(newPlayerName))
      ensures newPlayerName == if Accepted(old(playerService.players), old(newPlayerName)) then ""
                               else old(newPlayerName)
      ensures NamesDistinct(old(playerService.players)) ==> NamesDistinct(playerService.players)
      ensures NamesUpper(old(playerService.players)) ==> NamesUpper(playerService.players)
    {
      var upper := ToUpperAscii(newPlayerName);
      if HasName(playerService.players, upper) {
        return;
      }
      if newPlayerName != "" {
        if NamesDistinct(playerService.players) {
          AddKeepsNamesDistinct(playerService.players, upper);
        }
        if NamesUpper(playerService.players) {
          AddKeepsNamesUpper(playerService.players, newPlayerName);
        }
        playerService.AddPlayer(upper);
        newPlayerName := "";
      }
    }
  }
}
