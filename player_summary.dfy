/** The roster summary (`PlayerSummaryComponent`): how many players there are
    in each status, and the one-line text shown above the roster. */
module Summary {
  import opened Seqs
  import opened Text
  import opened Models
  import opened PlayerServices

  /** The counters the component keeps (the `PlayerSummary` record). */
  datatype PlayerSummary = PlayerSummary(
    playersTotal: nat,
    playersAvailable: nat,
    playersInGame: nat,
    playersAtRest: nat,
    playersOnHold: nat)

  /** `players.filter(p => p.status === st).length`. */
  function CountStatus(ps: seq<Player>, st: string): nat
  {
    |Filter(ps, StatusIs(st))|
  }

  /** The four statuses the summary counts. */
  predicate KnownStatus(st: string)
  {
    st == AVAILABLE || st == IN_GAME || st == RESTING || st == ON_HOLD
  }

  function UnknownStatus(): Player -> bool
  {
    (p: Player) => !KnownStatus(p.status)
  }

  /** Every player is counted in exactly one of the four counters or has a
      status the summary does not count. */
  lemma {:induction false} StatusCountsPartition(ps: seq<Player>)
    ensures CountStatus(ps, AVAILABLE) + CountStatus(ps, IN_GAME) + CountStatus(ps, RESTING)
      + CountStatus(ps, ON_HOLD) + |Filter(ps, UnknownStatus())| == |ps|
  {
    if ps != [] {
      StatusCountsPartition(ps[1..]);
    }
  }

  /** The four counters never add up to more than the total, and they add up
      to exactly the total when every player has one of the four statuses. */
  lemma StatusCountsCover(ps: seq<Player>)
    ensures CountStatus(ps, AVAILABLE) + CountStatus(ps, IN_GAME) + CountStatus(ps, RESTING)
      + CountStatus(ps, ON_HOLD) <= |ps|
    ensures CountStatus(ps, AVAILABLE) + CountStatus(ps, IN_GAME) + CountStatus(ps, RESTING)
      + CountStatus(ps, ON_HOLD) == |ps|
      <==> forall k :: 0 <= k < |ps| ==> KnownStatus(ps[k].status)
  {
    StatusCountsPartition(ps);
    var u := Filter(ps, UnknownStatus());
    if u != [] {
      assert UnknownStatus()(u[0]);
    }
  }

  /** The counters `getPlayersSummary` stores for a roster. */
  function SummaryOf(ps: seq<Player>): PlayerSummary
  {
    PlayerSummary(|ps|, CountStatus(ps, AVAILABLE), CountStatus(ps, IN_GAME),
                  CountStatus(ps, RESTING), CountStatus(ps, ON_HOLD))
  }

  const TOTAL_LABEL: string := "Total Players: "
  const AVAILABLE_LABEL: string := ", Available Players: "
  const IN_GAME_LABEL: string := ", In Game Players: "

  /** The summary line. */
  function SummaryText(total: nat, available: nat, inGame: nat): string
  {
    TOTAL_LABEL + (NatToString(total) + (AVAILABLE_LABEL + (NatToString(available)
    + (IN_GAME_LABEL + NatToString(inGame)))))
  }

  lemma StripPrefix(p: string, x: string, y: string)
    requires p + x == p + y
    ensures x == y
  {
    assert x == (p + x)[|p|..] && y == (p + y)[|p|..];
  }

  /** The number of decimal digits at the front of a string. */
  function LeadingDigits(s: string): nat
  {
    if s != [] && IsDigit(s[0]) then 1 + LeadingDigits(s[1..]) else 0
  }

  lemma {:induction false} LeadingDigitsOf(a: string, x: string)
    requires forall i :: 0 <= i < |a| ==> IsDigit(a[i])
    requires x != [] && !IsDigit(x[0])
    ensures LeadingDigits(a + x) == |a|
  {
    if a != [] {
      assert (a + x)[0] == a[0] && (a + x)[1..] == a[1..] + x;
      LeadingDigitsOf(a[1..], x);
    } else {
      assert a + x == x;
    }
  }

  /** A number followed by a separator can be split off unambiguously. */
  lemma SplitNumber(m: nat, x: string, n: nat, y: string)
    requires x != [] && !IsDigit(x[0]) && y != [] && !IsDigit(y[0])
    requires NatToString(m) + x == NatToString(n) + y
    ensures m == n && x == y
  {
    var a, b := NatToString(m), NatToString(n);
    LeadingDigitsOf(a, x);
    LeadingDigitsOf(b, y);
    assert a == (a + x)[..|a|] && b == (b + y)[..|b|];
    assert x == (a + x)[|a|..] && y == (b + y)[|b|..];
    NatToStringInjective(m, n);
  }

  /** The summary line determines the three numbers in it. */
  lemma SummaryTextInjective(t1: nat, a1: nat, g1: nat, t2: nat, a2: nat, g2: nat)
    requires SummaryText(t1, a1, g1) == SummaryText(t2, a2, g2)
    ensures t1 == t2 && a1 == a2 && g1 == g2
  {
    var r1 := AVAILABLE_LABEL + (NatToString(a1) + (IN_GAME_LABEL + NatToString(g1)));
    var r2 := AVAILABLE_LABEL + (NatToString(a2) + (IN_GAME_LABEL + NatToString(g2)));
    StripPrefix(TOTAL_LABEL, NatToString(t1) + r1, NatToString(t2) + r2);
    SplitNumber(t1, r1, t2, r2);
    var s1, s2 := IN_GAME_LABEL + NatToString(g1), IN_GAME_LABEL + NatToString(g2);
    StripPrefix(AVAILABLE_LABEL, NatToString(a1) + s1, NatToString(a2) + s2);
    SplitNumber(a1, s1, a2, s2);
    StripPrefix(IN_GAME_LABEL, NatToString(g1), NatToString(g2));
    NatToStringInjective(g1, g2);
  }

  class PlayerSummaryComponent {
    var players: seq<Player>
    var playerSummary: PlayerSummary
    const playerService: PlayerService

    constructor (playerService: PlayerService)
      ensures this.playerService == playerService && players == playerService.players
      ensures playerSummary == PlayerSummary(0, 0, 0, 0, 0)
    {
      this.playerService := playerService;
      players := playerService.players;
      playerSummary := PlayerSummary(0, 0, 0, 0, 0);
    }

    /** `getPlayersSummary()`: re-reads the roster, stores the five counters
        and returns the line built from the same total, Available and In Game
        numbers. No player record changes. */
    method GetPlayersSummary() returns (summary: string)
      modifies this
      ensures unchanged(playerService)
      ensures players == playerService.players
      ensures playerSummary == SummaryOf(players)
      ensures summary == SummaryText(playerSummary.playersTotal, playerSummary.playersAvailable,
                                     playerSummary.playersInGame)
    {
      players := playerService.players;
      playerSummary := playerSummary.(playersTotal := |players|);
      playerSummary := playerSummary.(playersAvailable := |Filter(players, StatusIs(AVAILABLE))|);
      playerSummary := playerSummary.(playersInGame := |Filter(players, StatusIs(IN_GAME))|);
      playerSummary := playerSummary.(playersAtRest := |Filter(players, StatusIs(RESTING))|);
      playerSummary := playerSummary.(playersOnHold := |Filter(players, StatusIs(ON_HOLD))|);

      var totalPlayers := |players|;
      var availablePlayers := |Filter(players, StatusIs(AVAILABLE))|;
      summary := TOTAL_LABEL + NatToString(totalPlayers) + AVAILABLE_LABEL
        + NatToString(availablePlayers) + IN_GAME_LABEL + NatToString(playerSummary.playersInGame);
    }
  }
}
