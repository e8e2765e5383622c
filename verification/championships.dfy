/** The championship counter of the visualisation script: for one player
    row, how many of the seasons 2019 to 2022 the player's team was a
    conference champion of that same season. */
module Championships {
  import opened Tables

  /** The western champions of the four seasons, oldest first. */
  const WesternChampions: seq<string> := ["Gol", "Los", "Pho", "Gol"]

  /** The eastern champions of the four seasons, oldest first. */
  const EasternChampions: seq<string> := ["Ste", "Fra", "Mon", "Ste"]

  /** The player's team of season `i` (a cell of `2019team` ... `2022team`)
      is one of that season's two champions. A missing value equals
      nothing. */
  predicate Won(i: nat, team: Cell)
    requires i < 4
  {
    team == Text(WesternChampions[i]) || team == Text(EasternChampions[i])
  }

  /** How many of the first `n` seasons count. */
  function CountWon(teams: seq<Cell>, n: nat): nat
    requires n <= |teams| == 4
  {
    if n == 0 then 0 else CountWon(teams, n - 1) + (if Won(n - 1, teams[n - 1]) then 1 else 0)
  }

  /** The seasons that count. */
  function WonSeasons(teams: seq<Cell>, n: nat): set<nat>
    requires n <= |teams| == 4
  {
    set i: nat | i < n && Won(i, teams[i])
  }

  /** `get_championships`, on the row's four team cells in season order. */
  method GetChampionships(teams: seq<Cell>) returns (total: nat)
    requires |teams| == 4
    ensures total == CountWon(teams, 4)
  {
    total := 0;
    for i := 0 to 4
      invariant total == CountWon(teams, i)
    {
      if teams[i] == Text(WesternChampions[i]) || teams[i] == Text(EasternChampions[i]) {
        total := total + 1;
      }
    }
  }

  /** The total is the number of seasons whose team was one of that season's
      champions. */
  lemma {:induction false} CountIsSeasonsWon(teams: seq<Cell>, n: nat)
    requires n <= |teams| == 4
    ensures CountWon(teams, n) == |WonSeasons(teams, n)|
  {
    if n > 0 {
      CountIsSeasonsWon(teams, n - 1);
      SeasonsStep(teams, n);
    }
  }

  lemma SeasonsStep(teams: seq<Cell>, n: nat)
    requires 0 < n <= |teams| == 4
    ensures WonSeasons(teams, n)
         == WonSeasons(teams, n - 1) + (if Won(n - 1, teams[n - 1]) then {n - 1} else {})
    ensures n - 1 !in WonSeasons(teams, n - 1)
  {
    var last: set<nat> := if Won(n - 1, teams[n - 1]) then {n - 1} else {};
    forall i: nat ensures i in WonSeasons(teams, n) <==> i in WonSeasons(teams, n - 1) + last {
    }
  }

  /** The total never exceeds the number of seasons looked at. */
  lemma {:induction false} CountBounded(teams: seq<Cell>, n: nat)
    requires n <= |teams| == 4
    ensures CountWon(teams, n) <= n
  {
    if n > 0 {
      CountBounded(teams, n - 1);
    }
  }

  /** `get_championships` returns a value from 0 to 4. */
  lemma ChampionshipsBetweenZeroAndFour(teams: seq<Cell>)
    requires |teams| == 4
    ensures 0 <= CountWon(teams, 4) <= 4
  {
    CountBounded(teams, 4);
  }

  /** The total is 0 exactly when no season's team was one of its champions. */
  lemma {:induction false} ZeroIffNoSeasonWon(teams: seq<Cell>, n: nat)
    requires n <= |teams| == 4
    ensures CountWon(teams, n) == 0 <==> forall i :: 0 <= i < n ==> !Won(i, teams[i])
  {
    if n > 0 {
      ZeroIffNoSeasonWon(teams, n - 1);
    }
  }

  /** Changing the team of season `j` changes only season `j`'s part of the
      total: every season is compared with its own champions only. */
  lemma {:induction false} SeasonsCountSeparately(teams: seq<Cell>, j: nat, team: Cell, n: nat)
    requires n <= |teams| == 4 && j < 4
    ensures CountWon(teams[j := team], n) + (if j < n && Won(j, teams[j]) then 1 else 0)
         == CountWon(teams, n) + (if j < n && Won(j, team) then 1 else 0)
  {
    if n > 0 {
      SeasonsCountSeparately(teams, j, team, n - 1);
    }
  }

  /** A player with the Warriors' abbreviation in all four seasons has two:
      the first and the last season, when the Warriors were western champions. */
  lemma GoldenStateEveryYear()
    ensures CountWon([Text("Gol"), Text("Gol"), Text("Gol"), Text("Gol")], 4) == 2
  {
  }

  /** A team counts only in its own season: the Suns' abbreviation counts in
      the third season and in no other. */
  lemma PhoenixOnlyInItsSeason()
    ensures CountWon([Text("Pho"), Text("Pho"), Text("Pho"), Text("Pho")], 4) == 1
    ensures CountWon([Text("Pho"), Text("Pho"), Null, Text("Pho")], 4) == 0
  {
  }
}
