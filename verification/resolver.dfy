/** The two nearest-name scans of the integration scripts.

    The threshold scan (`add_player_uuid`, `add_team_uuid`,
    `integrate_players_salaries`) walks the reference rows in order, keeps a
    running minimum of the Damerau distance with a strict `<` (so the first row
    reaching a minimum keeps it), stops as soon as that minimum equals the
    threshold, and answers only when the final minimum equals the threshold.

    The champion scan walks every team, keeps the first team of least
    Levenshtein distance, and always answers unless there is no team at all. */
module Resolver {
  import opened Tables
  import opened EditDistance

  /** One reference row: the text names are compared with, and the identifier
      it carries (`NAME`/`uuid` of the player registry, `prefix_1`/`uuid` of the
      team table, `name`/`uuid` of the teams in the champion script). */
  datatype Ref = Ref(text: string, id: string)

  /** The texts of the reference rows, in order. */
  function Texts(refs: seq<Ref>): seq<string>
  {
    seq(|refs|, k requires 0 <= k < |refs| => refs[k].text)
  }

  /** The distance from the query to each reference row, in scan order. */
  function Distances(query: string, refs: seq<Ref>): seq<nat>
  {
    seq(|refs|, k requires 0 <= k < |refs| => Damerau(query, refs[k].text))
  }

  function LevDistances(query: string, refs: seq<Ref>): seq<nat>
  {
    seq(|refs|, k requires 0 <= k < |refs| => Levenshtein(query, refs[k].text))
  }

  // ---------------------------------------------------------------------------
  // Threshold scan

  /** The first position whose distance is at most `t`. */
  function FirstAtMost(ds: seq<nat>, t: int): (r: Option<nat>)
    ensures r.None? <==> forall k :: 0 <= k < |ds| ==> ds[k] > t
    ensures r.Some? ==> r.value < |ds| && ds[r.value] <= t
    ensures r.Some? ==> forall k :: 0 <= k < r.value ==> ds[k] > t
  {
    if |ds| == 0 then None
    else if ds[0] <= t then Some(0)
    else match FirstAtMost(ds[1..], t)
         case None => None
         case Some(k) => Some(k + 1)
  }

  /** Which reference row the threshold scan answers with: the first row whose
      distance is at most the threshold, provided its distance is exactly the
      threshold. A row strictly closer than the threshold seen first makes the
      running minimum jump past it, and the scan then never answers. */
  function ThresholdPick(ds: seq<nat>, t: int): (r: Option<nat>)
    ensures r.Some? ==> r.value < |ds| && ds[r.value] == t
    ensures r.Some? ==> forall k :: 0 <= k < r.value ==> ds[k] > t
    ensures r.None? ==> forall k :: 0 <= k < |ds| && ds[k] == t ==> exists j :: 0 <= j < k && ds[j] < t
  {
    match FirstAtMost(ds, t)
    case None => None
    case Some(k) => if ds[k] == t then Some(k) else None
  }

  /** The identifier the threshold scan finds for `query`, if any. */
  function ThresholdMatch(query: string, refs: seq<Ref>, threshold: int): Option<string> {
    match ThresholdPick(Distances(query, refs), threshold)
    case None => None
    case Some(k) => Some(refs[k].id)
  }

  /** The inner loop of `add_player_uuid`, `add_team_uuid` and
      `integrate_players_salaries`. `scanned` counts the reference rows whose
      distance was computed before the loop ended. */
  method MatchWithin(query: string, refs: seq<Ref>, threshold: int) returns (id: Option<string>, ghost scanned: nat)
    ensures id == ThresholdMatch(query, refs, threshold)
    ensures scanned == match ThresholdPick(Distances(query, refs), threshold)
                       case Some(k) => k + 1
                       case None => |refs|
  {
    ghost var ds := Distances(query, refs);
    var minDistance: Option<nat> := None;   // None stands for float('inf')
    var matching: Option<string> := None;
    ghost var at: nat := 0;                 // the row `matching` came from
    ghost var low: Option<nat> := None;     // the first row below the threshold
    var k := 0;
    while k < |refs|
      invariant k <= |refs|
      invariant minDistance.None? <==> k == 0
      invariant k > 0 ==> at < k && minDistance == Some(ds[at]) && matching == Some(refs[at].id)
      invariant k > 0 ==> forall j :: 0 <= j < k ==> ds[at] <= ds[j]
      invariant low.None? ==> forall j :: 0 <= j < k ==> ds[j] > threshold
      invariant low.Some? ==> low.value < k && ds[low.value] < threshold
      invariant low.Some? ==> forall j :: 0 <= j < low.value ==> ds[j] > threshold
    {
      var distance := DamerauDistance(query, refs[k].text);
      if minDistance.None? || distance < minDistance.value {
        minDistance := Some(distance);
        matching := Some(refs[k].id);
        at := k;
      }
      if minDistance.value == threshold {
        PickWhereMinimumMeetsThreshold(ds, threshold, k);
        scanned := k + 1;
        break;
      }
      if low.None? && ds[k] <= threshold {
        low := Some(k);
      }
      k := k + 1;
    }
    if minDistance.Some? && minDistance.value == threshold {
      id := matching;
    } else {
      id := None;
      scanned := |refs|;
      NoPickWithoutMeetingThreshold(ds, threshold, low);
    }
  }

  lemma PickWhereMinimumMeetsThreshold(ds: seq<nat>, t: int, k: nat)
    requires k < |ds| && ds[k] == t
    requires forall j :: 0 <= j < k ==> ds[j] > t
    ensures ThresholdPick(ds, t) == Some(k)
  {
    assert FirstAtMost(ds, t) == Some(k);
  }

  lemma NoPickWithoutMeetingThreshold(ds: seq<nat>, t: int, low: Option<nat>)
    requires low.None? ==> forall j :: 0 <= j < |ds| ==> ds[j] > t
    requires low.Some? ==> low.value < |ds| && ds[low.value] < t
    requires low.Some? ==> forall j :: 0 <= j < low.value ==> ds[j] > t
    ensures ThresholdPick(ds, t).None?
  {
    if low.Some? {
      assert FirstAtMost(ds, t) == low;
    }
  }

  /** The strict `<` makes the first reference row of a given distance win:
      any answer comes from a row that no earlier row matches as closely. */
  lemma FirstRowWins(query: string, refs: seq<Ref>, threshold: int, k: nat)
    requires ThresholdPick(Distances(query, refs), threshold) == Some(k)
    ensures k < |refs| && ThresholdMatch(query, refs, threshold) == Some(refs[k].id)
    ensures Damerau(query, refs[k].text) == threshold
    ensures forall j :: 0 <= j < k ==> Damerau(query, refs[j].text) > threshold
  {
    var ds := Distances(query, refs);
    assert |ds| == |refs| && ds[k] == Damerau(query, refs[k].text);
    forall j | 0 <= j < k ensures Damerau(query, refs[j].text) > threshold {
      assert ds[j] == Damerau(query, refs[j].text);
    }
  }

  /** With the default threshold 0 a query gets an identifier exactly when some
      reference text equals it, and the identifier is that of the first such row. */
  lemma {:induction false} ExactMatchOnly(query: string, refs: seq<Ref>)
    ensures ThresholdMatch(query, refs, 0) == match IndexOf(Texts(refs), query)
                                              case None => None
                                              case Some(k) => Some(refs[k].id)
  {
    var ds := Distances(query, refs);
    assert |ds| == |Texts(refs)| == |refs|;
    forall k | 0 <= k < |refs|
      ensures ds[k] == 0 <==> Texts(refs)[k] == query
    {
      assert ds[k] == Damerau(query, refs[k].text) && Texts(refs)[k] == refs[k].text;
      DamerauZeroIffEqual(query, refs[k].text);
    }
    match IndexOf(Texts(refs), query)
    case None =>
      assert FirstAtMost(ds, 0).None?;
    case Some(k) =>
      assert Texts(refs)[k] == query;
      forall j | 0 <= j < k ensures ds[j] > 0 {
        assert Texts(refs)[..k][j] == Texts(refs)[j];
      }
      assert FirstAtMost(ds, 0) == Some(k);
  }

  // ---------------------------------------------------------------------------
  // Champion scan

  /** The first position of least distance, as a left-to-right scan with a
      strict `<` finds it. */
  function FirstClosest(ds: seq<nat>): (r: Option<nat>)
    ensures r.None? <==> |ds| == 0
    ensures r.Some? ==> r.value < |ds|
    ensures r.Some? ==> forall k :: 0 <= k < |ds| ==> ds[r.value] <= ds[k]
    ensures r.Some? ==> forall k :: 0 <= k < r.value ==> ds[r.value] < ds[k]
  {
    if |ds| == 0 then None
    else match FirstClosest(ds[..|ds| - 1])
         case None => Some(|ds| - 1)
         case Some(m) => if ds[|ds| - 1] < ds[m] then Some(|ds| - 1) else Some(m)
  }

  /** The identifier of the team the champion scan chooses for `name`. */
  function ClosestMatch(name: string, teams: seq<Ref>): Option<string> {
    match FirstClosest(LevDistances(name, teams))
    case None => None
    case Some(k) => Some(teams[k].id)
  }

  /** The resolver loop of the champion script, for one champion row. */
  method ClosestTeam(name: string, teams: seq<Ref>) returns (id: Option<string>)
    ensures id == ClosestMatch(name, teams)
  {
    ghost var ds := LevDistances(name, teams);
    var lowestDistance: Option<nat> := None;   // None stands for float('inf')
    id := None;
    ghost var best: Option<nat> := None;
    for k := 0 to |teams|
      invariant best == FirstClosest(ds[..k])
      invariant best.None? ==> lowestDistance.None? && id.None?
      invariant best.Some? ==> lowestDistance == Some(ds[best.value]) && id == Some(teams[best.value].id)
    {
      assert ds[..k + 1][..k] == ds[..k];
      var distance := LevenshteinDistance(name, teams[k].text);
      if lowestDistance.None? || distance < lowestDistance.value {
        lowestDistance := Some(distance);
        id := Some(teams[k].id);
        best := Some(k);
      }
    }
    assert ds[..|teams|] == ds;
  }

  /** The champion scan answers for every name as soon as there is one team,
      with a team no other team is closer than, and the first such team. */
  lemma ClosestAlwaysAnswers(name: string, teams: seq<Ref>)
    ensures ClosestMatch(name, teams).None? <==> |teams| == 0
    ensures |teams| > 0 ==>
              exists k :: 0 <= k < |teams| && ClosestMatch(name, teams) == Some(teams[k].id)
                && (forall j :: 0 <= j < |teams| ==> Levenshtein(name, teams[k].text) <= Levenshtein(name, teams[j].text))
                && (forall j :: 0 <= j < k ==> Levenshtein(name, teams[k].text) < Levenshtein(name, teams[j].text))
  {
    var ds := LevDistances(name, teams);
    assert |ds| == |teams|;
    if |teams| > 0 {
      var k := FirstClosest(ds).value;
      assert ClosestMatch(name, teams) == Some(teams[k].id);
      forall j | 0 <= j < |teams| ensures ds[j] == Levenshtein(name, teams[j].text) {
      }
    }
  }

  /** A team named exactly like the champion is always the one chosen, unless
      an earlier team is also named exactly like it. */
  lemma {:induction false} ExactTeamChosen(name: string, teams: seq<Ref>, k: nat)
    requires k < |teams| && teams[k].text == name
    requires forall j :: 0 <= j < k ==> teams[j].text != name
    ensures ClosestMatch(name, teams) == Some(teams[k].id)
  {
    var ds := LevDistances(name, teams);
    LevenshteinZeroIffEqual(name, name);
    forall j | 0 <= j < k ensures ds[j] > 0 {
      LevenshteinZeroIffEqual(name, teams[j].text);
    }
    var m := FirstClosest(ds).value;
    assert ds[m] <= ds[k] == 0;
    LevenshteinZeroIffEqual(name, teams[m].text);
  }
}
