/** The champions script: the title list is split into western and eastern
    champions whose team is known, the champions table is built with the
    western rows first, and each champion is given the identifier of the
    closest team name by Levenshtein distance. */
module TeamsChampions {
  import opened Tables
  import opened Resolver

  // ---------------------------------------------------------------------------
  // Text rules of the champion filter

  /** The characters Python's `str.isspace` accepts, which `str.strip()`
      removes from both ends. */
  predicate IsSpace(c: char) {
    c == ' ' || '\t' <= c <= '\r' || '\U{1c}' <= c <= '\U{1f}' || c == '\U{85}' || c == '\U{a0}'
    || c == '\U{1680}' || '\U{2000}' <= c <= '\U{200a}' || c == '\U{2028}' || c == '\U{2029}'
    || c == '\U{202f}' || c == '\U{205f}' || c == '\U{3000}'
  }

  /** The first position at or after `i` that does not hold a space. */
  function SpacesEnd(s: string, i: nat): (r: nat)
    requires i <= |s|
    ensures i <= r <= |s| && (r < |s| ==> !IsSpace(s[r]))
    ensures forall k :: i <= k < r ==> IsSpace(s[k])
    decreases |s| - i
  {
    if i < |s| && IsSpace(s[i]) then SpacesEnd(s, i + 1) else i
  }

  /** The position, not below `lo`, after which `s[..j]` holds only spaces. */
  function SpacesStart(s: string, lo: nat, j: nat): (r: nat)
    requires lo <= j <= |s|
    ensures lo <= r <= j && (r > lo ==> !IsSpace(s[r - 1]))
    ensures forall k :: r <= k < j ==> IsSpace(s[k])
  {
    if j > lo && IsSpace(s[j - 1]) then SpacesStart(s, lo, j - 1) else j
  }

  /** `s.strip()`: what lies between the leading and the trailing spaces of
      `s`; it neither starts nor ends with a space. */
  function StripSpace(s: string): (r: string)
    ensures var i := SpacesEnd(s, 0);
            i + |r| <= |s| && r == s[i..i + |r|]
            && forall k :: i + |r| <= k < |s| ==> IsSpace(s[k])
    ensures |r| > 0 ==> !IsSpace(r[0]) && !IsSpace(r[|r| - 1])
  {
    var i := SpacesEnd(s, 0);
    s[i..SpacesStart(s, i, |s|)]
  }

  /** `s.split("(")[0]`: everything before the first '('. */
  function BeforeParen(s: string): (r: string)
    ensures |r| <= |s| && '(' !in r && r == s[..|r|]
    ensures |r| < |s| ==> s[|r|] == '('
  {
    if |s| == 0 || s[0] == '(' then []
    else
      var rest := BeforeParen(s[1..]);
      assert [s[0]] + rest == s[..|rest| + 1];
      [s[0]] + rest
  }

  /** The team part of a champion cell such as "Golden State Warriors (57-25)". */
  function TeamKey(champion: string): string {
    StripSpace(BeforeParen(champion))
  }

  /** `row['year'][:4]`. */
  function Year4(year: string): (r: string)
    ensures |r| <= 4 && |r| <= |year| && r == year[..|r|]
    ensures |year| >= 4 ==> |r| == 4
    ensures |year| < 4 ==> r == year
  {
    if |year| <= 4 then year else year[..4]
  }

  /** A team name written as the title list writes its champions, followed by
      a space and the season record in parentheses, has the name itself as
      its key. */
  lemma KeyOfDecoratedName(name: string, record: string)
    requires '(' !in name && (|name| > 0 ==> !IsSpace(name[0]) && !IsSpace(name[|name| - 1]))
    ensures TeamKey(name + " (" + record) == name
  {
    var s := name + " (" + record;
    var a := name + " ";
    BeforeParenOfPrefix(a, "(" + record);
    assert s == a + ("(" + record);
    assert a[..|name|] == name;
    if |name| > 0 {
      assert a[0] == name[0] && a[|name| - 1] == name[|name| - 1];
      assert SpacesEnd(a, 0) == 0;
      assert SpacesStart(a, 0, |a|) == SpacesStart(a, 0, |name|) == |name|;
    } else {
      assert SpacesEnd(a, 0) == SpacesEnd(a, 1) == 1;
    }
  }

  lemma {:induction false} BeforeParenOfPrefix(a: string, b: string)
    requires '(' !in a && |b| > 0 && b[0] == '('
    ensures BeforeParen(a + b) == a
  {
    if |a| == 0 {
      assert a + b == b;
    } else {
      assert (a + b)[0] == a[0] && (a + b)[1..] == a[1..] + b;
      BeforeParenOfPrefix(a[1..], b);
      assert [a[0]] + a[1..] == a;
    }
  }

  // ---------------------------------------------------------------------------
  // The split loop

  /** One row of the title list. */
  datatype Title = Title(year: string, western: string, eastern: string)

  function Westerns(titles: seq<Title>): seq<string>
  {
    seq(|titles|, i requires 0 <= i < |titles| => titles[i].western)
  }

  function Easterns(titles: seq<Title>): seq<string>
  {
    seq(|titles|, i requires 0 <= i < |titles| => titles[i].eastern)
  }

  function Years(titles: seq<Title>): seq<string>
  {
    seq(|titles|, i requires 0 <= i < |titles| => Year4(titles[i].year))
  }

  /** Which champions of one conference are kept: those whose key is exactly
      some team's name. */
  function Known(champions: seq<string>, teamNames: seq<string>): seq<bool>
  {
    seq(|champions|, i requires 0 <= i < |champions| => TeamKey(champions[i]) in teamNames)
  }

  /** The loop over the title rows that fills `western_champs`,
      `western_champs_years`, `eastern_champs` and `eastern_champs_years`. */
  method SplitChampions(titles: seq<Title>, teamNames: seq<string>)
    returns (west: seq<string>, westYears: seq<string>, east: seq<string>, eastYears: seq<string>)
    ensures var wk := Known(Westerns(titles), teamNames);
            west == Select(Westerns(titles), wk) && westYears == Select(Years(titles), wk)
    ensures var ek := Known(Easterns(titles), teamNames);
            east == Select(Easterns(titles), ek) && eastYears == Select(Years(titles), ek)
  {
    ghost var wk := Known(Westerns(titles), teamNames);
    ghost var ek := Known(Easterns(titles), teamNames);
    west, westYears, east, eastYears := [], [], [], [];
    for i := 0 to |titles|
      invariant west == Pick(Westerns(titles), Positions(wk[..i]))
      invariant westYears == Pick(Years(titles), Positions(wk[..i]))
      invariant east == Pick(Easterns(titles), Positions(ek[..i]))
      invariant eastYears == Pick(Years(titles), Positions(ek[..i]))
    {
      SelectSnoc(Westerns(titles), wk, i);
      SelectSnoc(Years(titles), wk, i);
      SelectSnoc(Easterns(titles), ek, i);
      SelectSnoc(Years(titles), ek, i);
      var row := titles[i];
      var year := Year4(row.year);
      if TeamKey(row.western) in teamNames {
        west := west + [row.western];
        westYears := westYears + [year];
      }
      if TeamKey(row.eastern) in teamNames {
        east := east + [row.eastern];
        eastYears := eastYears + [year];
      }
    }
    assert wk[..|titles|] == wk && ek[..|titles|] == ek;
  }

  /** What the split keeps of one conference: exactly the champions whose key
      is a team name, with as many years as champions. */
  lemma SplitKeeps(champions: seq<string>, years: seq<string>, teamNames: seq<string>)
    requires |years| == |champions|
    ensures var keep := Known(champions, teamNames);
            && |Select(years, keep)| == |Select(champions, keep)|
            && forall c :: c in Select(champions, keep) <==> c in champions && TeamKey(c) in teamNames
  {
    SelectKeeps(champions, Known(champions, teamNames));
  }

  /** Each kept champion stands beside the (truncated) year of its own title
      row. */
  lemma SplitAligned(champions: seq<string>, years: seq<string>, teamNames: seq<string>, x: nat)
    requires |years| == |champions| && x < |Select(champions, Known(champions, teamNames))|
    ensures var keep := Known(champions, teamNames);
            exists i :: 0 <= i < |champions| && TeamKey(champions[i]) in teamNames
              && Select(champions, keep)[x] == champions[i] && Select(years, keep)[x] == years[i]
  {
    var keep := Known(champions, teamNames);
    var i := Positions(keep)[x];
    assert Select(champions, keep)[x] == champions[i];
  }

  /** A western champion is kept or dropped whatever the eastern champion of
      its row is; `EasternIndependent` states the other way round. */
  lemma ConferencesIndependent(titles: seq<Title>, others: seq<Title>, teamNames: seq<string>)
    requires |others| == |titles|
    requires forall i :: 0 <= i < |titles| ==> others[i].year == titles[i].year && others[i].western == titles[i].western
    ensures Known(Westerns(others), teamNames) == Known(Westerns(titles), teamNames)
    ensures Select(Westerns(others), Known(Westerns(others), teamNames))
         == Select(Westerns(titles), Known(Westerns(titles), teamNames))
    ensures Select(Years(others), Known(Westerns(others), teamNames))
         == Select(Years(titles), Known(Westerns(titles), teamNames))
  {
    assert Westerns(others) == Westerns(titles);
    assert Years(others) == Years(titles);
  }

  /** The same for an eastern champion: its row's western champion does not
      decide whether it is kept. */
  lemma EasternIndependent(titles: seq<Title>, others: seq<Title>, teamNames: seq<string>)
    requires |others| == |titles|
    requires forall i :: 0 <= i < |titles| ==> others[i].year == titles[i].year && others[i].eastern == titles[i].eastern
    ensures Known(Easterns(others), teamNames) == Known(Easterns(titles), teamNames)
    ensures Select(Easterns(others), Known(Easterns(others), teamNames))
         == Select(Easterns(titles), Known(Easterns(titles), teamNames))
    ensures Select(Years(others), Known(Easterns(others), teamNames))
         == Select(Years(titles), Known(Easterns(titles), teamNames))
  {
    assert Easterns(others) == Easterns(titles);
    assert Years(others) == Years(titles);
  }

  // ---------------------------------------------------------------------------
  // champions_data

  /** The champions frame: `uuid`, `year`, `region`, `champion`, all western
      rows before all eastern rows. */
  function ChampionsTable(tokens: seq<string>, west: seq<string>, westYears: seq<string>,
                          east: seq<string>, eastYears: seq<string>): Table
    requires |westYears| == |west| && |eastYears| == |east| && |tokens| == |west| + |east|
  {
    var years := westYears + eastYears;
    var champions := west + east;
    Table(["uuid", "year", "region", "champion"],
          seq(|tokens|, x requires 0 <= x < |tokens| =>
            [Text(tokens[x]), Text(years[x]), Text(if x < |west| then "western" else "eastern"), Text(champions[x])]))
  }

  /** Row `x` of the champions frame is western row `x` while `x` is below the
      number of western champions, and eastern row `x - |west|` after that;
      each row has its own token. */
  lemma ChampionsLayout(tokens: seq<string>, west: seq<string>, westYears: seq<string>,
                        east: seq<string>, eastYears: seq<string>)
    requires |westYears| == |west| && |eastYears| == |east| && |tokens| == |west| + |east|
    ensures var t := ChampionsTable(tokens, west, westYears, east, eastYears);
            && WellFormed(t) && |t.rows| == |west| + |east|
            && (forall x :: 0 <= x < |west| ==>
                  t.rows[x] == [Text(tokens[x]), Text(westYears[x]), Text("western"), Text(west[x])])
            && (forall y :: 0 <= y < |east| ==>
                  t.rows[|west| + y] == [Text(tokens[|west| + y]), Text(eastYears[y]), Text("eastern"), Text(east[y])])
  {
    var t := ChampionsTable(tokens, west, westYears, east, eastYears);
    forall y | 0 <= y < |east|
      ensures t.rows[|west| + y] == [Text(tokens[|west| + y]), Text(eastYears[y]), Text("eastern"), Text(east[y])]
    {
      assert (westYears + eastYears)[|west| + y] == eastYears[y];
      assert (west + east)[|west| + y] == east[y];
    }
  }

  // ---------------------------------------------------------------------------
  // The resolver loop and the final frame

  /** The loop over the champions frame that fills `team_ids`. */
  method ResolveChampions(champions: seq<string>, teams: seq<Ref>) returns (ids: seq<Option<string>>)
    ensures |ids| == |champions|
    ensures forall x :: 0 <= x < |champions| ==> ids[x] == ClosestMatch(champions[x], teams)
  {
    ids := [];
    for x := 0 to |champions|
      invariant |ids| == x
      invariant forall y :: 0 <= y < x ==> ids[y] == ClosestMatch(champions[y], teams)
    {
      var id := ClosestTeam(champions[x], teams);
      ids := ids + [id];
    }
  }

  /** With at least one team, every champion gets the identifier of some
      team. */
  lemma EveryChampionResolved(champions: seq<string>, teams: seq<Ref>, ids: seq<Option<string>>, x: nat)
    requires |teams| > 0 && |ids| == |champions| && x < |ids|
    requires forall y :: 0 <= y < |champions| ==> ids[y] == ClosestMatch(champions[y], teams)
    ensures exists k :: 0 <= k < |teams| && ids[x] == Some(teams[k].id)
  {
    ClosestAlwaysAnswers(champions[x], teams);
  }

  /** `best_match_id`, written into the frame: `None` is a missing value. */
  function IdCell(id: Option<string>): Cell {
    match id
    case None => Null
    case Some(s) => Text(s)
  }

  /** `champtions['champion_uuid'] = team_ids` (a new last column), then
      `drop('champion', axis=1)` (the fourth column). */
  function WithChampionUuid(t: Table, ids: seq<Option<string>>): Table
    requires Rectangular(t) && |t.columns| == 4 && |ids| == |t.rows|
  {
    var cells := seq(|ids|, x requires 0 <= x < |ids| => IdCell(ids[x]));
    DropColumnAt(InsertColumn(t, 4, "champion_uuid", cells), 3)
  }

  /** The saved champions frame: the free-text champion is replaced by one
      `champion_uuid` per row, in the last place, and nothing else moves. */
  lemma ChampionUuidReplacesChampion(t: Table, ids: seq<Option<string>>)
    requires Rectangular(t) && t.columns == ["uuid", "year", "region", "champion"] && |ids| == |t.rows|
    ensures var r := WithChampionUuid(t, ids);
            && r.columns == ["uuid", "year", "region", "champion_uuid"]
            && |r.rows| == |t.rows|
            && forall x :: 0 <= x < |t.rows| ==> r.rows[x] == t.rows[x][..3] + [IdCell(ids[x])]
  {
    var r := WithChampionUuid(t, ids);
    assert r.columns == ["uuid", "year", "region", "champion_uuid"];
    forall x | 0 <= x < |t.rows| ensures r.rows[x] == t.rows[x][..3] + [IdCell(ids[x])] {
      assert r.rows[x] == RemoveAt(InsertAt(t.rows[x], 4, IdCell(ids[x])), 3);
    }
  }
}
