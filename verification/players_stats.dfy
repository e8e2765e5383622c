/** The season-statistics script: its column clean-up, the removal of names
    that occur more than once, the player registry built from the four
    seasons, and the two linking steps that replace the player name and the
    team abbreviation by identifiers. */
module PlayersStats {
  import opened Tables
  import opened Resolver
  import opened Linking

  // ---------------------------------------------------------------------------
  // rename_columns

  /** The label a column gets from `df.rename(columns=mapping)`; labels the
      mapping does not mention stay as they are. */
  function NewLabel(c: string, mapping: map<string, string>): string {
    if c in mapping then mapping[c] else c
  }

  function Relabelled(columns: seq<string>, mapping: map<string, string>): seq<string>
  {
    seq(|columns|, k requires 0 <= k < |columns| => NewLabel(columns[k], mapping))
  }

  function Unstarred(labels: seq<string>): seq<bool>
  {
    seq(|labels|, k requires 0 <= k < |labels| => '*' !in labels[k])
  }

  /** The positions of the columns `rename_columns` keeps. */
  function KeptAfterRename(columns: seq<string>, mapping: map<string, string>): seq<nat> {
    Positions(Unstarred(Relabelled(columns, mapping)))
  }

  /** Each row cut down to the given positions. */
  function PickRows(rows: seq<seq<Cell>>, idx: seq<nat>): seq<seq<Cell>>
    requires forall i, x :: 0 <= i < |rows| && 0 <= x < |idx| ==> idx[x] < |rows[i]|
  {
    seq(|rows|, i requires 0 <= i < |rows| => Pick(rows[i], idx))
  }

  /** `rename_columns`: relabel, then drop every column whose new label
      contains an asterisk. */
  function RenameColumns(t: Table, mapping: map<string, string>): Table
    requires Rectangular(t)
  {
    var keep := KeptAfterRename(t.columns, mapping);
    Table(Pick(Relabelled(t.columns, mapping), keep), PickRows(t.rows, keep))
  }

  /** The renamed table is rectangular, has the same rows, and no label with
      an asterisk. */
  lemma RenameColumnsShape(t: Table, mapping: map<string, string>)
    requires Rectangular(t)
    ensures var r := RenameColumns(t, mapping);
            && Rectangular(r) && |r.rows| == |t.rows| && |r.columns| <= |t.columns|
            && forall x :: 0 <= x < |r.columns| ==> '*' !in r.columns[x]
  {
    var keep := KeptAfterRename(t.columns, mapping);
    PositionsShort(Unstarred(Relabelled(t.columns, mapping)));
  }

  /** A column whose new label has no asterisk survives, under its new label
      and with all of its cells. */
  lemma RenamedColumnKept(t: Table, mapping: map<string, string>, k: nat)
    requires Rectangular(t) && k < |t.columns| && '*' !in NewLabel(t.columns[k], mapping)
    ensures var r := RenameColumns(t, mapping);
            exists x :: 0 <= x < |r.columns| && r.columns[x] == NewLabel(t.columns[k], mapping)
              && forall i :: 0 <= i < |t.rows| ==> r.rows[i][x] == t.rows[i][k]
  {
    var keep := KeptAfterRename(t.columns, mapping);
    var r := RenameColumns(t, mapping);
    assert Relabelled(t.columns, mapping)[k] == NewLabel(t.columns[k], mapping);
    assert Unstarred(Relabelled(t.columns, mapping))[k];
    var x :| 0 <= x < |keep| && keep[x] == k;
    assert r.columns[x] == NewLabel(t.columns[k], mapping);
  }

  /** Every column of the renamed table is some original column under its new
      label, with all of its cells. */
  lemma RenamedColumnOrigin(t: Table, mapping: map<string, string>, x: nat)
    requires Rectangular(t) && x < |RenameColumns(t, mapping).columns|
    ensures var r := RenameColumns(t, mapping);
            exists k :: 0 <= k < |t.columns| && r.columns[x] == NewLabel(t.columns[k], mapping)
              && '*' !in NewLabel(t.columns[k], mapping)
              && forall i :: 0 <= i < |t.rows| ==> r.rows[i][x] == t.rows[i][k]
  {
    var keep := KeptAfterRename(t.columns, mapping);
    var r := RenameColumns(t, mapping);
    var k := keep[x];
    assert r.columns[x] == NewLabel(t.columns[k], mapping);
  }

  /** The surviving columns keep their relative order and each appears once:
      the labels and every row are read at the same increasing positions,
      which are exactly those of the columns whose new label has no
      asterisk. */
  lemma RenamedColumnsInOrder(t: Table, mapping: map<string, string>)
    requires Rectangular(t)
    ensures var r := RenameColumns(t, mapping);
            exists p :: InOrderAt(r.columns, Relabelled(t.columns, mapping), p)
              && (forall k :: 0 <= k < |t.columns| ==> (k in p <==> '*' !in NewLabel(t.columns[k], mapping)))
              && forall i :: 0 <= i < |t.rows| ==> InOrderAt(r.rows[i], t.rows[i], p)
  {
    var keep := KeptAfterRename(t.columns, mapping);
    var r := RenameColumns(t, mapping);
    assert InOrderAt(r.columns, Relabelled(t.columns, mapping), keep);
    forall i | 0 <= i < |t.rows| ensures InOrderAt(r.rows[i], t.rows[i], keep) {
      assert r.rows[i] == Pick(t.rows[i], keep);
    }
  }

  // ---------------------------------------------------------------------------
  // The two columns only the 2022-23 sheet has

  /** `df.drop(name, axis=1)`: the column goes with its cells; a missing
      label is a KeyError. */
  function DropLabel(t: Table, name: string): Result<Table>
    requires Rectangular(t)
  {
    match IndexOf(t.columns, name)
    case None => Error(MissingColumn(name))
    case Some(k) => Success(DropColumnAt(t, k))
  }

  /** The 2022-23 sheet without `P+R+A`, then without `P+R`. */
  function DropCombos(t: Table): Result<Table>
    requires Rectangular(t)
  {
    match DropLabel(t, "P+R+A")
    case Error(f) => Error(f)
    case Success(t1) => DropLabel(t1, "P+R")
  }

  /** Both drops succeed exactly when both labels are present, and then the
      frame keeps every other column and every row; otherwise the error
      names the first label that is missing. */
  lemma DropCombosKeeps(t: Table)
    requires WellFormed(t)
    ensures DropCombos(t).Success? <==> "P+R+A" in t.columns && "P+R" in t.columns
    ensures DropCombos(t).Error? ==>
              DropCombos(t).failure == MissingColumn(if "P+R+A" in t.columns then "P+R" else "P+R+A")
    ensures DropCombos(t).Success? ==>
              var r := DropCombos(t).value;
              WellFormed(r) && |r.rows| == |t.rows| &&
              forall c :: c in r.columns <==> c in t.columns && c != "P+R+A" && c != "P+R"
    ensures DropCombos(t).Success? ==>
              var r := DropCombos(t).value;
              exists p :: InOrderAt(r.columns, t.columns, p)
                && (forall j :: 0 <= j < |t.columns| ==> (j in p <==> t.columns[j] != "P+R+A" && t.columns[j] != "P+R"))
                && forall i :: 0 <= i < |t.rows| ==> InOrderAt(r.rows[i], t.rows[i], p)
  {
    match IndexOf(t.columns, "P+R+A")
    case None =>
    case Some(k) =>
      var t1 := DropColumnAt(t, k);
      RemoveKeepsDistinct(t.columns, k);
      match IndexOf(t1.columns, "P+R")
      case None =>
      case Some(k1) =>
        RemoveKeepsDistinct(t1.columns, k1);
        TwoDropsInOrder(t, k, k1);
  }

  /** Dropping two labelled columns one after the other keeps every other
      column once, in its order, in the labels and in every row. */
  lemma TwoDropsInOrder(t: Table, k: nat, k1: nat)
    requires WellFormed(t) && k < |t.columns| && k1 < |t.columns| - 1
    ensures var t1 := DropColumnAt(t, k);
            var r := DropColumnAt(t1, k1);
            var w := Compose(Skipping(|t.columns|, k), Skipping(|t1.columns|, k1));
            && InOrderAt(r.columns, t.columns, w)
            && (forall j :: 0 <= j < |t.columns| ==> (j in w <==> t.columns[j] != t.columns[k] && t.columns[j] != t1.columns[k1]))
            && forall i :: 0 <= i < |t.rows| ==> InOrderAt(r.rows[i], t.rows[i], w)
  {
    var t1 := DropColumnAt(t, k);
    var r := DropColumnAt(t1, k1);
    var q := Skipping(|t.columns|, k);
    var p := Skipping(|t1.columns|, k1);
    DropInOrder(t, k);
    DropInOrder(t1, k1);
    RemoveKeepsDistinct(t.columns, k);
    InOrderCompose(r.columns, t1.columns, t.columns, q, p);
    forall i | 0 <= i < |t.rows| ensures InOrderAt(r.rows[i], t.rows[i], Compose(q, p)) {
      InOrderCompose(r.rows[i], t1.rows[i], t.rows[i], q, p);
    }
    forall j | 0 <= j < |t.columns| ensures j in q <==> t.columns[j] != t.columns[k] {
    }
    forall y | 0 <= y < |t1.columns| ensures y in p <==> t1.columns[y] != t1.columns[k1] {
    }
    ComposeMembers(t.columns, t1.columns, r.columns, q, p, t.columns[k], t1.columns[k1]);
  }

  /** A position survives two drops exactly when its label is neither of the
      two dropped labels. */
  lemma ComposeMembers(cols: seq<string>, cols1: seq<string>, cols2: seq<string>,
                       q: seq<nat>, p: seq<nat>, a: string, b: string)
    requires InOrderAt(cols1, cols, q) && forall j :: 0 <= j < |cols| ==> (j in q <==> cols[j] != a)
    requires InOrderAt(cols2, cols1, p) && forall y :: 0 <= y < |cols1| ==> (y in p <==> cols1[y] != b)
    ensures forall j :: 0 <= j < |cols| ==> (j in Compose(q, p) <==> cols[j] != a && cols[j] != b)
  {
    var w := Compose(q, p);
    forall j | 0 <= j < |cols| ensures j in w <==> cols[j] != a && cols[j] != b {
      if j in w {
        var x :| 0 <= x < |w| && w[x] == j;
        assert p[x] in p && q[p[x]] in q;
        assert cols1[p[x]] == cols[j];
      }
      if cols[j] != a && cols[j] != b {
        assert j in q;
        var y :| 0 <= y < |q| && q[y] == j;
        assert cols1[y] == cols[j];
        assert y in p;
        var x :| 0 <= x < |p| && p[x] == y;
        assert w[x] == j;
      }
    }
  }

  // ---------------------------------------------------------------------------
  // drop_duplicates(df, column), that is `df[~df.duplicated(subset=column, keep=False)]`

  /** Which rows have a key that no other row shares. */
  function Unshared(keys: seq<Cell>): seq<bool>
  {
    seq(|keys|, i requires 0 <= i < |keys| => multiset(keys)[keys[i]] == 1)
  }

  /** `drop_duplicates`: every row whose key occurs more than once goes, with
      all its copies; a missing label is a KeyError. */
  function DropRepeated(t: Table, column: string): Result<Table>
    requires Rectangular(t)
  {
    match IndexOf(t.columns, column)
    case None => Error(MissingColumn(column))
    case Some(k) => Success(Table(t.columns, Select(t.rows, Unshared(ColumnAt(t, k)))))
  }

  lemma SharedKeyCountsTwice(keys: seq<Cell>, p: nat, q: nat)
    requires p < q < |keys| && keys[p] == keys[q]
    ensures multiset(keys)[keys[p]] >= 2
  {
    assert keys == keys[..q] + [keys[q]] + keys[q + 1..];
    assert keys[p] in multiset(keys[..q]) by {
      assert keys[..q][p] == keys[p];
    }
  }

  /** The rows that stay are exactly those whose key occurs once, in their
      order, so no key is left twice. */
  lemma DropRepeatedKeeps(t: Table, column: string)
    requires Rectangular(t) && column in t.columns
    ensures DropRepeated(t, column).Success?
    ensures var k := IndexOf(t.columns, column).value;
            var r := DropRepeated(t, column).value;
            && r.columns == t.columns && Rectangular(r)
            && (forall row :: row in r.rows <==>
                  exists i :: 0 <= i < |t.rows| && t.rows[i] == row && multiset(ColumnAt(t, k))[t.rows[i][k]] == 1)
            && Distinct(ColumnAt(r, k))
    ensures var k := IndexOf(t.columns, column).value;
            var r := DropRepeated(t, column).value;
            exists p :: InOrderAt(r.rows, t.rows, p)
              && forall i :: 0 <= i < |t.rows| ==> (i in p <==> multiset(ColumnAt(t, k))[t.rows[i][k]] == 1)
  {
    var k := IndexOf(t.columns, column).value;
    SelectKeeps(t.rows, Unshared(ColumnAt(t, k)));
    assert InOrderAt(Select(t.rows, Unshared(ColumnAt(t, k))), t.rows, Positions(Unshared(ColumnAt(t, k))));
    UnsharedRowsDistinct(t, k);
  }

  lemma UnsharedRowsDistinct(t: Table, k: nat)
    requires Rectangular(t) && k < |t.columns|
    ensures var r := Table(t.columns, Select(t.rows, Unshared(ColumnAt(t, k))));
            Rectangular(r) && Distinct(ColumnAt(r, k))
  {
    var keys := ColumnAt(t, k);
    var p := Positions(Unshared(keys));
    var r := Table(t.columns, Select(t.rows, Unshared(keys)));
    assert Rectangular(r) by {
      forall x | 0 <= x < |r.rows| ensures |r.rows[x]| == |r.columns| {
        assert r.rows[x] == t.rows[p[x]];
      }
    }
    forall x, y | 0 <= x < y < |r.rows| ensures r.rows[x][k] != r.rows[y][k] {
      assert r.rows[x] == t.rows[p[x]] && r.rows[y] == t.rows[p[y]];
      if keys[p[x]] == keys[p[y]] {
        SharedKeyCountsTwice(keys, p[x], p[y]);
      }
    }
  }

  /** A mask of only `true` flags keeps everything. */
  lemma {:induction false} PositionsOfAll(keep: seq<bool>)
    requires forall i :: 0 <= i < |keep| ==> keep[i]
    ensures |Positions(keep)| == |keep| && forall x :: 0 <= x < |keep| ==> Positions(keep)[x] == x
  {
    if |keep| > 0 {
      PositionsOfAll(keep[..|keep| - 1]);
    }
  }

  /** Dropping repeated names a second time changes nothing. */
  lemma DropRepeatedIdempotent(t: Table, column: string)
    requires Rectangular(t) && column in t.columns
    ensures DropRepeated(t, column).Success?
    ensures DropRepeated(DropRepeated(t, column).value, column) == DropRepeated(t, column)
  {
    DropRepeatedKeeps(t, column);
    var r := DropRepeated(t, column).value;
    var k := IndexOf(r.columns, column).value;
    var keys := ColumnAt(r, k);
    forall i | 0 <= i < |keys| ensures multiset(keys)[keys[i]] == 1 {
      DistinctCountsOnce(keys, i);
    }
    PositionsOfAll(Unshared(keys));
    assert Select(r.rows, Unshared(keys)) == r.rows;
  }

  lemma {:induction false} DistinctCountsOnce<T>(xs: seq<T>, i: nat)
    requires Distinct(xs) && i < |xs|
    ensures multiset(xs)[xs[i]] == 1
  {
    assert xs == xs[..i] + [xs[i]] + xs[i + 1..];
    assert xs[i] !in xs[..i] by {
      forall j | 0 <= j < i ensures xs[..i][j] != xs[i] {
        assert xs[..i][j] == xs[j];
      }
    }
  }

  // ---------------------------------------------------------------------------
  // The player registry: the four NAME columns one after the other, one
  // identifier per row, then `drop_duplicates(subset='NAME')`, which keeps
  // the first row of every name.

  /** Which rows carry the first occurrence of their name. */
  function FirstSeen(names: seq<string>): seq<bool>
  {
    seq(|names|, i requires 0 <= i < |names| => names[i] !in names[..i])
  }

  /** The registry written to `unique_players.csv`: `names` is the four
      seasons' NAME columns joined with `+`, `tokens` the identifier drawn
      for each of those rows; first occurrences only. */
  function PlayerRegistry(names: seq<string>, tokens: seq<string>): seq<Ref>
    requires |tokens| == |names|
  {
    Select(seq(|names|, i requires 0 <= i < |names| => Ref(names[i], tokens[i])), FirstSeen(names))
  }

  /** The registry lists every name once, and nothing else. */
  lemma RegistryNames(names: seq<string>, tokens: seq<string>)
    requires |tokens| == |names|
    ensures var refs := PlayerRegistry(names, tokens);
            Distinct(Texts(refs)) && forall n :: n in Texts(refs) <==> n in names
  {
    var refs := PlayerRegistry(names, tokens);
    var p := Positions(FirstSeen(names));
    forall x, y | 0 <= x < y < |refs| ensures refs[x].text != refs[y].text {
      assert names[..p[y]][p[x]] == names[p[x]];
    }
    forall n | n in names ensures n in Texts(refs) {
      var f := IndexOf(names, n).value;
      assert FirstSeen(names)[f];
      var x :| 0 <= x < |p| && p[x] == f;
      assert Texts(refs)[x] == n;
    }
  }

  /** Every name of the four seasons finds, with the default threshold, the
      identifier given to its first occurrence. */
  lemma RegistryResolvesEveryName(names: seq<string>, tokens: seq<string>, i: nat)
    requires |tokens| == |names| && i < |names|
    ensures ThresholdMatch(names[i], PlayerRegistry(names, tokens), 0)
         == Some(tokens[IndexOf(names, names[i]).value])
  {
    var refs := PlayerRegistry(names, tokens);
    var p := Positions(FirstSeen(names));
    var f := IndexOf(names, names[i]).value;
    assert FirstSeen(names)[f];
    var x :| 0 <= x < |p| && p[x] == f;
    RegistryNames(names, tokens);
    assert refs[x] == Ref(names[f], tokens[f]);
    assert Texts(refs)[x] == names[i];
    IndexOfDistinct(Texts(refs), x);
    ExactMatchOnly(names[i], refs);
  }

  // ---------------------------------------------------------------------------
  // add_player_uuid and add_team_uuid

  /** `add_player_uuid`: `player_uuid` first, found from `NAME` against the
      registry's names, then `NAME` dropped. */
  method AddPlayerUuid(df: Frame, players: seq<Ref>, threshold: int) returns (s: Status)
    requires df.Valid()
    modifies df
    ensures df.Valid()
    ensures Outcome(s, df.Value()) == Link(old(df.Value()), 0, "player_uuid", "NAME", AsIs, players, threshold)
  {
    s := LinkByThreshold(df, 0, "player_uuid", "NAME", AsIs, players, threshold);
  }

  /** `add_team_uuid`: `team_uuid` first, found from the lower-cased `TEAM`
      against the teams' `prefix_1`, then `TEAM` dropped. */
  method AddTeamUuid(df: Frame, teams: seq<Ref>, threshold: int) returns (s: Status)
    requires df.Valid()
    modifies df
    ensures df.Valid()
    ensures Outcome(s, df.Value()) == Link(old(df.Value()), 0, "team_uuid", "TEAM", LowerCased, teams, threshold)
  {
    s := LinkByThreshold(df, 0, "team_uuid", "TEAM", LowerCased, teams, threshold);
  }

  /** Linking at position 0 with the default threshold: the id column comes
      first, the key column is gone, every other column is untouched, and a
      row's id is that of the first reference text equal to its query. */
  lemma LinkedFirst(t: Table, idName: string, keyName: string, form: KeyForm, refs: seq<Ref>)
    requires WellFormed(t) && idName != keyName
    requires Link(t, 0, idName, keyName, form, refs, 0).status.Ok?
    ensures keyName in t.columns
    ensures var k := IndexOf(t.columns, keyName).value;
            var r := Link(t, 0, idName, keyName, form, refs, 0).table;
            && r.columns == [idName] + RemoveAt(t.columns, k)
            && |r.rows| == |t.rows|
            && forall i :: 0 <= i < |t.rows| ==>
                 !KeyFails(t.rows[i][k], form, refs) &&
                 r.rows[i] == [ExactId(t.rows[i][k], form, refs)] + RemoveAt(t.rows[i], k)
  {
    LinkedShape(t, 0, idName, keyName, form, refs, 0);
    var k := IndexOf(t.columns, keyName).value;
    InsertAtFront(RemoveAt(t.columns, k), idName);
    forall i | 0 <= i < |t.rows|
      ensures !KeyFails(t.rows[i][k], form, refs)
      ensures InsertAt(RemoveAt(t.rows[i], k), 0, IdFor(t.rows[i][k], form, refs, 0))
           == [ExactId(t.rows[i][k], form, refs)] + RemoveAt(t.rows[i], k)
    {
      assert ColumnAt(t, k)[i] == t.rows[i][k];
      IdForExact(t.rows[i][k], form, refs);
      InsertAtFront(RemoveAt(t.rows[i], k), IdFor(t.rows[i][k], form, refs, 0));
    }
  }

  /** After `add_player_uuid` with the default threshold, a stats row carries
      the registry identifier of the first registry name equal to its `NAME`,
      or the empty string. */
  lemma PlayerUuidIsExactLookup(t: Table, players: seq<Ref>)
    requires WellFormed(t) && Link(t, 0, "player_uuid", "NAME", AsIs, players, 0).status.Ok?
    ensures "NAME" in t.columns
    ensures var k := IndexOf(t.columns, "NAME").value;
            var r := Link(t, 0, "player_uuid", "NAME", AsIs, players, 0).table;
            && r.columns == ["player_uuid"] + RemoveAt(t.columns, k)
            && forall i :: 0 <= i < |t.rows| ==>
                 r.rows[i] == [ExactId(t.rows[i][k], AsIs, players)] + RemoveAt(t.rows[i], k)
  {
    LinkedFirst(t, "player_uuid", "NAME", AsIs, players);
  }

  /** `add_team_uuid` compares the lower-cased `TEAM`: with the default
      threshold a row carries the identifier of the first team whose
      `prefix_1` equals its lower-cased abbreviation, or the empty string, and
      every `TEAM` cell is a string. */
  lemma TeamUuidIsLowerCaseLookup(t: Table, teams: seq<Ref>)
    requires WellFormed(t) && Link(t, 0, "team_uuid", "TEAM", LowerCased, teams, 0).status.Ok?
    ensures "TEAM" in t.columns
    ensures var k := IndexOf(t.columns, "TEAM").value;
            var r := Link(t, 0, "team_uuid", "TEAM", LowerCased, teams, 0).table;
            && r.columns == ["team_uuid"] + RemoveAt(t.columns, k)
            && forall i :: 0 <= i < |t.rows| ==>
                 t.rows[i][k].Text? &&
                 r.rows[i] == [match IndexOf(Texts(teams), Lower(t.rows[i][k].s))
                               case None => Text("")
                               case Some(j) => Text(teams[j].id)] + RemoveAt(t.rows[i], k)
  {
    LinkedFirst(t, "team_uuid", "TEAM", LowerCased, teams);
  }
}
