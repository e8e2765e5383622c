/** Replacing a free-text key column by an identifier column, in place, as
    `add_player_uuid`, `add_team_uuid` and `integrate_players_salaries` do:
    insert a column of empty strings, run the threshold scan for every row and
    write the identifier it finds, then drop the key column. The three
    functions differ only in where the new column goes, its label, the key
    label, and whether the key is lower-cased first. */
module Linking {
  import opened Tables
  import opened Resolver

  /** How a key cell becomes the query text. */
  datatype KeyForm = AsIs | LowerCased

  /** `str.lower()` on the ASCII letters. */
  function LowerChar(c: char): char {
    if 'A' <= c <= 'Z' then (c as int + 32) as char else c
  }

  function Lower(s: string): string
  {
    seq(|s|, i requires 0 <= i < |s| => LowerChar(s[i]))
  }

  /** Lower-casing leaves no upper-case letter behind, so doing it twice is doing it once. */
  lemma LowerIdempotent(s: string)
    ensures forall i :: 0 <= i < |s| ==> !('A' <= Lower(s)[i] <= 'Z')
    ensures Lower(Lower(s)) == Lower(s)
  {
  }

  function QueryText(s: string, form: KeyForm): string {
    if form == LowerCased then Lower(s) else s
  }

  /** The key cell makes the script raise: `lower()` of a value that is not a
      string fails at once, while a name that is not a string fails only when
      its length is taken, that is, when there is a reference row to compare it with. */
  predicate KeyFails(c: Cell, form: KeyForm, refs: seq<Ref>) {
    !c.Text? && (form == LowerCased || |refs| > 0)
  }

  /** The cell the id column holds for a row with key `c` once the scan is
      done: the identifier found, or the empty string it was inserted with. */
  function IdFor(c: Cell, form: KeyForm, refs: seq<Ref>, threshold: int): Cell
    requires !KeyFails(c, form, refs)
  {
    if !c.Text? then Text("")
    else match ThresholdMatch(QueryText(c.s, form), refs, threshold)
         case None => Text("")
         case Some(id) => Text(id)
  }

  function Blanks(n: nat): seq<Cell>
  {
    seq(n, i => Text(""))
  }

  predicate NoneFails(keys: seq<Cell>, form: KeyForm, refs: seq<Ref>) {
    forall i :: 0 <= i < |keys| ==> !KeyFails(keys[i], form, refs)
  }

  /** The id column once the first `done` rows are resolved: their identifiers,
      then the empty strings the column was inserted with. */
  function IdColumn(keys: seq<Cell>, done: nat, form: KeyForm, refs: seq<Ref>, threshold: int): (r: seq<Cell>)
    requires done <= |keys| && forall i :: 0 <= i < done ==> !KeyFails(keys[i], form, refs)
    ensures |r| == |keys|
  {
    seq(|keys|, i requires 0 <= i < |keys| => if i < done then IdFor(keys[i], form, refs, threshold) else Text(""))
  }

  /** Resolving row `done` writes its identifier into the column; a row that
      finds none leaves it as it was. */
  lemma IdColumnStep(keys: seq<Cell>, done: nat, form: KeyForm, refs: seq<Ref>, threshold: int)
    requires done < |keys| && forall i :: 0 <= i <= done ==> !KeyFails(keys[i], form, refs)
    ensures IdColumn(keys, done, form, refs, threshold)[done := IdFor(keys[done], form, refs, threshold)]
         == IdColumn(keys, done + 1, form, refs, threshold)
    ensures IdFor(keys[done], form, refs, threshold) == Text("") ==>
              IdColumn(keys, done, form, refs, threshold) == IdColumn(keys, done + 1, form, refs, threshold)
  {
  }

  /** The first row whose key makes the script raise. */
  function FirstFailing(keys: seq<Cell>, form: KeyForm, refs: seq<Ref>): (r: Option<nat>)
    ensures r.None? <==> NoneFails(keys, form, refs)
    ensures r.Some? ==> r.value < |keys| && KeyFails(keys[r.value], form, refs)
    ensures r.Some? ==> forall i :: 0 <= i < r.value ==> !KeyFails(keys[i], form, refs)
  {
    if |keys| == 0 then None
    else if KeyFails(keys[0], form, refs) then Some(0)
    else match FirstFailing(keys[1..], form, refs)
         case None => None
         case Some(f) => Some(f + 1)
  }

  /** The linking step on a frame with contents `t`. Inserting onto a present
      label or past the end raises before anything changes. */
  function Link(t: Table, pos: nat, idName: string, keyName: string, form: KeyForm,
                refs: seq<Ref>, threshold: int): Outcome
    requires WellFormed(t) && idName != keyName
  {
    if idName in t.columns then Outcome(Err(DuplicateColumn(idName)), t)
    else if pos > |t.columns| then Outcome(Err(BadPosition(pos)), t)
    else LinkInserted(t, pos, idName, keyName, form, refs, threshold)
  }

  /** The rest of the linking step, once the empty id column is in. A missing
      key label raises with nothing more done. A key that raises stops the row
      loop with the rows before it already resolved. Otherwise every row holds
      its identifier and the key column is gone. */
  function LinkInserted(t: Table, pos: nat, idName: string, keyName: string, form: KeyForm,
                        refs: seq<Ref>, threshold: int): Outcome
    requires WellFormed(t) && idName != keyName && idName !in t.columns && pos <= |t.columns|
  {
    match IndexOf(t.columns, keyName)
    case None =>
      Outcome(Err(MissingColumn(keyName)), InsertColumn(t, pos, idName, Blanks(|t.rows|)))
    case Some(k) =>
      var keys := ColumnAt(t, k);
      match FirstFailing(keys, form, refs)
      case Some(f) =>
        Outcome(Err(NotText(f)), InsertColumn(t, pos, idName, IdColumn(keys, f, form, refs, threshold)))
      case None =>
        Outcome(Ok, DropColumnAt(InsertColumn(t, pos, idName, IdColumn(keys, |keys|, form, refs, threshold)),
                                 if k < pos then k else k + 1))
  }

  /** The shared body of the three linking functions, on a frame changed in place. */
  method LinkByThreshold(df: Frame, pos: nat, idName: string, keyName: string, form: KeyForm,
                         refs: seq<Ref>, threshold: int) returns (s: Status)
    requires df.Valid() && idName != keyName
    modifies df
    ensures df.Valid()
    ensures Outcome(s, df.Value()) == Link(old(df.Value()), pos, idName, keyName, form, refs, threshold)
  {
    ghost var t := df.Value();
    var key := IndexOf(df.columns, keyName);
    s := df.Insert(pos, idName, Blanks(|df.rows|));
    if s.Ok? {
      s := ResolveAndDrop(df, t, pos, idName, keyName, key, form, refs, threshold);
    }
  }

  /** Everything after the insertion: the row loop, then the drop of the key column. */
  method ResolveAndDrop(df: Frame, ghost t: Table, pos: nat, idName: string, keyName: string, key: Option<nat>,
                        form: KeyForm, refs: seq<Ref>, threshold: int) returns (s: Status)
    requires WellFormed(t) && idName != keyName && idName !in t.columns && pos <= |t.columns|
    requires key == IndexOf(t.columns, keyName)
    requires df.Valid() && df.Value() == InsertColumn(t, pos, idName, Blanks(|t.rows|))
    modifies df
    ensures df.Valid()
    ensures Outcome(s, df.Value()) == LinkInserted(t, pos, idName, keyName, form, refs, threshold)
  {
    if key.None? {
      return Err(MissingColumn(keyName));
    }
    var k0 := key.value;
    ghost var keys := ColumnAt(t, k0);
    assert Blanks(|t.rows|) == IdColumn(keys, 0, form, refs, threshold);
    var failed := ResolveRows(df, t, pos, idName, k0, form, refs, threshold);
    if failed.Some? {
      return Err(NotText(failed.value));
    }
    var k := if k0 < pos then k0 else k0 + 1;   // where the key column sits now
    IndexOfDistinct(df.columns, k);
    ghost var linked := InsertColumn(t, pos, idName, IdColumn(keys, |keys|, form, refs, threshold));
    assert df.Value() == linked;
    s := df.Drop(keyName);
    assert df.Value() == DropColumnAt(linked, k);
    LinkInsertedOk(t, pos, idName, keyName, form, refs, threshold, k0);
  }

  lemma LinkInsertedOk(t: Table, pos: nat, idName: string, keyName: string, form: KeyForm,
                       refs: seq<Ref>, threshold: int, k0: nat)
    requires WellFormed(t) && idName != keyName && idName !in t.columns && pos <= |t.columns|
    requires IndexOf(t.columns, keyName) == Some(k0)
    requires FirstFailing(ColumnAt(t, k0), form, refs).None?
    ensures LinkInserted(t, pos, idName, keyName, form, refs, threshold)
         == Outcome(Ok, DropColumnAt(InsertColumn(t, pos, idName, IdColumn(ColumnAt(t, k0), |t.rows|, form, refs, threshold)),
                                     if k0 < pos then k0 else k0 + 1))
  {
  }

  /** The row loop of the linking functions: every row's key, from the top,
      through the threshold scan, its identifier written into the id column at
      `pos`, until a key makes the script raise. */
  method ResolveRows(df: Frame, ghost t: Table, pos: nat, idName: string, k0: nat, form: KeyForm,
                     refs: seq<Ref>, threshold: int) returns (failed: Option<nat>)
    requires df.Valid() && Rectangular(t) && pos <= |t.columns| && k0 < |t.columns|
    requires df.Value() == InsertColumn(t, pos, idName, IdColumn(ColumnAt(t, k0), 0, form, refs, threshold))
    modifies df
    ensures df.Valid()
    ensures failed == FirstFailing(ColumnAt(t, k0), form, refs)
    ensures df.Value() == InsertColumn(t, pos, idName,
                            IdColumn(ColumnAt(t, k0), if failed.Some? then failed.value else |t.rows|,
                                     form, refs, threshold))
  {
    ghost var keys := ColumnAt(t, k0);
    var k := if k0 < pos then k0 else k0 + 1;   // where the key column sits now
    for i := 0 to |df.rows|
      invariant df.Valid() && |df.rows| == |t.rows|
      invariant forall j :: 0 <= j < i ==> !KeyFails(keys[j], form, refs)
      invariant df.Value() == InsertColumn(t, pos, idName, IdColumn(keys, i, form, refs, threshold))
    {
      KeyAfterInsert(t, pos, idName, IdColumn(keys, i, form, refs, threshold), k0, i);
      var cell := df.rows[i][k];
      if KeyFails(cell, form, refs) {
        FirstFailingAt(keys, form, refs, i);
        return Some(i);
      }
      ResolveRow(df, t, pos, idName, keys, i, cell, form, refs, threshold);
    }
    assert NoneFails(keys, form, refs);
    failed := None;
  }

  /** A failing key with none failing before it is the first failing one. */
  lemma FirstFailingAt(keys: seq<Cell>, form: KeyForm, refs: seq<Ref>, i: nat)
    requires i < |keys| && KeyFails(keys[i], form, refs)
    requires forall j :: 0 <= j < i ==> !KeyFails(keys[j], form, refs)
    ensures FirstFailing(keys, form, refs) == Some(i)
  {
  }

  /** Inserting a column moves the key cell one place right when it stood at or
      after the insertion point. */
  lemma KeyAfterInsert(t: Table, pos: nat, name: string, values: seq<Cell>, k0: nat, i: nat)
    requires Rectangular(t) && pos <= |t.columns| && |values| == |t.rows| && k0 < |t.columns| && i < |t.rows|
    ensures InsertColumn(t, pos, name, values).rows[i][if k0 < pos then k0 else k0 + 1] == ColumnAt(t, k0)[i]
  {
  }

  /** One pass of the row loop: resolve row `i`'s key and write the
      identifier, if any, into the id column. */
  method ResolveRow(df: Frame, ghost t: Table, pos: nat, idName: string, ghost keys: seq<Cell>, i: nat,
                    cell: Cell, form: KeyForm, refs: seq<Ref>, threshold: int)
    requires df.Valid() && Rectangular(t) && pos <= |t.columns| && |keys| == |t.rows| && i < |t.rows|
    requires forall j :: 0 <= j <= i ==> !KeyFails(keys[j], form, refs)
    requires cell == keys[i]
    requires df.Value() == InsertColumn(t, pos, idName, IdColumn(keys, i, form, refs, threshold))
    modifies df
    ensures df.Valid()
    ensures df.Value() == InsertColumn(t, pos, idName, IdColumn(keys, i + 1, form, refs, threshold))
  {
    IdColumnStep(keys, i, form, refs, threshold);
    if cell.Text? {
      var id;
      ghost var scanned;
      id, scanned := MatchWithin(QueryText(cell.s, form), refs, threshold);
      if id.Some? {
        SetInsertedCell(t, pos, idName, IdColumn(keys, i, form, refs, threshold), i, Text(id.value));
        df.SetCell(i, pos, Text(id.value));
      }
    }
  }

  /** After a successful linking call the id column stands where it was put
      (one place further left when the key column was before it), the key
      column is gone, and every other column keeps its label, its place
      relative to the others and its cells. */
  lemma LinkedShape(t: Table, pos: nat, idName: string, keyName: string, form: KeyForm,
                    refs: seq<Ref>, threshold: int)
    requires WellFormed(t) && idName != keyName
    requires Link(t, pos, idName, keyName, form, refs, threshold).status.Ok?
    ensures keyName in t.columns && idName !in t.columns && pos <= |t.columns|
    ensures var k := IndexOf(t.columns, keyName).value;
            var p := if k < pos then pos - 1 else pos;
            var r := Link(t, pos, idName, keyName, form, refs, threshold).table;
            && NoneFails(ColumnAt(t, k), form, refs)
            && r.columns == InsertAt(RemoveAt(t.columns, k), p, idName)
            && |r.rows| == |t.rows|
            && forall i :: 0 <= i < |t.rows| ==>
                 r.rows[i] == InsertAt(RemoveAt(t.rows[i], k), p, IdFor(t.rows[i][k], form, refs, threshold))
  {
    assert IndexOf(t.columns, keyName).Some?;
    var k := IndexOf(t.columns, keyName).value;
    var keys := ColumnAt(t, k);
    assert FirstFailing(keys, form, refs).None?;
    LinkInsertedOk(t, pos, idName, keyName, form, refs, threshold, k);
    var linked := InsertColumn(t, pos, idName, IdColumn(keys, |keys|, form, refs, threshold));
    var r := DropColumnAt(linked, if k < pos then k else k + 1);
    assert r == Link(t, pos, idName, keyName, form, refs, threshold).table;
    RemoveAfterInsert(t.columns, pos, idName, k);
    forall i | 0 <= i < |t.rows|
      ensures r.rows[i] == InsertAt(RemoveAt(t.rows[i], k), if k < pos then pos - 1 else pos,
                                    IdFor(t.rows[i][k], form, refs, threshold))
    {
      RemoveAfterInsert(t.rows[i], pos, IdFor(keys[i], form, refs, threshold), k);
      assert IdColumn(keys, |keys|, form, refs, threshold)[i] == IdFor(keys[i], form, refs, threshold);
    }
  }

  /** A successful linking call leaves a well-formed frame whose labels are the
      old ones without the key label and with the id label. */
  lemma LinkedWellFormed(t: Table, pos: nat, idName: string, keyName: string, form: KeyForm,
                         refs: seq<Ref>, threshold: int)
    requires WellFormed(t) && idName != keyName
    requires Link(t, pos, idName, keyName, form, refs, threshold).status.Ok?
    ensures var r := Link(t, pos, idName, keyName, form, refs, threshold).table;
            WellFormed(r) && forall c :: c in r.columns <==> c == idName || (c in t.columns && c != keyName)
  {
    LinkedShape(t, pos, idName, keyName, form, refs, threshold);
    var k := IndexOf(t.columns, keyName).value;
    var p := if k < pos then pos - 1 else pos;
    RemoveKeepsDistinct(t.columns, k);
    InsertKeepsDistinct(RemoveAt(t.columns, k), p, idName);
    InsertRemoveMembers(t.columns, k, p, idName);
  }

  /** The id an exact lookup gives a key: the identifier of the first reference
      row whose text is the query, or the empty string. */
  function ExactId(c: Cell, form: KeyForm, refs: seq<Ref>): Cell {
    if !c.Text? then Text("")
    else match IndexOf(Texts(refs), QueryText(c.s, form))
         case None => Text("")
         case Some(j) => Text(refs[j].id)
  }

  /** With the default threshold 0 the scan is an exact lookup. */
  lemma IdForExact(c: Cell, form: KeyForm, refs: seq<Ref>)
    requires !KeyFails(c, form, refs)
    ensures IdFor(c, form, refs, 0) == ExactId(c, form, refs)
  {
    if c.Text? {
      ExactMatchOnly(QueryText(c.s, form), refs);
    }
  }
}
