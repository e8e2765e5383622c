/** Data frames as the integration scripts use them: labelled columns over rows
    of cells, the pandas operations the scripts call on them, and a `Frame`
    class for the frames those scripts change in place. Rows are addressed by
    position: every frame the scripts update row by row carries a unique index. */
module Tables {

  datatype Option<T> = None | Some(value: T)

  /** One cell: text, a dollar amount parsed from text, or pandas' missing value. */
  datatype Cell = Text(s: string) | Amount(usd: nat) | Null

  datatype Table = Table(columns: seq<string>, rows: seq<seq<Cell>>)

  /** Why a pandas call, or the script code around it, raises. */
  datatype Failure =
    | DuplicateColumn(name: string)  // insert (or rename) onto a label already present
    | BadPosition(pos: nat)          // insert past the last column
    | MissingColumn(name: string)    // KeyError on a column label
    | NotText(row: nat)              // len() or lower() of a cell that is not a string
    | NotANumber(row: nat)           // float conversion of a salary string

  datatype Status = Ok | Err(failure: Failure)

  /** The result of a pandas call that returns a new value or raises. */
  datatype Result<T> = Success(value: T) | Error(failure: Failure)

  /** What an in-place step leaves behind: how it ended, and the frame's
      contents at that point (a step that raises halfway keeps what it did). */
  datatype Outcome = Outcome(status: Status, table: Table)

  // ---------------------------------------------------------------------------
  // Sequences

  predicate Distinct<T(==)>(xs: seq<T>) {
    forall i, j :: 0 <= i < j < |xs| ==> xs[i] != xs[j]
  }

  /** Position of the first occurrence of `x`, if any. */
  function IndexOf<T(==)>(xs: seq<T>, x: T): (r: Option<nat>)
    ensures r.None? <==> x !in xs
    ensures r.Some? ==> r.value < |xs| && xs[r.value] == x && x !in xs[..r.value]
  {
    if |xs| == 0 then None
    else if xs[0] == x then Some(0)
    else
      match IndexOf(xs[1..], x)
      case None => None
      case Some(k) =>
        assert xs[..k + 1] == [xs[0]] + xs[1..][..k];
        Some(k + 1)
  }

  lemma IndexOfDistinct<T>(xs: seq<T>, k: nat)
    requires Distinct(xs) && k < |xs|
    ensures IndexOf(xs, xs[k]) == Some(k)
  {
  }

  function InsertAt<T>(xs: seq<T>, pos: nat, x: T): (r: seq<T>)
    requires pos <= |xs|
    ensures |r| == |xs| + 1 && r[pos] == x
    ensures forall i :: 0 <= i < pos ==> r[i] == xs[i]
    ensures forall i :: pos <= i < |xs| ==> r[i + 1] == xs[i]
  {
    xs[..pos] + [x] + xs[pos..]
  }

  lemma InsertAtFront<T>(xs: seq<T>, x: T)
    ensures InsertAt(xs, 0, x) == [x] + xs
  {
  }

  lemma InsertAtSecond<T>(xs: seq<T>, x: T)
    requires |xs| > 0
    ensures InsertAt(xs, 1, x) == [xs[0], x] + xs[1..]
  {
  }

  function RemoveAt<T>(xs: seq<T>, pos: nat): (r: seq<T>)
    requires pos < |xs|
    ensures |r| == |xs| - 1
    ensures forall i :: 0 <= i < pos ==> r[i] == xs[i]
    ensures forall i :: pos <= i < |r| ==> r[i] == xs[i + 1]
  {
    xs[..pos] + xs[pos + 1..]
  }

  lemma InsertKeepsDistinct<T>(xs: seq<T>, pos: nat, x: T)
    requires Distinct(xs) && pos <= |xs| && x !in xs
    ensures Distinct(InsertAt(xs, pos, x))
  {
    var r := InsertAt(xs, pos, x);
    forall i, j | 0 <= i < j < |r| ensures r[i] != r[j] {
      if i < pos && j == pos {
        assert r[i] == xs[i];
      } else if i < pos && j < pos {
        assert r[i] == xs[i] && r[j] == xs[j];
      } else if i < pos {
        assert r[i] == xs[i] && r[j] == xs[j - 1];
      } else if i == pos {
        assert r[j] == xs[j - 1];
      } else {
        assert r[i] == xs[i - 1] && r[j] == xs[j - 1];
      }
    }
  }

  lemma RemoveKeepsDistinct<T>(xs: seq<T>, pos: nat)
    requires Distinct(xs) && pos < |xs|
    ensures Distinct(RemoveAt(xs, pos))
    ensures forall y :: y in RemoveAt(xs, pos) <==> y in xs && y != xs[pos]
  {
    var r := RemoveAt(xs, pos);
    forall i, j | 0 <= i < j < |r| ensures r[i] != r[j] {
      var i' := if i < pos then i else i + 1;
      var j' := if j < pos then j else j + 1;
      assert r[i] == xs[i'] && r[j] == xs[j'];
    }
    forall y ensures y in r <==> y in xs && y != xs[pos] {
      if y in r {
        var i :| 0 <= i < |r| && r[i] == y;
        var i' := if i < pos then i else i + 1;
        assert r[i] == xs[i'];
      }
      if y in xs && y != xs[pos] {
        var i :| 0 <= i < |xs| && xs[i] == y;
        if i < pos { assert r[i] == y; } else { assert r[i - 1] == y; }
      }
    }
  }

  /** Deleting the element at `k` after inserting `x` at `pos` is inserting `x`
      into the sequence that lost its element `k`, at the position `x` ends up in. */
  lemma {:induction false} RemoveAfterInsert<T>(xs: seq<T>, pos: nat, x: T, k: nat)
    requires pos <= |xs| && k < |xs|
    ensures RemoveAt(InsertAt(xs, pos, x), if k < pos then k else k + 1)
         == InsertAt(RemoveAt(xs, k), if k < pos then pos - 1 else pos, x)
  {
    var lhs := RemoveAt(InsertAt(xs, pos, x), if k < pos then k else k + 1);
    var rhs := InsertAt(RemoveAt(xs, k), if k < pos then pos - 1 else pos, x);
    var ins := InsertAt(xs, pos, x);
    var rem := RemoveAt(xs, k);
    assert |lhs| == |rhs|;
    forall i | 0 <= i < |lhs| ensures lhs[i] == rhs[i] {
      if k < pos {
        if i < k {
          assert lhs[i] == ins[i] == xs[i];
          assert rhs[i] == rem[i] == xs[i];
        } else if i < pos - 1 {
          assert lhs[i] == ins[i + 1] == xs[i + 1];
          assert rhs[i] == rem[i] == xs[i + 1];
        } else if i == pos - 1 {
          assert lhs[i] == ins[pos] == x;
        } else {
          assert lhs[i] == ins[i + 1] == xs[i];
          assert rhs[i] == rem[i - 1] == xs[i];
        }
      } else {
        if i < pos {
          assert lhs[i] == ins[i] == xs[i];
          assert rhs[i] == rem[i] == xs[i];
        } else if i == pos {
          assert lhs[i] == ins[pos] == x;
        } else if i <= k {
          assert lhs[i] == ins[i] == xs[i - 1];
          assert rhs[i] == rem[i - 1] == xs[i - 1];
        } else {
          assert lhs[i] == ins[i + 1] == xs[i];
          assert rhs[i] == rem[i - 1] == xs[i];
        }
      }
    }
  }

  /** The positions of the `true` entries of `keep`, in increasing order. */
  function Positions(keep: seq<bool>): (r: seq<nat>)
    ensures forall x :: 0 <= x < |r| ==> r[x] < |keep| && keep[r[x]]
    ensures forall x, y :: 0 <= x < y < |r| ==> r[x] < r[y]
    ensures forall i :: 0 <= i < |keep| && keep[i] ==> i in r
  {
    if |keep| == 0 then []
    else
      var p := Positions(keep[..|keep| - 1]);
      if keep[|keep| - 1] then p + [|keep| - 1] else p
  }

  /** The elements of `xs` at the positions `idx`, in that order. */
  function Pick<T>(xs: seq<T>, idx: seq<nat>): seq<T>
    requires forall x :: 0 <= x < |idx| ==> idx[x] < |xs|
  {
    seq(|idx|, x requires 0 <= x < |idx| => xs[idx[x]])
  }

  /** `xs` without the entries whose flag is false, order kept (a boolean mask). */
  function Select<T>(xs: seq<T>, keep: seq<bool>): (r: seq<T>)
    requires |keep| == |xs|
  {
    Pick(xs, Positions(keep))
  }

  /** `r` is `xs` read at the strictly increasing positions `p`: a
      subsequence of `xs` in its own order, no entry taken twice. */
  ghost predicate InOrderAt<T>(r: seq<T>, xs: seq<T>, p: seq<nat>) {
    && |p| == |r|
    && (forall x :: 0 <= x < |p| ==> p[x] < |xs| && r[x] == xs[p[x]])
    && (forall x, y :: 0 <= x < y < |p| ==> p[x] < p[y])
  }

  /** What a mask keeps: exactly the flagged entries, in their order. */
  lemma SelectKeeps<T>(xs: seq<T>, keep: seq<bool>)
    requires |keep| == |xs|
    ensures forall y :: y in Select(xs, keep) <==> exists i :: 0 <= i < |xs| && keep[i] && xs[i] == y
    ensures |Select(xs, keep)| <= |xs|
    ensures exists p :: InOrderAt(Select(xs, keep), xs, p) && forall i :: 0 <= i < |xs| ==> (i in p <==> keep[i])
  {
    var p := Positions(keep);
    var r := Select(xs, keep);
    assert |r| == |p| && forall x :: 0 <= x < |p| ==> r[x] == xs[p[x]];
    assert InOrderAt(r, xs, p);
    SelectMembers(xs, keep);
    PositionsShort(keep);
  }

  lemma SelectMembers<T>(xs: seq<T>, keep: seq<bool>)
    requires |keep| == |xs|
    ensures forall y :: y in Select(xs, keep) <==> exists i :: 0 <= i < |xs| && keep[i] && xs[i] == y
  {
    var p := Positions(keep);
    var r := Select(xs, keep);
    assert |r| == |p| && forall x :: 0 <= x < |p| ==> r[x] == xs[p[x]];
    forall y ensures y in r <==> exists i :: 0 <= i < |xs| && keep[i] && xs[i] == y {
      if exists i :: 0 <= i < |xs| && keep[i] && xs[i] == y {
        var i :| 0 <= i < |xs| && keep[i] && xs[i] == y;
        var x :| 0 <= x < |p| && p[x] == i;
        assert r[x] == y;
      }
    }
  }

  lemma {:induction false} PositionsShort(keep: seq<bool>)
    ensures |Positions(keep)| <= |keep|
  {
    if |keep| > 0 {
      PositionsShort(keep[..|keep| - 1]);
    }
  }

  /** Extending the mask by one entry extends the selection by at most that entry. */
  lemma SelectSnoc<T>(xs: seq<T>, keep: seq<bool>, i: nat)
    requires i < |xs| == |keep|
    ensures Pick(xs, Positions(keep[..i + 1])) ==
              Pick(xs, Positions(keep[..i])) + if keep[i] then [xs[i]] else []
  {
    assert keep[..i + 1][..i] == keep[..i];
  }

  /** What is in a sequence after one element is removed and another inserted. */
  lemma InsertRemoveMembers<T>(xs: seq<T>, k: nat, pos: nat, x: T)
    requires Distinct(xs) && k < |xs| && pos <= |xs| - 1
    ensures forall y :: y in InsertAt(RemoveAt(xs, k), pos, x) <==> y == x || (y in xs && y != xs[k])
  {
    var r := RemoveAt(xs, k);
    RemoveKeepsDistinct(xs, k);
    assert InsertAt(r, pos, x) == r[..pos] + [x] + r[pos..];
    assert r == r[..pos] + r[pos..];
  }

  // ---------------------------------------------------------------------------
  // Tables as values

  predicate Rectangular(t: Table) {
    forall i :: 0 <= i < |t.rows| ==> |t.rows[i]| == |t.columns|
  }

  /** What every frame of the scripts satisfies: one cell per column in every
      row, and no label used twice. */
  predicate WellFormed(t: Table) {
    Distinct(t.columns) && Rectangular(t)
  }

  /** The cells of column `k`, top to bottom (`df[label]`). */
  function ColumnAt(t: Table, k: nat): (r: seq<Cell>)
    requires Rectangular(t) && k < |t.columns|
    ensures |r| == |t.rows|
  {
    seq(|t.rows|, i requires 0 <= i < |t.rows| => t.rows[i][k])
  }

  /** `df.insert(pos, name, values)`: the new column sits at `pos`. */
  function InsertColumn(t: Table, pos: nat, name: string, values: seq<Cell>): (r: Table)
    requires Rectangular(t) && pos <= |t.columns| && |values| == |t.rows|
    ensures Rectangular(r) && |r.rows| == |t.rows|
  {
    Table(InsertAt(t.columns, pos, name),
          seq(|t.rows|, i requires 0 <= i < |t.rows| => InsertAt(t.rows[i], pos, values[i])))
  }

  /** `df.drop(label, axis=1)` once the label's position `k` is known. */
  function DropColumnAt(t: Table, k: nat): (r: Table)
    requires Rectangular(t) && k < |t.columns|
    ensures Rectangular(r) && |r.rows| == |t.rows|
  {
    Table(RemoveAt(t.columns, k),
          seq(|t.rows|, i requires 0 <= i < |t.rows| => RemoveAt(t.rows[i], k)))
  }

  /** `df[label] = values` on an existing column `k`. */
  function ReplaceColumnAt(t: Table, k: nat, values: seq<Cell>): (r: Table)
    requires Rectangular(t) && k < |t.columns| && |values| == |t.rows|
    ensures Rectangular(r) && |r.rows| == |t.rows|
  {
    Table(t.columns, seq(|t.rows|, i requires 0 <= i < |t.rows| => t.rows[i][k := values[i]]))
  }

  /** The positions `0 .. n - 1` without `k`, in order. */
  ghost function Skipping(n: nat, k: nat): seq<nat>
    requires k < n
  {
    seq(n - 1, x requires 0 <= x < n - 1 => if x < k then x else x + 1)
  }

  /** Reading `xs` at the positions `p` and then the result at the positions
      `q` is reading `xs` at the positions `p[q[x]]`. */
  ghost function Compose(p: seq<nat>, q: seq<nat>): seq<nat>
    requires forall x :: 0 <= x < |q| ==> q[x] < |p|
  {
    seq(|q|, x requires 0 <= x < |q| => p[q[x]])
  }

  /** Dropping a column keeps every other column once, in its order, and the
      same holds of every row. */
  lemma DropInOrder(t: Table, k: nat)
    requires Rectangular(t) && k < |t.columns|
    ensures var r := DropColumnAt(t, k);
            var p := Skipping(|t.columns|, k);
            && InOrderAt(r.columns, t.columns, p)
            && (forall j :: 0 <= j < |t.columns| ==> (j in p <==> j != k))
            && forall i :: 0 <= i < |t.rows| ==> InOrderAt(r.rows[i], t.rows[i], p)
  {
    var p := Skipping(|t.columns|, k);
    forall j | 0 <= j < |t.columns| && j != k ensures j in p {
      assert p[if j < k then j else j - 1] == j;
    }
  }

  /** Two subsequences in order compose into one. */
  lemma InOrderCompose<T>(a: seq<T>, b: seq<T>, c: seq<T>, p: seq<nat>, q: seq<nat>)
    requires InOrderAt(b, c, p) && InOrderAt(a, b, q)
    ensures InOrderAt(a, c, Compose(p, q))
  {
  }

  /** Writing one cell of a freshly inserted column is writing that entry of
      the values the column was inserted with. */
  lemma {:induction false} SetInsertedCell(t: Table, pos: nat, name: string, values: seq<Cell>, i: nat, v: Cell)
    requires Rectangular(t) && pos <= |t.columns| && |values| == |t.rows| && i < |t.rows|
    ensures var u := InsertColumn(t, pos, name, values);
            Table(u.columns, u.rows[i := u.rows[i][pos := v]]) == InsertColumn(t, pos, name, values[i := v])
  {
    var u := InsertColumn(t, pos, name, values);
    var w := InsertColumn(t, pos, name, values[i := v]);
    var lhs := u.rows[i := u.rows[i][pos := v]];
    forall r | 0 <= r < |t.rows| ensures lhs[r] == w.rows[r] {
      if r == i {
        var a := InsertAt(t.rows[i], pos, values[i])[pos := v];
        var b := InsertAt(t.rows[i], pos, v);
        assert |a| == |b|;
        forall c | 0 <= c < |a| ensures a[c] == b[c] {
          if c < pos {
            assert a[c] == t.rows[i][c] == b[c];
          } else if c > pos {
            assert a[c] == t.rows[i][c - 1] == b[c];
          }
        }
      }
    }
  }

  // ---------------------------------------------------------------------------
  // Frames changed in place

  /** A pandas DataFrame that the scripts update in place. */
  class Frame {
    var columns: seq<string>
    var rows: seq<seq<Cell>>

    function Value(): Table
      reads this
    {
      Table(columns, rows)
    }

    predicate Valid()
      reads this
    {
      WellFormed(Value())
    }

    constructor (t: Table)
      requires WellFormed(t)
      ensures Valid() && Value() == t
    {
      columns := t.columns;
      rows := t.rows;
    }

    /** `df.insert(pos, name, values)`: refuses a label that is already
        present and a position past the last column, changing nothing. */
    method Insert(pos: nat, name: string, values: seq<Cell>) returns (s: Status)
      requires Valid() && |values| == |rows|
      modifies this
      ensures Valid()
      ensures s == if name in old(columns) then Err(DuplicateColumn(name))
                   else if pos > |old(columns)| then Err(BadPosition(pos))
                   else Ok
      ensures Value() == if s.Ok? then InsertColumn(old(Value()), pos, name, values) else old(Value())
    {
      if name in columns {
        return Err(DuplicateColumn(name));
      }
      if pos > |columns| {
        return Err(BadPosition(pos));
      }
      InsertKeepsDistinct(columns, pos, name);
      var t := InsertColumn(Value(), pos, name, values);
      columns, rows := t.columns, t.rows;
      s := Ok;
    }

    /** `df.drop(name, axis=1, inplace=True)`: a KeyError, changing nothing,
        when the label is absent. */
    method Drop(name: string) returns (s: Status)
      requires Valid()
      modifies this
      ensures Valid()
      ensures s == if name in old(columns) then Ok else Err(MissingColumn(name))
      ensures Value() == if s.Ok? then DropColumnAt(old(Value()), IndexOf(old(columns), name).value)
                         else old(Value())
    {
      match IndexOf(columns, name)
      case None =>
        s := Err(MissingColumn(name));
      case Some(k) =>
        RemoveKeepsDistinct(columns, k);
        var t := DropColumnAt(Value(), k);
        columns, rows := t.columns, t.rows;
        s := Ok;
    }

    /** `df.loc[i, label] = v`, the label already resolved to position `k`. */
    method SetCell(i: nat, k: nat, v: Cell)
      requires Valid() && i < |rows| && k < |columns|
      modifies this
      ensures Valid()
      ensures columns == old(columns)
      ensures rows == old(rows)[i := old(rows)[i][k := v]]
    {
      rows := rows[i := rows[i][k := v]];
    }

    /** `df[label] = values` on the existing column at position `k`. */
    method ReplaceColumn(k: nat, values: seq<Cell>)
      requires Valid() && k < |columns| && |values| == |rows|
      modifies this
      ensures Valid()
      ensures Value() == ReplaceColumnAt(old(Value()), k, values)
    {
      var t := ReplaceColumnAt(Value(), k, values);
      rows := t.rows;
    }

    /** `df.rename(columns={from: to}, inplace=True)`: nothing happens when
        `from` is absent. Renaming onto another label already present would
        give pandas two columns of one name; the frame refuses it instead. */
    method Rename(from: string, to: string) returns (s: Status)
      requires Valid()
      modifies this
      ensures Valid() && rows == old(rows)
      ensures s == if from in old(columns) && to != from && to in old(columns)
                   then Err(DuplicateColumn(to)) else Ok
      ensures columns == if s.Ok? && from in old(columns)
                         then old(columns)[IndexOf(old(columns), from).value := to]
                         else old(columns)
    {
      match IndexOf(columns, from)
      case None =>
        s := Ok;
      case Some(k) =>
        if to == from {
          s := Ok;
        } else if to in columns {
          s := Err(DuplicateColumn(to));
        } else {
          var renamed := columns[k := to];
          forall i, j | 0 <= i < j < |renamed| ensures renamed[i] != renamed[j] {
            if i != k && j != k {
              assert renamed[i] == columns[i] && renamed[j] == columns[j];
            }
          }
          columns := renamed;
          s := Ok;
        }
    }
  }
}
