/** The salaries script: each season's sheet gets its `salary` column
    renamed to `salary_in_usd` and parsed from text such as "$45,780,966",
    an identifier column `uuid` in front, and then a `player_uuid` column
    found from the `player` name against the player registry. */
module PlayersSalaries {
  import opened Tables
  import opened Resolver
  import opened Linking

  // ---------------------------------------------------------------------------
  // Salary text

  /** The text with every ',' and every '$' removed (the two
      `str.replace` calls). */
  function Strip(s: string): (r: string)
    ensures ',' !in r && '$' !in r
  {
    if |s| == 0 then []
    else (if s[0] == ',' || s[0] == '$' then [] else [s[0]]) + Strip(s[1..])
  }

  /** Stripping keeps every other character. */
  lemma {:induction false} StripKeeps(s: string, i: nat)
    requires i < |s| && s[i] != ',' && s[i] != '$'
    ensures s[i] in Strip(s)
  {
    if i > 0 {
      StripKeeps(s[1..], i - 1);
    }
  }

  /** Which characters the two `str.replace` calls leave in place. */
  function Kept(s: string): seq<bool> {
    seq(|s|, i requires 0 <= i < |s| => s[i] != ',' && s[i] != '$')
  }

  /** Stripping removes exactly the ',' and '$' characters and keeps every
      other character once, in its order: the result is the text read at
      the increasing positions of exactly those characters. */
  lemma StripInOrder(s: string)
    ensures exists p :: InOrderAt(Strip(s), s, p) && forall i :: 0 <= i < |s| ==> (i in p <==> s[i] != ',' && s[i] != '$')
  {
    StripPrefixSelects(s, |s|);
    assert s[..|s|] == s && Kept(s)[..|s|] == Kept(s);
    SelectKeeps(s, Kept(s));
    var p :| InOrderAt(Select(s, Kept(s)), s, p) && forall i :: 0 <= i < |s| ==> (i in p <==> Kept(s)[i]);
    forall i | 0 <= i < |s| ensures Kept(s)[i] == (s[i] != ',' && s[i] != '$') {
    }
    assert InOrderAt(Strip(s), s, p);
  }

  /** Stripping a prefix is the mask selection over that prefix. */
  lemma {:induction false} StripPrefixSelects(s: string, n: nat)
    requires n <= |s|
    ensures Strip(s[..n]) == Pick(s, Positions(Kept(s)[..n]))
  {
    if n == 0 {
      assert s[..0] == [] && Kept(s)[..0] == [];
    } else {
      StripPrefixSelects(s, n - 1);
      var c := s[n - 1];
      assert s[..n] == s[..n - 1] + [c];
      StripConcat(s[..n - 1], [c]);
      assert [c][1..] == [];
      assert Strip([c]) == if c == ',' || c == '$' then [] else [c];
      assert Kept(s)[n - 1] == (c != ',' && c != '$');
      SelectSnoc(s, Kept(s), n - 1);
    }
  }

  lemma {:induction false} StripConcat(a: string, b: string)
    ensures Strip(a + b) == Strip(a) + Strip(b)
  {
    if |a| == 0 {
      assert a + b == b;
    } else {
      assert (a + b)[0] == a[0] && (a + b)[1..] == a[1..] + b;
      StripConcat(a[1..], b);
    }
  }

  predicate IsDigit(c: char) {
    '0' <= c <= '9'
  }

  function DigitValue(c: char): nat
    requires IsDigit(c)
  {
    c as int - '0' as int
  }

  /** A non-empty run of decimal digits: the only text this model converts. */
  predicate IsDigits(s: string) {
    |s| > 0 && forall i :: 0 <= i < |s| ==> IsDigit(s[i])
  }

  /** The number a run of decimal digits denotes. */
  function DigitsValue(s: string): nat
    requires forall i :: 0 <= i < |s| ==> IsDigit(s[i])
  {
    if |s| == 0 then 0
    else DigitsValue(s[..|s| - 1]) * 10 + DigitValue(s[|s| - 1])
  }

  /** `float(text.replace(',', '').replace('$', ''))` for text that leaves
      plain digits, and a failure for any other text. */
  function ParseSalary(s: string): Option<nat> {
    var d := Strip(s);
    if IsDigits(d) then Some(DigitsValue(d)) else None
  }

  // ---------------------------------------------------------------------------
  // How salaries are written on the scraped pages, as a reference for the parser

  function DigitChar(d: nat): (c: char)
    requires d < 10
    ensures IsDigit(c) && DigitValue(c) == d
  {
    ('0' as int + d) as char
  }

  /** `n` in decimal, without leading zeros. */
  function Decimal(n: nat): (r: string)
    ensures forall i :: 0 <= i < |r| ==> IsDigit(r[i])
    ensures |r| > 0
  {
    if n < 10 then [DigitChar(n)] else Decimal(n / 10) + [DigitChar(n % 10)]
  }

  /** `m` below 1000 as exactly three digits. */
  function Pad3(m: nat): (r: string)
    requires m < 1000
    ensures |r| == 3 && forall i :: 0 <= i < 3 ==> IsDigit(r[i])
  {
    [DigitChar(m / 100), DigitChar(m / 10 % 10), DigitChar(m % 10)]
  }

  /** `n` in decimal with a comma between groups of three digits. */
  function Grouped(n: nat): string {
    if n < 1000 then Decimal(n) else Grouped(n / 1000) + [','] + Pad3(n % 1000)
  }

  /** A dollar amount as the salary pages print it, such as "$45,780,966". */
  function FormatUsd(n: nat): string {
    ['$'] + Grouped(n)
  }

  lemma AppendDigit(s: string, c: char)
    requires (forall i :: 0 <= i < |s| ==> IsDigit(s[i])) && IsDigit(c)
    ensures DigitsValue(s + [c]) == DigitsValue(s) * 10 + DigitValue(c)
  {
    assert (s + [c])[..|s|] == s;
  }

  lemma {:induction false} DecimalValue(n: nat)
    ensures DigitsValue(Decimal(n)) == n
  {
    if n >= 10 {
      DecimalValue(n / 10);
      AppendDigit(Decimal(n / 10), DigitChar(n % 10));
    }
  }

  lemma AppendPad3(s: string, m: nat)
    requires (forall i :: 0 <= i < |s| ==> IsDigit(s[i])) && m < 1000
    ensures forall i :: 0 <= i < |s + Pad3(m)| ==> IsDigit((s + Pad3(m))[i])
    ensures DigitsValue(s + Pad3(m)) == DigitsValue(s) * 1000 + m
  {
    var a, b, c := m / 100, m / 10 % 10, m % 10;
    var s1 := s + [DigitChar(a)];
    var s2 := s1 + [DigitChar(b)];
    AppendDigit(s, DigitChar(a));
    AppendDigit(s1, DigitChar(b));
    AppendDigit(s2, DigitChar(c));
    assert s + Pad3(m) == s2 + [DigitChar(c)];
    ThreeDigits(DigitsValue(s), m);
  }

  lemma ThreeDigits(v: nat, m: nat)
    requires m < 1000
    ensures ((v * 10 + m / 100) * 10 + m / 10 % 10) * 10 + m % 10 == v * 1000 + m
  {
  }

  lemma {:induction false} StripDigits(s: string)
    requires forall i :: 0 <= i < |s| ==> IsDigit(s[i])
    ensures Strip(s) == s
  {
    if |s| > 0 {
      StripDigits(s[1..]);
    }
  }

  lemma {:induction false} StripGrouped(n: nat)
    ensures IsDigits(Strip(Grouped(n))) && DigitsValue(Strip(Grouped(n))) == n
  {
    if n < 1000 {
      StripDigits(Decimal(n));
      DecimalValue(n);
    } else {
      StripGrouped(n / 1000);
      StripGroupedStep(Grouped(n / 1000), n % 1000);
    }
  }

  lemma StripGroupedStep(head: string, m: nat)
    requires m < 1000 && IsDigits(Strip(head))
    ensures Strip(head + [','] + Pad3(m)) == Strip(head) + Pad3(m)
    ensures IsDigits(Strip(head + [','] + Pad3(m)))
    ensures DigitsValue(Strip(head + [','] + Pad3(m))) == DigitsValue(Strip(head)) * 1000 + m
  {
    var p := Pad3(m);
    StripConcat(head + [','], p);
    StripConcat(head, [',']);
    StripDigits(p);
    assert Strip([',']) == [];
    assert Strip(head + [',']) == Strip(head);
    assert Strip(head + [','] + p) == Strip(head) + p;
    AppendPad3(Strip(head), m);
  }

  /** Every amount written the way the salary pages write it parses back to
      itself. */
  lemma ParseFormatted(n: nat)
    ensures ParseSalary(FormatUsd(n)) == Some(n)
  {
    StripConcat(['$'], Grouped(n));
    assert Strip(['$']) == [];
    assert Strip(FormatUsd(n)) == Strip(Grouped(n));
    StripGrouped(n);
  }

  /** A salary as the pages print it. */
  lemma ParseExample()
    ensures ParseSalary("$45,780,966") == Some(45780966)
  {
    GroupedExample();
    assert FormatUsd(45780966) == "$45,780,966";
    ParseFormatted(45780966);
  }

  lemma GroupedExample()
    ensures Grouped(45780966) == "45,780,966"
  {
    GroupedPrefixExample();
    assert Pad3(966) == "966";
  }

  lemma GroupedPrefixExample()
    ensures Grouped(45780) == "45,780"
  {
    assert Decimal(45) == "45";
    assert Pad3(780) == "780";
  }

  lemma {:induction false} StripSeparatorsOnly(s: string)
    requires forall i :: 0 <= i < |s| ==> s[i] == ',' || s[i] == '$'
    ensures Strip(s) == []
  {
    if |s| > 0 {
      StripSeparatorsOnly(s[1..]);
    }
  }

  /** Text that holds anything but digits, commas and dollar signs, or no
      digit at all, does not parse. */
  lemma ParseRejects(s: string)
    requires (exists i :: 0 <= i < |s| && s[i] != ',' && s[i] != '$' && !IsDigit(s[i]))
          || (forall i :: 0 <= i < |s| ==> s[i] == ',' || s[i] == '$')
    ensures ParseSalary(s).None?
  {
    var d := Strip(s);
    if exists i :: 0 <= i < |s| && s[i] != ',' && s[i] != '$' && !IsDigit(s[i]) {
      var i :| 0 <= i < |s| && s[i] != ',' && s[i] != '$' && !IsDigit(s[i]);
      StripKeeps(s, i);
      var j :| 0 <= j < |d| && d[j] == s[i];
      assert !IsDigit(d[j]);
    } else {
      StripSeparatorsOnly(s);
    }
  }

  /** A salary text converts exactly when every character is a digit, ','
      or '$', and at least one is a digit. */
  lemma SalaryAccepted(s: string)
    ensures ParseSalary(s).Some? <==>
              (forall i :: 0 <= i < |s| ==> IsDigit(s[i]) || s[i] == ',' || s[i] == '$')
              && exists i :: 0 <= i < |s| && IsDigit(s[i])
  {
    StripInOrder(s);
    var p :| InOrderAt(Strip(s), s, p) && forall i :: 0 <= i < |s| ==> (i in p <==> s[i] != ',' && s[i] != '$');
    if IsDigits(Strip(s)) {
      DigitsBeforeStripping(s, Strip(s), p);
    }
    if (forall i :: 0 <= i < |s| ==> IsDigit(s[i]) || s[i] == ',' || s[i] == '$')
       && exists i :: 0 <= i < |s| && IsDigit(s[i]) {
      DigitsAfterStripping(s, Strip(s), p);
    }
  }

  lemma DigitsBeforeStripping(s: string, d: string, p: seq<nat>)
    requires InOrderAt(d, s, p) && forall i :: 0 <= i < |s| ==> (i in p <==> s[i] != ',' && s[i] != '$')
    requires IsDigits(d)
    ensures forall i :: 0 <= i < |s| ==> IsDigit(s[i]) || s[i] == ',' || s[i] == '$'
    ensures exists i :: 0 <= i < |s| && IsDigit(s[i])
  {
    forall i | 0 <= i < |s| && s[i] != ',' && s[i] != '$' ensures IsDigit(s[i]) {
      var x :| 0 <= x < |p| && p[x] == i;
      assert d[x] == s[i];
    }
    assert IsDigit(s[p[0]]);
  }

  lemma DigitsAfterStripping(s: string, d: string, p: seq<nat>)
    requires InOrderAt(d, s, p) && forall i :: 0 <= i < |s| ==> (i in p <==> s[i] != ',' && s[i] != '$')
    requires forall i :: 0 <= i < |s| ==> IsDigit(s[i]) || s[i] == ',' || s[i] == '$'
    requires exists i :: 0 <= i < |s| && IsDigit(s[i])
    ensures IsDigits(d)
  {
    var i :| 0 <= i < |s| && IsDigit(s[i]);
    assert i in p;
    forall x | 0 <= x < |d| ensures IsDigit(d[x]) {
      assert p[x] in p && d[x] == s[p[x]];
    }
  }

  // ---------------------------------------------------------------------------
  // The salary column

  /** One converted cell. `str.replace` turns a cell that is not a string
      into a missing value, and `astype(float)` keeps it missing. */
  function ParseCell(c: Cell): Option<Cell>
  {
    match c
    case Text(s) => (match ParseSalary(s) case None => None case Some(n) => Some(Amount(n)))
    case _ => Some(Null)
  }

  /** A text cell converts exactly when its characters are digits, ',' and
      '$' with at least one digit; a cell that is not text stays missing. */
  lemma ParseCellAccepts(c: Cell)
    ensures c.Text? ==>
              (ParseCell(c).Some? <==>
                 (forall i :: 0 <= i < |c.s| ==> IsDigit(c.s[i]) || c.s[i] == ',' || c.s[i] == '$')
                 && exists i :: 0 <= i < |c.s| && IsDigit(c.s[i]))
    ensures !c.Text? ==> ParseCell(c) == Some(Null)
  {
    if c.Text? {
      SalaryAccepted(c.s);
    }
  }

  /** The converted column, or the first row whose text does not convert. */
  function ParseColumn(cells: seq<Cell>): (r: Result<seq<Cell>>)
    ensures r.Success? <==> forall i :: 0 <= i < |cells| ==> ParseCell(cells[i]).Some?
    ensures r.Success? ==> |r.value| == |cells|
    ensures r.Success? ==> forall i :: 0 <= i < |cells| ==> ParseCell(cells[i]) == Some(r.value[i])
    ensures r.Error? ==> r.failure.NotANumber? && r.failure.row < |cells|
    ensures r.Error? ==> ParseCell(cells[r.failure.row]).None?
    ensures r.Error? ==> forall j :: 0 <= j < r.failure.row ==> ParseCell(cells[j]).Some?
  {
    if |cells| == 0 then Success([])
    else match ParseCell(cells[0])
         case None => Error(NotANumber(0))
         case Some(v) =>
           match ParseColumn(cells[1..])
           case Success(vs) => Success([v] + vs)
           case Error(f) => Error(NotANumber(f.row + 1))
  }

  // ---------------------------------------------------------------------------
  // process_dataframe

  function TokenCells(tokens: seq<string>): seq<Cell>
  {
    seq(|tokens|, i requires 0 <= i < |tokens| => Text(tokens[i]))
  }

  /** `df.rename(columns={'salary': 'salary_in_usd'}, inplace=True)`. */
  function RenameSalary(t: Table): Outcome {
    match IndexOf(t.columns, "salary")
    case None => Outcome(Ok, t)
    case Some(k) =>
      if "salary_in_usd" in t.columns then Outcome(Err(DuplicateColumn("salary_in_usd")), t)
      else Outcome(Ok, Table(t.columns[k := "salary_in_usd"], t.rows))
  }

  /** `process_dataframe`, with the identifiers `uuid.uuid4()` would draw
      given as `tokens`. A step that raises leaves what the earlier steps
      did to the frame. */
  function Processed(t: Table, tokens: seq<string>): Outcome
    requires Rectangular(t) && |tokens| == |t.rows|
  {
    var renamed := RenameSalary(t);
    if renamed.status.Err? then renamed else Converted(renamed.table, tokens)
  }

  /** The conversion of `salary_in_usd`, then the `uuid` column. */
  function Converted(t1: Table, tokens: seq<string>): Outcome
    requires Rectangular(t1) && |tokens| == |t1.rows|
  {
    match IndexOf(t1.columns, "salary_in_usd")
    case None => Outcome(Err(MissingColumn("salary_in_usd")), t1)
    case Some(k) =>
      match ParseColumn(ColumnAt(t1, k))
      case Error(f) => Outcome(Err(f), t1)
      case Success(vs) => Numbered(ReplaceColumnAt(t1, k, vs), tokens)
  }

  /** `df.insert(0, 'uuid', ...)`. */
  function Numbered(t2: Table, tokens: seq<string>): Outcome
    requires Rectangular(t2) && |tokens| == |t2.rows|
  {
    if "uuid" in t2.columns then Outcome(Err(DuplicateColumn("uuid")), t2)
    else Outcome(Ok, InsertColumn(t2, 0, "uuid", TokenCells(tokens)))
  }

  method ProcessDataframe(df: Frame, tokens: seq<string>) returns (s: Status)
    requires df.Valid() && |tokens| == |df.rows|
    modifies df
    ensures df.Valid()
    ensures Outcome(s, df.Value()) == Processed(old(df.Value()), tokens)
  {
    s := df.Rename("salary", "salary_in_usd");
    if s.Err? {
      return;
    }
    match IndexOf(df.columns, "salary_in_usd") {
      case None =>
        s := Err(MissingColumn("salary_in_usd"));
      case Some(k) =>
        match ParseColumn(ColumnAt(df.Value(), k)) {
          case Error(f) =>
            s := Err(f);
          case Success(vs) =>
            df.ReplaceColumn(k, vs);
            s := df.Insert(0, "uuid", TokenCells(tokens));
        }
    }
  }

  /** Where the salary column is found: under `salary` when that label is
      present, under `salary_in_usd` otherwise. */
  function SalaryLabel(t: Table): string {
    if "salary" in t.columns then "salary" else "salary_in_usd"
  }

  /** After the rename, the salary column stands where it stood, under
      `salary_in_usd`, and the labels are still distinct. */
  lemma RenameSalaryShape(t: Table)
    requires WellFormed(t) && SalaryLabel(t) in t.columns && RenameSalary(t).status.Ok?
    ensures var k := IndexOf(t.columns, SalaryLabel(t)).value;
            var t1 := RenameSalary(t).table;
            && t1 == Table(t.columns[k := "salary_in_usd"], t.rows)
            && WellFormed(t1) && IndexOf(t1.columns, "salary_in_usd") == Some(k)
  {
    var k := IndexOf(t.columns, SalaryLabel(t)).value;
    var cols := t.columns[k := "salary_in_usd"];
    forall x, y | 0 <= x < y < |cols| ensures cols[x] != cols[y] {
      if x != k && y != k {
        assert cols[x] == t.columns[x] && cols[y] == t.columns[y];
      }
    }
    IndexOfDistinct(cols, k);
  }

  /** What a successful run of `process_dataframe` did, step by step. */
  lemma ProcessedSteps(t: Table, tokens: seq<string>)
    requires WellFormed(t) && |tokens| == |t.rows|
    requires Processed(t, tokens).status.Ok?
    ensures SalaryLabel(t) in t.columns && "uuid" !in t.columns
    ensures var k := IndexOf(t.columns, SalaryLabel(t)).value;
            var parsed := ParseColumn(ColumnAt(t, k));
            && parsed.Success?
            && Processed(t, tokens).table
               == InsertColumn(ReplaceColumnAt(Table(t.columns[k := "salary_in_usd"], t.rows), k, parsed.value),
                               0, "uuid", TokenCells(tokens))
  {
    var t1 := RenameSalary(t).table;
    assert SalaryLabel(t) in t.columns by {
      if "salary" !in t.columns {
        assert t1 == t;
      }
    }
    RenameSalaryShape(t);
    var k := IndexOf(t.columns, SalaryLabel(t)).value;
    assert t1 == Table(t.columns[k := "salary_in_usd"], t.rows);
    assert ColumnAt(t1, k) == ColumnAt(t, k);
    assert Processed(t, tokens) == Converted(t1, tokens);
    AbsentBeforeRelabel(t.columns, k, "salary_in_usd", "uuid");
  }

  lemma AbsentBeforeRelabel<T>(xs: seq<T>, k: nat, x: T, y: T)
    requires k < |xs| && y !in xs[k := x] && y != xs[k]
    ensures y !in xs
  {
    forall j | 0 <= j < |xs| ensures xs[j] != y {
      assert j != k ==> xs[k := x][j] == xs[j];
    }
  }

  /** A processed sheet has `uuid` first and the salary column relabelled in
      place; every other label is as it was. */
  lemma ProcessedColumns(t: Table, tokens: seq<string>)
    requires WellFormed(t) && |tokens| == |t.rows|
    requires Processed(t, tokens).status.Ok?
    ensures SalaryLabel(t) in t.columns && "uuid" !in t.columns
    ensures var k := IndexOf(t.columns, SalaryLabel(t)).value;
            Processed(t, tokens).table.columns == ["uuid"] + t.columns[k := "salary_in_usd"]
    ensures |Processed(t, tokens).table.rows| == |t.rows|
  {
    ProcessedSteps(t, tokens);
    var k := IndexOf(t.columns, SalaryLabel(t)).value;
    var t1 := Table(t.columns[k := "salary_in_usd"], t.rows);
    var t2 := ReplaceColumnAt(t1, k, ParseColumn(ColumnAt(t, k)).value);
    assert t2.columns == t1.columns;
    InsertAtFront(t2.columns, "uuid");
  }

  /** Row `i` of a processed sheet: its token first, then its cells with the
      salary text converted; no salary text failed to convert. */
  lemma ProcessedRow(t: Table, tokens: seq<string>, i: nat)
    requires WellFormed(t) && |tokens| == |t.rows| && i < |t.rows|
    requires Processed(t, tokens).status.Ok?
    ensures SalaryLabel(t) in t.columns && |Processed(t, tokens).table.rows| == |t.rows|
    ensures var k := IndexOf(t.columns, SalaryLabel(t)).value;
            && ParseCell(t.rows[i][k]).Some?
            && Processed(t, tokens).table.rows[i]
               == [Text(tokens[i])] + t.rows[i][k := ParseCell(t.rows[i][k]).value]
  {
    ProcessedSteps(t, tokens);
    var k := IndexOf(t.columns, SalaryLabel(t)).value;
    assert ColumnAt(t, k)[i] == t.rows[i][k];
  }

  /** Processing keeps the frame well formed, whether it succeeds or raises. */
  lemma ProcessedWellFormed(t: Table, tokens: seq<string>)
    requires WellFormed(t) && |tokens| == |t.rows|
    ensures WellFormed(Processed(t, tokens).table)
  {
    var renamed := RenameSalary(t);
    if renamed.status.Ok? && SalaryLabel(t) in t.columns {
      RenameSalaryShape(t);
      var t1 := renamed.table;
      var k := IndexOf(t1.columns, "salary_in_usd").value;
      if ParseColumn(ColumnAt(t1, k)).Success? && "uuid" !in t1.columns {
        InsertKeepsDistinct(t1.columns, 0, "uuid");
      }
    }
  }

  /** The sheet is refused, before any identifier is added, as soon as one
      salary text does not convert. */
  lemma ProcessedNeedsEverySalary(t: Table, tokens: seq<string>, i: nat)
    requires WellFormed(t) && |tokens| == |t.rows| && SalaryLabel(t) in t.columns && i < |t.rows|
    requires var k := IndexOf(t.columns, SalaryLabel(t)).value;
             t.rows[i][k].Text? && ParseSalary(t.rows[i][k].s).None?
    ensures Processed(t, tokens).status.Err?
    ensures Processed(t, tokens).table.columns == RenameSalary(t).table.columns
  {
    if RenameSalary(t).status.Ok? {
      RenameSalaryShape(t);
      var k := IndexOf(t.columns, SalaryLabel(t)).value;
      assert ColumnAt(RenameSalary(t).table, k)[i] == t.rows[i][k];
    }
  }

  // ---------------------------------------------------------------------------
  // integrate_players_salaries

  /** `integrate_players_salaries`: `player_uuid` inserted at position 1,
      found from `player` against the registry's names, then `player`
      dropped. */
  method IntegratePlayersSalaries(df: Frame, players: seq<Ref>, threshold: int) returns (s: Status)
    requires df.Valid()
    modifies df
    ensures df.Valid()
    ensures Outcome(s, df.Value()) == Link(old(df.Value()), 1, "player_uuid", "player", AsIs, players, threshold)
  {
    s := LinkByThreshold(df, 1, "player_uuid", "player", AsIs, players, threshold);
  }

  /** On a processed sheet, whose first column is `uuid`, the salaries end up
      with `uuid` then `player_uuid` in front, no `player` column, and every
      other column in its place; with the default threshold a row's
      `player_uuid` is the registry identifier of the first registry name
      equal to its `player`, or the empty string. */
  lemma SalariesLinked(t: Table, players: seq<Ref>)
    requires WellFormed(t) && |t.columns| > 0 && t.columns[0] == "uuid"
    requires Link(t, 1, "player_uuid", "player", AsIs, players, 0).status.Ok?
    ensures "player" in t.columns
    ensures var k := IndexOf(t.columns, "player").value;
            var r := Link(t, 1, "player_uuid", "player", AsIs, players, 0).table;
            && k > 0
            && r.columns == ["uuid", "player_uuid"] + RemoveAt(t.columns, k)[1..]
            && |r.rows| == |t.rows|
            && forall i :: 0 <= i < |t.rows| ==>
                 r.rows[i] == [t.rows[i][0], ExactId(t.rows[i][k], AsIs, players)] + RemoveAt(t.rows[i], k)[1..]
  {
    LinkedShape(t, 1, "player_uuid", "player", AsIs, players, 0);
    var k := IndexOf(t.columns, "player").value;
    var r := Link(t, 1, "player_uuid", "player", AsIs, players, 0).table;
    assert k > 0;
    InsertAtSecond(RemoveAt(t.columns, k), "player_uuid");
    forall i | 0 <= i < |t.rows|
      ensures r.rows[i] == [t.rows[i][0], ExactId(t.rows[i][k], AsIs, players)] + RemoveAt(t.rows[i], k)[1..]
    {
      assert ColumnAt(t, k)[i] == t.rows[i][k];
      IdForExact(t.rows[i][k], AsIs, players);
      InsertAtSecond(RemoveAt(t.rows[i], k), IdFor(t.rows[i][k], AsIs, players, 0));
    }
  }
}
