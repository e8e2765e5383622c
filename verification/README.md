# NBA data integration: record linkage, modelled in Dafny

The integration scripts of this repository join four kinds of NBA data:

- season statistics
- salary tables
- conference titles
- a team list

Each source names players and teams in free text. The scripts turn those names into synthetic identifiers that later steps join on. This project models that record-linkage layer and the table-shaping rules around it.

- **Edit distances.** Plain Levenshtein, and restricted Damerau-Levenshtein (optimal string alignment).
  - Each distance is a recursive definition of the dynamic-programming table entry D[i][j].
  - Each also has the method that fills an `array2<nat>` in nested loops, as the scripts do.
  - Each method is proved to return the recursive definition's value.
- **The two nearest-name scans.**
  - The threshold scan is used by `add_player_uuid`, `add_team_uuid` and `integrate_players_salaries`. It keeps a running minimum with a strict `<`, stops early once the minimum equals the threshold, and writes an identifier only when the final minimum equals the threshold.
  - The champion scan always takes the first team of least Levenshtein distance.
  - Each scan is a loop proved against an independent characterisation of its answer (`ThresholdPick` and `FirstClosest`).
- **In-place linking.**
  - A `Frame` class stands for a pandas DataFrame changed in place. Its fields are the column labels and the rows.
  - The linking functions insert an empty id column, resolve each row in turn, write the identifiers and drop the key column. Each is a method proved equal to a value-level definition (`Linking.Link`). That definition covers the error states too: a missing label, a label already present, or a key that is not a string.
- **Table shaping.**
  - `rename_columns` with its asterisk drop.
  - The `P+R+A`/`P+R` drops.
  - `drop_duplicates` with `keep=False`.
  - The first-occurrence player registry.
  - Salary parsing and `process_dataframe`.
  - The champion filter and the champions table.
  - `get_championships`.

Identifiers drawn by `uuid.uuid4()` are parameters (`tokens`, or the `id` of a reference row). Cells are text, a parsed dollar amount, or a missing value. Rows are addressed by position.

Modules:

| file | module | what it holds |
|---|---|---|
| tables.dfy | `Tables` | cells, tables, sequence and mask helpers, the `Frame` class |
| edit_distance.dfy | `EditDistance` | `levenshtein_distance` and `damerau_levenshtein_distance` |
| resolver.dfy | `Resolver` | the threshold scan and the champion scan |
| linking.dfy | `Linking` | the in-place linking shared by the three linking functions |
| players_stats.dfy | `PlayersStats` | the season-statistics script |
| players_salaries.dfy | `PlayersSalaries` | the salaries script |
| teams_champions.dfy | `TeamsChampions` | the champions script |
| championships.dfy | `Championships` | the championship counter of the visualisation script |

The Damerau function is written twice in the repository, identically: in `1_integrate_teams_and_players_stats.py` and in `2_integrate_players_and_salaries.py`. It is modelled once.

Two behaviours of the code are easy to misread:

- **Empty reference list.** It is not an error: the threshold scan then finds no identifier, and the champion scan answers `None`.
- **Meaning of the threshold.** The threshold is matched by equality: the code answers only when the final minimum *equals* the threshold. A row strictly closer than the threshold, met first, prevents any answer (`Resolver.ThresholdPick`).

## Model

| member | source | states |
|---|---|---|
| EditDistance.Lev | 2_integration/ezzeddine/0_integrate_teams_champs.py:5-29 | defines table entry D[i][j]: `j` on the first row, `i` on the first column, otherwise the least of deletion + 1, insertion + 1 and substitution + cost |
| EditDistance.LevenshteinDistance | 2_integration/ezzeddine/0_integrate_teams_champs.py:5-29 | the filled table's bottom-right cell is the Levenshtein distance defined by the recurrence with base cases D[i][0]=i, D[0][j]=j |
| EditDistance.FillLevenshteinCell | 2_integration/ezzeddine/0_integrate_teams_champs.py:21-26 | an inner cell gets the minimum of deletion+1, insertion+1 and substitution+cost from its three finished neighbours; no other cell changes |
| EditDistance.LevenshteinBounds | 2_integration/ezzeddine/0_integrate_teams_champs.py:13-16 | the distance lies between the length difference and the longer length; from or to the empty string it is the other string's length |
| EditDistance.LevenshteinZeroIffEqual | 2_integration/ezzeddine/0_integrate_teams_champs.py:29 | the distance is 0 exactly when the two strings are equal |
| EditDistance.LevenshteinSymmetric | 2_integration/ezzeddine/0_integrate_teams_champs.py:5-29 | the distance does not depend on the order of its arguments |
| EditDistance.LevenshteinSwappedPair | 2_integration/ezzeddine/0_integrate_teams_champs.py:19-26 | without a transposition case, two different characters swapped cost 2 ("ab" to "ba" is 2) |
| EditDistance.Osa | 2_integration/ezzeddine/1_integrate_teams_and_players_stats.py:44-66 | defines table entry D[i][j] as `Lev` does, lowered to D[i-2][j-2] + cost when the two prefixes end in a swapped pair |
| EditDistance.DamerauDistance | 2_integration/ezzeddine/1_integrate_teams_and_players_stats.py:44-66 | the filled table's bottom-right cell is the optimal-string-alignment distance defined by the recurrence with the transposition case |
| EditDistance.FillDamerauRow | 2_integration/ezzeddine/1_integrate_teams_and_players_stats.py:55-64 | after one pass of the inner loop, rows 0 to i hold their final values and the first column below is untouched |
| EditDistance.FillDamerauCell | 2_integration/ezzeddine/1_integrate_teams_and_players_stats.py:56-64 | an inner cell gets the Levenshtein minimum, lowered to the cell two back plus cost when the prefixes end in a swapped pair; no other cell changes |
| EditDistance.DamerauBounds | 2_integration/ezzeddine/1_integrate_teams_and_players_stats.py:48-52 | the distance lies between the length difference and the longer length; from or to the empty string it is the other string's length |
| EditDistance.DamerauZeroIffEqual | 2_integration/ezzeddine/1_integrate_teams_and_players_stats.py:54-61 | the distance is 0 exactly when the two strings are equal |
| EditDistance.DamerauSymmetric | 2_integration/ezzeddine/2_integrate_players_and_salaries.py:24-46 | the distance does not depend on the order of its arguments |
| EditDistance.DamerauAtMostLevenshtein | 2_integration/ezzeddine/1_integrate_teams_and_players_stats.py:63-64 | the transposition case never raises a distance above plain Levenshtein |
| EditDistance.AdjacentSwapCostsOne | 2_integration/ezzeddine/1_integrate_teams_and_players_stats.py:63-64 | swapping two different adjacent characters of any string is exactly one edit |
| EditDistance.DamerauAbBa | 2_integration/ezzeddine/1_integrate_teams_and_players_stats.py:63-64 | worked example: "ab" to "ba" costs 1 |
| Resolver.ThresholdMatch | 2_integration/ezzeddine/1_integrate_teams_and_players_stats.py:72-87 | defines the threshold scan's answer: the identifier of the row `ThresholdPick` chooses from the Damerau distances, or none |
| Resolver.FirstAtMost | 2_integration/ezzeddine/1_integrate_teams_and_players_stats.py:75-84 | the first reference row within the threshold, or none when every row is farther |
| Resolver.ThresholdPick | 2_integration/ezzeddine/1_integrate_teams_and_players_stats.py:79-87 | an answer is a row at exactly the threshold with every earlier row farther; no answer means every row at the threshold comes after a row closer than it |
| Resolver.MatchWithin | 2_integration/ezzeddine/1_integrate_teams_and_players_stats.py:72-87 | the running-minimum scan with early exit answers as `ThresholdPick` says, and stops right after the row it answers with |
| Resolver.FirstRowWins | 2_integration/ezzeddine/1_integrate_teams_and_players_stats.py:79-81 | the row answered with is at the threshold and every earlier row is strictly farther |
| Resolver.ExactMatchOnly | 2_integration/ezzeddine/2_integrate_players_and_salaries.py:59-67 | with threshold 0 the answer is the identifier of the first row whose text equals the query, and none when no text equals it |
| Resolver.ClosestMatch | 2_integration/ezzeddine/0_integrate_teams_champs.py:69-84 | defines the champion scan's answer: the identifier of the team `FirstClosest` chooses from the Levenshtein distances, or none |
| Resolver.FirstClosest | 2_integration/ezzeddine/0_integrate_teams_champs.py:75-81 | the chosen row is at least as close as every row and strictly closer than every earlier row; none only for no rows |
| Resolver.ClosestTeam | 2_integration/ezzeddine/0_integrate_teams_champs.py:71-81 | the champion scan answers with the identifier of the team `FirstClosest` names |
| Resolver.ClosestAlwaysAnswers | 2_integration/ezzeddine/0_integrate_teams_champs.py:69-84 | the champion scan answers exactly when there is a team, with a team of least distance and the first of those |
| Resolver.ExactTeamChosen | 2_integration/ezzeddine/0_integrate_teams_champs.py:79-81 | the first team named exactly like the champion is the one chosen |
| Linking.Lower | 2_integration/ezzeddine/1_integrate_teams_and_players_stats.py:95 | defines `str.lower()` on the letters 'A' to 'Z': each becomes its lower-case letter and every other character stays as it is |
| Linking.LowerIdempotent | 2_integration/ezzeddine/1_integrate_teams_and_players_stats.py:95 | a lower-cased key has no capital letter left, and lower-casing it again changes nothing |
| Linking.FirstFailing | 2_integration/ezzeddine/1_integrate_teams_and_players_stats.py:70-77 | the first row whose key is not a string and makes the scan raise, or none when no key does |
| Linking.IdColumnStep | 2_integration/ezzeddine/1_integrate_teams_and_players_stats.py:86-87 | resolving one more row writes its identifier into the id column; a row with no identifier leaves the column unchanged |
| Linking.Link | 2_integration/ezzeddine/1_integrate_teams_and_players_stats.py:68-90 | defines the outcome of one linking call: a present id label or a position past the end raises with the frame unchanged; a missing key label raises after the insert; a non-string key raises with the earlier rows resolved; otherwise every row is resolved and the key column is dropped |
| Linking.LinkByThreshold | 2_integration/ezzeddine/1_integrate_teams_and_players_stats.py:68-90 | the in-place linking leaves the status and frame contents `Link` defines, including each error state |
| Linking.ResolveAndDrop | 2_integration/ezzeddine/1_integrate_teams_and_players_stats.py:70-89 | the row loop then the key-column drop leave what `LinkInserted` defines |
| Linking.ResolveRows | 2_integration/ezzeddine/1_integrate_teams_and_players_stats.py:70-87 | the row loop stops at the first failing key, and every row before it holds its identifier |
| Linking.ResolveRow | 2_integration/ezzeddine/1_integrate_teams_and_players_stats.py:71-87 | one row of the loop adds that row's identifier to the id column and changes nothing else |
| Linking.LinkedShape | 2_integration/ezzeddine/1_integrate_teams_and_players_stats.py:68-90 | after a successful call the key column is gone, the id column is where it was put, every other column keeps its label, order and cells, and every row holds its own identifier |
| Linking.LinkedWellFormed | 2_integration/ezzeddine/1_integrate_teams_and_players_stats.py:68-90 | after a successful call the labels are distinct: the old ones minus the key label, plus the id label |
| Linking.IdForExact | 2_integration/ezzeddine/1_integrate_teams_and_players_stats.py:68 | with the default threshold 0 the id written is that of the first reference text equal to the (possibly lower-cased) key, or '' |
| PlayersStats.RenameColumns | 2_integration/ezzeddine/1_integrate_teams_and_players_stats.py:7-26 | defines `rename_columns`: every label mapped through the mapping, then every column whose new label contains '*' dropped |
| PlayersStats.RenameColumnsShape | 2_integration/ezzeddine/1_integrate_teams_and_players_stats.py:7-26 | the cleaned frame keeps every row, has no more columns than before, and no label containing '*' |
| PlayersStats.RenamedColumnKept | 2_integration/ezzeddine/1_integrate_teams_and_players_stats.py:20-24 | a column whose new label has no '*' survives under that label with all its cells |
| PlayersStats.RenamedColumnOrigin | 2_integration/ezzeddine/1_integrate_teams_and_players_stats.py:20-24 | every remaining column is an original column under its new, asterisk-free label, with all its cells |
| PlayersStats.RenamedColumnsInOrder | 2_integration/ezzeddine/1_integrate_teams_and_players_stats.py:20-24 | the labels and every row are read at the same strictly increasing positions, exactly those of the columns whose new label has no '*', so the surviving columns keep their order and each appears once |
| PlayersStats.DropCombos | 2_integration/ezzeddine/1_integrate_teams_and_players_stats.py:162-163 | defines the two drops: `P+R+A`, then `P+R`, each raising a KeyError when its label is missing |
| PlayersStats.DropCombosKeeps | 2_integration/ezzeddine/1_integrate_teams_and_players_stats.py:162-163 | both drops succeed exactly when both labels are present; then the labels and every row are read at the same strictly increasing positions, exactly those whose label is neither `P+R+A` nor `P+R`, so every other column keeps its cells and its order; otherwise the KeyError names the first missing label |
| PlayersStats.DropRepeated | 2_integration/ezzeddine/1_integrate_teams_and_players_stats.py:28-42 | defines `drop_duplicates`: the rows whose key occurs once, by a mask over the rows; a missing label raises a KeyError |
| PlayersStats.DropRepeatedKeeps | 2_integration/ezzeddine/1_integrate_teams_and_players_stats.py:39-40 | a row stays exactly when its name occurs once; the kept rows are the old rows at strictly increasing positions, so they keep their order; no name is left twice; the columns are unchanged |
| PlayersStats.DropRepeatedIdempotent | 2_integration/ezzeddine/1_integrate_teams_and_players_stats.py:28-42 | applying `drop_duplicates` a second time changes nothing |
| PlayersStats.PlayerRegistry | 2_integration/ezzeddine/1_integrate_teams_and_players_stats.py:172-184 | defines the registry: each name of the joined seasons paired with its token, and only the first row of each name kept |
| PlayersStats.RegistryNames | 2_integration/ezzeddine/1_integrate_teams_and_players_stats.py:178-184 | the registry lists each name of the four seasons exactly once, and no other name |
| PlayersStats.RegistryResolvesEveryName | 2_integration/ezzeddine/1_integrate_teams_and_players_stats.py:184-195 | every season name finds, at threshold 0, the identifier drawn for its first occurrence |
| PlayersStats.AddPlayerUuid | 2_integration/ezzeddine/1_integrate_teams_and_players_stats.py:68-90 | `player_uuid` goes at position 0, is resolved from `NAME` against the registry, and `NAME` is dropped |
| PlayersStats.AddTeamUuid | 2_integration/ezzeddine/1_integrate_teams_and_players_stats.py:92-114 | `team_uuid` goes at position 0, is resolved from the lower-cased `TEAM` against `prefix_1`, and `TEAM` is dropped |
| PlayersStats.LinkedFirst | 2_integration/ezzeddine/1_integrate_teams_and_players_stats.py:69-89 | after a successful call at threshold 0 the id column is first, followed by the old columns without the key |
| PlayersStats.PlayerUuidIsExactLookup | 2_integration/ezzeddine/1_integrate_teams_and_players_stats.py:68-90 | each row's `player_uuid` is the id of the first registry name equal to its `NAME`, or '' |
| PlayersStats.TeamUuidIsLowerCaseLookup | 2_integration/ezzeddine/1_integrate_teams_and_players_stats.py:95-111 | each row's `team_uuid` is the id of the first `prefix_1` equal to its lower-cased `TEAM`, or '' |
| PlayersSalaries.Strip | 2_integration/ezzeddine/2_integrate_players_and_salaries.py:17 | no ',' and no '$' is left |
| PlayersSalaries.StripInOrder | 2_integration/ezzeddine/2_integrate_players_and_salaries.py:17 | the stripped text is the salary text read at strictly increasing positions, exactly those whose character is neither ',' nor '$': nothing is added, and every other character is kept once, in order |
| PlayersSalaries.ParseSalary | 2_integration/ezzeddine/2_integrate_players_and_salaries.py:17 | defines the salary conversion: every ',' and '$' removed, then a run of decimal digits read as its value, and anything else refused |
| PlayersSalaries.ParseFormatted | 2_integration/ezzeddine/2_integrate_players_and_salaries.py:17 | every amount written as "$" plus digits grouped by commas parses back to itself |
| PlayersSalaries.ParseExample | 2_integration/ezzeddine/2_integrate_players_and_salaries.py:17 | worked example: "$45,780,966" parses to 45780966 |
| PlayersSalaries.ParseRejects | 2_integration/ezzeddine/2_integrate_players_and_salaries.py:17 | text with any character other than digits, ',' and '$', or with no digit, does not convert |
| PlayersSalaries.ParseCell | 2_integration/ezzeddine/2_integrate_players_and_salaries.py:17 | defines one converted cell: a text cell through `ParseSalary`, failing when it fails; a cell that is not text becomes a missing value |
| PlayersSalaries.SalaryAccepted | 2_integration/ezzeddine/2_integrate_players_and_salaries.py:17 | a salary text converts exactly when every character is a digit, ',' or '$' and at least one is a digit |
| PlayersSalaries.ParseCellAccepts | 2_integration/ezzeddine/2_integrate_players_and_salaries.py:17 | a text cell converts exactly when its characters are digits, ',' and '$' with at least one digit; a cell that is not text becomes a missing value |
| PlayersSalaries.ParseColumn | 2_integration/ezzeddine/2_integrate_players_and_salaries.py:17 | the column converts exactly when every cell does, cell by cell; otherwise the error names the first row that does not |
| PlayersSalaries.Processed | 2_integration/ezzeddine/2_integrate_players_and_salaries.py:12-22 | defines the outcome of `process_dataframe`: the rename, then the conversion of `salary_in_usd`, then `uuid` at position 0; a step that raises leaves what the earlier steps did |
| PlayersSalaries.ProcessDataframe | 2_integration/ezzeddine/2_integrate_players_and_salaries.py:12-22 | the rename, the conversion and the `uuid` insert in place leave the status and contents `Processed` defines |
| PlayersSalaries.RenameSalaryShape | 2_integration/ezzeddine/2_integrate_players_and_salaries.py:14 | the salary column keeps its place under `salary_in_usd`, and the labels stay distinct |
| PlayersSalaries.ProcessedColumns | 2_integration/ezzeddine/2_integrate_players_and_salaries.py:14-20 | a processed sheet has `uuid` first, then the old labels with the salary one renamed, and as many rows as before |
| PlayersSalaries.ProcessedRow | 2_integration/ezzeddine/2_integrate_players_and_salaries.py:17-20 | each row is its own token followed by its old cells with the salary converted |
| PlayersSalaries.ProcessedWellFormed | 2_integration/ezzeddine/2_integrate_players_and_salaries.py:12-22 | the frame's labels stay distinct whether processing succeeds or raises |
| PlayersSalaries.ProcessedNeedsEverySalary | 2_integration/ezzeddine/2_integrate_players_and_salaries.py:17 | one salary text that does not convert makes the sheet raise before `uuid` is added |
| PlayersSalaries.IntegratePlayersSalaries | 2_integration/ezzeddine/2_integrate_players_and_salaries.py:48-70 | `player_uuid` goes at position 1, is resolved from `player` against the registry, and `player` is dropped |
| PlayersSalaries.SalariesLinked | 2_integration/ezzeddine/2_integrate_players_and_salaries.py:49-69 | after processing and linking at threshold 0 a sheet starts `uuid`, `player_uuid`; `player` is gone; each id is the first registry match or '' |
| TeamsChampions.StripSpace | 2_integration/ezzeddine/0_integrate_teams_champs.py:47 | the result is the slice between the leading and trailing whitespace, and neither starts nor ends with whitespace |
| TeamsChampions.BeforeParen | 2_integration/ezzeddine/0_integrate_teams_champs.py:47 | the longest prefix without '(', followed in the input by '(' when it is shorter |
| TeamsChampions.Year4 | 2_integration/ezzeddine/0_integrate_teams_champs.py:46 | the year's first four characters, or all of it when shorter |
| TeamsChampions.TeamKey | 2_integration/ezzeddine/0_integrate_teams_champs.py:47 | defines a champion's key: the text before its first '(' with edge whitespace removed |
| TeamsChampions.KeyOfDecoratedName | 2_integration/ezzeddine/0_integrate_teams_champs.py:47-50 | "Name (record)" has key "Name" for any name without '(' or edge whitespace |
| TeamsChampions.SplitChampions | 2_integration/ezzeddine/0_integrate_teams_champs.py:41-52 | the four lists are the champions of each conference whose key is a team name, with their truncated years, in title order |
| TeamsChampions.SplitKeeps | 2_integration/ezzeddine/0_integrate_teams_champs.py:47-52 | a champion is kept exactly when its key is a team name, and the year list has the same length |
| TeamsChampions.SplitAligned | 2_integration/ezzeddine/0_integrate_teams_champs.py:48-52 | each kept champion stands beside the year of its own title row |
| TeamsChampions.ConferencesIndependent | 2_integration/ezzeddine/0_integrate_teams_champs.py:47-49 | the western lists do not depend on the eastern champions |
| TeamsChampions.EasternIndependent | 2_integration/ezzeddine/0_integrate_teams_champs.py:50-52 | the eastern lists do not depend on the western champions |
| TeamsChampions.ChampionsTable | 2_integration/ezzeddine/0_integrate_teams_champs.py:54-62 | defines `champions_data`: the columns `uuid`, `year`, `region`, `champion`, one row per western champion and then one per eastern champion |
| TeamsChampions.ChampionsLayout | 2_integration/ezzeddine/0_integrate_teams_champs.py:54-62 | all western rows come before all eastern rows, each with its own token, year, region label and champion |
| TeamsChampions.ResolveChampions | 2_integration/ezzeddine/0_integrate_teams_champs.py:66-84 | one identifier per champion row, in order, each the one the champion scan chooses |
| TeamsChampions.EveryChampionResolved | 2_integration/ezzeddine/0_integrate_teams_champs.py:69-84 | with at least one team, every champion row gets the identifier of some team |
| TeamsChampions.WithChampionUuid | 2_integration/ezzeddine/0_integrate_teams_champs.py:87-91 | defines the saved frame: `champion_uuid` appended from the scan's answers, a missing answer as a missing value, then `champion` dropped |
| TeamsChampions.ChampionUuidReplacesChampion | 2_integration/ezzeddine/0_integrate_teams_champs.py:87-91 | the labels become `uuid`, `year`, `region`, `champion_uuid`, and each row keeps its first three cells followed by its identifier or a missing value |
| Championships.CountWon | 2_integration/make_dataset_visable/make_dataset_visable.py:14-19 | defines the total over the first `n` seasons: one for each season whose team equals that season's western or eastern champion |
| Championships.GetChampionships | 2_integration/make_dataset_visable/make_dataset_visable.py:8-21 | the loop's total is the count of seasons whose team is one of that season's champions |
| Championships.CountIsSeasonsWon | 2_integration/make_dataset_visable/make_dataset_visable.py:16-19 | the total is the number of seasons whose team is one of that season's two champions |
| Championships.ChampionshipsBetweenZeroAndFour | 2_integration/make_dataset_visable/make_dataset_visable.py:13-21 | the total lies between 0 and 4 |
| Championships.ZeroIffNoSeasonWon | 2_integration/make_dataset_visable/make_dataset_visable.py:14-21 | the total is 0 exactly when no season's team was one of its champions |
| Championships.SeasonsCountSeparately | 2_integration/make_dataset_visable/make_dataset_visable.py:18 | changing one season's team changes only that season's contribution to the total |
| Championships.GoldenStateEveryYear | 2_integration/make_dataset_visable/make_dataset_visable.py:10-12 | worked example: "Gol" in all four seasons counts 2 |
| Championships.PhoenixOnlyInItsSeason | 2_integration/make_dataset_visable/make_dataset_visable.py:10-18 | worked example: "Pho" counts only in the third season |
| Tables.Frame.Insert | 2_integration/ezzeddine/1_integrate_teams_and_players_stats.py:69 | `df.insert` refuses a label already present or a position past the end and changes nothing; otherwise it inserts the column |
| Tables.Frame.Drop | 2_integration/ezzeddine/1_integrate_teams_and_players_stats.py:89 | `drop(inplace=True)` removes the labelled column with its cells, or raises a KeyError and changes nothing |
| Tables.Frame.SetCell | 2_integration/ezzeddine/1_integrate_teams_and_players_stats.py:87 | `df.loc[i, label] = v` changes that one cell |
| Tables.Frame.ReplaceColumn | 2_integration/ezzeddine/2_integrate_players_and_salaries.py:17 | assigning a column replaces its cells and keeps the labels |
| Tables.Frame.Rename | 2_integration/ezzeddine/2_integrate_players_and_salaries.py:14 | renaming relabels the column in place, keeps every row, and does nothing when the old label is absent |

## Left out

- Identifier generation (`uuid.uuid4()`) is random, so identifiers are parameters supplied by the caller: `tokens`, or the `id` of a reference row. The teams frame's own `uuid` insert is represented by the reference rows.
- Reading and writing Excel and CSV files, and `os.makedirs`, are I/O. The call `unique_players_df.reset_index()` discards its result, so the frame does not change and there is nothing to model. Each script's chain of calls over its four sheets is not composed into one function; each step is modelled on its own.
- The `column_mapping` literal is data. `rename_columns` is modelled for any mapping.
- `integeration.py` (merges, correlations, plots, curve fitting), the plotting in `make_dataset_visable.py` and the two scrapers are out of scope: floating-point numerics, foreign libraries and network access.
- PlayersSalaries.ParseSalary accepts only what remains as a run of decimal digits. Python's `float` also takes signs, decimals, exponents, surrounding whitespace, `nan` and `inf`, underscores between digits (`1_000`), and non-ASCII decimal digits such as "١٢٣". The converted amount is a natural number rather than a float.
- A salary column that holds no string at all makes pandas' `.str` accessor raise AttributeError. This is not modelled: a cell that is not text simply becomes a missing value.
- Linking.Lower folds only the letters 'A' to 'Z', where Python's `str.lower()` folds every cased character: an "É" in a `TEAM` cell becomes "é" in Python and stays "É" here. The model is exact for ASCII keys, such as team abbreviations.
- Linking.LowerIdempotent states idempotence of this ASCII-only folding, not of `str.lower()`.
- PlayersStats.AddTeamUuid resolves the `TEAM` key under the ASCII-only folding of `Linking.Lower`.
- PlayersStats.TeamUuidIsLowerCaseLookup inherits the same ASCII-only folding.
- Tables.Frame.Rename refuses a rename onto a label already present with `DuplicateColumn`. pandas would instead create two columns of one name.
- Label-based `df.loc[i, ...]` is modelled by row position. The frames the scripts update row by row have a unique index.
- Title fields (`year`, `western_champ`, `eastern_champ`) are taken to be strings. Registry names are taken to be strings. Team names in the team list are taken to be strings.
- The duplicate `damerau_levenshtein_distance` in `2_integrate_players_and_salaries.py` (lines 24-46) is the same code as in `1_integrate_teams_and_players_stats.py`. It is modelled once, as `EditDistance.DamerauDistance`.
- The triangle inequality of the Levenshtein distance is not proved. It needs a model of edit scripts, which the table recurrence does not give.
- The champions script is not composed end to end. The split, the table, the resolver loop and the final frame are each modelled and proved on their own.
