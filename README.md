# PITCHf/x game pipeline, modelled in Dafny

This project models the per-game transformation in `scrape_pitchfx.py`. That code turns one
game's parsed Gameday play-by-play XML (`inning_all.xml`) into a flat list of event rows, in four
stages:

1. **`rename_keys`**: for every element whose tag is in a fixed table (`inning`, `atbat`,
   `pitch`, `runner`, `action`, `po`), each listed attribute is moved to the key `<tag>_<attr>`,
   so that merging the attributes of nested elements later does not mix them up.
2. **`flatten_game_xml` / `get_attributes`**: a depth-first, pre-order walk.
   - Each element without contents becomes one row.
   - A row holds the merged attributes of the element and all its ancestors; on a clash the
     deeper value wins.
   - Each row is then stamped with the game id and a 1-based `event_index`.
3. **`build_count`**: a left-to-right state machine. It writes `balls` and `strikes`, meaning
   the count *before* each event, from the nearest preceding row that has a `type` (a pitch).
   A row is skipped on a missing field.
4. **`fill_in_score`**: a fold with running `home` and `away` counters, started at 0.
   - Only a row whose runner scored can raise them, by at most one run, home first.
   - Every row is stamped with the counters.

The model is split into modules that follow those stages:

| file | module | contents |
|---|---|---|
| `records.dfy` | `Records` | Attribute values `Str`/`Int`, rows as `map<string, Value>`, the XML `Node` tree, `Option`. |
| `rename.dfy` | `Rename` | The attribute table, a declarative statement of renaming, and the imperative renaming loop proved against it. |
| `flatten.dfy` | `Flatten` | The recursive walk as a spec function and as a `Flattener` class whose `rows` field is the list the nested walker appends to. A reference description by root-to-leaf chains. The stamping loop over an array. |
| `count.dfy` | `Count` | The count state machine as a left-recursive spec, its laws, and the in-place loop over an array. |
| `score.dfy` | `Score` | The score fold as a left-recursive spec (with abort), its laws, and the in-place loop. |
| `pipeline.dfy` | `Pipeline` | `flatten_game_xml` end to end: flatten, stamp, count, score. |
| `scenarios.dfy` | `Scenarios` | Worked examples on small at-bats. |

Representation choices:

- **Attribute values.** A value is `Str(s)` or `Int(n)`.
  - Attributes from the feed are `Str`. The exception is the run totals `home_team_runs` and
    `away_team_runs`: these are taken as already parsed into `Int` (see `int()` under
    "Left out").
  - Counts and run tallies written by the pipeline are `Int`.
  - The sentinel previous pitch `{'atbat_num': 0}` holds the integer 0. So it never equals an
    at-bat number from the feed. So every row after the first, up to and including the first
    pitch, gets a fresh count when it has an at-bat number. Row 0 is handled on its own and is
    never counted from the sentinel.
- **Document.** A parsed document is the sequence of its top-level nodes. Text nodes carry no
  attributes, which is why the walker passes over them.
- **Renaming in place.** The source renames by mutating shared tree nodes. Here the tree is a
  value and renaming rebuilds it. The source visits elements tag by tag through `find_all`; the
  model visits each element once. The result is the same, because each element is only ever
  renamed under its own tag.
- **Row lists.** The row lists that `flatten_game_xml`, `build_count` and `fill_in_score` update
  in place are `array<Row>`.
  - Each loop is proved against a function on the array's contents: `Stamped`, `Counted`,
    `ScoreRun`.
  - The properties the source promises are proved as lemmas about those functions.

## Model

| member | source | states |
|---|---|---|
| Rename.SearchesHaveNoChains | scrape_pitchfx.py:18-24 | No qualified key `<tag>_<attr>` is itself listed for the same tag, so renaming never moves a key twice. |
| Rename.QualifyInjective | scrape_pitchfx.py:30 | Distinct attribute names of one tag land on distinct qualified keys. |
| Rename.RenamedAttrs | scrape_pitchfx.py:28-30 | The declarative renaming of one element's attributes: an unlisted key is never removed. |
| Rename.RenamedAttrsMeaning | scrape_pitchfx.py:28-30 | Each listed attribute present moves to `<tag>_<attr>` with the same value, and its own key is gone. Every other key keeps its value unless a moved one landed on it. The key set is exactly the unmoved keys plus the landed ones. |
| Rename.RenameStep | scrape_pitchfx.py:29-30 | One pass of the innermost loop: a present attribute is popped and reinserted under its qualified key, and an absent one changes nothing. |
| Rename.RenameAttrs | scrape_pitchfx.py:28-30 | The pop-and-reinsert loop over an element's listed names yields exactly the declarative renaming. |
| Rename.RenamedAttrsNoMove | scrape_pitchfx.py:29 | With no listed attribute present, the attributes are unchanged. |
| Rename.UnlistedTagKept | scrape_pitchfx.py:26-27 | An element whose tag is not in the table keeps its attributes exactly. |
| Rename.RenamedAttrsIdempotent | scrape_pitchfx.py:28-30 | Renaming an element's attributes twice is the same as once. |
| Rename.RenamedNode | scrape_pitchfx.py:26-32 | An element renamed at every depth keeps its kind, its tag and its number of children. |
| Rename.RenamedForest | scrape_pitchfx.py:26-32 | Renaming a run of siblings keeps their number. |
| Rename.RenameKeys | scrape_pitchfx.py:26-32 | Walking the document renames every element at every depth, and nothing else. |
| Rename.RenamePreservesShape | scrape_pitchfx.py:26-32 | Renaming keeps every tag, every text node and the nesting. |
| Rename.RenameIdempotent | scrape_pitchfx.py:10-32 | Renaming a renamed document changes nothing. |
| Flatten.Rows | scrape_pitchfx.py:130-138 | The walk over a run of siblings. Every emitted row keeps every key it inherited. |
| Flatten.NodeRows | scrape_pitchfx.py:131-136 | The walk from one child: text gives nothing; an element with contents is descended into with its attributes merged over the inherited ones; an element without contents gives one row. Every row keeps every inherited key. |
| Flatten.RowsConcat | scrape_pitchfx.py:130-136 | Siblings are flattened independently: the rows of `a + b` are the rows of `a` followed by the rows of `b`, each from the same inherited dictionary. |
| Flatten.LeafPathsAreChains | scrape_pitchfx.py:130-138 | Every emitted path descends through elements with contents to an element without contents. No text node and no element with contents is ever emitted. |
| Flatten.ChainsAreLeafPaths | scrape_pitchfx.py:130-138 | Every chain down to an element without contents is emitted, so no such element is missed. |
| Flatten.ChainIsNodePath | scrape_pitchfx.py:133-136 | A chain is one of the paths of the node it starts from. |
| Flatten.RowsArePathOverlays | scrape_pitchfx.py:130-138 | The rows are, in pre-order, one per leaf chain: the inherited dictionary overlaid by each element's attributes down the chain. |
| Flatten.OverlayDeepestWins | scrape_pitchfx.py:132 | On a key clash, the deepest element carrying the key gives the row's value. |
| Flatten.OverlayKeeps | scrape_pitchfx.py:132 | A key that no element of the chain carries keeps its inherited value. No key appears from nowhere. |
| Flatten.RowCount | scrape_pitchfx.py:133-136 | Exactly one row per element without contents. |
| Flatten.Flattener.constructor | scrape_pitchfx.py:117-118 | The walker starts with an empty row list. |
| Flatten.Flattener.GetAttributes | scrape_pitchfx.py:121-138 | The recursive walker appends exactly the rows of its subtree to the list. The caller's dictionary is a value and is never changed. |
| Flatten.Stamped | scrape_pitchfx.py:141-145 | Stamping keeps the number of rows. |
| Flatten.StampedIndexes | scrape_pitchfx.py:141-145 | After stamping, every row has the game id, `event_index` is exactly 1..N in order, and every other field is unchanged. |
| Flatten.StampRows | scrape_pitchfx.py:141-145 | The counter loop stamps the array in place, with exactly the stamping above. |
| Flatten.FlattenRows | scrape_pitchfx.py:117-145 | A fresh array holding the document's rows, stamped. |
| Count.CountFirst | scrape_pitchfx.py:43-45 | Row 0 with a `type` gets 0-0; row 0 without one is unchanged; no other field is touched. |
| Count.CountStep | scrape_pitchfx.py:55-70 | One step keeps the counters integers. |
| Count.CountEvent | scrape_pitchfx.py:55-70 | The try block's field-by-field writes equal one step of the count state machine, including the partial write when `strikes` is missing. |
| Count.Counted | scrape_pitchfx.py:43-72 | Counting keeps the list's length and the counters' integer type. |
| Count.PrevPitch | scrape_pitchfx.py:47-54 | The previous pitch carries integer counters. |
| Count.CountedPrefix | scrape_pitchfx.py:49-54 | A row once counted never changes: counting a list extends counting its prefix. |
| Count.CountedOnlyWritesCounts | scrape_pitchfx.py:49-72 | Counting writes only `balls` and `strikes`, and keeps the length and order. |
| Count.CountStepKeepsFields | scrape_pitchfx.py:55-70 | One step writes no field other than `balls` and `strikes`. |
| Count.LastTyped | scrape_pitchfx.py:53-54 | The index of the nearest earlier row with a `type`, or none. |
| Count.PrevPitchIsNearest | scrape_pitchfx.py:47-54 | The previous pitch a row is counted from is the nearest earlier row with a `type`, as already counted. With no such row it is the sentinel. |
| Count.CountedFirst | scrape_pitchfx.py:43-45 | The first row is counted on its own. |
| Count.CountedIndex | scrape_pitchfx.py:49-70 | Each later row is one step from the previous pitch among the rows already counted. |
| Count.CountedAt | scrape_pitchfx.py:49-70 | Each later row is one step from its nearest preceding pitch. |
| Count.FirstRowCount | scrape_pitchfx.py:43-47 | A pitch as row 0 gets 0-0. Any other row 0 is left as it is. |
| Count.SentinelAlwaysDiffers | scrape_pitchfx.py:47-58 | Every row after the first, up to and including the first pitch, gets a fresh 0-0 when it has a string at-bat number. |
| Count.StepNewAtBat | scrape_pitchfx.py:56-58 | An at-bat number different from the previous pitch's gives 0-0. |
| Count.StepAfterBall | scrape_pitchfx.py:59-61 | After a ball in the same at-bat: one more ball and the previous strikes. Without a previous `strikes`, only the balls are written. |
| Count.StepAfterStrike | scrape_pitchfx.py:62-68 | After a strike that is not a two-strike foul: the same balls and one more strike. Without a previous `strikes`, only the balls are written. |
| Count.StepFoulWithTwoStrikes | scrape_pitchfx.py:63-65 | A foul with two strikes leaves the count as it was. |
| Count.StepOtherOutcome | scrape_pitchfx.py:59-68 | Any other previous outcome in the same at-bat writes nothing. |
| Count.StepMissingAtBat | scrape_pitchfx.py:56-70 | A missing at-bat number on the row or on its previous pitch skips the row. |
| Count.StepMissingPrevField | scrape_pitchfx.py:59-70 | A previous row in the same at-bat that lacks `type`, or a previous pitch that lacks the field the first write reads, skips the row. |
| Count.PrevPitchGrows | scrape_pitchfx.py:53-54 | The previous pitch after one more row is that row, if it has a `type`, else the one before. |
| Count.CountedGrows | scrape_pitchfx.py:49-70 | Writing row `i` extends the counted prefix by one row. |
| Count.BuildCount | scrape_pitchfx.py:43-72 | The in-place loop leaves the array equal to the count state machine applied to its old contents. |
| Score.Compare | scrape_pitchfx.py:91-98 | Reported totals against the running ones: the tally stays or rises by one on one side. A missing home total is a failure. |
| Score.ScoreStep | scrape_pitchfx.py:88-99 | A row whose runner did not score keeps the tally. A step fails only on a scoring runner's row whose own totals cannot be compared, so the fallback was needed. |
| Score.Stamp | scrape_pitchfx.py:101-102 | A stamped row carries the tally as integers and every other field unchanged. |
| Score.ScoreRun | scrape_pitchfx.py:83-106 | The fold keeps the length, stamps every row, and the last row carries the final tally. With no rows it is 0-0. |
| Score.ScorePrefix | scrape_pitchfx.py:86-104 | The fold of a prefix is the prefix of the fold. |
| Score.ScoreGrows | scrape_pitchfx.py:86-104 | One more row aborts when its step aborts, and otherwise adds the row stamped with the step's tally. |
| Score.ScoredLast | scrape_pitchfx.py:86-104 | The last stamped row is one step from the tally before it. |
| Score.ScoredAt | scrape_pitchfx.py:86-104 | Every stamped row is the input row stamped with one step from the tally in force before it. |
| Score.StepShape | scrape_pitchfx.py:88-99 | A step keeps the tally or raises one side by exactly one, and only a scoring runner moves it. A higher reported home total raises home. Otherwise, with an away total reported, a higher away total raises away and a lower or equal one keeps the tally. |
| Score.ScoreRowShape | scrape_pitchfx.py:86-104 | Each row is stamped with the running tally. The tally moves by at most one run per row, and only on a scoring runner. A row reporting more home runs than counted raises home. Otherwise, with an away total reported, more away runs than counted raises away and none keeps the tally. |
| Score.ScoreMonotone | scrape_pitchfx.py:86-104 | Home and away never decrease along the rows. |
| Score.FallbackNeverIncrements | scrape_pitchfx.py:95-104 | The fallback reads the previous row, already overwritten with the running tally, so it can never add a run. |
| Score.AbortsOnlyOnFirstRow | scrape_pitchfx.py:83-99 | The fold aborts exactly when the first row is a scoring runner whose own totals cannot be compared, because there is no previous row yet. |
| Score.ScoreAbortPropagates | scrape_pitchfx.py:95-96 | An abort on a prefix aborts the whole fold. |
| Score.ScoreEvent | scrape_pitchfx.py:88-99 | The loop body's counter updates equal one step of the fold, and it aborts exactly when that step aborts. |
| Score.FillInScore | scrape_pitchfx.py:83-106 | The in-place loop leaves the array equal to the stamped rows of the fold, or unchanged if the fold aborts. |
| Pipeline.CountingKeepsRunTotals | scrape_pitchfx.py:147-149 | Counting leaves both run totals as they were: each is present exactly when it was, with the same value, so they stay already-parsed integers. |
| Pipeline.GameRows | scrape_pitchfx.py:141-151 | The game's final rows, one per element without contents, or none when scoring aborts. |
| Pipeline.FlattenGameXml | scrape_pitchfx.py:109-151 | One game: the flattened, stamped, counted and scored rows, or an abort exactly when scoring aborts. |
| Pipeline.GameRowsKeepStamps | scrape_pitchfx.py:141-151 | The final rows are one per element without contents. Each carries the game id and its 1-based position. |
| Scenarios.LoneFoulIsLevel | scrape_pitchfx.py:43-45 | A lone foul as the first row is 0-0. |
| Scenarios.BallThenStrike | scrape_pitchfx.py:53-68 | Ball, called strike, in play: 0-0, 1-0, 1-1. |
| Scenarios.NextBatterStartsLevel | scrape_pitchfx.py:56-58 | A new batter starts at 0-0 after a ball to the previous one. |
| Scenarios.HomeThenAway | scrape_pitchfx.py:86-104 | Home scores, a non-scoring row repeats the tally, then away scores: 1-0, 1-0, 1-1. |
| Scenarios.FirstRowWithoutTotalsAborts | scrape_pitchfx.py:95-96 | A scoring runner on the first row without totals aborts the fold. |

## Behaviour worth noting

- **Counts can be written on any row with an at-bat number, not only on pitch rows.** Only the
  *previous* row is tested for a `type`, so a runner or action row can get a count too. Rows
  that get nothing:
  - row 0 without a `type` (`Count.FirstRowCount`);
  - a row whose previous pitch in the same at-bat has a `type` other than `B` or `S`, such as a
    runner row after a ball in play (`Count.StepOtherOutcome`);
  - a row where a field is missing before the first write (`Count.StepMissingAtBat`,
    `Count.StepMissingPrevField`).
- **A lone foul as the first row of a game gets 0-0.** The written count is the count *before*
  the event, and row 0 is reset whenever it has a `type` (`Scenarios.LoneFoulIsLevel`).
- **A missing field can leave a partial write.** When the previous pitch has no `strikes`,
  `balls` has already been written when the `KeyError` stops the row. This happens after a
  ball (`Count.StepAfterBall`) and after a strike that is not a foul
  (`Count.StepAfterStrike`). Any other missing field skips the row before any write:
  - an at-bat number (`Count.StepMissingAtBat`);
  - the previous row's `type` (only the sentinel lacks one), the previous pitch's `balls` or
    `pitch_des`, or a previous foul's `strikes` (`Count.StepMissingPrevField`).

## Left out

- Fetching a game (`get_game`, scrape_pitchfx.py:154-182) is left out. It is HTTP via
  `requests`, parsing by BeautifulSoup, an error-id list and `gc.collect`.
- The text-encoding helpers (`to_unicode`, `df_to_unicode`, `df_to_ascii`,
  scrape_pitchfx.py:185-231) are left out. They are foreign calls into Python's codecs, pandas
  and Django's `iri_to_uri`.
- The `__main__` driver (scrape_pitchfx.py:234-288) is left out. It is date loops, HTTP listing
  fetches, a regular-expression scrape of game ids, DataFrame construction and CSV export.
- XML parsing and `find_all`'s traversal order are left out. A document is given as an
  already-parsed `Node` tree.
- `int()` parsing of run totals (scrape_pitchfx.py:91, 93, 96, 98) and its `ValueError` are
  left out. Reported totals are taken as already-parsed integers.
- Score.FillInScore: requires every reported run total present to be an `Int`
  (`AllRunTotalsNumeric`). This is the abstraction of `int()` above.
- Count.BuildCount: requires a non-empty list. On an empty list the source fails on
  `game_rows[0]` with an `IndexError`.
- Count.BuildCount: requires any `balls`/`strikes` already on a row to be integers
  (`AllCountsNumeric`). A string there would make `+ 1` raise a `TypeError`, which is not
  modelled. Rows from the feed carry neither field.
- Pipeline.FlattenGameXml: requires at least one element without contents (the `IndexError`
  above). It also requires the two type assumptions above for the flattened rows.
- Score.FillInScore: models the uncaught `UnboundLocalError` as an `aborted` result that leaves
  the rows unchanged.
  - The error can only arise on row 0, before any row is stamped (`Score.AbortsOnlyOnFirstRow`),
    so the rows are exactly as the source leaves them.
  - Neither `get_game` (which catches only `KeyError`) nor the `__main__` loop catches this
    exception, so in the source it ends the whole run. What happens after the exception
    propagates is not modelled.
- Rename.RenameKeys: renames a tree value instead of mutating shared nodes. Aliasing between the
  renamed document and other references to its nodes is not modelled.
