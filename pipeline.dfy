/** One game's pipeline: flatten and stamp, then count, then score. */
module Pipeline {
  import opened Records
  import Flatten
  import Count
  import Score

  /** The stamped rows of a renamed document. */
  function Flattened(doc: seq<Node>, gid: string): seq<Row>
  {
    Flatten.Stamped(Flatten.Rows(doc, map[]), gid)
  }

  /** Counting touches only the counters: both run totals are kept as they were, so they stay
      parsed. */
  lemma CountingKeepsRunTotals(rows: seq<Row>)
    requires Count.AllCountsNumeric(rows) && Score.AllRunTotalsNumeric(rows)
    ensures Score.AllRunTotalsNumeric(Count.Counted(rows))
    ensures forall i, f :: 0 <= i < |rows| && (f == "home_team_runs" || f == "away_team_runs") ==>
              (f in Count.Counted(rows)[i] <==> f in rows[i])
              && (f in rows[i] ==> Count.Counted(rows)[i][f] == rows[i][f])
  {
    Count.CountedOnlyWritesCounts(rows);
    var c := Count.Counted(rows);
    forall i | 0 <= i < |c|
      ensures Score.RunTotalsNumeric(c[i])
    {
      assert Count.SameExceptCounts(rows[i], c[i]);
      assert Score.RunTotalsNumeric(rows[i]);
    }
  }

  /** The game's final rows, or None when scoring aborts. */
  function GameRows(doc: seq<Node>, gid: string): (r: Option<seq<Row>>)
    requires Count.AllCountsNumeric(Flattened(doc, gid))
    requires Score.AllRunTotalsNumeric(Flattened(doc, gid))
    ensures r.Some? ==> |r.value| == Flatten.CountLeaves(doc)
  {
    Flatten.RowCount(doc, map[]);
    var counted := Count.Counted(Flattened(doc, gid));
    CountingKeepsRunTotals(Flattened(doc, gid));
    match Score.ScoreRun(counted)
    case None => None
    case Some(s) => Some(s.rows)
  }

  /** Flattens a renamed document, counts, and scores, each stage in place on one array. */
  method FlattenGameXml(doc: seq<Node>, gid: string) returns (rows: array<Row>, aborted: bool)
    requires Flatten.CountLeaves(doc) > 0
    requires Count.AllCountsNumeric(Flattened(doc, gid))
    requires Score.AllRunTotalsNumeric(Flattened(doc, gid))
    ensures fresh(rows)
    ensures aborted <==> GameRows(doc, gid).None?
    ensures !aborted ==> rows[..] == GameRows(doc, gid).value
  {
    Flatten.RowCount(doc, map[]);
    rows := Flatten.FlattenRows(doc, gid);
    Count.BuildCount(rows);
    CountingKeepsRunTotals(Flattened(doc, gid));
    aborted := Score.FillInScore(rows);
  }

  /** Counting and scoring keep what flattening stamped: one row per element without contents,
      every row with the game id and its 1-based position. */
  lemma GameRowsKeepStamps(doc: seq<Node>, gid: string)
    requires Count.AllCountsNumeric(Flattened(doc, gid))
    requires Score.AllRunTotalsNumeric(Flattened(doc, gid))
    requires GameRows(doc, gid).Some?
    ensures var r := GameRows(doc, gid).value;
            && |r| == Flatten.CountLeaves(doc)
            && forall k :: 0 <= k < |r| ==>
                 && "game_id" in r[k] && r[k]["game_id"] == Str(gid)
                 && "event_index" in r[k] && r[k]["event_index"] == Int(k + 1)
  {
    var f := Flattened(doc, gid);
    Flatten.RowCount(doc, map[]);
    Flatten.StampedIndexes(Flatten.Rows(doc, map[]), gid);
    Count.CountedOnlyWritesCounts(f);
    CountingKeepsRunTotals(f);
    var c := Count.Counted(f);
    var r := GameRows(doc, gid).value;
    forall k | 0 <= k < |r|
      ensures "game_id" in r[k] && r[k]["game_id"] == Str(gid)
      ensures "event_index" in r[k] && r[k]["event_index"] == Int(k + 1)
    {
      Score.ScoredAt(c, k);
      assert Count.SameExceptCounts(f[k], c[k]);
    }
  }
}
