/** The score state machine: the running home and away runs after each event. */
module Score {
  import opened Records

  datatype Tally = Tally(home: int, away: int)

  /** Reported run totals, where a row has them, are already-parsed integers. */
  predicate RunTotalsNumeric(r: Row)
  {
    && ("home_team_runs" in r ==> r["home_team_runs"].Int?)
    && ("away_team_runs" in r ==> r["away_team_runs"].Int?)
  }

  predicate AllRunTotalsNumeric(rows: seq<Row>)
  {
    forall i :: 0 <= i < |rows| ==> RunTotalsNumeric(rows[i])
  }

  /** A runner who touched home. */
  predicate RunnerScored(r: Row)
  {
    "runner_score" in r && r["runner_score"] == Str("T")
  }

  /** The reported totals against the running ones: home first, then away, by one at most.
      None when a total the comparison reaches is missing. */
  function Compare(reported: Row, t: Tally): (r: Option<Tally>)
    requires RunTotalsNumeric(reported)
    ensures r.Some? ==> r.value == t || r.value == Tally(t.home + 1, t.away) || r.value == Tally(t.home, t.away + 1)
    ensures "home_team_runs" !in reported ==> r.None?
  {
    if "home_team_runs" !in reported then None
    else if reported["home_team_runs"].n > t.home then Some(Tally(t.home + 1, t.away))
    else if "away_team_runs" !in reported then None
    else if reported["away_team_runs"].n > t.away then Some(Tally(t.home, t.away + 1))
    else Some(t)
  }

  /** The running tally after one row. A scoring row missing a total falls back to the previous
      row; None when that fallback itself fails (there is no previous row yet, or it misses a
      total), which aborts the whole fold. */
  function ScoreStep(event: Row, prev: Option<Row>, t: Tally): (r: Option<Tally>)
    requires RunTotalsNumeric(event)
    requires prev.Some? ==> RunTotalsNumeric(prev.value)
    ensures !RunnerScored(event) ==> r == Some(t)
    ensures r.None? ==> RunnerScored(event) && Compare(event, t).None?
  {
    if !RunnerScored(event) then Some(t)
    else
      match Compare(event, t)
      case Some(t') => Some(t')
      case None =>
        match prev
        case None => None
        case Some(p) => Compare(p, t)
  }

  /** A row stamped with the running tally. */
  function Stamp(event: Row, t: Tally): (r: Row)
    ensures HasTally(r) && TallyOf(r) == t
    ensures forall k :: k != "home_team_runs" && k != "away_team_runs" ==>
              (k in r <==> k in event) && (k in event ==> r[k] == event[k])
  {
    event["home_team_runs" := Int(t.home)]["away_team_runs" := Int(t.away)]
  }

  /** A row stamped with a tally. */
  predicate HasTally(r: Row)
  {
    && "home_team_runs" in r && r["home_team_runs"].Int?
    && "away_team_runs" in r && r["away_team_runs"].Int?
  }

  /** The tally a stamped row carries. */
  function TallyOf(r: Row): Tally
    requires HasTally(r)
  {
    Tally(r["home_team_runs"].n, r["away_team_runs"].n)
  }

  predicate AllStamped(rows: seq<Row>)
  {
    forall i :: 0 <= i < |rows| ==> HasTally(rows[i])
  }

  datatype Scoring = Scoring(rows: seq<Row>, tally: Tally)

  /** The fold over the rows from no runs each: the stamped rows so far and the running tally,
      or None once the fold has aborted. The previous row of the fallback is the previous row
      as already stamped. */
  function ScoreRun(rows: seq<Row>): (s: Option<Scoring>)
    requires AllRunTotalsNumeric(rows)
    ensures s.Some? ==> |s.value.rows| == |rows| && AllStamped(s.value.rows)
    ensures s.Some? && |rows| > 0 ==> TallyOf(Last(s.value.rows)) == s.value.tally
    ensures s.Some? && rows == [] ==> s.value.tally == Tally(0, 0)
    decreases |rows|
  {
    if rows == [] then Some(Scoring([], Tally(0, 0)))
    else
      assert AllRunTotalsNumeric(DropLast(rows));
      match ScoreRun(DropLast(rows))
      case None => None
      case Some(s) =>
        var prev := if s.rows == [] then None else Some(Last(s.rows));
        match ScoreStep(Last(rows), prev, s.tally)
        case None => None
        case Some(t) => Some(Scoring(s.rows + [Stamp(Last(rows), t)], t))
  }

  // ----- Properties of the fold -----

  /** The fold never revisits a row: the fold of a prefix is the prefix of the fold. */
  lemma {:induction false} ScorePrefix(rows: seq<Row>, i: nat)
    requires AllRunTotalsNumeric(rows) && i <= |rows|
    requires ScoreRun(rows).Some?
    ensures AllRunTotalsNumeric(rows[..i])
    ensures ScoreRun(rows[..i]).Some?
    ensures ScoreRun(rows[..i]).value.rows == ScoreRun(rows).value.rows[..i]
    decreases |rows|
  {
    if i < |rows| {
      assert DropLast(rows)[..i] == rows[..i];
      ScorePrefix(DropLast(rows), i);
    } else {
      assert rows[..i] == rows;
    }
  }

  /** The tally in force before row `i`: no runs before the first row, else the one stamped on
      the row before. */
  function TallyBefore(stamped: seq<Row>, i: nat): Tally
    requires i <= |stamped| && AllStamped(stamped)
  {
    if i == 0 then Tally(0, 0) else TallyOf(stamped[i - 1])
  }

  /** The last stamped row is one step of the fold from the tally before it. */
  lemma ScoredLast(rows: seq<Row>)
    requires AllRunTotalsNumeric(rows) && |rows| > 0 && ScoreRun(rows).Some?
    ensures var s := ScoreRun(rows).value.rows;
            var n := |rows| - 1;
            var prev := if n == 0 then None else Some(s[n - 1]);
            && ScoreStep(rows[n], prev, TallyBefore(s, n)) == Some(TallyOf(s[n]))
            && s[n] == Stamp(rows[n], TallyOf(s[n]))
  {
    var n := |rows| - 1;
    assert rows[..n] == DropLast(rows) && rows[..n + 1] == rows;
    assert AllRunTotalsNumeric(rows[..n]);
    var q := ScoreRun(rows[..n]).value;
    ScoreGrows(rows, n, q.rows, q.tally);
    var prev := if n == 0 then None else Some(q.rows[n - 1]);
    var t := ScoreStep(rows[n], prev, q.tally).value;
    var s := ScoreRun(rows).value.rows;
    assert s == q.rows + [Stamp(rows[n], t)];
    assert TallyOf(s[n]) == t;
    assert q.tally == TallyBefore(s, n) by {
      if n > 0 {
        assert Last(q.rows) == s[n - 1];
      }
    }
  }

  /** Row `i` of the stamped rows is one step of the fold from the tally before it. */
  lemma {:induction false} ScoredAt(rows: seq<Row>, i: nat)
    requires AllRunTotalsNumeric(rows) && i < |rows| && ScoreRun(rows).Some?
    ensures var s := ScoreRun(rows).value.rows;
            var prev := if i == 0 then None else Some(s[i - 1]);
            && ScoreStep(rows[i], prev, TallyBefore(s, i)) == Some(TallyOf(s[i]))
            && s[i] == Stamp(rows[i], TallyOf(s[i]))
  {
    if i == |rows| - 1 {
      ScoredLast(rows);
    } else {
      var r := DropLast(rows);
      assert AllRunTotalsNumeric(r);
      ScoredAt(r, i);
      var s := ScoreRun(rows).value.rows;
      var s' := ScoreRun(r).value.rows;
      assert s' == DropLast(s);
      assert s'[i] == s[i] && r[i] == rows[i];
      assert i > 0 ==> s'[i - 1] == s[i - 1];
    }
  }

  /** One step keeps the tally or moves one team's count up by one; only a scoring runner moves
      it. A reported home total above the count raises home first; otherwise a reported away
      total above the count raises away, and a row reporting neither keeps the tally. */
  lemma StepShape(event: Row, prev: Option<Row>, t: Tally, t': Tally)
    requires RunTotalsNumeric(event) && (prev.Some? ==> RunTotalsNumeric(prev.value))
    requires ScoreStep(event, prev, t) == Some(t')
    ensures !RunnerScored(event) ==> t' == t
    ensures t' == t || t' == Tally(t.home + 1, t.away) || t' == Tally(t.home, t.away + 1)
    ensures RunnerScored(event) && "home_team_runs" in event && event["home_team_runs"].n > t.home
            ==> t' == Tally(t.home + 1, t.away)
    ensures RunnerScored(event) && "home_team_runs" in event && event["home_team_runs"].n <= t.home
            && "away_team_runs" in event
            ==> t' == (if event["away_team_runs"].n > t.away then Tally(t.home, t.away + 1) else t)
  {
  }

  /** Every row is stamped with the running tally, and that tally moves by at most one run per
      row: only a scoring runner's row can move it, and then home is raised in preference to
      away whenever the row reports more home runs than counted so far. Otherwise a row reporting
      more away runs than counted raises away, and a row reporting neither keeps the tally. */
  lemma ScoreRowShape(rows: seq<Row>, i: nat)
    requires AllRunTotalsNumeric(rows) && i < |rows| && ScoreRun(rows).Some?
    ensures var s := ScoreRun(rows).value.rows;
            var before := TallyBefore(s, i);
            var after := TallyOf(s[i]);
            && s[i] == Stamp(rows[i], after)
            && (!RunnerScored(rows[i]) ==> after == before)
            && (after == before || after == Tally(before.home + 1, before.away) || after == Tally(before.home, before.away + 1))
            && ((RunnerScored(rows[i]) && "home_team_runs" in rows[i] && rows[i]["home_team_runs"].n > before.home)
                ==> after == Tally(before.home + 1, before.away))
            && ((RunnerScored(rows[i]) && "home_team_runs" in rows[i] && rows[i]["home_team_runs"].n <= before.home
                 && "away_team_runs" in rows[i])
                ==> after == (if rows[i]["away_team_runs"].n > before.away then Tally(before.home, before.away + 1) else before))
  {
    var s := ScoreRun(rows).value.rows;
    var prev := if i == 0 then None else Some(s[i - 1]);
    ScoredAt(rows, i);
    StepShape(rows[i], prev, TallyBefore(s, i), TallyOf(s[i]));
  }

  /** The fallback reads the previous row, already stamped with the running tally, so it can
      never raise either counter. */
  lemma FallbackNeverIncrements(rows: seq<Row>, i: nat)
    requires AllRunTotalsNumeric(rows) && i < |rows| && ScoreRun(rows).Some?
    requires RunnerScored(rows[i])
    requires Compare(rows[i], TallyBefore(ScoreRun(rows).value.rows, i)).None?
    ensures var s := ScoreRun(rows).value.rows;
            TallyOf(s[i]) == TallyBefore(s, i)
  {
    var s := ScoreRun(rows).value.rows;
    ScoredAt(rows, i);
    if i > 0 {
      ScoredAt(rows, i - 1);
      assert TallyOf(s[i - 1]) == TallyBefore(s, i);
    }
  }

  /** Both counters are non-decreasing along the game. */
  lemma {:induction false} ScoreMonotone(rows: seq<Row>, i: nat, j: nat)
    requires AllRunTotalsNumeric(rows) && i <= j < |rows| && ScoreRun(rows).Some?
    ensures var s := ScoreRun(rows).value.rows;
            TallyOf(s[i]).home <= TallyOf(s[j]).home && TallyOf(s[i]).away <= TallyOf(s[j]).away
    decreases j - i
  {
    if i < j {
      ScoreMonotone(rows, i, j - 1);
      ScoreRowShape(rows, j);
    }
  }

  /** The fold aborts exactly when the very first row is a scoring runner whose own totals are
      missing: only there is no previous row to fall back to. */
  lemma {:induction false} AbortsOnlyOnFirstRow(rows: seq<Row>)
    requires AllRunTotalsNumeric(rows)
    ensures ScoreRun(rows).None? <==> |rows| > 0 && RunnerScored(rows[0]) && Compare(rows[0], Tally(0, 0)).None?
    decreases |rows|
  {
    if |rows| == 1 {
      assert DropLast(rows) == [];
    } else if |rows| > 1 {
      var init := DropLast(rows);
      assert init[0] == rows[0];
      AbortsOnlyOnFirstRow(init);
      if ScoreRun(init).Some? {
        var s := ScoreRun(init).value;
        assert Last(s.rows) == s.rows[|init| - 1];
      }
    }
  }

  // ----- The source's loop -----

  /** One more row of the fold, given the fold so far: it aborts when the step aborts, and
      otherwise gains the row stamped with the step's tally. */
  lemma ScoreGrows(input: seq<Row>, i: nat, done: seq<Row>, before: Tally)
    requires AllRunTotalsNumeric(input) && i < |input|
    requires AllRunTotalsNumeric(input[..i]) && ScoreRun(input[..i]) == Some(Scoring(done, before))
    ensures AllRunTotalsNumeric(input[..i + 1])
    ensures var prev := if i == 0 then None else Some(done[i - 1]);
            var step := ScoreStep(input[i], prev, before);
            && (step.None? ==> ScoreRun(input[..i + 1]).None?)
            && (step.Some? ==> ScoreRun(input[..i + 1]) == Some(Scoring(done + [Stamp(input[i], step.value)], step.value)))
  {
    assert DropLast(input[..i + 1]) == input[..i] && Last(input[..i + 1]) == input[i];
    assert i > 0 ==> Last(done) == done[i - 1];
  }

  /** The body of the source's loop for one row, before the row is stamped: the new tally, or
      an abort when the fallback has no previous row to read. */
  method ScoreEvent(event: Row, prev: Option<Row>, home: int, away: int) returns (aborted: bool, h: int, a: int)
    requires RunTotalsNumeric(event)
    requires prev.Some? ==> HasTally(prev.value)
    ensures aborted <==> ScoreStep(event, prev, Tally(home, away)).None?
    ensures !aborted ==> ScoreStep(event, prev, Tally(home, away)) == Some(Tally(h, a))
  {
    aborted, h, a := false, home, away;
    if "runner_score" in event && event["runner_score"] == Str("T") {
      if "home_team_runs" in event && (event["home_team_runs"].n > h || "away_team_runs" in event) {
        if event["home_team_runs"].n > h {
          h := h + 1;
        } else if event["away_team_runs"].n > a {
          a := a + 1;
        }
      } else {
        // KeyError: fall back to the previous row, unbound before the first row
        if prev.None? {
          return true, h, a;
        }
        var p := prev.value;
        if p["home_team_runs"].n > h {
          h := h + 1;
        } else if p["away_team_runs"].n > a {
          a := a + 1;
        }
      }
    }
  }

  /** Stamps every row with the running score in place. Returns true when the source would
      abort: a fallback on the first row reads a previous row that does not exist yet. */
  method FillInScore(rows: array<Row>) returns (aborted: bool)
    requires AllRunTotalsNumeric(rows[..])
    modifies rows
    ensures aborted <==> ScoreRun(old(rows[..])).None?
    ensures aborted ==> rows[..] == old(rows[..])
    ensures !aborted ==> rows[..] == ScoreRun(old(rows[..])).value.rows
  {
    ghost var input := rows[..];
    ghost var stamped: seq<Row> := [];
    var home, away := 0, 0;
    var prev: Option<Row> := None;
    aborted := false;
    for i := 0 to rows.Length
      invariant |stamped| == i && AllStamped(stamped)
      invariant ScoreRun(input[..i]) == Some(Scoring(stamped, Tally(home, away)))
      invariant rows[..] == stamped + input[i..]
      invariant prev == if i == 0 then None else Some(stamped[i - 1])
    {
      var event := rows[i];
      assert event == input[i] && RunTotalsNumeric(event);
      ScoreGrows(input, i, stamped, Tally(home, away));
      var stop, h, a := ScoreEvent(event, prev, home, away);
      if stop {
        ScoreAbortPropagates(input, i + 1);
        assert rows[..] == input;
        return true;
      }
      home, away := h, a;
      event := event["home_team_runs" := Int(home)];
      event := event["away_team_runs" := Int(away)];
      ghost var cur := rows[..];
      rows[i] := event;
      prev := Some(event);
      assert rows[..] == cur[i := event];
      WriteNext(stamped, input[i..], event);
      assert input[i..][1..] == input[i + 1..];
      stamped := stamped + [event];
    }
    assert input[..rows.Length] == input;
  }

  lemma ScoreAbortPropagates(rows: seq<Row>, i: nat)
    requires AllRunTotalsNumeric(rows) && i <= |rows|
    requires AllRunTotalsNumeric(rows[..i]) && ScoreRun(rows[..i]).None?
    ensures ScoreRun(rows).None?
  {
    if ScoreRun(rows).Some? {
      ScorePrefix(rows, i);
    }
  }
}
