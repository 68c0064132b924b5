/** Worked examples of the count and score folds on small at-bats. */
module Scenarios {
  import opened Records
  import Count
  import Score

  function Pitch(atbat: string, kind: string, des: string): Row
  {
    map["atbat_num" := Str(atbat), "type" := Str(kind), "pitch_des" := Str(des)]
  }

  function WithCount(r: Row, balls: int, strikes: int): Row
  {
    r["balls" := Int(balls)]["strikes" := Int(strikes)]
  }

  /** A lone foul as the first row of a game is reset to no balls and no strikes: the count
      before a pitch is written on that pitch, and nothing precedes the first. */
  lemma LoneFoulIsLevel()
    ensures var f := Pitch("1", "S", "Foul");
            Count.Counted([f]) == [WithCount(f, 0, 0)]
  {
  }

  /** Ball, called strike, in play: the counts before each pitch are 0-0, 1-0 and 1-1. */
  lemma BallThenStrike()
    ensures var b := Pitch("1", "B", "Ball");
            var s := Pitch("1", "S", "Called Strike");
            var x := Pitch("1", "X", "In play, out(s)");
            Count.Counted([b, s, x]) == [WithCount(b, 0, 0), WithCount(s, 1, 0), WithCount(x, 1, 1)]
  {
    var b := Pitch("1", "B", "Ball");
    var s := Pitch("1", "S", "Called Strike");
    var x := Pitch("1", "X", "In play, out(s)");
    var c1 := [WithCount(b, 0, 0)];
    assert DropLast([b, s]) == [b];
    assert Count.Counted([b, s]) == c1 + [Count.CountStep(s, Count.PrevPitch(c1))];
    assert Count.PrevPitch(c1) == WithCount(b, 0, 0);
    var c2 := c1 + [WithCount(s, 1, 0)];
    assert Count.Counted([b, s]) == c2;
    assert DropLast([b, s, x]) == [b, s];
    assert Count.PrevPitch(c2) == WithCount(s, 1, 0) by {
      assert Last(c2) == WithCount(s, 1, 0);
    }
  }

  /** A new at-bat starts again at 0-0 whatever the previous count. */
  lemma NextBatterStartsLevel()
    ensures var b := Pitch("1", "B", "Ball");
            var n := Pitch("2", "S", "Foul");
            Count.Counted([b, n]) == [WithCount(b, 0, 0), WithCount(n, 0, 0)]
  {
    var b := Pitch("1", "B", "Ball");
    var n := Pitch("2", "S", "Foul");
    assert [b, n][..1] == [b];
  }

  function Reported(scored: bool, home: int, away: int): Row
  {
    map["runner_score" := Str(if scored then "T" else "F"),
        "home_team_runs" := Int(home), "away_team_runs" := Int(away)]
  }

  /** A home run and then an away run: each scoring row moves one team's tally by one, and a
      row without a scoring runner repeats the tally in force. */
  lemma HomeThenAway()
    ensures var rows := [Reported(true, 1, 0), Reported(false, 5, 5), Reported(true, 1, 1)];
            var s := Score.ScoreRun(rows);
            && s.Some?
            && s.value.rows == [Reported(true, 1, 0), Reported(false, 1, 0), Reported(true, 1, 1)]
  {
    var h, q, a := Reported(true, 1, 0), Reported(false, 5, 5), Reported(true, 1, 1);
    var rows := [h, q, a];
    assert Score.RunnerScored(h) && !Score.RunnerScored(q) && Score.RunnerScored(a);
    assert Score.Stamp(h, Score.Tally(1, 0)) == h;
    assert Score.Stamp(q, Score.Tally(1, 0)) == Reported(false, 1, 0);
    assert Score.Stamp(a, Score.Tally(1, 1)) == a;
    assert DropLast([h]) == [] && Last([h]) == h;
    assert Score.ScoreRun([]) == Some(Score.Scoring([], Score.Tally(0, 0)));
    assert Score.ScoreStep(h, None, Score.Tally(0, 0)) == Some(Score.Tally(1, 0));
    var s1 := Score.Scoring([h], Score.Tally(1, 0));
    assert [] + [Score.Stamp(h, Score.Tally(1, 0))] == [h];
    assert Score.ScoreRun([h]) == Some(s1);
    assert DropLast([h, q]) == [h] && Last([h, q]) == q;
    var s2 := Score.Scoring([h, Reported(false, 1, 0)], Score.Tally(1, 0));
    assert [h] + [Score.Stamp(q, Score.Tally(1, 0))] == s2.rows;
    assert Score.ScoreRun([h, q]) == Some(s2);
    assert DropLast(rows) == [h, q] && Last(rows) == a;
    assert Score.ScoreStep(a, Some(Reported(false, 1, 0)), Score.Tally(1, 0)) == Some(Score.Tally(1, 1));
  }

  /** A scoring runner on the first row whose reported totals are missing stops the fold. */
  lemma FirstRowWithoutTotalsAborts()
    ensures Score.ScoreRun([map["runner_score" := Str("T")]]).None?
  {
  }
}
