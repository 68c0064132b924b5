/** The count state machine: balls and strikes before each event, from the previous pitch. */
module Count {
  import opened Records

  /** The previous-pitch value in force while no row with a `type` has been seen: the integer 0,
      which never equals an at-bat number supplied by the feed as a string. */
  const Sentinel: Row := map["atbat_num" := Int(0)]

  /** The counters a row already holds are integers (adding one to a string would abort). */
  predicate CountsNumeric(r: Row)
  {
    && ("balls" in r ==> r["balls"].Int?)
    && ("strikes" in r ==> r["strikes"].Int?)
  }

  predicate AllCountsNumeric(rows: seq<Row>)
  {
    forall i :: 0 <= i < |rows| ==> CountsNumeric(rows[i])
  }

  /** `b` agrees with `a` on every field other than the two counters. */
  ghost predicate SameExceptCounts(a: Row, b: Row)
  {
    forall k :: k != "balls" && k != "strikes" ==> (k in a <==> k in b) && (k in a ==> a[k] == b[k])
  }

  /** The first row: a pitch (a row with a `type`) starts at no balls and no strikes. */
  function CountFirst(r: Row): (c: Row)
    ensures "type" in r ==> "balls" in c && c["balls"] == Int(0) && "strikes" in c && c["strikes"] == Int(0)
    ensures "type" !in r ==> c == r
    ensures SameExceptCounts(r, c)
  {
    if "type" in r then r["balls" := Int(0)]["strikes" := Int(0)] else r
  }

  /** One later row, given the nearest preceding pitch `prev`. A missing field ends the step
      early, keeping whatever was written before it. */
  function CountStep(event: Row, prev: Row): (r: Row)
    requires CountsNumeric(prev)
    ensures CountsNumeric(event) ==> CountsNumeric(r)
  {
    if "atbat_num" !in event || "atbat_num" !in prev then event
    else if event["atbat_num"] != prev["atbat_num"] then
      event["balls" := Int(0)]["strikes" := Int(0)]
    else if "type" !in prev then event
    else if prev["type"] == Str("B") then
      if "balls" !in prev then event
      else
        var e := event["balls" := Int(prev["balls"].n + 1)];
        if "strikes" !in prev then e else e["strikes" := prev["strikes"]]
    else if prev["type"] == Str("S") then
      if "pitch_des" !in prev then event
      else if prev["pitch_des"] == Str("Foul") && "strikes" !in prev then event
      else if prev["pitch_des"] == Str("Foul") && prev["strikes"] == Int(2) then
        if "balls" !in prev then event
        else event["balls" := prev["balls"]]["strikes" := prev["strikes"]]
      else if "balls" !in prev then event
      else
        var e := event["balls" := prev["balls"]];
        if "strikes" !in prev then e else e["strikes" := Int(prev["strikes"].n + 1)]
    else event
  }

  /** The nearest row of `done` that has a `type`, or the sentinel when there is none. The
      contract only keeps the counters integers; `PrevPitchIsNearest` says which row this is. */
  function PrevPitch(done: seq<Row>): (p: Row)
    ensures AllCountsNumeric(done) ==> CountsNumeric(p)
  {
    if done == [] then Sentinel
    else if "type" in Last(done) then Last(done)
    else PrevPitch(DropLast(done))
  }

  /** The rows after counting, built left to right: each row is counted from the nearest
      preceding pitch as that pitch was after its own counting. The contract only keeps the
      length and the counters' type; `CountedAt`, `CountedPrefix` and `CountedOnlyWritesCounts`
      say what is computed. */
  function Counted(rows: seq<Row>): (r: seq<Row>)
    requires AllCountsNumeric(rows)
    ensures |r| == |rows|
    ensures AllCountsNumeric(r)
    decreases |rows|
  {
    if rows == [] then []
    else if |rows| == 1 then [CountFirst(rows[0])]
    else
      var done := Counted(DropLast(rows));
      done + [CountStep(Last(rows), PrevPitch(done))]
  }

  lemma CountedSnoc(rows: seq<Row>, i: nat)
    requires AllCountsNumeric(rows) && 1 <= i < |rows|
    ensures AllCountsNumeric(rows[..i]) && AllCountsNumeric(rows[..i + 1])
    ensures Counted(rows[..i + 1]) == Counted(rows[..i]) + [CountStep(rows[i], PrevPitch(Counted(rows[..i])))]
  {
    assert DropLast(rows[..i + 1]) == rows[..i];
  }

  lemma PrevPitchSnoc(done: seq<Row>, x: Row)
    ensures PrevPitch(done + [x]) == if "type" in x then x else PrevPitch(done)
  {
    assert DropLast(done + [x]) == done;
  }

  // ----- Properties of counting -----

  /** Rows once counted never change again: counting a list extends counting its prefix. */
  lemma {:induction false} CountedPrefix(rows: seq<Row>, i: nat)
    requires AllCountsNumeric(rows) && 1 <= i <= |rows|
    ensures AllCountsNumeric(rows[..i])
    ensures Counted(rows)[..i] == Counted(rows[..i])
    decreases |rows|
  {
    if i < |rows| {
      CountedPrefix(DropLast(rows), i);
      assert DropLast(rows)[..i] == rows[..i];
    } else {
      assert rows[..i] == rows;
    }
  }

  lemma CountStepKeepsFields(event: Row, prev: Row)
    requires CountsNumeric(prev)
    ensures SameExceptCounts(event, CountStep(event, prev))
  {
  }

  /** Counting writes only `balls` and `strikes`, and keeps the list's length and order. */
  lemma {:induction false} CountedOnlyWritesCounts(rows: seq<Row>)
    requires AllCountsNumeric(rows)
    ensures |Counted(rows)| == |rows|
    ensures forall i :: 0 <= i < |rows| ==> SameExceptCounts(rows[i], Counted(rows)[i])
    decreases |rows|
  {
    if |rows| > 1 {
      var done := Counted(DropLast(rows));
      CountedOnlyWritesCounts(DropLast(rows));
      CountStepKeepsFields(Last(rows), PrevPitch(done));
      forall i | 0 <= i < |rows|
        ensures SameExceptCounts(rows[i], Counted(rows)[i])
      {
        if i < |rows| - 1 {
          assert rows[i] == DropLast(rows)[i];
        }
      }
    }
  }

  /** The index of the nearest row before `i` that has a `type`, if any. */
  function LastTyped(rows: seq<Row>, i: nat): (j: Option<nat>)
    requires i <= |rows|
    ensures j.Some? ==> j.value < i && "type" in rows[j.value]
    ensures j.Some? ==> forall k :: j.value < k < i ==> "type" !in rows[k]
    ensures j.None? ==> forall k :: 0 <= k < i ==> "type" !in rows[k]
  {
    if i == 0 then None
    else if "type" in rows[i - 1] then Some(i - 1)
    else LastTyped(rows, i - 1)
  }

  /** The previous pitch row `i` is counted from: the nearest preceding row with a `type`, as it
      stands after its own counting, or the sentinel. */
  function PrevRow(rows: seq<Row>, i: nat): Row
    requires AllCountsNumeric(rows) && i <= |rows|
  {
    match LastTyped(rows, i)
    case None => Sentinel
    case Some(j) => Counted(rows)[j]
  }

  lemma {:induction false} PrevPitchIsNearest(rows: seq<Row>, i: nat)
    requires AllCountsNumeric(rows) && i <= |rows|
    ensures PrevPitch(Counted(rows)[..i]) == PrevRow(rows, i)
  {
    if i > 0 {
      var c := Counted(rows);
      CountedOnlyWritesCounts(rows);
      assert SameExceptCounts(rows[i - 1], c[i - 1]);
      assert ("type" in c[i - 1]) == ("type" in rows[i - 1]);
      assert c[..i] == c[..i - 1] + [c[i - 1]];
      PrevPitchSnoc(c[..i - 1], c[i - 1]);
      PrevPitchIsNearest(rows, i - 1);
    }
  }

  /** Row `i` of the counted list is one step from the previous pitch among the rows counted
      before it. */
  lemma CountedIndex(rows: seq<Row>, i: nat)
    requires AllCountsNumeric(rows) && 0 < i < |rows|
    ensures AllCountsNumeric(Counted(rows)[..i])
    ensures Counted(rows)[i] == CountStep(rows[i], PrevPitch(Counted(rows)[..i]))
  {
    CountedPrefix(rows, i + 1);
    CountedPrefix(rows, i);
    CountedSnoc(rows, i);
    assert Counted(rows)[i] == Counted(rows[..i + 1])[i];
  }

  /** The first row is counted on its own. */
  lemma CountedFirst(rows: seq<Row>)
    requires AllCountsNumeric(rows) && 0 < |rows|
    ensures Counted(rows)[0] == CountFirst(rows[0])
  {
    CountedPrefix(rows, 1);
    assert rows[..1] == [rows[0]];
    assert Counted(rows)[0] == Counted(rows[..1])[0];
  }

  /** Each row after the first is counted by one step from its previous pitch. */
  lemma CountedAt(rows: seq<Row>, i: nat)
    requires AllCountsNumeric(rows) && 0 < i < |rows|
    ensures CountsNumeric(PrevRow(rows, i))
    ensures Counted(rows)[i] == CountStep(rows[i], PrevRow(rows, i))
  {
    CountedIndex(rows, i);
    PrevPitchIsNearest(rows, i);
  }

  /** A pitch as the first row starts the count at 0-0; any other first row is left as is. */
  lemma FirstRowCount(rows: seq<Row>)
    requires AllCountsNumeric(rows) && |rows| > 0
    ensures "type" in rows[0] ==> Counted(rows)[0] == rows[0]["balls" := Int(0)]["strikes" := Int(0)]
    ensures "type" !in rows[0] ==> Counted(rows)[0] == rows[0]
  {
    CountedFirst(rows);
  }

  /** The sentinel's integer 0 never equals an at-bat number given as a string, so every row
      after the first, up to and including the first pitch, gets a fresh count when it has an
      at-bat number. */
  lemma SentinelAlwaysDiffers(rows: seq<Row>, i: nat)
    requires AllCountsNumeric(rows) && 1 <= i < |rows|
    requires forall k :: 0 <= k < i ==> "type" !in rows[k]
    requires "atbat_num" in rows[i] && rows[i]["atbat_num"].Str?
    ensures Counted(rows)[i] == rows[i]["balls" := Int(0)]["strikes" := Int(0)]
  {
    CountedAt(rows, i);
  }

  // ----- One step: the row counted from its previous pitch -----

  /** A missing at-bat number, on the row or on its previous pitch, skips the row. */
  lemma StepMissingAtBat(event: Row, prev: Row)
    requires CountsNumeric(prev)
    requires "atbat_num" !in event || "atbat_num" !in prev
    ensures CountStep(event, prev) == event
  {
  }

  /** A row whose at-bat differs from its previous pitch's starts a fresh count. */
  lemma StepNewAtBat(event: Row, prev: Row)
    requires CountsNumeric(prev)
    requires "atbat_num" in event && "atbat_num" in prev && event["atbat_num"] != prev["atbat_num"]
    ensures CountStep(event, prev) == event["balls" := Int(0)]["strikes" := Int(0)]
  {
  }

  /** The previous pitch was in the same at-bat. */
  predicate SameAtBat(event: Row, prev: Row)
  {
    "atbat_num" in event && "atbat_num" in prev && event["atbat_num"] == prev["atbat_num"]
  }

  /** After a ball: one more ball and the previous strikes. A missing strikes field ends the
      step after the balls are written, so the row keeps its own strikes, if any. */
  lemma StepAfterBall(event: Row, prev: Row)
    requires CountsNumeric(prev) && SameAtBat(event, prev)
    requires "type" in prev && prev["type"] == Str("B") && "balls" in prev
    ensures "strikes" in prev ==>
      CountStep(event, prev) == event["balls" := Int(prev["balls"].n + 1)]["strikes" := prev["strikes"]]
    ensures "strikes" !in prev ==> CountStep(event, prev) == event["balls" := Int(prev["balls"].n + 1)]
  {
  }

  /** After a strike other than a foul with two strikes: the same balls and one more strike.
      A non-foul strike without a strikes field ends the step after the balls are written, so
      the row keeps its own strikes, if any. */
  lemma StepAfterStrike(event: Row, prev: Row)
    requires CountsNumeric(prev) && SameAtBat(event, prev)
    requires "type" in prev && prev["type"] == Str("S") && "pitch_des" in prev && "balls" in prev
    requires prev["pitch_des"] == Str("Foul") ==> "strikes" in prev && prev["strikes"] != Int(2)
    ensures "strikes" in prev ==>
      CountStep(event, prev) == event["balls" := prev["balls"]]["strikes" := Int(prev["strikes"].n + 1)]
    ensures "strikes" !in prev ==> CountStep(event, prev) == event["balls" := prev["balls"]]
  {
  }

  /** A foul with two strikes leaves the count as it was. */
  lemma StepFoulWithTwoStrikes(event: Row, prev: Row)
    requires CountsNumeric(prev) && SameAtBat(event, prev)
    requires "type" in prev && prev["type"] == Str("S")
    requires "pitch_des" in prev && prev["pitch_des"] == Str("Foul")
    requires "balls" in prev && "strikes" in prev && prev["strikes"] == Int(2)
    ensures CountStep(event, prev) == event["balls" := prev["balls"]]["strikes" := Int(2)]
  {
  }

  /** A previous pitch without the field the next write reads skips the row before anything is
      written: no `type` at all (only the sentinel, in the same at-bat only when the row's own
      at-bat number is the integer 0), a ball or strike without `balls`, a strike without
      `pitch_des`, or a foul without `strikes`. */
  lemma StepMissingPrevField(event: Row, prev: Row)
    requires CountsNumeric(prev) && SameAtBat(event, prev)
    requires "type" !in prev ||
             ((prev["type"] == Str("B") || prev["type"] == Str("S")) &&
              ("balls" !in prev
               || (prev["type"] == Str("S") && "pitch_des" !in prev)
               || (prev["type"] == Str("S") && prev["pitch_des"] == Str("Foul") && "strikes" !in prev)))
    ensures CountStep(event, prev) == event
  {
  }

  /** Any other outcome of the previous pitch, such as a ball in play, writes nothing. */
  lemma StepOtherOutcome(event: Row, prev: Row)
    requires CountsNumeric(prev) && SameAtBat(event, prev)
    requires "type" in prev && prev["type"] != Str("B") && prev["type"] != Str("S")
    ensures CountStep(event, prev) == event
  {
  }

  // ----- The source's loop -----

  /** The body of the source's try block for one row, writing field by field. */
  method CountEvent(event: Row, prev: Row) returns (e: Row)
    requires CountsNumeric(prev)
    ensures e == CountStep(event, prev)
  {
    e := event;
    if "atbat_num" in e && "atbat_num" in prev {
      if e["atbat_num"] != prev["atbat_num"] {
        e := e["balls" := Int(0)];
        e := e["strikes" := Int(0)];
      } else if "type" in prev {
        if prev["type"] == Str("B") {
          if "balls" in prev {
            e := e["balls" := Int(prev["balls"].n + 1)];
            if "strikes" in prev {
              e := e["strikes" := prev["strikes"]];
            }
          }
        } else if prev["type"] == Str("S") {
          // a missing pitch_des, or a missing strikes on a foul, skips the row
          if "pitch_des" in prev && (prev["pitch_des"] != Str("Foul") || "strikes" in prev) {
            if prev["pitch_des"] == Str("Foul") && prev["strikes"] == Int(2) {
              if "balls" in prev {
                e := e["balls" := prev["balls"]];
                e := e["strikes" := prev["strikes"]];
              }
            } else if "balls" in prev {
              e := e["balls" := prev["balls"]];
              if "strikes" in prev {
                e := e["strikes" := Int(prev["strikes"].n + 1)];
              }
            }
          }
        }
      }
    }
  }

  /** The previous pitch after one more row is counted. */
  lemma PrevPitchGrows(input: seq<Row>, i: nat)
    requires AllCountsNumeric(input) && 1 <= i <= |input|
    ensures AllCountsNumeric(input[..i - 1]) && AllCountsNumeric(input[..i])
    ensures var d := Counted(input[..i])[i - 1];
            PrevPitch(Counted(input[..i])) == if "type" in d then d else PrevPitch(Counted(input[..i - 1]))
  {
    var c := Counted(input[..i]);
    if i == 1 {
      assert c == [] + [c[0]];
      PrevPitchSnoc([], c[0]);
    } else {
      CountedSnoc(input, i - 1);
      PrevPitchSnoc(Counted(input[..i - 1]), c[i - 1]);
    }
  }

  /** Writing row `i` turns the first `i` counted rows followed by the rest of the input into the
      first `i + 1` counted rows followed by the rest. */
  lemma CountedGrows(input: seq<Row>, i: nat)
    requires AllCountsNumeric(input) && 1 <= i < |input|
    ensures AllCountsNumeric(input[..i]) && AllCountsNumeric(input[..i + 1])
    ensures CountsNumeric(PrevPitch(Counted(input[..i])))
    ensures (Counted(input[..i]) + input[i..])[i := CountStep(input[i], PrevPitch(Counted(input[..i])))]
         == Counted(input[..i + 1]) + input[i + 1..]
  {
    CountedSnoc(input, i);
  }

  /** Counts the rows in place, carrying the previous pitch across iterations. */
  method BuildCount(rows: array<Row>)
    requires rows.Length > 0
    requires AllCountsNumeric(rows[..])
    modifies rows
    ensures rows[..] == Counted(old(rows[..]))
  {
    ghost var input := rows[..];
    // The source binds the sentinel only when row 0 has no type; otherwise the first iteration
    // rebinds prev to row 0 before reading it, so binding it here changes nothing.
    var prev := Sentinel;
    if "type" in rows[0] {
      rows[0] := rows[0]["balls" := Int(0)]["strikes" := Int(0)];
    }
    assert input[..1] == [input[0]];
    assert rows[..] == Counted(input[..1]) + input[1..];
    for i := 1 to rows.Length
      invariant rows[..] == Counted(input[..i]) + input[i..]
      invariant prev == PrevPitch(Counted(input[..i - 1]))
    {
      var last := rows[i - 1];
      if "type" in last {
        prev := last;
      }
      assert prev == PrevPitch(Counted(input[..i])) by {
        PrevPitchGrows(input, i);
        assert last == Counted(input[..i])[i - 1];
      }
      var event := CountEvent(rows[i], prev);
      assert rows[i] == input[i];
      ghost var cur := rows[..];
      rows[i] := event;
      assert rows[..] == Counted(input[..i + 1]) + input[i + 1..] by {
        assert rows[..] == cur[i := event];
        CountedGrows(input, i);
      }
    }
    assert input[..rows.Length] == input;
  }
}
