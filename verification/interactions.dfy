/**
 * The loop over the rows the interaction query returns: rows whose two
 * endpoints are distinct resolved ids are reported, in retrieval order, and
 * the highest severity level among them is accumulated.
 */
module Interactions {
  import opened Wrappers
  import opened Severity

  /**
   * A row of the interaction query: `med_interactions` joined with the names
   * of both endpoints. The store may hand back any such rows.
   */
  datatype PairRow = PairRow(
    medA: int, medB: int,
    medAName: string, medBName: string,
    severityLevel: int, severityText: string,
    explanation: Option<string>, alternatives: Option<string>)

  /** One entry of the response's `interactions`. */
  datatype Interaction = Interaction(
    medA: string, medB: string,
    severityLevel: int, severityText: string,
    explanation: Option<string>, alternatives: Option<string>)

  /** The re-check in the loop: both endpoints resolved, and distinct. */
  predicate Keeps(ids: seq<int>, row: PairRow) {
    row.medA in ids && row.medB in ids && row.medA != row.medB
  }

  /** The entry reported for a kept row: the joined names and the row's own columns. */
  function Report(row: PairRow): Interaction {
    Interaction(row.medAName, row.medBName, row.severityLevel, row.severityText, row.explanation, row.alternatives)
  }

  /** The `interactions` array after the loop has seen `rows`. */
  function Kept(ids: seq<int>, rows: seq<PairRow>): (kept: seq<Interaction>)
    decreases |rows|
    ensures |kept| <= |rows|
  {
    if rows == [] then []
    else
      var last := rows[|rows| - 1];
      Kept(ids, rows[..|rows| - 1]) + (if Keeps(ids, last) then [Report(last)] else [])
  }

  /** `overallLevel` after the loop has seen `rows`: it starts at 0 and is raised by each kept row. */
  function MaxLevel(ids: seq<int>, rows: seq<PairRow>): (m: int)
    decreases |rows|
    ensures m >= 0
    ensures forall k :: 0 <= k < |rows| && Keeps(ids, rows[k]) ==> rows[k].severityLevel <= m
    ensures m == 0 || exists k :: 0 <= k < |rows| && Keeps(ids, rows[k]) && rows[k].severityLevel == m
  {
    if rows == [] then 0
    else
      var init, last := rows[..|rows| - 1], rows[|rows| - 1];
      var m := MaxLevel(ids, init);
      assert forall k :: 0 <= k < |init| ==> init[k] == rows[k];
      if Keeps(ids, last) && last.severityLevel > m then last.severityLevel else m
  }

  /** The loop of the handler, pushing reports and raising the running maximum. */
  method FilterRows(ids: seq<int>, rows: seq<PairRow>) returns (interactions: seq<Interaction>, overallLevel: int)
    ensures interactions == Kept(ids, rows)
    ensures overallLevel == MaxLevel(ids, rows)
    ensures overallLevel >= 0
    ensures forall k :: 0 <= k < |rows| && Keeps(ids, rows[k]) ==> rows[k].severityLevel <= overallLevel
    ensures overallLevel == 0 || exists k :: 0 <= k < |rows| && Keeps(ids, rows[k]) && rows[k].severityLevel == overallLevel
  {
    interactions := [];
    overallLevel := 0;
    var i := 0;
    while i < |rows|
      invariant 0 <= i <= |rows|
      invariant interactions == Kept(ids, rows[..i])
      invariant overallLevel == MaxLevel(ids, rows[..i])
    {
      var row := rows[i];
      assert rows[..i + 1][..i] == rows[..i];
      if Keeps(ids, row) {
        interactions := interactions + [Report(row)];
        if row.severityLevel > overallLevel {
          overallLevel := row.severityLevel;
        }
      }
      i := i + 1;
    }
    assert rows[..i] == rows;
  }

  /** Filtering a concatenation is filtering each part: the loop never looks back. */
  lemma {:induction false} KeptAppend(ids: seq<int>, a: seq<PairRow>, b: seq<PairRow>)
    ensures Kept(ids, a + b) == Kept(ids, a) + Kept(ids, b)
    decreases |b|
  {
    if b == [] {
      assert a + b == a;
    } else {
      var init := b[..|b| - 1];
      assert (a + b)[..|a + b| - 1] == a + init;
      assert (a + b)[|a + b| - 1] == b[|b| - 1];
      KeptAppend(ids, a, init);
    }
  }

  /** An entry is reported exactly when some row passing the re-check reports it. */
  lemma {:induction false} KeptMembership(ids: seq<int>, rows: seq<PairRow>, e: Interaction)
    ensures e in Kept(ids, rows) <==> exists k :: 0 <= k < |rows| && Keeps(ids, rows[k]) && Report(rows[k]) == e
    decreases |rows|
  {
    if rows != [] {
      var init := rows[..|rows| - 1];
      KeptMembership(ids, init, e);
      if exists k :: 0 <= k < |init| && Keeps(ids, init[k]) && Report(init[k]) == e {
        var k :| 0 <= k < |init| && Keeps(ids, init[k]) && Report(init[k]) == e;
        assert rows[k] == init[k];
      }
      if exists k :: 0 <= k < |rows| && Keeps(ids, rows[k]) && Report(rows[k]) == e {
        var k :| 0 <= k < |rows| && Keeps(ids, rows[k]) && Report(rows[k]) == e;
        if k < |init| {
          assert init[k] == rows[k];
        }
      }
    }
  }

  /**
   * When every row passes the re-check, every row is reported, one entry per
   * row at the same position: nothing is merged, reordered or dropped.
   */
  lemma {:induction false} KeptEveryRow(ids: seq<int>, rows: seq<PairRow>)
    requires forall k :: 0 <= k < |rows| ==> Keeps(ids, rows[k])
    ensures |Kept(ids, rows)| == |rows|
    ensures forall k :: 0 <= k < |rows| ==> Kept(ids, rows)[k] == Report(rows[k])
    decreases |rows|
  {
    if rows != [] {
      var init := rows[..|rows| - 1];
      KeptEveryRow(ids, init);
      assert Kept(ids, rows) == Kept(ids, init) + [Report(rows[|rows| - 1])];
      assert forall k :: 0 <= k < |init| ==> init[k] == rows[k];
    }
  }

  /** The same interaction stored in both directions, or stored twice, is reported each time. */
  lemma DuplicatesAreNotCollapsed(ids: seq<int>, row: PairRow)
    requires Keeps(ids, row)
    ensures var flipped := row.(medA := row.medB, medB := row.medA, medAName := row.medBName, medBName := row.medAName);
      |Kept(ids, [row, row, flipped])| == 3
  {
    var flipped := row.(medA := row.medB, medB := row.medA, medAName := row.medBName, medBName := row.medAName);
    KeptEveryRow(ids, [row, row, flipped]);
  }

  /** Nothing is reported exactly when no row passes the re-check. */
  lemma KeptEmpty(ids: seq<int>, rows: seq<PairRow>)
    ensures Kept(ids, rows) == [] <==> forall k :: 0 <= k < |rows| ==> !Keeps(ids, rows[k])
  {
    if Kept(ids, rows) != [] {
      KeptMembership(ids, rows, Kept(ids, rows)[0]);
    }
    if exists k :: 0 <= k < |rows| && Keeps(ids, rows[k]) {
      var k :| 0 <= k < |rows| && Keeps(ids, rows[k]);
      KeptMembership(ids, rows, Report(rows[k]));
    }
  }

  /**
   * `overall_severity` is null exactly when no kept row has a positive level;
   * otherwise it carries the largest kept level and that level's text.
   */
  lemma OverallReflectsKeptRows(ids: seq<int>, rows: seq<PairRow>)
    ensures var o := OverallSeverity(MaxLevel(ids, rows));
      && (o.None? <==> forall k :: 0 <= k < |rows| && Keeps(ids, rows[k]) ==> rows[k].severityLevel <= 0)
      && (o.Some? ==>
            (forall k :: 0 <= k < |rows| && Keeps(ids, rows[k]) ==> rows[k].severityLevel <= o.value.level)
            && (exists k :: 0 <= k < |rows| && Keeps(ids, rows[k]) && rows[k].severityLevel == o.value.level)
            && o.value.text == LevelText(o.value.level))
  {
  }

  /**
   * With every level within the table's range 1..3, `overall_severity` is
   * null exactly when nothing is reported, and otherwise always has a text.
   */
  lemma OverallWithTableLevels(ids: seq<int>, rows: seq<PairRow>)
    requires forall k :: 0 <= k < |rows| ==> 1 <= rows[k].severityLevel <= 3
    ensures var o := OverallSeverity(MaxLevel(ids, rows));
      && (o.None? <==> Kept(ids, rows) == [])
      && (o.Some? ==> o.value.text.Some?)
  {
    KeptEmpty(ids, rows);
  }
}
