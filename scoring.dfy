/**
 * Pose-fit scoring: each reference row whose key names a live joint is
 * compared with that joint by pixel distance and earns full, half, quarter or
 * no credit by distance tier. Credit is kept in quarters (4, 2, 1, 0), so all
 * arithmetic is exact. Distances are compared squared, so no square root is
 * needed (SquaredComparison justifies this).
 */
module Scoring {
  import opened Wrappers
  import opened Decimal
  import opened Joints

  /**
   * Squares of the radii of the full-, half- and quarter-credit tiers: a
   * joint earns full credit when its squared distance is below full, and so on.
   */
  datatype Tiers = Tiers(full: nat, half: nat, quarter: nat)

  /** Tiers of the camera game: radii 30, 40 and 50 pixels. */
  const CameraTiers: Tiers := Tiers(30 * 30, 40 * 40, 50 * 50)

  /** Tiers of the older wall game: radii 20, 30 and 40 pixels. */
  const WallTiers: Tiers := Tiers(20 * 20, 30 * 30, 40 * 40)

  predicate Ordered(t: Tiers) { t.full <= t.half <= t.quarter }

  function Square(a: int): nat { if a < 0 then (-a) * (-a) else a * a }

  function SquaredDistance(a: Point, b: Point): nat {
    Square(a.x - b.x) + Square(a.y - b.y)
  }

  /** Quarters of credit for a joint at squared distance d2 from its reference. */
  function Credit(t: Tiers, d2: nat): (q: nat)
    ensures q <= 4
    ensures q == 4 <==> d2 < t.full
  {
    if d2 < t.full then 4
    else if d2 < t.half then 2
    else if d2 < t.quarter then 1
    else 0
  }

  /** For a distance r >= 0 with r * r == d2, comparing d2 with b * b decides r < b. */
  lemma SquaredComparison(r: real, d2: nat, b: nat)
    requires r >= 0.0 && r * r == d2 as real
    ensures d2 < b * b <==> r < b as real
  {
    var rb := b as real;
    assert (b * b) as real == rb * rb;
    if r < rb {
      assert r * r <= r * rb;
      assert r * rb < rb * rb;
      assert d2 as real < (b * b) as real;
      assert d2 < b * b;
    } else {
      assert rb * rb <= rb * r;
      assert rb * r <= r * r;
      assert (b * b) as real <= d2 as real;
      assert b * b <= d2;
    }
  }

  /** A joint farther from its reference never earns more credit. */
  lemma CreditNonIncreasing(t: Tiers, d2: nat, e2: nat)
    requires Ordered(t)
    requires d2 <= e2
    ensures Credit(t, e2) <= Credit(t, d2)
  {
  }

  /** Credit of a squared distance in each tier, for ordered tiers. */
  lemma CreditTiers(t: Tiers, d2: nat)
    requires Ordered(t)
    ensures Credit(t, d2) == 2 <==> t.full <= d2 < t.half
    ensures Credit(t, d2) == 1 <==> t.half <= d2 < t.quarter
    ensures Credit(t, d2) == 0 <==> t.quarter <= d2
  {
  }

  /**
   * Camera-game credit by Euclidean distance r: whole credit below 30 pixels,
   * half below 40, a quarter below 50, none from 50 on.
   */
  lemma CameraCreditByDistance(r: real, d2: nat)
    requires r >= 0.0 && r * r == d2 as real
    ensures Credit(CameraTiers, d2) == 4 <==> r < 30.0
    ensures Credit(CameraTiers, d2) == 2 <==> 30.0 <= r < 40.0
    ensures Credit(CameraTiers, d2) == 1 <==> 40.0 <= r < 50.0
    ensures Credit(CameraTiers, d2) == 0 <==> 50.0 <= r
  {
    SquaredComparison(r, d2, 30);
    SquaredComparison(r, d2, 40);
    SquaredComparison(r, d2, 50);
  }

  /** Wall-game credit by Euclidean distance r: tiers at 20, 30 and 40 pixels. */
  lemma WallCreditByDistance(r: real, d2: nat)
    requires r >= 0.0 && r * r == d2 as real
    ensures Credit(WallTiers, d2) == 4 <==> r < 20.0
    ensures Credit(WallTiers, d2) == 2 <==> 20.0 <= r < 30.0
    ensures Credit(WallTiers, d2) == 1 <==> 30.0 <= r < 40.0
    ensures Credit(WallTiers, d2) == 0 <==> 40.0 <= r
  {
    SquaredComparison(r, d2, 20);
    SquaredComparison(r, d2, 30);
    SquaredComparison(r, d2, 40);
  }

  datatype ScoreError =
    | FieldMissing(row: nat)   // IndexError: a row has too few cells
    | NotANumber(row: nat)     // ValueError: float() refused a coordinate cell
    | NoComparableJoints       // ZeroDivisionError: no row was counted

  /** Credit in quarters and number of counted rows so far. */
  datatype Tally = Tally(credit: nat, count: nat)

  /**
   * A counted row is one whose key cell names a joint of the live map. The
   * source also tests live[key][1] != '-1', comparing a number with a string;
   * that test always holds, so it adds no condition and a live joint at
   * Missing is compared like any other.
   */
  predicate Counted(live: map<int, Point>, row: seq<string>)
    requires |row| > 0
  {
    ParseKey(row[0]).Some? && ParseKey(row[0]).value in live
  }

  /**
   * A row is counted exactly when its key cell is the text str(n) of some
   * joint n of the live map; the live joint's position plays no part.
   */
  lemma CountedByKeyText(live: map<int, Point>, row: seq<string>)
    requires |row| > 0
    ensures Counted(live, row) <==> exists n: nat :: n in live && row[0] == NatToString(n)
  {
    KeyTextNames(row[0]);
  }

  /**
   * One row of the loop, in the order its cells are read: the key cell, then
   * (only for a counted row) int(float(x)), then int(float(y)).
   */
  function RowStep(t: Tiers, live: map<int, Point>, tally: Tally, row: seq<string>, i: nat): Result<Tally, ScoreError>
  {
    if |row| == 0 then Failure(FieldMissing(i))
    else if !Counted(live, row) then Success(tally)
    else if |row| < 2 then Failure(FieldMissing(i))
    else match ParseTruncated(row[1])
      case None => Failure(NotANumber(i))
      case Some(rx) =>
        if |row| < 3 then Failure(FieldMissing(i))
        else match ParseTruncated(row[2])
          case None => Failure(NotANumber(i))
          case Some(ry) =>
            var d2 := SquaredDistance(Point(rx, ry), live[ParseKey(row[0]).value]);
            Success(Tally(tally.credit + Credit(t, d2), tally.count + 1))
  }

  /**
   * What one row does: it fails when it has no cells, or when it is counted
   * and lacks a readable x and y, and an unreadable x is reported before a
   * missing y cell. A row that is not counted changes nothing; a counted one
   * adds one to the count and at most full credit.
   */
  lemma RowStepOutcome(t: Tiers, live: map<int, Point>, tally: Tally, row: seq<string>, i: nat)
    ensures var r := RowStep(t, live, tally, row, i);
            && (r.Failure? <==>
                  || |row| == 0
                  || (Counted(live, row) && !(|row| >= 3 && ParseTruncated(row[1]).Some? && ParseTruncated(row[2]).Some?)))
            && (r.Failure? ==> r.error == FieldMissing(i) || r.error == NotANumber(i))
            && (r.Failure? && |row| >= 3 ==> r.error == NotANumber(i))
            && (|row| >= 2 && Counted(live, row) && ParseTruncated(row[1]).None? ==> r == Failure(NotANumber(i)))
            && (r.Success? && !Counted(live, row) ==> r.value == tally)
            && (r.Success? && Counted(live, row) ==>
                  r.value.count == tally.count + 1 && tally.credit <= r.value.credit <= tally.credit + 4)
  {
  }

  /** The tally after the loop has read every row, or the first row's error. */
  function TallyRows(t: Tiers, live: map<int, Point>, rows: seq<seq<string>>): (r: Result<Tally, ScoreError>)
    ensures r.Success? ==> r.value.credit <= 4 * r.value.count <= 4 * |rows|
    ensures r.Failure? ==> r.error != NoComparableJoints
    decreases |rows|
  {
    if rows == [] then Success(Tally(0, 0))
    else match TallyRows(t, live, rows[..|rows| - 1])
      case Failure(e) => Failure(e)
      case Success(tally) => RowStep(t, live, tally, rows[|rows| - 1], |rows| - 1)
  }

  /** The tally, or NoComparableJoints where the source divides by a zero count. */
  function Evaluate(t: Tiers, live: map<int, Point>, rows: seq<seq<string>>): (r: Result<Tally, ScoreError>)
    ensures r.Success? ==> 0 < r.value.count && r.value.credit <= 4 * r.value.count
  {
    match TallyRows(t, live, rows)
    case Failure(e) => Failure(e)
    case Success(tally) => if tally.count == 0 then Failure(NoComparableJoints) else Success(tally)
  }

  /** a / b lies in [0, 1] for 0 <= a <= b, and is 1 exactly when a == b. */
  lemma RatioBounds(a: real, b: real)
    requires 0.0 <= a <= b && b > 0.0
    ensures 0.0 <= a / b <= 1.0
    ensures a / b == 1.0 <==> a == b
  {
  }

  /** 100 * (credit / count), credit counted in whole joints. */
  function Percent(tally: Tally): (p: real)
    requires tally.count > 0 && tally.credit <= 4 * tally.count
    ensures 0.0 <= p <= 100.0
    ensures p == 100.0 <==> tally.credit == 4 * tally.count
  {
    var whole := tally.credit as real / 4.0;
    RatioBounds(whole, tally.count as real);
    whole / tally.count as real * 100.0
  }

  /** credit / count, credit counted in whole joints. */
  function Fraction(tally: Tally): (f: real)
    requires tally.count > 0 && tally.credit <= 4 * tally.count
    ensures 0.0 <= f <= 1.0
    ensures f == 1.0 <==> tally.credit == 4 * tally.count
  {
    var whole := tally.credit as real / 4.0;
    RatioBounds(whole, tally.count as real);
    whole / tally.count as real
  }

  /** The trial score the camera game computes from a live map and reference rows. */
  function CameraAccuracy(live: map<int, Point>, rows: seq<seq<string>>): (r: Result<real, ScoreError>)
    ensures r.Success? ==> 0.0 <= r.value <= 100.0
  {
    match Evaluate(CameraTiers, live, rows)
    case Failure(e) => Failure(e)
    case Success(tally) => Success(Percent(tally))
  }

  /** The fraction the older wall game returns. */
  function WallAccuracy(live: map<int, Point>, rows: seq<seq<string>>): (r: Result<real, ScoreError>)
    ensures r.Success? ==> 0.0 <= r.value <= 1.0
  {
    match Evaluate(WallTiers, live, rows)
    case Failure(e) => Failure(e)
    case Success(tally) => Success(Fraction(tally))
  }

  /** A row that names a live joint and gives exactly that joint's position. */
  predicate ExactRow(live: map<int, Point>, row: seq<string>) {
    && |row| >= 3
    && ParseKey(row[0]).Some? && ParseKey(row[0]).value in live
    && ParseTruncated(row[1]) == Some(live[ParseKey(row[0]).value].x)
    && ParseTruncated(row[2]) == Some(live[ParseKey(row[0]).value].y)
  }

  predicate AllExact(live: map<int, Point>, rows: seq<seq<string>>) {
    forall i :: 0 <= i < |rows| ==> ExactRow(live, rows[i])
  }

  lemma AllExactPrefix(live: map<int, Point>, rows: seq<seq<string>>)
    requires rows != [] && AllExact(live, rows)
    ensures AllExact(live, rows[..|rows| - 1]) && ExactRow(live, rows[|rows| - 1])
  {
    var init := rows[..|rows| - 1];
    forall i | 0 <= i < |init| ensures ExactRow(live, init[i]) {
      assert init[i] == rows[i];
    }
  }

  /** Once a prefix of the rows fails, the whole tally fails with the same error. */
  lemma {:induction false} TallyFailurePersists(t: Tiers, live: map<int, Point>, rows: seq<seq<string>>, j: nat)
    requires j <= |rows|
    requires TallyRows(t, live, rows[..j]).Failure?
    ensures TallyRows(t, live, rows) == TallyRows(t, live, rows[..j])
    decreases |rows| - j
  {
    if j < |rows| {
      assert rows[..j + 1][..j] == rows[..j];
      TallyFailurePersists(t, live, rows, j + 1);
    } else {
      assert rows[..j] == rows;
    }
  }

  /** Unfolds TallyRows once: the last row is applied to the tally of the others. */
  lemma TallyLast(t: Tiers, live: map<int, Point>, rows: seq<seq<string>>, tally: Tally)
    requires rows != []
    requires TallyRows(t, live, rows[..|rows| - 1]) == Success(tally)
    ensures TallyRows(t, live, rows) == RowStep(t, live, tally, rows[|rows| - 1], |rows| - 1)
  {
  }

  /** The loop's step: row i is applied to the tally of rows 0 .. i-1. */
  lemma TallyAdvance(t: Tiers, live: map<int, Point>, rows: seq<seq<string>>, i: nat, tally: Tally)
    requires i < |rows|
    requires TallyRows(t, live, rows[..i]) == Success(tally)
    ensures TallyRows(t, live, rows[..i + 1]) == RowStep(t, live, tally, rows[i], i)
  {
    assert rows[..i + 1][..i] == rows[..i];
    TallyLast(t, live, rows[..i + 1], tally);
  }

  /** A row whose step fails decides the whole tally with that error. */
  lemma StepFails(t: Tiers, live: map<int, Point>, rows: seq<seq<string>>, i: nat, tally: Tally, e: ScoreError)
    requires i < |rows|
    requires TallyRows(t, live, rows[..i]) == Success(tally)
    requires RowStep(t, live, tally, rows[i], i) == Failure(e)
    ensures TallyRows(t, live, rows) == Failure(e)
  {
    TallyAdvance(t, live, rows, i, tally);
    TallyFailurePersists(t, live, rows, i + 1);
  }

  /** A row with no cells decides the tally: IndexError on its key cell. */
  lemma EmptyRowFails(t: Tiers, live: map<int, Point>, rows: seq<seq<string>>, i: nat, tally: Tally)
    requires i < |rows|
    requires TallyRows(t, live, rows[..i]) == Success(tally)
    requires |rows[i]| == 0
    ensures TallyRows(t, live, rows) == Failure(FieldMissing(i))
  {
    StepFails(t, live, rows, i, tally, FieldMissing(i));
  }

  /**
   * A counted row without a readable x and y decides the tally, with the
   * error of the first cell that fails to read.
   */
  lemma CountedRowFails(t: Tiers, live: map<int, Point>, rows: seq<seq<string>>, i: nat, tally: Tally, n: nat, e: ScoreError)
    requires i < |rows|
    requires TallyRows(t, live, rows[..i]) == Success(tally)
    requires |rows[i]| > 0 && ParseKey(rows[i][0]) == Some(n) && n in live
    requires |rows[i]| >= 3 && ParseTruncated(rows[i][1]).Some? ==> ParseTruncated(rows[i][2]).None?
    requires e == if |rows[i]| < 2 then FieldMissing(i)
                  else if ParseTruncated(rows[i][1]).None? then NotANumber(i)
                  else if |rows[i]| < 3 then FieldMissing(i)
                  else NotANumber(i)
    ensures TallyRows(t, live, rows) == Failure(e)
  {
    StepFails(t, live, rows, i, tally, e);
  }

  /** A row that is not counted leaves the tally as it was. */
  lemma StepSkips(t: Tiers, live: map<int, Point>, rows: seq<seq<string>>, i: nat, tally: Tally)
    requires i < |rows|
    requires TallyRows(t, live, rows[..i]) == Success(tally)
    requires |rows[i]| > 0 && (ParseKey(rows[i][0]).None? || ParseKey(rows[i][0]).value !in live)
    ensures TallyRows(t, live, rows[..i + 1]) == Success(tally)
  {
    TallyAdvance(t, live, rows, i, tally);
  }

  /** A counted row with readable coordinates adds its credit and one to the count. */
  lemma StepScores(t: Tiers, live: map<int, Point>, rows: seq<seq<string>>, i: nat, tally: Tally, n: nat, x: int, y: int)
    requires i < |rows|
    requires TallyRows(t, live, rows[..i]) == Success(tally)
    requires |rows[i]| >= 3 && ParseKey(rows[i][0]) == Some(n) && n in live
    requires ParseTruncated(rows[i][1]) == Some(x) && ParseTruncated(rows[i][2]) == Some(y)
    ensures TallyRows(t, live, rows[..i + 1])
            == Success(Tally(tally.credit + Credit(t, SquaredDistance(Point(x, y), live[n])), tally.count + 1))
  {
    TallyAdvance(t, live, rows, i, tally);
  }

  /**
   * The row loop both scorers run. It reads the rows in order; a row whose
   * key names a live joint is counted, and earns 1, 0.5 or 0.25 by distance
   * tier. It returns the summed credit and the count of counted rows, or the
   * error of the first row that raises.
   */
  method ScoreRows(t: Tiers, live: map<int, Point>, rows: seq<seq<string>>)
    returns (accuracy: real, jointCounts: nat, err: Option<ScoreError>)
    ensures match TallyRows(t, live, rows)
            case Success(tally) => err == None && jointCounts == tally.count && accuracy == tally.credit as real / 4.0
            case Failure(e) => err == Some(e)
  {
    accuracy := 0.0;
    jointCounts := 0;
    ghost var credit: nat := 0;
    err := None;
    var i := 0;
    while i < |rows|
      invariant 0 <= i <= |rows|
      invariant TallyRows(t, live, rows[..i]) == Success(Tally(credit, jointCounts))
      invariant accuracy == credit as real / 4.0
      invariant err == None
    {
      var row := rows[i];
      ghost var tally := Tally(credit, jointCounts);
      if |row| == 0 {
        err := Some(FieldMissing(i));
        EmptyRowFails(t, live, rows, i, tally);
        return;
      }
      var key := ParseKey(row[0]);
      if key.Some? && key.value in live {
        jointCounts := jointCounts + 1;
        if |row| < 2 {
          err := Some(FieldMissing(i));
          CountedRowFails(t, live, rows, i, tally, key.value, err.value);
          return;
        }
        var x := ParseTruncated(row[1]);
        if x.None? {
          err := Some(NotANumber(i));
          CountedRowFails(t, live, rows, i, tally, key.value, err.value);
          return;
        }
        if |row| < 3 {
          err := Some(FieldMissing(i));
          CountedRowFails(t, live, rows, i, tally, key.value, err.value);
          return;
        }
        var y := ParseTruncated(row[2]);
        if y.None? {
          err := Some(NotANumber(i));
          CountedRowFails(t, live, rows, i, tally, key.value, err.value);
          return;
        }
        var distance2 := SquaredDistance(Point(x.value, y.value), live[key.value]);
        StepScores(t, live, rows, i, tally, key.value, x.value, y.value);
        ghost var gain := Credit(t, distance2);
        if distance2 < t.full {
          accuracy := accuracy + 1.0;
        } else if distance2 < t.half {
          accuracy := accuracy + 0.5;
        } else if distance2 < t.quarter {
          accuracy := accuracy + 0.25;
        }
        credit := credit + gain;
      } else {
        StepSkips(t, live, rows, i, tally);
      }
      i := i + 1;
    }
    assert rows[..i] == rows;
  }

  lemma ExactRowStep(t: Tiers, live: map<int, Point>, credit: nat, count: nat, row: seq<string>, i: nat)
    requires t.full > 0
    requires ExactRow(live, row)
    ensures RowStep(t, live, Tally(credit, count), row, i) == Success(Tally(credit + 4, count + 1))
  {
    var k := ParseKey(row[0]).value;
    var p := live[k];
    assert Counted(live, row);
    assert ParseTruncated(row[1]) == Some(p.x);
    assert ParseTruncated(row[2]) == Some(p.y);
    assert SquaredDistance(Point(p.x, p.y), p) == 0;
  }

  lemma ExactLastRow(t: Tiers, live: map<int, Point>, rows: seq<seq<string>>)
    requires t.full > 0
    requires rows != [] && ExactRow(live, rows[|rows| - 1])
    requires TallyRows(t, live, rows[..|rows| - 1]) == Success(Tally(4 * (|rows| - 1), |rows| - 1))
    ensures TallyRows(t, live, rows) == Success(Tally(4 * |rows|, |rows|))
  {
    var n := |rows| - 1;
    var row := rows[n];
    TallyLast(t, live, rows, Tally(4 * n, n));
    ExactRowStep(t, live, 4 * n, n, row, n);
    assert Tally(4 * n + 4, n + 1) == Tally(4 * |rows|, |rows|);
  }

  /** Rows that all match the live map exactly earn full credit for every row. */
  lemma {:induction false} ExactRowsFullCredit(t: Tiers, live: map<int, Point>, rows: seq<seq<string>>)
    requires t.full > 0
    requires AllExact(live, rows)
    ensures TallyRows(t, live, rows) == Success(Tally(4 * |rows|, |rows|))
    decreases |rows|
  {
    if rows != [] {
      AllExactPrefix(live, rows);
      ExactRowsFullCredit(t, live, rows[..|rows| - 1]);
      ExactLastRow(t, live, rows);
    }
  }

  /** A row the scorer passes over, or one that matches its live joint exactly. */
  predicate ExactOrSkipped(live: map<int, Point>, row: seq<string>) {
    ExactRow(live, row) || (|row| > 0 && !Counted(live, row))
  }

  lemma SkippedRowStep(t: Tiers, live: map<int, Point>, tally: Tally, row: seq<string>, i: nat)
    requires |row| > 0 && !Counted(live, row)
    ensures RowStep(t, live, tally, row, i) == Success(tally)
  {
  }

  /** When every row is skipped or exact, every counted row earns full credit. */
  lemma {:induction false} ExactOrSkippedFullCredit(t: Tiers, live: map<int, Point>, rows: seq<seq<string>>)
    requires t.full > 0
    requires forall i :: 0 <= i < |rows| ==> ExactOrSkipped(live, rows[i])
    ensures TallyRows(t, live, rows).Success?
    ensures TallyRows(t, live, rows).value.credit == 4 * TallyRows(t, live, rows).value.count
    decreases |rows|
  {
    if rows != [] {
      var n := |rows| - 1;
      var init := rows[..n];
      assert forall i :: 0 <= i < |init| ==> init[i] == rows[i];
      ExactOrSkippedFullCredit(t, live, init);
      var tally := TallyRows(t, live, init).value;
      TallyLast(t, live, rows, tally);
      if ExactRow(live, rows[n]) {
        ExactRowStep(t, live, tally.credit, tally.count, rows[n], n);
      } else {
        SkippedRowStep(t, live, tally, rows[n], n);
      }
    }
  }

  /** A successful tally over rows that include an exact row w counts at least one row. */
  lemma {:induction false} ExactRowCounted(t: Tiers, live: map<int, Point>, rows: seq<seq<string>>, w: nat)
    requires w < |rows| && ExactRow(live, rows[w])
    requires TallyRows(t, live, rows).Success?
    ensures TallyRows(t, live, rows).value.count > 0
    decreases |rows|
  {
    var n := |rows| - 1;
    var init := rows[..n];
    var r := TallyRows(t, live, init);
    assert r.Success?;
    TallyLast(t, live, rows, r.value);
    RowStepOutcome(t, live, r.value, rows[n], n);
    if w < n {
      assert init[w] == rows[w];
      ExactRowCounted(t, live, init, w);
    }
  }

  /**
   * A perfect match scores 100 in the camera game and 1 in the wall game:
   * every row is either passed over or matches its live joint exactly, and
   * at least one row is compared.
   */
  lemma ExactRowsScoreFull(live: map<int, Point>, rows: seq<seq<string>>)
    requires forall i :: 0 <= i < |rows| ==> ExactOrSkipped(live, rows[i])
    requires exists i :: 0 <= i < |rows| && ExactRow(live, rows[i])
    ensures CameraAccuracy(live, rows) == Success(100.0)
    ensures WallAccuracy(live, rows) == Success(1.0)
  {
    var w :| 0 <= w < |rows| && ExactRow(live, rows[w]);
    ExactOrSkippedFullCredit(CameraTiers, live, rows);
    ExactOrSkippedFullCredit(WallTiers, live, rows);
    ExactRowCounted(CameraTiers, live, rows, w);
    ExactRowCounted(WallTiers, live, rows, w);
  }

  /**
   * With no live joints (no person parsed on a fresh game) no row is
   * counted, and the source divides by zero: the model reports
   * NoComparableJoints rather than the score 0 that a caller might expect.
   */
  lemma {:induction false} NoLiveJointsCountsNothing(t: Tiers, rows: seq<seq<string>>)
    requires forall i :: 0 <= i < |rows| ==> |rows[i]| > 0
    ensures TallyRows(t, map[], rows) == Success(Tally(0, 0))
    ensures Evaluate(t, map[], rows) == Failure(NoComparableJoints)
    decreases |rows|
  {
    if rows != [] {
      var n := |rows| - 1;
      var init := rows[..n];
      assert forall i :: 0 <= i < |init| ==> init[i] == rows[i];
      NoLiveJointsCountsNothing(t, init);
      TallyLast(t, map[], rows, Tally(0, 0));
      assert !Counted(map[], rows[n]);
    }
  }

  /**
   * A live joint left at Missing (-1, -1) still counts: it is compared with
   * the reference and here earns nothing, so the score is 0, not undefined.
   */
  lemma MissingLiveJointStillCounts()
    ensures CameraAccuracy(map[0 := Missing], [["0", "100", "100"]]) == Success(0.0)
  {
    var live := map[0 := Missing];
    var rows := [["0", "100", "100"]];
    var row := rows[0];
    assert row[0] == NatToString(0);
    KeyTextRoundTrip(0);
    assert row[1] == IntToString(100) + [] && row[2] == IntToString(100) + [] by {
      assert NatToString(10) == "10";
      assert NatToString(100) == "100";
    }
    CoordinateRoundTrip(100, []);
    assert SquaredDistance(Point(100, 100), Missing) == 2 * 101 * 101;
    assert rows[..0] == [];
    TallyLast(CameraTiers, live, rows, Tally(0, 0));
    assert RowStep(CameraTiers, live, Tally(0, 0), row, 0) == Success(Tally(0, 1));
  }
}
