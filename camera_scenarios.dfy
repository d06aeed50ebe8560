/**
 * Whole-session behaviour of the camera game that its test suite checks:
 * drawing every mask empties the catalog and plays each mask once, and
 * repeating a trial against the reference written from the same estimate
 * scores 100 each time, adding up in the total.
 */
module CameraScenarios {
  import opened Wrappers
  import opened Joints
  import opened Scoring
  import opened ReferenceCsv
  import opened CameraModel

  /** A sequence of draws, each in range for the catalog size left when it is made. */
  predicate ValidPicks(picks: seq<nat>, size: nat) {
    |picks| == size && forall i :: 0 <= i < |picks| ==> picks[i] < size - i
  }

  /**
   * Draws as many masks as the catalog holds. Afterwards none remain, and
   * the masks drawn are the catalog's masks, each exactly once.
   */
  method DrawAll(game: HoleInTheCameraGame, picks: seq<nat>) returns (drawn: seq<CatalogEntry>)
    requires game.Valid()
    requires ValidPicks(picks, |game.maskAndJoints|)
    modifies game
    ensures game.Valid()
    ensures game.NumHolesRemaining() == 0
    ensures |drawn| == |old(game.maskAndJoints)|
    ensures multiset(drawn) == multiset(old(game.maskAndJoints))
  {
    drawn := [];
    var i := 0;
    while i < |picks|
      invariant 0 <= i <= |picks|
      invariant game.Valid()
      invariant |game.maskAndJoints| == |picks| - i
      invariant |drawn| == i
      invariant multiset(drawn) + multiset(game.maskAndJoints) == multiset(old(game.maskAndJoints))
    {
      var entry := game.GetMaskAndJoints(picks[i]);
      drawn := drawn + [entry.value];
      i := i + 1;
    }
  }

  /**
   * Three trials on a fresh game, each parsing the same estimate and scoring
   * it against the reference rows written from that estimate: every trial
   * scores 100 and wins, and the total reaches 300.
   */
  method ThreeSameEstimateTrials(candidates: seq<Point>, subsets: seq<seq<int>>, rows: Rows)
    returns (game: HoleInTheCameraGame)
    requires |subsets| > 0
    requires FirstBadSlot(candidates, subsets[0]) == SlotsRead(subsets[0]) > 0
    requires |rows| == SlotsRead(subsets[0])
    requires forall j :: 0 <= j < |rows| ==>
               rows[j] == RowOf(ExtractedEntries(candidates, subsets[0], SlotsRead(subsets[0]))[j])
    ensures game.trialScore == 100.0 && game.totalScore == 300.0
    ensures game.CheckWin()
  {
    var person := subsets[0];
    ghost var live := Extracted(candidates, person, SlotsRead(person));
    SameEstimateScoresFull(candidates, person, rows);
    game := new HoleInTheCameraGame();
    var trial := 0;
    while trial < 3
      invariant 0 <= trial <= 3
      invariant game.Valid()
      invariant trial == 0 ==> game.jointPositions == map[] && game.totalScore == 0.0
      invariant trial > 0 ==> game.jointPositions == live && game.trialScore == 100.0
      invariant game.totalScore == 100.0 * trial as real
    {
      assert game.jointPositions + live == live;
      var failedSlot := game.ParseForJointPositions(candidates, subsets);
      var err := game.ComputeAccuracy(rows);
      trial := trial + 1;
    }
  }
}
