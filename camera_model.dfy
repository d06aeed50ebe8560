/**
 * The camera game's model: the catalog of masks still to play, the joint map
 * parsed from the latest pose estimate, and the trial and total scores.
 */
module CameraModel {
  import opened Wrappers
  import opened Decimal
  import opened Joints
  import opened Scoring

  /**
   * One playable mask. The image loaded for the mask is not modelled, so an
   * entry keeps the mask's name in its place, beside its reference CSV path.
   */
  datatype CatalogEntry = CatalogEntry(mask: string, csvPath: string)

  const MaskNames: seq<string> :=
    ["first_mask", "second_mask", "third_mask", "fourth_mask", "fifth_mask", "sixth_mask", "seventh_mask"]

  function EntryFor(mask: string): CatalogEntry {
    CatalogEntry(mask, "mask_joint_positions/" + mask + ".csv")
  }

  /** Trial scores at or above this value win. */
  const WinThreshold: real := 70.0

  /** The index removed from a catalog of the given size when the random draw is pick. */
  function ChosenIndex(size: nat, pick: nat): (i: nat)
    ensures size > 0 && (size > 1 ==> pick < size) ==> i < size
    ensures size > 1 ==> i == pick
  {
    if size == 1 then 0 else pick
  }

  /** No catalog entry appears twice. */
  predicate Distinct(s: seq<CatalogEntry>) {
    forall i, j :: 0 <= i < j < |s| ==> s[i] != s[j]
  }

  lemma MaskEntriesDistinct()
    ensures forall i, j :: 0 <= i < j < |MaskNames| ==> EntryFor(MaskNames[i]) != EntryFor(MaskNames[j])
  {
    forall i, j | 0 <= i < j < |MaskNames| ensures EntryFor(MaskNames[i]) != EntryFor(MaskNames[j]) {
      assert MaskNames[i] != MaskNames[j];
    }
  }

  /**
   * Removing entry i of a catalog without repeats leaves a catalog without
   * repeats that no longer holds that entry, and loses nothing else.
   */
  lemma RemovalKeepsDistinct(s: seq<CatalogEntry>, i: nat)
    requires Distinct(s) && i < |s|
    ensures Distinct(s[..i] + s[i + 1..])
    ensures s[i] !in s[..i] + s[i + 1..]
    ensures multiset(s[..i] + s[i + 1..]) + multiset{s[i]} == multiset(s)
  {
    var rest := s[..i] + s[i + 1..];
    assert s == s[..i] + [s[i]] + s[i + 1..];
    forall a, b | 0 <= a < b < |rest| ensures rest[a] != rest[b] {
      var a' := if a < i then a else a + 1;
      var b' := if b < i then b else b + 1;
      assert rest[a] == s[a'] && rest[b] == s[b'];
    }
    forall a | 0 <= a < |rest| ensures rest[a] != s[i] {
      var a' := if a < i then a else a + 1;
      assert rest[a] == s[a'];
    }
  }

  class HoleInTheCameraGame {
    var maskAndJoints: seq<CatalogEntry>
    var jointPositions: map<int, Point>
    var totalScore: real
    var trialScore: real

    /**
     * Joint keys are slot numbers 0 .. 17; the catalog holds distinct
     * entries, each a mask of the initial list with its CSV path, at most
     * seven of them.
     */
    ghost predicate Valid()
      reads this`jointPositions, this`maskAndJoints
    {
      KeysValid() && CatalogValid()
    }

    ghost predicate KeysValid()
      reads this`jointPositions
    {
      forall k :: k in jointPositions ==> 0 <= k < JointSlots
    }

    ghost predicate CatalogValid()
      reads this`maskAndJoints
    {
      && Distinct(maskAndJoints)
      && (forall e :: e in maskAndJoints ==> e.mask in MaskNames && e == EntryFor(e.mask))
      && |maskAndJoints| <= |MaskNames|
    }

    /** Start of a session: all seven masks in list order, no joints, zero scores. */
    constructor ()
      ensures Valid()
      ensures |maskAndJoints| == |MaskNames| == 7
      ensures forall i :: 0 <= i < |MaskNames| ==> maskAndJoints[i] == EntryFor(MaskNames[i])
      ensures jointPositions == map[] && totalScore == 0.0 && trialScore == 0.0
    {
      var catalog: seq<CatalogEntry> := [];
      var i := 0;
      while i < |MaskNames|
        invariant 0 <= i <= |MaskNames|
        invariant |catalog| == i
        invariant forall j :: 0 <= j < i ==> catalog[j] == EntryFor(MaskNames[j])
      {
        catalog := catalog + [EntryFor(MaskNames[i])];
        i := i + 1;
      }
      MaskEntriesDistinct();
      maskAndJoints := catalog;
      jointPositions := map[];
      totalScore := 0.0;
      trialScore := 0.0;
    }

    /** Number of masks left to play. */
    function NumHolesRemaining(): (n: nat)
      requires Valid()
      reads this
      ensures n <= |MaskNames|
      ensures n == 0 <==> maskAndJoints == []
    {
      |maskAndJoints|
    }

    /**
     * Removes and returns one catalog entry. pick stands for the value of
     * random.randint(0, size - 1) and is not consulted when one entry is left.
     * On an empty catalog randint raises ValueError: None, nothing removed.
     */
    method GetMaskAndJoints(pick: nat) returns (drawn: Option<CatalogEntry>)
      requires Valid()
      requires |maskAndJoints| > 1 ==> pick < |maskAndJoints|
      modifies this`maskAndJoints
      ensures Valid()
      ensures old(maskAndJoints) == [] ==> drawn == None && maskAndJoints == []
      ensures old(maskAndJoints) != [] ==>
                var i := ChosenIndex(|old(maskAndJoints)|, pick);
                && i < |old(maskAndJoints)|
                && drawn == Some(old(maskAndJoints)[i])
                && maskAndJoints == old(maskAndJoints)[..i] + old(maskAndJoints)[i + 1..]
                && |maskAndJoints| == |old(maskAndJoints)| - 1
                && drawn.value !in maskAndJoints
                && multiset(maskAndJoints) + multiset{drawn.value} == multiset(old(maskAndJoints))
    {
      if |maskAndJoints| == 0 {
        return None;
      }
      var index: nat;
      if |maskAndJoints| == 1 {
        index := 0;
      } else {
        index := pick;
      }
      var chosen := maskAndJoints[index];
      RemovalKeepsDistinct(maskAndJoints, index);
      maskAndJoints := maskAndJoints[..index] + maskAndJoints[index + 1..];
      drawn := Some(chosen);
    }

    /**
     * Reads the first person of the estimator's output into the joint map:
     * slot j (j <= 17) maps to candidates[slot value], or to Missing when the
     * value is negative. Keys are overwritten one by one and never cleared;
     * with no person nothing changes. A slot whose candidate index is past the
     * end raises IndexError, returned as that slot's number, with the slots
     * before it already written.
     */
    method ParseForJointPositions(candidates: seq<Point>, subsets: seq<seq<int>>) returns (failedSlot: Option<nat>)
      requires Valid()
      modifies this`jointPositions
      ensures Valid()
      ensures |subsets| == 0 ==> jointPositions == old(jointPositions) && failedSlot == None
      ensures |subsets| > 0 ==>
                var person := subsets[0];
                var k := FirstBadSlot(candidates, person);
                && jointPositions == old(jointPositions) + Extracted(candidates, person, k)
                && failedSlot == (if k == SlotsRead(person) then None else Some(k))
    {
      failedSlot := None;
      if |subsets| > 0 {
        var person := subsets[0];
        var index := 0;
        while index < |person|
          invariant 0 <= index <= SlotsRead(person) && index < JointSlots
          invariant forall j :: 0 <= j < index ==> person[j] < |candidates|
          invariant jointPositions == old(jointPositions) + Extracted(candidates, person, index)
          invariant failedSlot == None
        {
          var value := person[index];
          if value >= 0 {
            if value >= |candidates| {
              failedSlot := Some(index);
              break;
            }
            ExtractedStep(old(jointPositions), candidates, person, index);
            jointPositions := jointPositions[index := candidates[value]];
          } else {
            ExtractedStep(old(jointPositions), candidates, person, index);
            jointPositions := jointPositions[index := Missing];
          }
          index := index + 1;
          // Slots after 17 hold the estimator's summary values.
          if index == JointSlots {
            break;
          }
        }
        FirstBadSlotIs(candidates, person, index);
        ExtractedWithinSlots(old(jointPositions), candidates, person, index);
      }
    }

    /**
     * Scores the live joint map against a mask's reference rows: the trial
     * score becomes 100 * credit / counted rows and is added to the total.
     * An exception (a short row, a cell float() refuses, or a division by a
     * zero count) leaves both scores as they were.
     */
    method ComputeAccuracy(rows: seq<seq<string>>) returns (err: Option<ScoreError>)
      modifies this`trialScore, this`totalScore
      ensures match CameraAccuracy(jointPositions, rows)
              case Success(score) =>
                err == None && trialScore == score && totalScore == old(totalScore) + score
              case Failure(e) =>
                err == Some(e) && trialScore == old(trialScore) && totalScore == old(totalScore)
    {
      var accuracy, jointCounts;
      accuracy, jointCounts, err := ScoreRows(CameraTiers, jointPositions, rows);
      if err.Some? {
        return;
      }
      if jointCounts == 0 {
        // accuracy/joint_counts raises ZeroDivisionError before either score is assigned.
        err := Some(NoComparableJoints);
        return;
      }
      totalScore := totalScore + accuracy / jointCounts as real * 100.0;
      trialScore := accuracy / jointCounts as real * 100.0;
    }

    /** True iff the latest trial scored at least 70, the boundary included. */
    function CheckWin(): (win: bool)
      reads this
      ensures win <==> trialScore >= WinThreshold
    {
      trialScore >= 70.0
    }
  }
}
