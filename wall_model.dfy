/**
 * The older game model the camera game grew out of. It keeps only the joint
 * map; its parser reads an attribute that is never assigned, and its scorer
 * returns a fraction with the tighter 20/30/40 pixel tiers instead of
 * updating any field.
 */
module WallModel {
  import opened Wrappers
  import opened Decimal
  import opened Joints
  import opened Scoring

  /**
   * Why the parser raises: the estimator found no person (IndexError on the
   * empty subset list), or slot `slot` held a candidate index, whose lookup
   * names the never-assigned attribute `_candidate` (AttributeError).
   */
  datatype WallParseError = NoPerson | CandidateAttributeMissing(slot: nat)

  /** The joint map of k slots that were all "not found". */
  function AllMissing(k: nat): (m: map<int, Point>)
    ensures forall j :: j in m ==> 0 <= j < k && m[j] == Missing
    decreases k
  {
    if k == 0 then map[] else AllMissing(k - 1)[k - 1 := Missing]
  }

  /** AllMissing(k) has exactly the keys 0 .. k-1, each mapped to Missing. */
  lemma {:induction false} AllMissingKeys(k: nat)
    ensures forall j :: j in AllMissing(k) <==> 0 <= j < k
    ensures forall j :: 0 <= j < k ==> AllMissing(k)[j] == Missing
    decreases k
  {
    if k > 0 {
      AllMissingKeys(k - 1);
    }
  }

  /** Writing one more "not found" slot over an existing map. */
  lemma AllMissingStep(before: map<int, Point>, k: nat)
    ensures before + AllMissing(k + 1) == (before + AllMissing(k))[k := Missing]
  {
  }

  /** The first visited slot holding a candidate index, or SlotsRead(person) if none does. */
  function FirstFoundSlot(person: seq<int>): (k: nat)
    ensures k <= SlotsRead(person)
    ensures forall j :: 0 <= j < k ==> person[j] < 0
    ensures k < SlotsRead(person) ==> person[k] >= 0
  {
    FirstSlotAtLeast(person, SlotsRead(person), 0, 0)
  }

  /** k negative slots are written as the camera game's parser writes them. */
  lemma {:induction false} AllMissingIsExtractedUpTo(candidates: seq<Point>, person: seq<int>, k: nat)
    requires k <= |person|
    requires forall j :: 0 <= j < k ==> person[j] < 0
    ensures AllMissing(k) == Extracted(candidates, person, k)
    decreases k
  {
    if k > 0 {
      AllMissingIsExtractedUpTo(candidates, person, k - 1);
      ExtractedExtend(candidates, person, k - 1);
    }
  }

  /**
   * On a record the older parser accepts, it writes what the camera game's
   * parser writes for the same record, whatever the candidates.
   */
  lemma AllMissingIsExtracted(candidates: seq<Point>, person: seq<int>)
    requires FirstFoundSlot(person) == SlotsRead(person)
    ensures FirstBadSlot(candidates, person) == SlotsRead(person)
    ensures AllMissing(SlotsRead(person)) == Extracted(candidates, person, SlotsRead(person))
  {
    FirstBadSlotIs(candidates, person, SlotsRead(person));
    AllMissingIsExtractedUpTo(candidates, person, SlotsRead(person));
  }

  class HoleInTheWallGame {
    var jointPositions: map<int, Point>

    /** The mask and CSV paths are accepted and not kept; the joint map starts empty. */
    constructor (maskPaths: seq<string>, csvPaths: seq<string>)
      ensures jointPositions == map[]
    {
      jointPositions := map[];
    }

    /**
     * Reads the first person's slots 0 .. 17: a negative slot is written as
     * Missing, and the first slot holding a candidate index raises, with the
     * slots before it already written. Only records whose visited slots are
     * all negative parse without error.
     */
    method ParseForJointPositions(subsets: seq<seq<int>>) returns (err: Option<WallParseError>)
      modifies this`jointPositions
      ensures |subsets| == 0 ==> err == Some(NoPerson) && jointPositions == old(jointPositions)
      ensures |subsets| > 0 ==>
                var person := subsets[0];
                var k := FirstFoundSlot(person);
                && jointPositions == old(jointPositions) + AllMissing(k)
                && err == (if k == SlotsRead(person) then None else Some(CandidateAttributeMissing(k)))
      ensures |subsets| > 0 ==>
                (err == None <==> forall j :: 0 <= j < SlotsRead(subsets[0]) ==> subsets[0][j] < 0)
    {
      if |subsets| == 0 {
        return Some(NoPerson);
      }
      var person := subsets[0];
      err := None;
      var index := 0;
      while index < |person|
        invariant 0 <= index <= SlotsRead(person) && index < JointSlots
        invariant forall j :: 0 <= j < index ==> person[j] < 0
        invariant jointPositions == old(jointPositions) + AllMissing(index)
        invariant err == None
      {
        var value := person[index];
        if value >= 0 {
          err := Some(CandidateAttributeMissing(index));
          break;
        }
        jointPositions := jointPositions[index := Missing];
        AllMissingStep(old(jointPositions), index);
        index := index + 1;
        if index >= JointSlots {
          break;
        }
      }
      FirstSlotAtLeastIs(person, SlotsRead(person), 0, index);
      assert FirstFoundSlot(person) == index;
    }

    /**
     * The fraction of credit over counted rows, with full credit under 20
     * pixels, half under 30 and a quarter under 40; nothing is updated. The
     * same errors as the camera game's scorer are returned, including the
     * division by a zero count.
     */
    method ComputeAccuracy(rows: seq<seq<string>>) returns (r: Result<real, ScoreError>)
      ensures r == WallAccuracy(jointPositions, rows)
    {
      var accuracy, jointCounts, err := ScoreRows(WallTiers, jointPositions, rows);
      if err.Some? {
        return Failure(err.value);
      }
      if jointCounts == 0 {
        return Failure(NoComparableJoints);
      }
      return Success(accuracy / jointCounts as real);
    }
  }
}
