/**
 * Joint positions as the pose estimator reports them. A subset record lists,
 * per joint slot, an index into the candidate list or a negative "not found";
 * slots 0 .. 17 are the joints and the slots after them are summary values.
 */
module Joints {
  datatype Point = Point(x: int, y: int)

  /** Position recorded for a joint the estimator did not find. */
  const Missing: Point := Point(-1, -1)

  /** Number of joint slots read from a subset record (slots 0 .. 17). */
  const JointSlots: nat := 18

  /** Slots an extraction loop visits: it stops after slot 17, or when the record ends. */
  function SlotsRead(person: seq<int>): (n: nat)
    ensures n <= |person| && n <= JointSlots
    ensures n == JointSlots || n == |person|
  {
    if |person| < JointSlots then |person| else JointSlots
  }

  /** The first slot in from .. n-1 whose value is at least bound, or n if none is. */
  function FirstSlotAtLeast(person: seq<int>, n: nat, bound: int, from: nat): (k: nat)
    requires from <= n <= |person|
    ensures from <= k <= n
    ensures forall j :: from <= j < k ==> person[j] < bound
    ensures k < n ==> person[k] >= bound
    decreases n - from
  {
    if from == n || person[from] >= bound then from else FirstSlotAtLeast(person, n, bound, from + 1)
  }

  /**
   * The first visited slot whose candidate index is past the end of the
   * candidate list, where reading candidates[value] raises IndexError; it is
   * SlotsRead(person) when every visited slot can be resolved.
   */
  function FirstBadSlot(candidates: seq<Point>, person: seq<int>): (k: nat)
    ensures k <= SlotsRead(person)
    ensures forall j :: 0 <= j < k ==> person[j] < |candidates|
    ensures k < SlotsRead(person) ==> person[k] >= |candidates|
  {
    FirstSlotAtLeast(person, SlotsRead(person), |candidates|, 0)
  }

  /** The first slot at least bound is fixed by the facts FirstSlotAtLeast promises about it. */
  lemma FirstSlotAtLeastIs(person: seq<int>, n: nat, bound: int, k: nat)
    requires k <= n <= |person|
    requires forall j :: 0 <= j < k ==> person[j] < bound
    requires k < n ==> person[k] >= bound
    ensures FirstSlotAtLeast(person, n, bound, 0) == k
  {
  }

  /** The slot where extraction stops is determined by the two facts FirstBadSlot promises. */
  lemma FirstBadSlotIs(candidates: seq<Point>, person: seq<int>, k: nat)
    requires k <= SlotsRead(person)
    requires forall j :: 0 <= j < k ==> person[j] < |candidates|
    requires k < SlotsRead(person) ==> person[k] >= |candidates|
    ensures FirstBadSlot(candidates, person) == k
  {
  }

  /** What one slot maps to: the candidate's position, or Missing for a negative slot. */
  function SlotPoint(candidates: seq<Point>, v: int): (p: Point)
    requires v < |candidates|
    ensures p in candidates || p == Missing
    ensures v >= 0 ==> p == candidates[v]
  {
    if v >= 0 then candidates[v] else Missing
  }

  /** The joint map written for slots 0 .. k-1 of a record. */
  function Extracted(candidates: seq<Point>, person: seq<int>, k: nat): map<int, Point>
    requires k <= |person|
    requires forall j :: 0 <= j < k ==> person[j] < |candidates|
  {
    map j | 0 <= j < k :: SlotPoint(candidates, person[j])
  }

  /** Resolving one more slot adds exactly that slot's key. */
  lemma ExtractedExtend(candidates: seq<Point>, person: seq<int>, k: nat)
    requires k < |person|
    requires forall j :: 0 <= j <= k ==> person[j] < |candidates|
    ensures Extracted(candidates, person, k + 1) == Extracted(candidates, person, k)[k := SlotPoint(candidates, person[k])]
  {
  }

  /** Resolving one more slot over an existing map writes exactly that slot's key. */
  lemma ExtractedStep(before: map<int, Point>, candidates: seq<Point>, person: seq<int>, k: nat)
    requires k < |person|
    requires forall j :: 0 <= j <= k ==> person[j] < |candidates|
    ensures before + Extracted(candidates, person, k + 1)
            == (before + Extracted(candidates, person, k))[k := SlotPoint(candidates, person[k])]
  {
  }

  /** The keys written for slots 0 .. k-1 are exactly those slot numbers. */
  lemma ExtractedKeys(candidates: seq<Point>, person: seq<int>, k: nat)
    requires k <= |person|
    requires forall j :: 0 <= j < k ==> person[j] < |candidates|
    ensures forall j :: j in Extracted(candidates, person, k) <==> 0 <= j < k
  {
  }

  /** Writing slots 0 .. k-1 over a map keyed by slot numbers keeps it keyed by slot numbers. */
  lemma ExtractedWithinSlots(before: map<int, Point>, candidates: seq<Point>, person: seq<int>, k: nat)
    requires k <= |person| && k <= JointSlots
    requires forall j :: 0 <= j < k ==> person[j] < |candidates|
    requires forall j :: j in before ==> 0 <= j < JointSlots
    ensures forall j :: j in before + Extracted(candidates, person, k) ==> 0 <= j < JointSlots
  {
  }

  /**
   * A full record whose slots can all be resolved gives exactly the keys
   * 0 .. 17, each the candidate position of a non-negative slot or Missing
   * for a negative one; the slots after 17 play no part.
   */
  lemma ExtractedFullRecord(candidates: seq<Point>, person: seq<int>, other: seq<int>)
    requires |person| >= JointSlots
    requires FirstBadSlot(candidates, person) == JointSlots
    requires |other| >= JointSlots && other[..JointSlots] == person[..JointSlots]
    ensures FirstBadSlot(candidates, other) == JointSlots
    ensures forall j :: j in Extracted(candidates, person, JointSlots) <==> 0 <= j < JointSlots
    ensures forall j :: 0 <= j < JointSlots && person[j] >= 0 ==>
              Extracted(candidates, person, JointSlots)[j] == candidates[person[j]]
    ensures forall j :: 0 <= j < JointSlots && person[j] < 0 ==>
              Extracted(candidates, person, JointSlots)[j] == Missing
    ensures Extracted(candidates, other, JointSlots) == Extracted(candidates, person, JointSlots)
  {
    assert forall j :: 0 <= j < JointSlots ==> other[j] == other[..JointSlots][j];
    assert forall j :: 0 <= j < JointSlots ==> person[j] == person[..JointSlots][j];
  }
}
