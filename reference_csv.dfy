/**
 * The script that writes a mask's reference joint positions: it reads the
 * first person of the estimator's output into a fresh dict keyed "0" .. "17"
 * and writes one [key, x, y] row per dict entry to the mask's CSV file.
 */
module ReferenceCsv {
  import opened Wrappers
  import opened Decimal
  import opened Joints
  import opened Scoring

  /**
   * One dict entry. A Python dict keeps insertion order, so the dict is
   * modelled as its entries in that order, with no key twice (DistinctKeys).
   */
  datatype JointEntry = JointEntry(key: nat, pos: Point)

  /** No key appears in two entries, as in a dict's items(). */
  predicate DistinctKeys(entries: seq<JointEntry>) {
    forall i, j :: 0 <= i < j < |entries| ==> entries[i].key != entries[j].key
  }

  /** Why the extraction raises: no person in the output, or IndexError at a slot. */
  datatype ExtractError = NoPerson | CandidateOutOfRange(slot: nat)

  /** A CSV file as its rows of cells. */
  type Rows = seq<seq<string>>

  /** The reference file written for a mask. */
  function CsvPath(maskName: string): string {
    "mask_joint_positions/" + maskName + ".csv"
  }

  /** The dict the entries stand for: a later entry overwrites an earlier one with its key. */
  function AsMap(entries: seq<JointEntry>): (m: map<int, Point>)
    ensures forall k :: k in m ==> exists j :: 0 <= j < |entries| && entries[j].key == k
    ensures forall j :: 0 <= j < |entries| ==> entries[j].key in m
    ensures entries != [] ==> m[entries[|entries| - 1].key] == entries[|entries| - 1].pos
    decreases |entries|
  {
    if entries == [] then map[]
    else AsMap(entries[..|entries| - 1])[entries[|entries| - 1].key := entries[|entries| - 1].pos]
  }

  /** The entries the extraction loop inserts for slots 0 .. k-1, in slot order. */
  function ExtractedEntries(candidates: seq<Point>, person: seq<int>, k: nat): (es: seq<JointEntry>)
    requires k <= |person|
    requires forall j :: 0 <= j < k ==> person[j] < |candidates|
    ensures |es| == k
    ensures forall j :: 0 <= j < k ==> es[j] == JointEntry(j, SlotPoint(candidates, person[j]))
    decreases k
  {
    if k == 0 then [] else ExtractedEntries(candidates, person, k - 1) + [JointEntry(k - 1, SlotPoint(candidates, person[k - 1]))]
  }

  /** One more slot appends its entry. */
  lemma ExtractedEntriesStep(candidates: seq<Point>, person: seq<int>, k: nat)
    requires k < |person|
    requires forall j :: 0 <= j <= k ==> person[j] < |candidates|
    ensures ExtractedEntries(candidates, person, k + 1)
            == ExtractedEntries(candidates, person, k) + [JointEntry(k, SlotPoint(candidates, person[k]))]
  {
  }

  /** The inserted entries make up exactly the joint map the game's parser writes. */
  lemma {:induction false} ExtractedEntriesMap(candidates: seq<Point>, person: seq<int>, k: nat)
    requires k <= |person|
    requires forall j :: 0 <= j < k ==> person[j] < |candidates|
    ensures AsMap(ExtractedEntries(candidates, person, k)) == Extracted(candidates, person, k)
    decreases k
  {
    if k > 0 {
      var es := ExtractedEntries(candidates, person, k);
      assert es[..k - 1] == ExtractedEntries(candidates, person, k - 1);
      ExtractedEntriesMap(candidates, person, k - 1);
      ExtractedExtend(candidates, person, k - 1);
    }
  }

  /**
   * Fills a fresh dict from the first person: slot j (j <= 17) becomes entry
   * j, holding candidates[slot value], or Missing for a negative value. The
   * script indexes the first person unguarded, so an empty output raises, as
   * does a slot past the end of the candidates.
   */
  method ExtractJointPositions(candidates: seq<Point>, subsets: seq<seq<int>>)
    returns (r: Result<seq<JointEntry>, ExtractError>)
    ensures |subsets| == 0 ==> r == Failure(NoPerson)
    ensures |subsets| > 0 ==>
              var person := subsets[0];
              var k := FirstBadSlot(candidates, person);
              && (k < SlotsRead(person) ==> r == Failure(CandidateOutOfRange(k)))
              && (k == SlotsRead(person) ==> r == Success(ExtractedEntries(candidates, person, k)))
  {
    if |subsets| == 0 {
      return Failure(NoPerson);
    }
    var person := subsets[0];
    var jointPositions: seq<JointEntry> := [];
    var failedSlot: Option<nat> := None;
    var index := 0;
    while index < |person|
      invariant 0 <= index <= SlotsRead(person) && index < JointSlots
      invariant forall j :: 0 <= j < index ==> person[j] < |candidates|
      invariant jointPositions == ExtractedEntries(candidates, person, index)
      invariant failedSlot == None
    {
      var value := person[index];
      if value >= 0 {
        if value >= |candidates| {
          failedSlot := Some(index);
          break;
        }
        ExtractedEntriesStep(candidates, person, index);
        jointPositions := jointPositions + [JointEntry(index, candidates[value])];
      } else {
        ExtractedEntriesStep(candidates, person, index);
        jointPositions := jointPositions + [JointEntry(index, Missing)];
      }
      index := index + 1;
      if index == JointSlots {
        break;
      }
    }
    FirstBadSlotIs(candidates, person, index);
    if failedSlot.Some? {
      return Failure(CandidateOutOfRange(failedSlot.value));
    }
    assert index == SlotsRead(person);
    return Success(jointPositions);
  }

  /** The row the writer emits for one entry: str of the key, of x and of y. */
  function RowOf(e: JointEntry): (row: seq<string>)
    ensures |row| == 3
  {
    [NatToString(e.key), IntToString(e.pos.x), IntToString(e.pos.y)]
  }

  /** A row read back as the scorer reads it: key text, then int(float(x)) and int(float(y)). */
  function ReadRow(row: seq<string>): Option<JointEntry> {
    if |row| < 3 then None
    else match (ParseKey(row[0]), ParseTruncated(row[1]), ParseTruncated(row[2]))
      case (Some(k), Some(x), Some(y)) => Some(JointEntry(k, Point(x, y)))
      case _ => None
  }

  /** Reading a written row gives back the entry it was written from. */
  lemma RowRoundTrip(e: JointEntry)
    ensures ReadRow(RowOf(e)) == Some(e)
  {
    KeyTextRoundTrip(e.key);
    CoordinateRoundTrip(e.pos.x, []);
    CoordinateRoundTrip(e.pos.y, []);
    assert IntToString(e.pos.x) + [] == IntToString(e.pos.x);
    assert IntToString(e.pos.y) + [] == IntToString(e.pos.y);
  }

  /** The same holds when the coordinates were written as whole floats, "x.0". */
  lemma FloatRowRoundTrip(e: JointEntry)
    ensures ReadRow([NatToString(e.key), IntToString(e.pos.x) + ".0", IntToString(e.pos.y) + ".0"]) == Some(e)
  {
    KeyTextRoundTrip(e.key);
    CoordinateRoundTrip(e.pos.x, ".0");
    CoordinateRoundTrip(e.pos.y, ".0");
  }

  /**
   * Opens the mask's file for writing, which empties it, and writes one row
   * per entry in dict order; every other file is left as it was.
   */
  method WriteCsv(files: map<string, Rows>, maskName: string, jointPositions: seq<JointEntry>)
    returns (written: map<string, Rows>)
    requires DistinctKeys(jointPositions)
    ensures CsvPath(maskName) in written
    ensures |written[CsvPath(maskName)]| == |jointPositions|
    ensures forall j :: 0 <= j < |jointPositions| ==> written[CsvPath(maskName)][j] == RowOf(jointPositions[j])
    ensures forall p :: p != CsvPath(maskName) ==> (p in written <==> p in files)
    ensures forall p :: p in files && p != CsvPath(maskName) ==> written[p] == files[p]
  {
    var contents: Rows := [];
    var i := 0;
    while i < |jointPositions|
      invariant 0 <= i <= |jointPositions|
      invariant |contents| == i
      invariant forall j :: 0 <= j < i ==> contents[j] == RowOf(jointPositions[j])
    {
      var entry := jointPositions[i];
      contents := contents + [[NatToString(entry.key), IntToString(entry.pos.x), IntToString(entry.pos.y)]];
      i := i + 1;
    }
    written := files[CsvPath(maskName) := contents];
  }

  /** Entries keyed 0 .. n-1 in order, as the extraction inserts them. */
  predicate KeyedInOrder(entries: seq<JointEntry>) {
    forall j :: 0 <= j < |entries| ==> entries[j].key == j
  }

  /** Entries keyed in order have distinct keys, so WriteCsv may be given them. */
  lemma KeyedInOrderDistinct(entries: seq<JointEntry>)
    requires KeyedInOrder(entries)
    ensures DistinctKeys(entries)
  {
  }

  /** The dict of in-order entries maps each key j to entry j's position, and has no other key. */
  lemma {:induction false} AsMapKeyedInOrder(entries: seq<JointEntry>)
    requires KeyedInOrder(entries)
    ensures forall j :: j in AsMap(entries) <==> 0 <= j < |entries|
    ensures forall j :: 0 <= j < |entries| ==> AsMap(entries)[j] == entries[j].pos
    decreases |entries|
  {
    if entries != [] {
      var init := entries[..|entries| - 1];
      assert forall j :: 0 <= j < |init| ==> init[j] == entries[j];
      AsMapKeyedInOrder(init);
    }
  }

  /**
   * Rows written from in-order entries, read against the dict they came
   * from, are each an exact match.
   */
  lemma WrittenRowsExact(entries: seq<JointEntry>, rows: Rows)
    requires KeyedInOrder(entries)
    requires |rows| == |entries|
    requires forall j :: 0 <= j < |entries| ==> rows[j] == RowOf(entries[j])
    ensures AllExact(AsMap(entries), rows)
  {
    AsMapKeyedInOrder(entries);
    forall j | 0 <= j < |rows| ensures ExactRow(AsMap(entries), rows[j]) {
      WrittenRowExact(AsMap(entries), entries[j]);
    }
  }

  /** The row written for an entry matches any joint map holding that entry. */
  lemma WrittenRowExact(live: map<int, Point>, e: JointEntry)
    requires e.key in live && live[e.key] == e.pos
    ensures ExactRow(live, RowOf(e))
  {
    RowRoundTrip(e);
  }

  /** The extraction inserts its entries keyed 0 .. k-1 in order. */
  lemma ExtractedEntriesKeyed(candidates: seq<Point>, person: seq<int>, k: nat)
    requires k <= |person|
    requires forall j :: 0 <= j < k ==> person[j] < |candidates|
    ensures KeyedInOrder(ExtractedEntries(candidates, person, k))
  {
  }

  /**
   * A reference file written from a person's estimate scores 100 against
   * the joint map the game parses from the same estimate (1.0 in the older
   * scorer).
   */
  lemma SameEstimateScoresFull(candidates: seq<Point>, person: seq<int>, rows: Rows)
    requires FirstBadSlot(candidates, person) == SlotsRead(person) && SlotsRead(person) > 0
    requires |rows| == SlotsRead(person)
    requires forall j :: 0 <= j < |rows| ==> rows[j] == RowOf(ExtractedEntries(candidates, person, SlotsRead(person))[j])
    ensures CameraAccuracy(Extracted(candidates, person, SlotsRead(person)), rows) == Success(100.0)
    ensures WallAccuracy(Extracted(candidates, person, SlotsRead(person)), rows) == Success(1.0)
  {
    var k := SlotsRead(person);
    var es := ExtractedEntries(candidates, person, k);
    ExtractedEntriesKeyed(candidates, person, k);
    WrittenRowsExact(es, rows);
    ExtractedEntriesMap(candidates, person, k);
    var live := AsMap(es);
    assert forall i :: 0 <= i < |rows| ==> ExactOrSkipped(live, rows[i]);
    assert ExactRow(live, rows[0]);
    ExactRowsScoreFull(live, rows);
  }
}
