/** The PointMapper: the point file of one subtree split into slots of
    pointsPerSlot records, each loaded on demand, reference counted by the
    sessions that use it, written back when the last one lets go, and
    finally scanned chunk by chunk for ranges that hold points. */
module Mapping {
  import opened Wrappers
  import opened Slots
  import Decimal

  /** The runtime errors the mapper throws. */
  datatype MapperError =
    | FileMissing        // "File does not exist"
    | InvalidArguments   // "Invalid arguments to PointMapper"
    | InvalidState       // "Invalid PointMapper state"
    | BaseTooDeep        // "Base must end before disk branch depth"

  /** Where a global point index lands: which slot, and which cell in it. */
  datatype Location = Location(slotIndex: nat, slotOffset: nat)

  /** The index decomposition shared by addPoint, hasPoint, getPoint,
      getPointData, grow and clip. */
  function Locate(index: nat, firstPoint: nat, pointsPerSlot: nat): (loc: Location)
    requires firstPoint <= index && pointsPerSlot > 0
    ensures loc.slotOffset < pointsPerSlot
    ensures loc.slotIndex * pointsPerSlot + loc.slotOffset == index - firstPoint
  {
    var local := index - firstPoint;
    Location(local / pointsPerSlot, local % pointsPerSlot)
  }

  /** The global index of the first cell of a slot. */
  function GlobalSlot(firstPoint: nat, pointsPerSlot: nat, slotIndex: nat): nat {
    firstPoint + slotIndex * pointsPerSlot
  }

  lemma QuotientUnique(p: nat, q1: nat, r1: nat, q2: nat, r2: nat)
    requires r1 < p && r2 < p && q1 * p + r1 == q2 * p + r2
    ensures q1 == q2 && r1 == r2
  {
    if q1 < q2 {
      MulMono(q1 + 1, q2, p);
    } else if q2 < q1 {
      MulMono(q2 + 1, q1, p);
    }
  }

  /** The decomposition is the only one: any slot and in-range offset that
      add up to the local offset are the ones Locate finds. */
  lemma LocateUnique(index: nat, firstPoint: nat, pointsPerSlot: nat, slotIndex: nat, slotOffset: nat)
    requires firstPoint <= index && pointsPerSlot > 0
    requires slotOffset < pointsPerSlot
    requires slotIndex * pointsPerSlot + slotOffset == index - firstPoint
    ensures Locate(index, firstPoint, pointsPerSlot) == Location(slotIndex, slotOffset)
  {
    var loc := Locate(index, firstPoint, pointsPerSlot);
    QuotientUnique(pointsPerSlot, loc.slotIndex, loc.slotOffset, slotIndex, slotOffset);
  }

  /** Routing round trip: the cell at an offset from a slot's global index
      is routed back to that slot and offset; in particular the global slot
      id that grow registers passes clip's alignment test. */
  lemma RouteGlobalSlot(firstPoint: nat, pointsPerSlot: nat, slotIndex: nat, slotOffset: nat)
    requires pointsPerSlot > 0 && slotOffset < pointsPerSlot
    ensures Locate(GlobalSlot(firstPoint, pointsPerSlot, slotIndex) + slotOffset, firstPoint, pointsPerSlot)
            == Location(slotIndex, slotOffset)
  {
    LocateUnique(GlobalSlot(firstPoint, pointsPerSlot, slotIndex) + slotOffset, firstPoint, pointsPerSlot, slotIndex, slotOffset);
  }

  /** The constructor's checks: the file must exist, the points must fill
      whole slots and the file size must be numPoints records. On success
      the number of slots. */
  function CheckGeometry(fileExists: bool, fileSize: nat, numPoints: nat, pointSize: nat, pointsPerSlot: nat): (r: Result<nat, MapperError>)
    requires pointsPerSlot > 0
    ensures !fileExists ==> r == Failure(FileMissing)
    ensures fileExists && r.Failure? ==> r.error == InvalidArguments
    ensures r.Success? <==> fileExists && numPoints % pointsPerSlot == 0 && numPoints * pointSize == fileSize
    ensures r.Success? ==> r.value * pointsPerSlot == numPoints && r.value * pointsPerSlot * pointSize == fileSize
  {
    if !fileExists then Failure(FileMissing)
    else if numPoints % pointsPerSlot != 0 || numPoints * pointSize != fileSize then Failure(InvalidArguments)
    else Success(numPoints / pointsPerSlot)
  }

  /** A session (a Clipper) that may hold slots; null becomes None. */
  type SessionId = nat

  /** The referrer set after grow: a session joins it only when it is present
      and its own insert reported the slot as new to it. */
  function Grown(refs: set<SessionId>, session: Option<SessionId>, inserted: bool): set<SessionId> {
    if session.Some? && inserted then refs + {session.value} else refs
  }

  /** The referrer set after clip. */
  function Unregistered(refs: set<SessionId>, session: Option<SessionId>): set<SessionId> {
    if session.Some? then refs - {session.value} else refs
  }

  /** The referrer set after a sequence of clips. */
  function UnregisteredAll(refs: set<SessionId>, sessions: seq<SessionId>): set<SessionId>
    decreases |sessions|
  {
    if sessions == [] then refs else UnregisteredAll(Unregistered(refs, Some(sessions[0])), sessions[1..])
  }

  /** Clipping a sequence of sessions removes exactly those sessions. */
  lemma {:induction false} UnregisteredAllRemoves(refs: set<SessionId>, sessions: seq<SessionId>)
    ensures UnregisteredAll(refs, sessions) == refs - set s | s in sessions
    decreases |sessions|
  {
    if sessions != [] {
      UnregisteredAllRemoves(Unregistered(refs, Some(sessions[0])), sessions[1..]);
      assert forall s :: s in sessions <==> s == sessions[0] || s in sessions[1..];
    }
  }

  /** A slot outlives its clips until every session that registered it has
      clipped it: after a sequence of clips the referrer set is empty (and
      the slot written back and dropped) exactly when the sequence covers
      the registered sessions. */
  lemma SlotDroppedWhenAllClip(refs: set<SessionId>, sessions: seq<SessionId>)
    ensures UnregisteredAll(refs, sessions) == {} <==> forall s :: s in refs ==> s in sessions
  {
    UnregisteredAllRemoves(refs, sessions);
    if UnregisteredAll(refs, sessions) == {} {
      forall s | s in refs
        ensures s in sessions
      {
        assert s !in UnregisteredAll(refs, sessions);
      }
    }
  }

  /** A session that registered a slot keeps it alive until it clips it,
      and clipping it undoes the registration of a session new to the set. */
  lemma GrowThenClip(refs: set<SessionId>, session: SessionId)
    ensures Grown(refs, Some(session), true) != {}
    ensures session !in refs ==> Unregistered(Grown(refs, Some(session), true), Some(session)) == refs
  {
    assert session in Grown(refs, Some(session), true);
  }

  // ---------------------------------------------------------------------
  // Finalize: the chunk-sized ranges of the file that hold points.

  lemma MulMono(a: nat, b: nat, m: nat)
    requires a <= b
    ensures a * m <= b * m
  {
    assert b * m == a * m + (b - a) * m;
  }

  lemma MulBefore(a: nat, b: nat, m: nat)
    requires a < b
    ensures a * m + m <= b * m
  {
    MulMono(a + 1, b, m);
  }

  lemma ExactQuotient(a: nat, m: nat)
    requires m > 0
    ensures (a * m) / m == a && (a * m) % m == 0
  {
    QuotientUnique(m, (a * m) / m, (a * m) % m, a, 0);
  }

  /** The file holds whole chunks, and its byte size is their number times
      the chunk's byte size. */
  lemma WholeChunks(records: nat, pointSize: nat, chunkPoints: nat, fileSize: nat)
    requires pointSize > 0 && chunkPoints > 0 && fileSize == records * pointSize
    requires (fileSize / pointSize) % chunkPoints == 0
    ensures (records / chunkPoints) * chunkPoints == records
    ensures fileSize == (records / chunkPoints) * (chunkPoints * pointSize)
  {
    ExactQuotient(records, pointSize);
    var n := records / chunkPoints;
    assert records == n * chunkPoints;
    assert fileSize == (n * chunkPoints) * pointSize;
  }

  /** One step of finalize's byte-position loop over chunk c of n. */
  lemma ByteStep(c: nat, n: nat, chunkPoints: nat, pointSize: nat, pos: nat, fileSize: nat)
    requires chunkPoints > 0 && pointSize > 0
    requires pos == c * (chunkPoints * pointSize) && fileSize == n * (chunkPoints * pointSize)
    ensures pos < fileSize <==> c < n
    ensures pos / pointSize == c * chunkPoints
    ensures pos + chunkPoints * pointSize == (c + 1) * (chunkPoints * pointSize)
  {
    if c < n {
      MulMono(c + 1, n, chunkPoints * pointSize);
    } else {
      MulMono(n, c, chunkPoints * pointSize);
    }
    assert pos == (c * chunkPoints) * pointSize;
    ExactQuotient(c * chunkPoints, pointSize);
  }

  /** The id of chunk c: the global index of its first record. */
  function ChunkId(firstPoint: nat, chunkPoints: nat, c: nat): nat {
    firstPoint + c * chunkPoints
  }

  lemma ChunkIdMono(firstPoint: nat, chunkPoints: nat, c: nat, d: nat)
    requires c < d
    ensures ChunkId(firstPoint, chunkPoints, c) + chunkPoints <= ChunkId(firstPoint, chunkPoints, d)
  {
    MulMono(c + 1, d, chunkPoints);
  }

  /** The records of chunk c. */
  function Chunk(records: seq<Record>, chunkPoints: nat, c: nat): (w: seq<Record>)
    requires (c + 1) * chunkPoints <= |records|
    ensures |w| == chunkPoints
  {
    records[c * chunkPoints..(c + 1) * chunkPoints]
  }

  /** Some record of the window holds an existing point. */
  predicate Populated(fmt: PointFormat, window: seq<Record>) {
    exists k :: 0 <= k < |window| && Marker(fmt, window[k]).Some?
  }

  /** Chunk c lies inside the file and holds an existing point. */
  ghost predicate ChunkPopulated(fmt: PointFormat, records: seq<Record>, chunkPoints: nat, c: nat) {
    (c + 1) * chunkPoints <= |records| && Populated(fmt, Chunk(records, chunkPoints, c))
  }

  /** The ids of the populated chunks among the first n, in file order. */
  function ChunkIds(fmt: PointFormat, records: seq<Record>, chunkPoints: nat, firstPoint: nat, n: nat): seq<nat>
    requires n * chunkPoints <= |records|
  {
    if n == 0 then []
    else
      ChunkIds(fmt, records, chunkPoints, firstPoint, n - 1) +
      (if Populated(fmt, Chunk(records, chunkPoints, n - 1)) then [ChunkId(firstPoint, chunkPoints, n - 1)] else [])
  }

  /** The output store after the first n chunks were put, each populated
      one under the decimal spelling of its id. */
  function Uploaded(fmt: PointFormat, records: seq<Record>, chunkPoints: nat, firstPoint: nat,
                    compress: seq<Record> -> seq<Byte>, output: map<string, seq<Byte>>, n: nat): map<string, seq<Byte>>
    requires n * chunkPoints <= |records|
  {
    if n == 0 then output
    else
      var before := Uploaded(fmt, records, chunkPoints, firstPoint, compress, output, n - 1);
      var w := Chunk(records, chunkPoints, n - 1);
      if Populated(fmt, w) then before[Decimal.Spell(ChunkId(firstPoint, chunkPoints, n - 1)) := compress(w)] else before
  }

  /** Strictly increasing, and every element below `bound`. */
  ghost predicate IncreasingBelow(s: seq<nat>, bound: nat) {
    (forall a, b :: 0 <= a < b < |s| ==> s[a] < s[b]) &&
    (forall a :: 0 <= a < |s| ==> s[a] < bound)
  }

  /** The ids finalize records come out in strictly increasing order, all
      below the id of the first chunk not yet scanned. */
  lemma {:induction false} ChunkIdsSorted(fmt: PointFormat, records: seq<Record>, chunkPoints: nat, firstPoint: nat, n: nat)
    requires chunkPoints > 0 && n * chunkPoints <= |records|
    ensures IncreasingBelow(ChunkIds(fmt, records, chunkPoints, firstPoint, n), ChunkId(firstPoint, chunkPoints, n))
  {
    if n > 0 {
      ChunkIdsSorted(fmt, records, chunkPoints, firstPoint, n - 1);
      ChunkIdMono(firstPoint, chunkPoints, n - 1, n);
      var prev := ChunkIds(fmt, records, chunkPoints, firstPoint, n - 1);
      var ids := ChunkIds(fmt, records, chunkPoints, firstPoint, n);
      var last := ChunkId(firstPoint, chunkPoints, n - 1);
      assert ids == prev || ids == prev + [last];
    }
  }

  /** Finalize records the id of a chunk exactly when the chunk holds an
      existing point. */
  lemma {:induction false} ChunkIdsExact(fmt: PointFormat, records: seq<Record>, chunkPoints: nat, firstPoint: nat, n: nat)
    requires chunkPoints > 0 && n * chunkPoints <= |records|
    ensures forall x :: x in ChunkIds(fmt, records, chunkPoints, firstPoint, n) <==>
              exists c :: 0 <= c < n && ChunkPopulated(fmt, records, chunkPoints, c) && x == ChunkId(firstPoint, chunkPoints, c)
  {
    if n > 0 {
      ChunkIdsExact(fmt, records, chunkPoints, firstPoint, n - 1);
      var prev := ChunkIds(fmt, records, chunkPoints, firstPoint, n - 1);
      var ids := ChunkIds(fmt, records, chunkPoints, firstPoint, n);
      assert forall x :: x in ids <==> x in prev || (ChunkPopulated(fmt, records, chunkPoints, n - 1) && x == ChunkId(firstPoint, chunkPoints, n - 1));
      forall x
        ensures x in ids <==>
                exists c :: 0 <= c < n && ChunkPopulated(fmt, records, chunkPoints, c) && x == ChunkId(firstPoint, chunkPoints, c)
      {
        if x in ids && x !in prev {
          assert ChunkPopulated(fmt, records, chunkPoints, n - 1) && x == ChunkId(firstPoint, chunkPoints, n - 1);
        }
      }
    }
  }

  /** The keys finalize leaves in the store: those there before and the
      decimal ids of the populated chunks. */
  lemma {:induction false} UploadedKeys(fmt: PointFormat, records: seq<Record>, chunkPoints: nat, firstPoint: nat,
                                        compress: seq<Record> -> seq<Byte>, output: map<string, seq<Byte>>, n: nat)
    requires chunkPoints > 0 && n * chunkPoints <= |records|
    ensures forall key :: key in Uploaded(fmt, records, chunkPoints, firstPoint, compress, output, n) <==>
              key in output ||
              exists c :: 0 <= c < n && ChunkPopulated(fmt, records, chunkPoints, c) &&
                          key == Decimal.Spell(ChunkId(firstPoint, chunkPoints, c))
  {
    if n > 0 {
      UploadedKeys(fmt, records, chunkPoints, firstPoint, compress, output, n - 1);
      var before := Uploaded(fmt, records, chunkPoints, firstPoint, compress, output, n - 1);
      var out := Uploaded(fmt, records, chunkPoints, firstPoint, compress, output, n);
      forall key
        ensures key in out <==>
                key in output ||
                exists c :: 0 <= c < n && ChunkPopulated(fmt, records, chunkPoints, c) &&
                            key == Decimal.Spell(ChunkId(firstPoint, chunkPoints, c))
      {
        if key in out && key !in before {
          assert ChunkPopulated(fmt, records, chunkPoints, n - 1);
        }
      }
    }
  }

  /** Each populated chunk is stored, compressed, under its decimal id. */
  lemma {:induction false} UploadedValues(fmt: PointFormat, records: seq<Record>, chunkPoints: nat, firstPoint: nat,
                                          compress: seq<Record> -> seq<Byte>, output: map<string, seq<Byte>>, n: nat)
    requires chunkPoints > 0 && n * chunkPoints <= |records|
    ensures var out := Uploaded(fmt, records, chunkPoints, firstPoint, compress, output, n);
            forall c :: 0 <= c < n && ChunkPopulated(fmt, records, chunkPoints, c) ==>
              Decimal.Spell(ChunkId(firstPoint, chunkPoints, c)) in out &&
              out[Decimal.Spell(ChunkId(firstPoint, chunkPoints, c))] == compress(Chunk(records, chunkPoints, c))
  {
    if n > 0 {
      UploadedValues(fmt, records, chunkPoints, firstPoint, compress, output, n - 1);
      var last := ChunkId(firstPoint, chunkPoints, n - 1);
      forall c | 0 <= c < n - 1
        ensures Decimal.Spell(ChunkId(firstPoint, chunkPoints, c)) != Decimal.Spell(last)
      {
        ChunkIdMono(firstPoint, chunkPoints, c, n - 1);
        Decimal.SpellInjective(ChunkId(firstPoint, chunkPoints, c), last);
      }
    }
  }

  /** Every key that is no populated chunk's id keeps the value it had. */
  lemma {:induction false} UploadedKeeps(fmt: PointFormat, records: seq<Record>, chunkPoints: nat, firstPoint: nat,
                                         compress: seq<Record> -> seq<Byte>, output: map<string, seq<Byte>>, n: nat)
    requires chunkPoints > 0 && n * chunkPoints <= |records|
    ensures var out := Uploaded(fmt, records, chunkPoints, firstPoint, compress, output, n);
            forall key :: (key in output &&
                           forall c :: 0 <= c < n && ChunkPopulated(fmt, records, chunkPoints, c) ==>
                             key != Decimal.Spell(ChunkId(firstPoint, chunkPoints, c))) ==>
              key in out && out[key] == output[key]
  {
    if n > 0 {
      UploadedKeeps(fmt, records, chunkPoints, firstPoint, compress, output, n - 1);
    }
  }

  /** What finalize hands back: the updated output store and id list. */
  datatype Finalized = Finalized(output: map<string, seq<Byte>>, ids: seq<nat>)

  class PointMapper {
    const format: PointFormat
    const file: PointFile
    const fileSize: nat
    const firstPoint: nat
    const pointsPerSlot: nat
    /** The loaded slots; null where a slot is not resident (m_slots). */
    var slots: seq<Slot?>
    /** The sessions holding each slot (m_refs). */
    var refs: seq<set<SessionId>>
    /** The global slot ids of slots that received a point (m_ids). */
    var ids: seq<set<nat>>

    /** A resident slot is the window of the file that belongs to index i. */
    ghost predicate Loaded(slot: Slot, i: nat)
      reads file
    {
      slot.format == format && slot.file == file && Placed(slot, i, |file.records|)
    }

    /** Slot i covers records i * pointsPerSlot onwards, inside a file of
        `size` records. */
    ghost predicate Placed(slot: Slot, i: nat, size: nat) {
      slot.Valid() && slot.firstPoint == i * pointsPerSlot && slot.data.Length == pointsPerSlot &&
      slot.firstPoint + pointsPerSlot <= size
    }

    ghost predicate Valid()
      reads this, file
    {
      pointsPerSlot > 0 && format.pointSize > 0 &&
      |refs| == |slots| && |ids| == |slots| &&
      |file.records| == |slots| * pointsPerSlot &&
      fileSize == |file.records| * format.pointSize &&
      (forall i :: 0 <= i < |slots| && slots[i] != null ==> Loaded(slots[i], i)) &&
      (forall i, j :: 0 <= i < j < |slots| && slots[i] != null && slots[j] != null ==>
         slots[i].data != slots[j].data && slots[i].cells != slots[j].cells) &&
      (forall i :: 0 <= i < |ids| ==> ids[i] <= {GlobalSlot(firstPoint, pointsPerSlot, i)}) &&
      (forall i :: 0 <= i < |slots| && refs[i] != {} ==> slots[i] != null)
    }

    constructor (format: PointFormat, file: PointFile, fileSize: nat, firstPoint: nat, slotCount: nat, pointsPerSlot: nat)
      requires pointsPerSlot > 0 && format.pointSize > 0
      requires |file.records| == slotCount * pointsPerSlot && fileSize == |file.records| * format.pointSize
      ensures Valid()
      ensures this.format == format && this.file == file && this.fileSize == fileSize
      ensures this.firstPoint == firstPoint && this.pointsPerSlot == pointsPerSlot
      ensures slots == seq(slotCount, _ => null)
      ensures refs == seq(slotCount, _ => {}) && ids == seq(slotCount, _ => {})
    {
      this.format := format;
      this.file := file;
      this.fileSize := fileSize;
      this.firstPoint := firstPoint;
      this.pointsPerSlot := pointsPerSlot;
      slots := seq(slotCount, _ => null);
      refs := seq(slotCount, _ => {});
      ids := seq(slotCount, _ => {});
    }

    /** PointMapper::PointMapper: the file is absent when `file` is null; it
        is assumed to be fileSize bytes long when present. */
    static method Open(format: PointFormat, file: PointFile?, fileSize: nat, firstPoint: nat, numPoints: nat, pointsPerSlot: nat)
      returns (r: Result<PointMapper, MapperError>)
      requires pointsPerSlot > 0 && format.pointSize > 0
      requires file != null ==> |file.records| * format.pointSize == fileSize
      ensures match CheckGeometry(file != null, fileSize, numPoints, format.pointSize, pointsPerSlot)
              case Failure(e) => r == Failure(e)
              case Success(count) =>
                r.Success? && fresh(r.value) && r.value.Valid() &&
                r.value.format == format && r.value.file == file && r.value.fileSize == fileSize &&
                r.value.firstPoint == firstPoint && r.value.pointsPerSlot == pointsPerSlot &&
                r.value.slots == seq(count, _ => null) && r.value.refs == seq(count, _ => {}) &&
                r.value.ids == seq(count, _ => {})
    {
      if file == null {
        return Failure(FileMissing);
      }
      if numPoints % pointsPerSlot != 0 || numPoints * format.pointSize != fileSize {
        return Failure(InvalidArguments);
      }
      var count := numPoints / pointsPerSlot;
      assert |file.records| == numPoints by {
        MulCancelEq(|file.records|, numPoints, format.pointSize);
      }
      var m := new PointMapper(format, file, fileSize, firstPoint, count, pointsPerSlot);
      return Success(m);
    }

    /** The cell a point index lands in, for indices inside the mapper. */
    ghost predicate Routes(index: nat)
      reads this
    {
      pointsPerSlot > 0 && firstPoint <= index &&
      Locate(index, firstPoint, pointsPerSlot).slotIndex < |slots|
    }

    /** PointMapper::addPoint: offer a candidate to the cell of `index`
        (the roller's position); `mid` is the centre of the roller's box. On
        a first fill the slot's global id is recorded. */
    method AddPoint(info: PointInfo, mid: Point, index: nat) returns (added: bool, hand: Option<PointInfo>)
      requires Valid() && Routes(index)
      requires slots[Locate(index, firstPoint, pointsPerSlot).slotIndex] != null
      modifies this, slots[Locate(index, firstPoint, pointsPerSlot).slotIndex].data,
               slots[Locate(index, firstPoint, pointsPerSlot).slotIndex].cells
      ensures Valid() && slots == old(slots) && refs == old(refs)
      ensures var loc := Locate(index, firstPoint, pointsPerSlot);
              var slot := slots[loc.slotIndex];
              var pl := Place(format, mid, old(slot.cells[loc.slotOffset]), old(slot.data[loc.slotOffset]), info);
              added == pl.added && hand == pl.hand &&
              slot.cells[..] == old(slot.cells[..])[loc.slotOffset := pl.occupant] &&
              slot.data[..] == old(slot.data[..])[loc.slotOffset := pl.record] &&
              ids == old(ids)[loc.slotIndex := if added then old(ids[loc.slotIndex]) + {GlobalSlot(firstPoint, pointsPerSlot, loc.slotIndex)}
                                                 else old(ids[loc.slotIndex])]
      ensures forall j :: 0 <= j < |slots| && j != Locate(index, firstPoint, pointsPerSlot).slotIndex && slots[j] != null ==>
                unchanged(slots[j].data) && unchanged(slots[j].cells)
    {
      var loc := Locate(index, firstPoint, pointsPerSlot);
      var slot := slots[loc.slotIndex];
      added, hand := slot.AddPoint(info, mid, loc.slotOffset);
      if added {
        var globalSlot := firstPoint + loc.slotIndex * pointsPerSlot;
        ids := ids[loc.slotIndex := ids[loc.slotIndex] + {globalSlot}];
      }
    }

    /** PointMapper::hasPoint */
    method HasPoint(index: nat) returns (r: bool)
      requires Valid() && Routes(index)
      requires slots[Locate(index, firstPoint, pointsPerSlot).slotIndex] != null
      ensures var loc := Locate(index, firstPoint, pointsPerSlot);
              r <==> slots[loc.slotIndex].cells[loc.slotOffset].Some?
    {
      var loc := Locate(index, firstPoint, pointsPerSlot);
      r := slots[loc.slotIndex].HasPoint(loc.slotOffset);
    }

    /** PointMapper::getPoint */
    method GetPoint(index: nat) returns (r: Option<Point>)
      requires Valid() && Routes(index)
      requires slots[Locate(index, firstPoint, pointsPerSlot).slotIndex] != null
      ensures var loc := Locate(index, firstPoint, pointsPerSlot);
              r == slots[loc.slotIndex].cells[loc.slotOffset]
    {
      var loc := Locate(index, firstPoint, pointsPerSlot);
      r := slots[loc.slotIndex].GetPoint(loc.slotOffset);
    }

    /** PointMapper::getPointData */
    method GetPointData(index: nat) returns (r: Record)
      requires Valid() && Routes(index)
      requires slots[Locate(index, firstPoint, pointsPerSlot).slotIndex] != null
      ensures var loc := Locate(index, firstPoint, pointsPerSlot);
              var slot := slots[loc.slotIndex];
              r == if slot.cells[loc.slotOffset].Some? then slot.data[loc.slotOffset] else []
    {
      var loc := Locate(index, firstPoint, pointsPerSlot);
      r := slots[loc.slotIndex].GetPointData(loc.slotOffset);
    }

    /** PointMapper::grow: load the slot of `index` if it is not resident,
        and register the session when its own insert reported the slot as
        new to it (`inserted`). */
    method Grow(session: Option<SessionId>, inserted: bool, index: nat)
      requires Valid() && Routes(index)
      modifies this
      ensures Valid() && ids == old(ids) && |slots| == |old(slots)|
      ensures var s := Locate(index, firstPoint, pointsPerSlot).slotIndex;
              refs == old(refs)[s := Grown(old(refs[s]), session, inserted)] &&
              (forall j :: 0 <= j < |slots| && j != s ==> slots[j] == old(slots[j])) &&
              slots[s] != null &&
              (old(slots[s]) != null ==> slots[s] == old(slots[s])) &&
              (old(slots[s]) == null ==>
                 fresh(slots[s].data) && fresh(slots[s].cells) &&
                 slots[s].data[..] == file.records[slots[s].firstPoint..slots[s].firstPoint + pointsPerSlot] &&
                 slots[s].cells[..] == Scan(format, slots[s].data[..]))
    {
      var s := Locate(index, firstPoint, pointsPerSlot).slotIndex;
      if slots[s] == null {
        MulMono(s + 1, |slots|, pointsPerSlot);
        var slot := new Slot(format, file, s * pointsPerSlot, pointsPerSlot);
        slots := slots[s := slot];
      }
      if session.Some? && inserted {
        refs := refs[s := refs[s] + {session.value}];
      }
    }

    /** PointMapper::clip: a session lets go of the slot starting at
        globalSlot; the last one to let go writes the slot back and drops it. */
    method Clip(session: Option<SessionId>, globalSlot: nat) returns (r: Outcome<MapperError>)
      requires Valid() && firstPoint <= globalSlot
      requires Locate(globalSlot, firstPoint, pointsPerSlot).slotOffset == 0 ==> Routes(globalSlot)
      modifies this, file
      ensures Valid() && ids == old(ids)
      ensures var loc := Locate(globalSlot, firstPoint, pointsPerSlot);
              if loc.slotOffset != 0 then
                r == Fail(InvalidState) && slots == old(slots) && refs == old(refs) &&
                file.records == old(file.records)
              else
                var s := loc.slotIndex;
                var gone := Unregistered(old(refs[s]), session) == {};
                r == Pass &&
                refs == old(refs)[s := Unregistered(old(refs[s]), session)] &&
                slots == (if gone then old(slots)[s := null] else old(slots)) &&
                file.records == (if gone && old(slots[s]) != null
                                 then Splice(old(file.records), old(slots[s]).firstPoint, old(slots[s]).data[..])
                                 else old(file.records))
    {
      var loc := Locate(globalSlot, firstPoint, pointsPerSlot);
      if loc.slotOffset != 0 {
        return Fail(InvalidState);
      }
      var s := loc.slotIndex;
      if session.Some? {
        refs := refs[s := refs[s] - {session.value}];
      }
      if refs[s] == {} {
        var slot := slots[s];
        if slot != null {
          MulMono(s + 1, |slots|, pointsPerSlot);
          slot.Close();
        }
        slots := slots[s := null];
      }
      r := Pass;
    }

    /** grow without a session maps a slot that no session refers to; any
        session's clip of that slot then erases nothing, finds the referrer
        set empty and drops the slot again. */
    method UnreferencedGrowThenClip(index: nat, other: SessionId) returns (mapped: bool)
      requires Valid() && Routes(index)
      requires refs[Locate(index, firstPoint, pointsPerSlot).slotIndex] == {}
      modifies this, file
      ensures var s := Locate(index, firstPoint, pointsPerSlot).slotIndex;
              mapped && s < |slots| == |refs| && slots[s] == null && refs[s] == {}
    {
      var s := Locate(index, firstPoint, pointsPerSlot).slotIndex;
      Grow(None, false, index);
      mapped := slots[s] != null;
      RouteGlobalSlot(firstPoint, pointsPerSlot, s, 0);
      var r := Clip(Some(other), GlobalSlot(firstPoint, pointsPerSlot, s));
    }

    /** PointMapper::ids: the global ids of the slots that received a
        point, in slot order. */
    method Ids() returns (r: seq<nat>)
      requires Valid()
      ensures forall x :: x in r <==>
                exists s :: 0 <= s < |ids| && ids[s] != {} && x == GlobalSlot(firstPoint, pointsPerSlot, s)
      ensures forall a, b :: 0 <= a < b < |r| ==> r[a] < r[b]
    {
      r := [];
      var i := 0;
      while i < |ids|
        invariant 0 <= i <= |ids|
        invariant forall x :: x in r <==>
                    exists s :: 0 <= s < i && ids[s] != {} && x == GlobalSlot(firstPoint, pointsPerSlot, s)
        invariant forall a, b :: 0 <= a < b < |r| ==> r[a] < r[b]
        invariant forall a :: 0 <= a < |r| ==> r[a] < GlobalSlot(firstPoint, pointsPerSlot, i)
      {
        if ids[i] != {} {
          var id :| id in ids[i];
          r := r + [id];
        }
        assert GlobalSlot(firstPoint, pointsPerSlot, i + 1) == GlobalSlot(firstPoint, pointsPerSlot, i) + pointsPerSlot;
        i := i + 1;
      }
    }

    /** The inner scan of finalize: does some record of the range hold an
        existing point? Stops at the first one. */
    method RangePopulated(first: nat, count: nat) returns (populated: bool)
      requires first + count <= |file.records|
      ensures populated <==> Populated(format, file.records[first..first + count])
    {
      ghost var window := file.records[first..first + count];
      populated := false;
      var i := 0;
      while !populated && i < count
        invariant 0 <= i <= count
        invariant populated <==> exists k :: 0 <= k < i && Marker(format, window[k]).Some?
      {
        var p := format.coords(file.records[first + i]);
        assert file.records[first + i] == window[i];
        i := i + 1;
        if format.present(p) {
          populated := true;
        }
      }
    }

    /** PointMapper::finalize: walk the file in chunks of chunkPoints records
        (dataSize bytes), and for each chunk holding a point append its id to
        `found` and put it, compressed, under its decimal id. */
    method Finalize(output: map<string, seq<Byte>>, found: seq<nat>, start: nat, chunkPoints: nat,
                    compress: seq<Record> -> seq<Byte>)
      returns (r: Result<Finalized, MapperError>)
      requires Valid() && chunkPoints > 0
      requires (fileSize / format.pointSize) % chunkPoints == 0
      requires start <= firstPoint ==> (firstPoint - start) % chunkPoints == 0
      ensures firstPoint < start ==> r == Failure(BaseTooDeep)
      ensures start <= firstPoint ==>
                var n := |file.records| / chunkPoints;
                n * chunkPoints == |file.records| &&
                r == Success(Finalized(
                       Uploaded(format, file.records, chunkPoints, firstPoint, compress, output, n),
                       found + ChunkIds(format, file.records, chunkPoints, firstPoint, n)))
    {
      if firstPoint < start {
        return Failure(BaseTooDeep);
      }
      var pointSize := format.pointSize;
      var dataSize: nat := chunkPoints * pointSize;
      ghost var records := file.records;
      ghost var n := |records| / chunkPoints;
      WholeChunks(|records|, pointSize, chunkPoints, fileSize);
      var out := output;
      var got := found;
      var pos: nat := 0;
      ghost var c: nat := 0;
      while pos < fileSize
        invariant c <= n && pos == c * dataSize && c * chunkPoints <= |records|
        invariant got == found + ChunkIds(format, records, chunkPoints, firstPoint, c)
        invariant out == Uploaded(format, records, chunkPoints, firstPoint, compress, output, c)
        decreases n - c
      {
        ByteStep(c, n, chunkPoints, pointSize, pos, fileSize);
        MulMono(c + 1, n, chunkPoints);
        var first: nat := pos / pointSize;
        assert first + chunkPoints == (c + 1) * chunkPoints;
        var populated := RangePopulated(first, chunkPoints);
        assert file.records[first..first + chunkPoints] == Chunk(records, chunkPoints, c);
        if populated {
          var id := firstPoint + first;
          got := got + [id];
          out := out[Decimal.Spell(id) := compress(file.records[first..first + chunkPoints])];
        }
        pos := pos + dataSize;
        c := c + 1;
      }
      ByteStep(c, n, chunkPoints, pointSize, pos, fileSize);
      return Success(Finalized(out, got));
    }

    /** PointMapper::~PointMapper: every resident slot writes its records
        back over its window of the file; records outside every resident
        window keep their values. */
    method Teardown()
      requires Valid()
      modifies file
      ensures |file.records| == |old(file.records)|
      ensures forall s :: 0 <= s < |slots| && slots[s] != null ==>
                file.records[slots[s].firstPoint..slots[s].firstPoint + pointsPerSlot] == slots[s].data[..]
      ensures forall k :: 0 <= k < |file.records| && Untouched(k, |slots|) ==>
                file.records[k] == old(file.records[k])
    {
      FlushAll();
    }

    /** The loop of the destructor, over slot placement alone. */
    method FlushAll()
      requires forall s :: 0 <= s < |slots| && slots[s] != null ==>
                 slots[s].Valid() && slots[s].file == file &&
                 slots[s].firstPoint == s * pointsPerSlot && slots[s].data.Length == pointsPerSlot &&
                 slots[s].firstPoint + pointsPerSlot <= |file.records|
      modifies file
      ensures |file.records| == |old(file.records)|
      ensures forall s :: 0 <= s < |slots| && slots[s] != null ==>
                file.records[slots[s].firstPoint..slots[s].firstPoint + pointsPerSlot] == slots[s].data[..]
      ensures forall k :: 0 <= k < |file.records| && Untouched(k, |slots|) ==>
                file.records[k] == old(file.records[k])
    {
      ghost var size := |file.records|;
      var i := 0;
      while i < |slots|
        invariant 0 <= i <= |slots|
        invariant |file.records| == size
        invariant forall s :: 0 <= s < i && slots[s] != null ==>
                    file.records[slots[s].firstPoint..slots[s].firstPoint + pointsPerSlot] == slots[s].data[..]
        invariant forall k :: 0 <= k < size && Untouched(k, i) ==>
                    file.records[k] == old(file.records[k])
      {
        FlushOne(i, old(file.records));
        i := i + 1;
      }
    }

    /** One step of the destructor's loop: write slot i back, if resident. */
    method FlushOne(i: nat, ghost orig: seq<Record>)
      requires i < |slots| && |file.records| == |orig|
      requires forall s :: 0 <= s < |slots| && slots[s] != null ==>
                 slots[s].Valid() && slots[s].file == file &&
                 slots[s].firstPoint == s * pointsPerSlot && slots[s].data.Length == pointsPerSlot &&
                 slots[s].firstPoint + pointsPerSlot <= |file.records|
      requires forall s :: 0 <= s < i && slots[s] != null ==>
                 file.records[slots[s].firstPoint..slots[s].firstPoint + pointsPerSlot] == slots[s].data[..]
      requires forall k :: 0 <= k < |orig| && Untouched(k, i) ==> file.records[k] == orig[k]
      modifies file
      ensures |file.records| == |orig|
      ensures forall s :: 0 <= s < i + 1 && slots[s] != null ==>
                file.records[slots[s].firstPoint..slots[s].firstPoint + pointsPerSlot] == slots[s].data[..]
      ensures forall k :: 0 <= k < |orig| && Untouched(k, i + 1) ==> file.records[k] == orig[k]
    {
      var slot := slots[i];
      if slot != null {
        ghost var before := file.records;
        slot.Close();
        FlushKeepsEarlier(i, orig, before, file.records);
      } else {
        UntouchedPastEmpty(i);
      }
    }

    /** Writing slot i back keeps the windows already written and touches
        no record outside slot i's window. */
    lemma FlushKeepsEarlier(i: nat, orig: seq<Record>, before: seq<Record>, after: seq<Record>)
      requires i < |slots| && slots[i] != null && |orig| == |before|
      requires forall s :: 0 <= s <= i && slots[s] != null ==>
                 slots[s].firstPoint == s * pointsPerSlot && slots[s].data.Length == pointsPerSlot &&
                 slots[s].firstPoint + pointsPerSlot <= |before|
      requires after == Splice(before, slots[i].firstPoint, slots[i].data[..])
      requires forall s :: 0 <= s < i && slots[s] != null ==>
                 before[slots[s].firstPoint..slots[s].firstPoint + pointsPerSlot] == slots[s].data[..]
      ensures forall s :: 0 <= s < i + 1 && slots[s] != null ==>
                after[slots[s].firstPoint..slots[s].firstPoint + pointsPerSlot] == slots[s].data[..]
      requires forall k :: 0 <= k < |before| && Untouched(k, i) ==> before[k] == orig[k]
      ensures forall k :: 0 <= k < |after| && Untouched(k, i + 1) ==> after[k] == orig[k]
    {
      forall k | 0 <= k < |after| && Untouched(k, i + 1)
        ensures after[k] == orig[k]
      {
        assert !Covers(slots[i], k) && Untouched(k, i);
      }
      forall s | 0 <= s < i && slots[s] != null
        ensures after[slots[s].firstPoint..slots[s].firstPoint + pointsPerSlot] == slots[s].data[..]
      {
        MulBefore(s, i, pointsPerSlot);
        SpliceKeepsBefore(before, slots[i].firstPoint, slots[i].data[..], slots[s].firstPoint, pointsPerSlot);
      }
    }

    /** Past a slot that is not resident, the same records are untouched. */
    lemma UntouchedPastEmpty(i: nat)
      requires i < |slots| && slots[i] == null
      ensures forall k :: Untouched(k, i + 1) <==> Untouched(k, i)
    {
    }

    /** The window of a resident slot contains record k. */
    ghost predicate Covers(slot: Slot, k: nat) {
      slot.firstPoint <= k < slot.firstPoint + pointsPerSlot
    }

    /** No resident slot below index `upto` covers record k. */
    ghost predicate Untouched(k: nat, upto: nat)
      reads this
    {
      forall s :: 0 <= s < upto && s < |slots| && slots[s] != null ==> !Covers(slots[s], k)
    }
  }

  /** Writing a window back leaves every range that ends before it alone. */
  lemma SpliceKeepsBefore(records: seq<Record>, at: nat, window: seq<Record>, a: nat, len: nat)
    requires at + |window| <= |records| && a + len <= at
    ensures Splice(records, at, window)[a..a + len] == records[a..a + len]
  {
  }

  lemma MulCancelEq(a: nat, b: nat, m: nat)
    requires m > 0 && a * m == b * m
    ensures a == b
  {
  }
}
