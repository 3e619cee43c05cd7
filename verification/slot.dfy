/** A Slot: a window of fixed-size point records copied out of the point
    file, with one occupancy marker per cell and the "closest to the cell's
    centre wins" replacement rule. */
module Slots {
  import opened Wrappers

  type Byte = bv8

  /** One fixed-size record of the point file, as raw bytes. */
  type Record = seq<Byte>

  /** The X and Y coordinates read from a record (an integer grid stands in
      for the source's doubles). */
  datatype Point = Point(x: int, y: int)

  /** What the schema and the Point type say about records: the record size,
      the X/Y fields read through the schema, Point::exists (coordinates
      that are not the "no point" sentinel) and the squared distance. */
  datatype PointFormat = PointFormat(
    pointSize: nat,
    coords: Record -> Point,
    present: Point -> bool,
    sqDist: (Point, Point) -> int)

  /** A candidate point together with the bytes of its record. */
  datatype PointInfo = PointInfo(point: Point, data: Record)

  /** The backing point file: a flat sequence of records. */
  class PointFile {
    var records: seq<Record>

    constructor (records: seq<Record>)
      ensures this.records == records
    {
      this.records := records;
    }
  }

  /** The occupancy marker a record yields when it is loaded. */
  function Marker(fmt: PointFormat, r: Record): Option<Point> {
    var p := fmt.coords(r);
    if fmt.present(p) then Some(p) else None
  }

  /** The markers of a window of records, cell by cell. */
  function Scan(fmt: PointFormat, window: seq<Record>): (cells: seq<Option<Point>>)
    ensures |cells| == |window|
  {
    seq(|window|, i requires 0 <= i < |window| => Marker(fmt, window[i]))
  }

  /** A candidate whose point is the one its record holds, and exists. */
  ghost predicate WellFormed(fmt: PointFormat, info: PointInfo) {
    fmt.coords(info.data) == info.point && fmt.present(info.point)
  }

  /** The file with a window written back at record index `at`. */
  function Splice(records: seq<Record>, at: nat, window: seq<Record>): (r: seq<Record>)
    requires at + |window| <= |records|
    ensures |r| == |records|
    ensures r[at..at + |window|] == window
    ensures forall i :: 0 <= i < |r| && !(at <= i < at + |window|) ==> r[i] == records[i]
  {
    records[..at] + window + records[at + |window|..]
  }

  /** What one offer to one cell leaves: whether the candidate was taken
      into an empty cell, the cell's marker and record afterwards, and what
      the caller holds afterwards (nothing, the displaced occupant, or its
      own rejected candidate). */
  datatype Placement = Placement(added: bool, occupant: Option<Point>, record: Record, hand: Option<PointInfo>)

  /** Slot::addPoint for one cell, without the locking. */
  function Place(fmt: PointFormat, mid: Point, occupant: Option<Point>, record: Record, cand: PointInfo): Placement {
    match occupant
    case None => Placement(true, Some(cand.point), cand.data, None)
    case Some(cur) =>
      if fmt.sqDist(cand.point, mid) < fmt.sqDist(cur, mid) then
        Placement(false, Some(cand.point), cand.data, Some(PointInfo(cur, record)))
      else
        Placement(false, occupant, record, Some(cand))
  }

  /** The points held by a cell and by the caller. */
  function Holdings(occupant: Option<Point>, record: Record, hand: Option<PointInfo>): multiset<PointInfo> {
    (if occupant.Some? then multiset{PointInfo(occupant.value, record)} else multiset{}) +
    (if hand.Some? then multiset{hand.value} else multiset{})
  }

  /** No point is lost or duplicated by an offer: what the cell and the
      caller hold together is the same before and after. */
  lemma PlaceConserves(fmt: PointFormat, mid: Point, occupant: Option<Point>, record: Record, cand: PointInfo)
    ensures var pl := Place(fmt, mid, occupant, record, cand);
            Holdings(pl.occupant, pl.record, pl.hand) == Holdings(occupant, record, Some(cand))
  {
  }

  /** The three outcomes of an offer, as the source states them. */
  lemma PlaceOutcomes(fmt: PointFormat, mid: Point, occupant: Option<Point>, record: Record, cand: PointInfo)
    ensures var pl := Place(fmt, mid, occupant, record, cand);
            (pl.added <==> occupant.None?) &&
            pl.occupant.Some? &&
            (occupant.None? ==> pl.occupant == Some(cand.point) && pl.record == cand.data && pl.hand.None?) &&
            (occupant.Some? && fmt.sqDist(cand.point, mid) < fmt.sqDist(occupant.value, mid) ==>
               pl.occupant == Some(cand.point) && pl.record == cand.data &&
               pl.hand == Some(PointInfo(occupant.value, record))) &&
            (occupant.Some? && fmt.sqDist(cand.point, mid) >= fmt.sqDist(occupant.value, mid) ==>
               pl.occupant == occupant && pl.record == record && pl.hand == Some(cand))
  {
  }

  /** An offer of a well-formed candidate keeps the markers equal to what a
      fresh load of the records would give, and what it hands back is
      well-formed too. */
  lemma PlaceKeepsCoherent(fmt: PointFormat, mid: Point, data: seq<Record>, cells: seq<Option<Point>>, i: nat, cand: PointInfo)
    requires cells == Scan(fmt, data) && i < |data|
    requires WellFormed(fmt, cand)
    ensures var pl := Place(fmt, mid, cells[i], data[i], cand);
            cells[i := pl.occupant] == Scan(fmt, data[i := pl.record]) &&
            (pl.hand.Some? ==> WellFormed(fmt, pl.hand.value))
  {
    var pl := Place(fmt, mid, cells[i], data[i], cand);
    assert Marker(fmt, data[i := pl.record][i]) == pl.occupant;
  }

  /** Writing a slot's records back and loading the same window again gives
      the same records and, when the markers were coherent, the same markers. */
  lemma ReloadReproduces(fmt: PointFormat, records: seq<Record>, at: nat, data: seq<Record>, cells: seq<Option<Point>>)
    requires at + |data| <= |records|
    requires cells == Scan(fmt, data)
    ensures Splice(records, at, data)[at..at + |data|] == data
    ensures Scan(fmt, Splice(records, at, data)[at..at + |data|]) == cells
  {
  }

  /** The state of one cell after a sequence of offers. */
  function Settle(fmt: PointFormat, mid: Point, occupant: Option<Point>, record: Record, offers: seq<PointInfo>): (Option<Point>, Record)
    decreases |offers|
  {
    if offers == [] then (occupant, record)
    else
      var pl := Place(fmt, mid, occupant, record, offers[0]);
      Settle(fmt, mid, pl.occupant, pl.record, offers[1..])
  }

  /** s[j] is the earliest of the closest entries of s. */
  ghost predicate FirstClosest(fmt: PointFormat, mid: Point, s: seq<PointInfo>, j: nat) {
    j < |s| &&
    (forall i :: 0 <= i < |s| ==> fmt.sqDist(s[j].point, mid) <= fmt.sqDist(s[i].point, mid)) &&
    (forall i :: 0 <= i < j ==> fmt.sqDist(s[j].point, mid) < fmt.sqDist(s[i].point, mid))
  }

  /** Putting a farther entry in front of a sequence shifts its earliest
      closest entry by one. */
  lemma CloserHeadShifts(fmt: PointFormat, mid: Point, cur: PointInfo, t: seq<PointInfo>, j: nat)
    requires FirstClosest(fmt, mid, t, j)
    requires fmt.sqDist(t[0].point, mid) < fmt.sqDist(cur.point, mid)
    ensures FirstClosest(fmt, mid, [cur] + t, j + 1)
  {
    var s := [cur] + t;
    assert s[j + 1] == t[j];
    forall i | 1 <= i < |s|
      ensures s[i] == t[i - 1]
    {
    }
  }

  /** An entry no closer than the head, inserted right after it, never
      becomes the earliest closest. */
  lemma FartherSecondSkipped(fmt: PointFormat, mid: Point, cur: PointInfo, o: PointInfo, rest: seq<PointInfo>, j: nat)
    requires FirstClosest(fmt, mid, [cur] + rest, j)
    requires fmt.sqDist(cur.point, mid) <= fmt.sqDist(o.point, mid)
    ensures FirstClosest(fmt, mid, [cur, o] + rest, if j == 0 then 0 else j + 1)
  {
    var t := [cur] + rest;
    var s := [cur, o] + rest;
    var k := if j == 0 then 0 else j + 1;
    assert s[k] == t[j] && t[0] == cur && s[0] == cur && s[1] == o;
    assert j > 0 ==> fmt.sqDist(t[j].point, mid) < fmt.sqDist(cur.point, mid);
    forall i | 0 <= i < |s|
      ensures fmt.sqDist(s[k].point, mid) <= fmt.sqDist(s[i].point, mid)
      ensures i < k ==> fmt.sqDist(s[k].point, mid) < fmt.sqDist(s[i].point, mid)
    {
      if i >= 2 {
        assert s[i] == t[i - 1];
      }
    }
  }

  /** Starting from an occupied cell, the final occupant is the earliest
      closest of the occupant and the offers, in offer order. */
  lemma {:induction false} SettleFromOccupied(fmt: PointFormat, mid: Point, cur: PointInfo, offers: seq<PointInfo>)
    ensures exists j: nat :: FirstClosest(fmt, mid, [cur] + offers, j) &&
                        Settle(fmt, mid, Some(cur.point), cur.data, offers) ==
                          (Some(([cur] + offers)[j].point), ([cur] + offers)[j].data)
    decreases |offers|
  {
    var s := [cur] + offers;
    if offers == [] {
      assert FirstClosest(fmt, mid, s, 0);
    } else {
      var o := offers[0];
      var rest := offers[1..];
      assert offers == [o] + rest;
      if fmt.sqDist(o.point, mid) < fmt.sqDist(cur.point, mid) {
        SettleFromOccupied(fmt, mid, o, rest);
        var j: nat :| FirstClosest(fmt, mid, [o] + rest, j) &&
                 Settle(fmt, mid, Some(o.point), o.data, rest) == (Some(([o] + rest)[j].point), ([o] + rest)[j].data);
        CloserHeadShifts(fmt, mid, cur, [o] + rest, j);
        assert s[j + 1] == ([o] + rest)[j];
        assert FirstClosest(fmt, mid, s, j + 1);
      } else {
        SettleFromOccupied(fmt, mid, cur, rest);
        var j: nat :| FirstClosest(fmt, mid, [cur] + rest, j) &&
                 Settle(fmt, mid, Some(cur.point), cur.data, rest) == (Some(([cur] + rest)[j].point), ([cur] + rest)[j].data);
        FartherSecondSkipped(fmt, mid, cur, o, rest, j);
        var k := if j == 0 then 0 else j + 1;
        assert s == [cur, o] + rest;
        assert s[k] == ([cur] + rest)[j];
        assert FirstClosest(fmt, mid, s, k);
      }
    }
  }

  /** Closest wins: whatever sequence of candidates is offered to an empty
      cell, it ends up holding the earliest of the closest candidates, so an
      occupant is never displaced by one at equal distance. */
  lemma ClosestWins(fmt: PointFormat, mid: Point, record: Record, offers: seq<PointInfo>)
    requires offers != []
    ensures exists j: nat :: FirstClosest(fmt, mid, offers, j) &&
                        Settle(fmt, mid, None, record, offers) == (Some(offers[j].point), offers[j].data)
  {
    assert offers == [offers[0]] + offers[1..];
    SettleFromOccupied(fmt, mid, offers[0], offers[1..]);
  }

  class Slot {
    const format: PointFormat
    const file: PointFile
    const firstPoint: nat
    /** The staging copy of the window's records (m_data). */
    const data: array<Record>
    /** The occupancy marker of each cell (m_points). */
    const cells: array<Option<Point>>

    ghost predicate Valid() {
      data.Length == cells.Length
    }

    /** Slot::Slot: copy the window of records starting at firstPoint and
        mark each cell whose record holds an existing point. */
    constructor (format: PointFormat, file: PointFile, firstPoint: nat, pointsPerSlot: nat)
      requires firstPoint + pointsPerSlot <= |file.records|
      ensures Valid() && fresh(data) && fresh(cells)
      ensures this.format == format && this.file == file && this.firstPoint == firstPoint
      ensures data[..] == file.records[firstPoint..firstPoint + pointsPerSlot]
      ensures cells[..] == Scan(format, data[..])
    {
      this.format := format;
      this.file := file;
      this.firstPoint := firstPoint;
      var window := file.records[firstPoint..firstPoint + pointsPerSlot];
      data := new Record[pointsPerSlot](i requires 0 <= i < |window| => window[i]);
      cells := new Option<Point>[pointsPerSlot](_ => None);
      new;
      var i := 0;
      while i < pointsPerSlot
        invariant 0 <= i <= pointsPerSlot
        invariant data[..] == window
        invariant forall j :: 0 <= j < i ==> cells[j] == Marker(format, data[j])
        invariant forall j :: i <= j < pointsPerSlot ==> cells[j] == None
      {
        var p := format.coords(data[i]);
        if format.present(p) {
          cells[i] := Some(p);
        }
        i := i + 1;
      }
    }

    /** Slot::addPoint: offer a candidate to cell `index`. */
    method AddPoint(info: PointInfo, mid: Point, index: nat) returns (added: bool, hand: Option<PointInfo>)
      requires Valid() && index < cells.Length
      modifies data, cells
      ensures var pl := Place(format, mid, old(cells[index]), old(data[index]), info);
              added == pl.added && hand == pl.hand &&
              cells[..] == old(cells[..])[index := pl.occupant] &&
              data[..] == old(data[..])[index := pl.record]
    {
      var cur := cells[index];
      if cur.Some? {
        if format.sqDist(info.point, mid) < format.sqDist(cur.value, mid) {
          var displaced := PointInfo(cur.value, data[index]);
          data[index] := info.data;
          cells[index] := Some(info.point);
          return false, Some(displaced);
        }
        return false, Some(info);
      } else {
        data[index] := info.data;
        cells[index] := Some(info.point);
        return true, None;
      }
    }

    /** Slot::hasPoint */
    method HasPoint(index: nat) returns (r: bool)
      requires Valid() && index < cells.Length
      ensures r <==> cells[index].Some?
    {
      r := cells[index].Some?;
    }

    /** Slot::getPoint: the occupant's point, None standing for the
        default-constructed Point of an empty cell. */
    method GetPoint(index: nat) returns (r: Option<Point>)
      requires Valid() && index < cells.Length
      ensures r == cells[index]
    {
      r := None;
      if cells[index].Some? {
        r := Some(cells[index].value);
      }
    }

    /** Slot::getPointData: the record of an occupied cell, empty otherwise. */
    method GetPointData(index: nat) returns (r: Record)
      requires Valid() && index < cells.Length
      ensures r == if cells[index].Some? then data[index] else []
    {
      r := [];
      if cells[index].Some? {
        r := data[index];
      }
    }

    /** Slot::~Slot: copy the staging records back over the window. */
    method Close()
      requires Valid() && firstPoint + data.Length <= |file.records|
      modifies file
      ensures file.records == Splice(old(file.records), firstPoint, data[..])
    {
      file.records := file.records[..firstPoint] + data[..] + file.records[firstPoint + data.Length..];
    }
  }
}
