/**
 * Result assembly after packing. The packer itself is outside the model: its
 * output, the rectangles it placed on the single board, is an input here.
 * The assembly matches each packed rectangle to the first queued item with
 * the same id, decides whether it was turned, builds the placement records
 * and computes the unplaced count, the efficiency and the waste.
 */
module Nesting {
  import opened Basics
  import opened Shapes

  /** One rectangle as the packer placed it: its id, corner and size on the board. */
  datatype PackedRect = PackedRect(rid: string, x: real, y: real, width: real, height: real)

  /** One row of the cutting list. */
  datatype Placement = Placement(
    id: string,
    kind: ShapeKind,
    x: real,
    y: real,
    wBox: real,
    hBox: real,
    rotation: int,
    color: string,
    dims: Dims)

  /** What one solve returns (the solve duration is not modelled). */
  datatype Report = Report(placed: seq<Placement>, unplacedCount: int, efficiency: real, waste: real)

  /** The index of the first item carrying id `rid`, if any. */
  function FirstMatch(items: seq<Item>, rid: string): (r: Option<nat>)
    ensures r.Some? ==>
      r.value < |items| && items[r.value].id == rid &&
      forall j :: 0 <= j < r.value ==> items[j].id != rid
    ensures r.None? <==> forall j :: 0 <= j < |items| ==> items[j].id != rid
  {
    if items == [] then None
    else if items[0].id == rid then Some(0)
    else match FirstMatch(items[1..], rid)
      case None => None
      case Some(i) => Some(i + 1)
  }

  /** The reported rotation in degrees: 90 when the packed width is not the item's own width. */
  function Rotation(item: Item, rect: PackedRect): (deg: int)
    ensures deg == 0 || deg == 90
  {
    if item.w != rect.width then 90 else 0
  }

  /** The record of one packed rectangle matched to `item`. */
  function Place(item: Item, rect: PackedRect): Placement
  {
    Placement(rect.rid, item.kind, rect.x, rect.y, rect.width, rect.height,
              Rotation(item, rect), item.color, item.dims)
  }

  /**
   * `p` is the record of `rect` matched to `item`: position and size from the
   * packer, kind, colour and parameters from the item, and a rotation of 90
   * exactly when the packed width differs from the item's box width.
   */
  predicate Describes(p: Placement, item: Item, rect: PackedRect)
  {
    p.id == rect.rid && p.x == rect.x && p.y == rect.y &&
    p.wBox == rect.width && p.hBox == rect.height &&
    p.kind == item.kind && p.color == item.color && p.dims == item.dims &&
    (p.rotation == 0 || p.rotation == 90) &&
    (p.rotation == 90 <==> item.w != rect.width)
  }

  function Last(rects: seq<PackedRect>): PackedRect
    requires rects != []
  {
    rects[|rects| - 1]
  }

  function Init(rects: seq<PackedRect>): seq<PackedRect>
    requires rects != []
  {
    rects[..|rects| - 1]
  }

  /** The records for the packed rectangles, in packing order; unmatched rectangles give none. */
  function Records(items: seq<Item>, rects: seq<PackedRect>): seq<Placement>
    decreases |rects|
  {
    if rects == [] then []
    else
      Records(items, Init(rects)) +
      match FirstMatch(items, Last(rects).rid)
      case None => []
      case Some(i) => [Place(items[i], Last(rects))]
  }

  /** The ids of the packed rectangles that matched a queued item. */
  function PlacedIds(items: seq<Item>, rects: seq<PackedRect>): set<string>
    decreases |rects|
  {
    if rects == [] then {}
    else
      PlacedIds(items, Init(rects)) +
      if FirstMatch(items, Last(rects).rid).Some? then {Last(rects).rid} else {}
  }

  /** The exact (not bounding-box) area of the matched items, one term per matched rectangle. */
  function UsedArea(items: seq<Item>, rects: seq<PackedRect>): real
    decreases |rects|
  {
    if rects == [] then 0.0
    else
      UsedArea(items, Init(rects)) +
      match FirstMatch(items, Last(rects).rid)
      case None => 0.0
      case Some(i) => items[i].area
  }

  /** The summed bounding-box area of a list of records. */
  function BoxArea(placed: seq<Placement>): real
    decreases |placed|
  {
    if placed == [] then 0.0
    else BoxArea(placed[..|placed| - 1]) + placed[|placed| - 1].wBox * placed[|placed| - 1].hBox
  }

  /** Percentage of the board covered by `used`. */
  function Efficiency(used: real, binW: real, binH: real): real
    requires binW * binH != 0.0
  {
    used / (binW * binH) * 100.0
  }

  /** The set of ids of the queued items. */
  function IdsOf(items: seq<Item>): set<string>
  {
    set i | 0 <= i < |items| :: items[i].id
  }

  /** No two packed rectangles carry the same id. */
  predicate DistinctRids(rects: seq<PackedRect>)
  {
    forall j, k :: 0 <= j < k < |rects| ==> rects[j].rid != rects[k].rid
  }

  /** The packer placed a matched rectangle with the item's box, as is or turned by 90 degrees. */
  predicate KeepsBox(items: seq<Item>, rect: PackedRect)
  {
    match FirstMatch(items, rect.rid)
    case None => true
    case Some(i) =>
      (rect.width == items[i].w && rect.height == items[i].h) ||
      (rect.width == items[i].h && rect.height == items[i].w)
  }

  predicate PackerKeepsBoxes(items: seq<Item>, rects: seq<PackedRect>)
  {
    forall j :: 0 <= j < |rects| ==> KeepsBox(items, rects[j])
  }

  /**
   * The assembly loop of one solve. The board is never validated: a board
   * of area 0 makes the percentage computation raise after the loop.
   */
  method AssembleReport(binW: real, binH: real, items: seq<Item>, rects: seq<PackedRect>)
    returns (r: Result<Report, Error>)
    ensures r.Failure? <==> binW * binH == 0.0
    ensures r.Failure? ==> r.error == ZeroDivision
    ensures r.Success? ==>
      r.value.placed == Records(items, rects) &&
      r.value.unplacedCount == |items| - |PlacedIds(items, rects)| &&
      r.value.efficiency == Efficiency(UsedArea(items, rects), binW, binH) &&
      r.value.efficiency + r.value.waste == 100.0
    ensures r.Success? && r.value.placed == [] ==> r.value.efficiency == 0.0 && r.value.waste == 100.0
    ensures r.Success? && rects == [] ==> r.value == Report([], |items|, 0.0, 100.0)
  {
    var placed: seq<Placement> := [];
    var placedIds: set<string> := {};
    var used := 0.0;
    var n := 0;
    while n < |rects|
      invariant 0 <= n <= |rects|
      invariant placed == Records(items, rects[..n])
      invariant placedIds == PlacedIds(items, rects[..n])
      invariant used == UsedArea(items, rects[..n])
    {
      var rect := rects[n];
      assert Init(rects[..n + 1]) == rects[..n] && Last(rects[..n + 1]) == rect;
      match FirstMatch(items, rect.rid) {
        case None =>
        case Some(i) =>
          var original := items[i];
          placedIds := placedIds + {rect.rid};
          var isRotated := false;
          if original.w != rect.width {
            isRotated := true;
          }
          placed := placed + [Placement(rect.rid, original.kind, rect.x, rect.y, rect.width, rect.height,
                                        if isRotated then 90 else 0, original.color, original.dims)];
          used := used + original.area;
      }
      n := n + 1;
    }
    assert rects[..|rects|] == rects;
    if binW * binH == 0.0 {
      return Failure(ZeroDivision);
    }
    if placed == [] {
      NothingPlacedNothingUsed(items, rects);
    }
    var efficiency := used / (binW * binH) * 100.0;
    r := Success(Report(placed, |items| - |placedIds|, efficiency, 100.0 - used / (binW * binH) * 100.0));
  }

  /**
   * Every record comes from a packed rectangle whose id names a queued item,
   * and copies its position and size from that rectangle and its kind,
   * colour and parameters from the FIRST item with that id.
   */
  lemma {:induction false} RecordsFaithful(items: seq<Item>, rects: seq<PackedRect>)
    ensures forall p :: p in Records(items, rects) ==>
      (exists j :: 0 <= j < |rects| && FirstMatch(items, rects[j].rid).Some? &&
         Describes(p, items[FirstMatch(items, rects[j].rid).value], rects[j]))
  {
    if rects != [] {
      var init, last := Init(rects), Last(rects);
      RecordsFaithful(items, init);
      forall p | p in Records(items, rects)
        ensures exists j :: (0 <= j < |rects| && FirstMatch(items, rects[j].rid).Some? &&
          Describes(p, items[FirstMatch(items, rects[j].rid).value], rects[j]))
      {
        if p in Records(items, init) {
          var j :| 0 <= j < |init| && FirstMatch(items, init[j].rid).Some? &&
            Describes(p, items[FirstMatch(items, init[j].rid).value], init[j]);
          assert rects[j] == init[j];
        } else {
          assert rects[|rects| - 1] == last;
        }
      }
    }
  }

  /** How many packed rectangles carry the id of a queued item. */
  function MatchedCount(items: seq<Item>, rects: seq<PackedRect>): nat
    decreases |rects|
  {
    if rects == [] then 0
    else MatchedCount(items, Init(rects)) + if FirstMatch(items, Last(rects).rid).Some? then 1 else 0
  }

  /**
   * The converse of RecordsFaithful, with order: there is one record per
   * matched packed rectangle, and the record of the j-th rectangle sits at
   * the position given by the number of matched rectangles before it, so
   * records follow packing order and none is repeated or omitted.
   */
  lemma RecordsComplete(items: seq<Item>, rects: seq<PackedRect>)
    ensures |Records(items, rects)| == MatchedCount(items, rects)
    ensures forall j :: 0 <= j < |rects| && FirstMatch(items, rects[j].rid).Some? ==>
      MatchedCount(items, rects[..j]) < |Records(items, rects)| &&
      Records(items, rects)[MatchedCount(items, rects[..j])] ==
        Place(items[FirstMatch(items, rects[j].rid).value], rects[j])
  {
    RecordsLength(items, rects);
    forall j | 0 <= j < |rects| && FirstMatch(items, rects[j].rid).Some?
      ensures MatchedCount(items, rects[..j]) < |Records(items, rects)| &&
        Records(items, rects)[MatchedCount(items, rects[..j])] ==
          Place(items[FirstMatch(items, rects[j].rid).value], rects[j])
    {
      RecordAt(items, rects, j);
    }
  }

  lemma {:induction false} RecordsLength(items: seq<Item>, rects: seq<PackedRect>)
    ensures |Records(items, rects)| == MatchedCount(items, rects)
  {
    if rects != [] {
      RecordsLength(items, Init(rects));
    }
  }

  /** The record of the matched rectangle `rects[j]`, located by the matches before it. */
  lemma {:induction false} RecordAt(items: seq<Item>, rects: seq<PackedRect>, j: nat)
    requires j < |rects| && FirstMatch(items, rects[j].rid).Some?
    ensures MatchedCount(items, rects[..j]) < |Records(items, rects)|
    ensures Records(items, rects)[MatchedCount(items, rects[..j])] ==
      Place(items[FirstMatch(items, rects[j].rid).value], rects[j])
  {
    var init := Init(rects);
    var before := Records(items, init);
    if j < |init| {
      assert rects[..j] == init[..j] && rects[j] == init[j];
      RecordAt(items, init, j);
      assert Records(items, rects)[..|before|] == before;
    } else {
      assert rects[..j] == init;
      RecordsLength(items, init);
    }
  }

  /** An id is placed exactly when some packed rectangle and some queued item both carry it. */
  lemma {:induction false} PlacedIdsExact(items: seq<Item>, rects: seq<PackedRect>, id: string)
    ensures id in PlacedIds(items, rects) <==>
      (exists j :: 0 <= j < |rects| && rects[j].rid == id) &&
      (exists i :: 0 <= i < |items| && items[i].id == id)
  {
    if rects != [] {
      var init, last := Init(rects), Last(rects);
      PlacedIdsExact(items, init, id);
      if (exists j :: 0 <= j < |rects| && rects[j].rid == id) &&
         (exists i :: 0 <= i < |items| && items[i].id == id) {
        var j :| 0 <= j < |rects| && rects[j].rid == id;
        if j < |init| {
          assert init[j].rid == id;
        } else {
          assert last.rid == id;
        }
      }
      if id in PlacedIds(items, init) {
        var j :| 0 <= j < |init| && init[j].rid == id;
        assert rects[j].rid == id;
      }
      if id !in PlacedIds(items, init) && id in PlacedIds(items, rects) {
        assert rects[|rects| - 1].rid == id;
      }
    }
  }

  /** The unplaced count is never negative: only ids of queued items are counted as placed. */
  lemma UnplacedNonNegative(items: seq<Item>, rects: seq<PackedRect>)
    ensures PlacedIds(items, rects) <= IdsOf(items)
    ensures |items| - |PlacedIds(items, rects)| >= 0
  {
    forall id | id in PlacedIds(items, rects) ensures id in IdsOf(items) {
      PlacedIdsExact(items, rects, id);
    }
    SubsetCard(PlacedIds(items, rects), IdsOf(items));
    IdsOfCard(items);
  }

  /**
   * Conservation: when no two packed rectangles share an id, every record
   * adds one distinct placed id, so records plus unplaced items account for
   * the whole queue.
   */
  lemma {:induction false} Conservation(items: seq<Item>, rects: seq<PackedRect>)
    requires DistinctRids(rects)
    ensures |Records(items, rects)| == |PlacedIds(items, rects)|
    ensures |Records(items, rects)| + (|items| - |PlacedIds(items, rects)|) == |items|
  {
    if rects != [] {
      var init, last := Init(rects), Last(rects);
      assert DistinctRids(init);
      Conservation(items, init);
      assert last.rid !in PlacedIds(items, init) by {
        PlacedIdsExact(items, init, last.rid);
        forall j | 0 <= j < |init| ensures init[j].rid != last.rid {
          assert init[j] == rects[j];
        }
      }
    }
  }

  /** Without a record there is no used area, so the efficiency of such a solve is 0. */
  lemma {:induction false} NothingPlacedNothingUsed(items: seq<Item>, rects: seq<PackedRect>)
    requires Records(items, rects) == []
    ensures UsedArea(items, rects) == 0.0
  {
    if rects != [] {
      NothingPlacedNothingUsed(items, Init(rects));
    }
  }

  /**
   * If the packer keeps each item's box, an unturned record has the item's
   * own box and a turned one has it swapped and is not square: a square or
   * circle is never reported rotated.
   */
  lemma {:induction false} RotationMeansSwapped(items: seq<Item>, rects: seq<PackedRect>)
    requires PackerKeepsBoxes(items, rects)
    ensures forall p :: p in Records(items, rects) ==>
      FirstMatch(items, p.id).Some? &&
      var item := items[FirstMatch(items, p.id).value];
      (p.rotation == 0 ==> p.wBox == item.w && p.hBox == item.h) &&
      (p.rotation == 90 ==> p.wBox == item.h && p.hBox == item.w && item.w != item.h)
  {
    RecordsFaithful(items, rects);
    forall p | p in Records(items, rects)
      ensures FirstMatch(items, p.id).Some? &&
        var item := items[FirstMatch(items, p.id).value];
        (p.rotation == 0 ==> p.wBox == item.w && p.hBox == item.h) &&
        (p.rotation == 90 ==> p.wBox == item.h && p.hBox == item.w && item.w != item.h)
    {
      var j :| 0 <= j < |rects| && FirstMatch(items, rects[j].rid).Some? &&
        Describes(p, items[FirstMatch(items, rects[j].rid).value], rects[j]);
      assert KeepsBox(items, rects[j]);
    }
  }

  /**
   * The used area counts exact areas, so when each item's exact area lies
   * within its box and the packer keeps boxes, it never exceeds the summed
   * box area of the records.
   */
  lemma {:induction false} UsedAreaWithinBoxes(items: seq<Item>, rects: seq<PackedRect>)
    requires forall i :: 0 <= i < |items| ==> 0.0 <= items[i].area <= items[i].w * items[i].h
    requires PackerKeepsBoxes(items, rects)
    ensures 0.0 <= UsedArea(items, rects) <= BoxArea(Records(items, rects))
  {
    if rects != [] {
      var init, last := Init(rects), Last(rects);
      assert PackerKeepsBoxes(items, init) by {
        forall j | 0 <= j < |init| ensures KeepsBox(items, init[j]) {
          assert init[j] == rects[j];
        }
      }
      UsedAreaWithinBoxes(items, init);
      assert KeepsBox(items, rects[|rects| - 1]);
      match FirstMatch(items, last.rid)
      case None =>
        UsedAreaSkip(items, rects);
      case Some(i) =>
        UsedAreaStep(items, rects, i);
    }
  }

  /** An unmatched last rectangle adds neither a record nor used area. */
  lemma UsedAreaSkip(items: seq<Item>, rects: seq<PackedRect>)
    requires rects != [] && FirstMatch(items, Last(rects).rid).None?
    ensures Records(items, rects) == Records(items, Init(rects))
    ensures UsedArea(items, rects) == UsedArea(items, Init(rects))
  {
    assert Records(items, rects) == Records(items, Init(rects)) + [];
  }

  /** A matched last rectangle adds its item's exact area and its own box area. */
  lemma UsedAreaStep(items: seq<Item>, rects: seq<PackedRect>, i: nat)
    requires rects != [] && FirstMatch(items, Last(rects).rid) == Some(i)
    requires KeepsBox(items, Last(rects))
    ensures UsedArea(items, rects) == UsedArea(items, Init(rects)) + items[i].area
    ensures BoxArea(Records(items, rects)) == BoxArea(Records(items, Init(rects))) + items[i].w * items[i].h
  {
    var p := Place(items[i], Last(rects));
    RecordsStep(items, rects, i);
    BoxAreaSnoc(Records(items, Init(rects)), p);
    SameBoxArea(p.wBox, p.hBox, items[i].w, items[i].h);
  }

  lemma RecordsStep(items: seq<Item>, rects: seq<PackedRect>, i: nat)
    requires rects != [] && FirstMatch(items, Last(rects).rid) == Some(i)
    ensures Records(items, rects) == Records(items, Init(rects)) + [Place(items[i], Last(rects))]
  {
  }

  lemma BoxAreaSnoc(ps: seq<Placement>, p: Placement)
    ensures BoxArea(ps + [p]) == BoxArea(ps) + p.wBox * p.hBox
  {
    assert (ps + [p])[..|ps|] == ps;
  }

  /** A box turned by 90 degrees keeps its area. */
  lemma SameBoxArea(w: real, h: real, w0: real, h0: real)
    requires (w == w0 && h == h0) || (w == h0 && h == w0)
    ensures w * h == w0 * h0
  {
  }

  /**
   * Two queued items with the same id (the eight-character ids can collide)
   * break conservation: both packed copies are reported, both with the first
   * item's data, but the id is counted once.
   */
  lemma DuplicateIdsBreakConservation()
    ensures var a := Item("a", Rectangle, map[], 1.0, 2.0, 2.0, true, "#3B82F6");
      var b := Item("a", Circle, map[], 2.0, 2.0, 3.0, true, "#F59E0B");
      var rects := [PackedRect("a", 0.0, 0.0, 1.0, 2.0), PackedRect("a", 1.0, 0.0, 2.0, 2.0)];
      var items := [a, b];
      |Records(items, rects)| == 2 && |PlacedIds(items, rects)| == 1 &&
      |Records(items, rects)| + (|items| - |PlacedIds(items, rects)|) == 3 &&
      Records(items, rects)[1].kind == Rectangle
  {
    var a := Item("a", Rectangle, map[], 1.0, 2.0, 2.0, true, "#3B82F6");
    var b := Item("a", Circle, map[], 2.0, 2.0, 3.0, true, "#F59E0B");
    var rects := [PackedRect("a", 0.0, 0.0, 1.0, 2.0), PackedRect("a", 1.0, 0.0, 2.0, 2.0)];
    assert Init(rects) == [rects[0]] && Init([rects[0]]) == [];
  }

  /**
   * The packer is always allowed to turn rectangles, and the assembly does
   * not look at the item's flag: an item added without rotation allowed is
   * reported rotated when the packer turned it.
   */
  lemma RotatedDespiteFlag()
    ensures var item := Item("t", Triangle, map["b" := 300.0, "h" := 400.0], 300.0, 400.0, 60000.0, false, "#8B5CF6");
      var rect := PackedRect("t", 0.0, 0.0, 400.0, 300.0);
      !item.allowRotation && Records([item], [rect])[0].rotation == 90
  {
    var rect := PackedRect("t", 0.0, 0.0, 400.0, 300.0);
    assert Init([rect]) == [];
  }

  lemma {:induction false} SubsetCard<T>(a: set<T>, b: set<T>)
    requires a <= b
    ensures |a| <= |b|
  {
    if a != {} {
      var x :| x in a;
      SubsetCard(a - {x}, b - {x});
    }
  }

  lemma {:induction false} IdsOfCard(items: seq<Item>)
    ensures |IdsOf(items)| <= |items|
  {
    if items != [] {
      var init := items[..|items| - 1];
      IdsOfCard(init);
      assert IdsOf(items) == IdsOf(init) + {items[|items| - 1].id} by {
        forall id | id in IdsOf(items) ensures id in IdsOf(init) + {items[|items| - 1].id} {
          var i :| 0 <= i < |items| && items[i].id == id;
          if i < |init| { assert init[i].id == id; }
        }
        forall id | id in IdsOf(init) ensures id in IdsOf(items) {
          var i :| 0 <= i < |init| && init[i].id == id;
          assert items[i].id == id;
        }
      }
    }
  }
}
