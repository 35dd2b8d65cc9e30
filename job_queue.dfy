/**
 * The job queue: the session's list of shape instances awaiting a solve, and
 * the "add shape" action that appends `qty` copies of one shape to it.
 */
module JobQueue {
  import opened Basics
  import opened Shapes

  /** How many times `range(int(qty))` iterates: none for a non-positive quantity. */
  function Copies(qty: int): nat
  {
    if qty > 0 then qty else 0
  }

  /**
   * The records one call of the "add shape" action creates, copy k taking
   * the k-th identifier in `uids`. A call that creates no copy never reaches
   * the dispatch and cannot fail; otherwise the first copy raises whatever
   * the dispatch raises.
   */
  function NewItems(kind: ShapeKind, dims: Dims, qty: int, rot: bool, uids: seq<string>)
    : (r: Result<seq<Item>, Error>)
    requires |uids| >= Copies(qty)
    ensures r.Failure? <==> qty > 0 && Measure(kind, dims).Failure?
    ensures r.Failure? ==> r.error == Measure(kind, dims).error
    ensures r.Success? ==> |r.value| == if qty > 0 then qty else 0
    ensures r.Success? ==> forall k :: 0 <= k < |r.value| ==>
      var it := r.value[k];
      it.id == uids[k] && it.kind == kind && it.dims == dims &&
      it.allowRotation == rot && it.color == ColorOf(kind) &&
      Geometry(it.w, it.h, it.area) == Measure(kind, dims).value
  {
    var n := Copies(qty);
    if n == 0 then Success([])
    else match Measure(kind, dims)
      case Failure(e) => Failure(e)
      case Success(g) =>
        Success(seq(n, k requires 0 <= k < n =>
          Item(uids[k], kind, dims, g.w, g.h, g.area, rot, ColorOf(kind))))
  }

  /**
   * A freshly added copy of a known shape with positive parameters has a
   * non-degenerate bounding box whose area bounds its exact area, and the
   * box of a square or a circle has equal sides.
   */
  lemma NewItemsWithinBox(kind: ShapeKind, dims: Dims, qty: int, rot: bool, uids: seq<string>)
    requires |uids| >= Copies(qty)
    requires !kind.Other? && PositiveParams(kind, dims)
    ensures NewItems(kind, dims, qty, rot, uids).Success?
    ensures var items := NewItems(kind, dims, qty, rot, uids).value;
      forall k :: 0 <= k < |items| ==>
        0.0 < items[k].w && 0.0 < items[k].h && 0.0 < items[k].area <= items[k].w * items[k].h &&
        (kind.Circle? || (kind.Square? && dims["w"] == dims["h"]) ==> items[k].w == items[k].h)
  {
    ExactAreaWithinBox(kind, dims);
  }

  /** The session's job list. */
  class JobQueue {
    var items: seq<Item>

    /** A new session starts with an empty job list. */
    constructor ()
      ensures items == []
    {
      items := [];
    }

    /**
     * Appends `qty` copies of one shape, built in a local list and then
     * added to the end of the job list in one step. A failing dispatch
     * raises before the list is extended, so the job list is unchanged.
     */
    method AddItem(kind: ShapeKind, dims: Dims, qty: int, rot: bool, uids: seq<string>)
      returns (outcome: Outcome<Error>)
      requires |uids| >= Copies(qty)
      modifies this
      ensures outcome.Fail? <==> NewItems(kind, dims, qty, rot, uids).Failure?
      ensures outcome.Fail? ==>
        outcome.error == NewItems(kind, dims, qty, rot, uids).error && items == old(items)
      ensures outcome.Pass? ==>
        items == old(items) + NewItems(kind, dims, qty, rot, uids).value
    {
      var n := Copies(qty);
      var added: seq<Item> := [];
      var k := 0;
      while k < n
        invariant 0 <= k <= n
        invariant k > 0 ==> Measure(kind, dims).Success?
        invariant |added| == k
        invariant forall j :: 0 <= j < k ==>
          added[j] == Item(uids[j], kind, dims, Measure(kind, dims).value.w,
                           Measure(kind, dims).value.h, Measure(kind, dims).value.area,
                           rot, ColorOf(kind))
      {
        var uid := uids[k];
        var m := Measure(kind, dims);
        if m.Failure? {
          return Fail(m.error);
        }
        var g := m.value;
        added := added + [Item(uid, kind, dims, g.w, g.h, g.area, rot, ColorOf(kind))];
        k := k + 1;
      }
      assert added == NewItems(kind, dims, qty, rot, uids).value;
      items := items + added;
      return Pass;
    }

    /** The "reset" action empties the job list. */
    method Reset()
      modifies this
      ensures items == []
    {
      items := [];
    }
  }
}
