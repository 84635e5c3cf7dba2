/**
 * The drag-and-drop protocol of the list, without the drag-and-drop framework: drag-start
 * captures the dragged entry's index, each hover over a different entry moves the dragged entry
 * to that entry's index, and a drag that ends without a drop moves the entry back to the
 * captured index.
 */
module DragProtocol {
  import opened ArrayOps
  import opened TodoItem
  import opened ReorderEngine

  /** One hover of the dragged entry over entry `overId`: a move when it is another entry, else nothing. */
  function HoverStep(s: seq<Item>, draggedId: string, overId: string): (r: seq<Item>)
    requires HasId(s, draggedId) && HasId(s, overId)
    ensures |r| == |s|
    ensures draggedId != overId ==> r[Find(s, overId).index] == Find(s, draggedId).item
    ensures draggedId == overId ==> r == s
  {
    if draggedId != overId then MoveTo(s, draggedId, Find(s, overId).index) else s
  }

  /** A hover keeps ids unique and present. */
  lemma {:induction false} HoverStepKeepsIds(s: seq<Item>, draggedId: string, overId: string)
    requires HasId(s, draggedId) && HasId(s, overId) && UniqueIds(s)
    ensures UniqueIds(HoverStep(s, draggedId, overId))
    ensures forall o :: HasId(HoverStep(s, draggedId, overId), o) <==> HasId(s, o)
  {
    if draggedId != overId {
      MoveToKeepsIds(s, draggedId, Find(s, overId).index);
    }
  }

  /** The live list after the hovers `overs`, in the order the pointer crossed the entries. */
  function Hovers(s: seq<Item>, draggedId: string, overs: seq<string>): (r: seq<Item>)
    requires UniqueIds(s) && HasId(s, draggedId)
    requires forall i :: 0 <= i < |overs| ==> HasId(s, overs[i])
    ensures UniqueIds(r) && (forall o :: HasId(r, o) <==> HasId(s, o))
    decreases |overs|
  {
    if overs == [] then s
    else
      HoverStepKeepsIds(s, draggedId, overs[0]);
      Hovers(HoverStep(s, draggedId, overs[0]), draggedId, overs[1..])
  }

  /**
   * What holds of the live list `cur` while entry `id` is dragged from the list `start`, where
   * `find` located it at `originalIndex`: the dragged entry is unchanged and the other entries
   * are those of `start`, in the same order.
   */
  ghost predicate DragInvariant(start: seq<Item>, id: string, originalIndex: nat, cur: seq<Item>) {
    && UniqueIds(start) && HasId(start, id) && originalIndex == Find(start, id).index
    && UniqueIds(cur) && HasId(cur, id)
    && cur[Find(cur, id).index] == start[originalIndex]
    && RemoveAt(cur, Find(cur, id).index) == RemoveAt(start, originalIndex)
  }

  /** Drag-start establishes the invariant. */
  lemma {:induction false} DragStartInvariant(s: seq<Item>, id: string)
    requires UniqueIds(s) && HasId(s, id)
    ensures DragInvariant(s, id, Find(s, id).index, s)
  {
  }

  /** Every hover keeps the invariant. */
  lemma {:induction false} HoverKeepsInvariant(start: seq<Item>, id: string, originalIndex: nat, cur: seq<Item>, overId: string)
    requires DragInvariant(start, id, originalIndex, cur) && HasId(cur, overId)
    ensures DragInvariant(start, id, originalIndex, HoverStep(cur, id, overId))
  {
    if id != overId {
      var q := Find(cur, overId).index;
      MoveToKeepsIds(cur, id, q);
      MoveToKeepsOrder(cur, id, q);
    }
  }

  /** Any number of hovers keeps the invariant. */
  lemma {:induction false} HoversKeepInvariant(start: seq<Item>, id: string, originalIndex: nat, cur: seq<Item>, overs: seq<string>)
    requires DragInvariant(start, id, originalIndex, cur)
    requires forall i :: 0 <= i < |overs| ==> HasId(cur, overs[i])
    ensures DragInvariant(start, id, originalIndex, Hovers(cur, id, overs))
    decreases |overs|
  {
    if overs != [] {
      HoverKeepsInvariant(start, id, originalIndex, cur, overs[0]);
      HoverStepKeepsIds(cur, id, overs[0]);
      HoversKeepInvariant(start, id, originalIndex, HoverStep(cur, id, overs[0]), overs[1..]);
    }
  }

  /** Under the invariant, the corrective `move(id, originalIndex)` restores the pre-drag list. */
  lemma {:induction false} CancelRestores(start: seq<Item>, id: string, originalIndex: nat, cur: seq<Item>)
    requires DragInvariant(start, id, originalIndex, cur)
    ensures originalIndex < |cur| && MoveTo(cur, id, originalIndex) == start
  {
    InsertRemove(start, originalIndex);
  }

  /**
   * Cancel round trip: capture `originalIndex`, hover over any entries in any order, then end the
   * drag without a drop; the list is exactly the list the drag started from.
   */
  lemma {:induction false} CancelRoundTrip(s: seq<Item>, id: string, overs: seq<string>)
    requires UniqueIds(s) && HasId(s, id)
    requires forall i :: 0 <= i < |overs| ==> HasId(s, overs[i])
    ensures var live := Hovers(s, id, overs);
      HasId(live, id) && Find(s, id).index < |live| && MoveTo(live, id, Find(s, id).index) == s
  {
    DragStartInvariant(s, id);
    HoversKeepInvariant(s, id, Find(s, id).index, s, overs);
    CancelRestores(s, id, Find(s, id).index, Hovers(s, id, overs));
  }

  /** In a three-entry list with distinct ids, `find` reports positions 0, 1 and 2. */
  lemma FindInThree(x: Item, y: Item, z: Item)
    requires x.id != y.id && y.id != z.id && x.id != z.id
    ensures HasId([x, y, z], x.id) && Find([x, y, z], x.id).index == 0
    ensures HasId([x, y, z], y.id) && Find([x, y, z], y.id).index == 1
    ensures HasId([x, y, z], z.id) && Find([x, y, z], z.id).index == 2
  {
    var s := [x, y, z];
    assert s[0].id == x.id && s[1].id == y.id && s[2].id == z.id;
  }

  /** The moves of the first entry in a three-entry list. */
  lemma MoveFirstInThree(x: Item, y: Item, z: Item)
    requires x.id != y.id && y.id != z.id && x.id != z.id
    ensures HasId([x, y, z], x.id)
    ensures MoveTo([x, y, z], x.id, 1) == [y, x, z]
    ensures MoveTo([x, y, z], x.id, 2) == [y, z, x]
  {
    FindInThree(x, y, z);
    var t := RemoveAt([x, y, z], 0);
    assert t[0] == y && t[1] == z;
    var r1, r2 := InsertAt(t, 1, x), InsertAt(t, 2, x);
    assert r1[0] == y && r1[1] == x && r1[2] == z;
    assert r2[0] == y && r2[1] == z && r2[2] == x;
    assert r1 == [y, x, z] && r2 == [y, z, x];
  }

  /** The moves of the middle entry in a three-entry list. */
  lemma MoveMiddleInThree(x: Item, y: Item, z: Item)
    requires x.id != y.id && y.id != z.id && x.id != z.id
    ensures HasId([x, y, z], y.id)
    ensures MoveTo([x, y, z], y.id, 2) == [x, z, y]
  {
    FindInThree(x, y, z);
    var t := RemoveAt([x, y, z], 1);
    assert t[0] == x && t[1] == z;
    var r := InsertAt(t, 2, y);
    assert r[0] == x && r[1] == z && r[2] == y;
    assert r == [x, z, y];
  }

  /** The moves of the last entry in a three-entry list. */
  lemma MoveLastInThree(x: Item, y: Item, z: Item)
    requires x.id != y.id && y.id != z.id && x.id != z.id
    ensures HasId([x, y, z], z.id)
    ensures MoveTo([x, y, z], z.id, 0) == [z, x, y]
    ensures MoveTo([x, y, z], z.id, 1) == [x, z, y]
  {
    FindInThree(x, y, z);
    var t := RemoveAt([x, y, z], 2);
    assert t[0] == x && t[1] == y;
    var r0, r1 := InsertAt(t, 0, z), InsertAt(t, 1, z);
    assert r0[0] == z && r0[1] == x && r0[2] == y;
    assert r1[0] == x && r1[1] == z && r1[2] == y;
    assert r0 == [z, x, y] && r1 == [x, z, y];
  }

  /** Drag X over Z in [X, Y, Z] gives [Y, Z, X]; ending without a drop restores [X, Y, Z]. */
  lemma ScenarioCancel(x: Item, y: Item, z: Item)
    requires x.id != y.id && y.id != z.id && x.id != z.id
    ensures HasId([x, y, z], x.id) && HasId([x, y, z], z.id) && HasId([y, z, x], x.id)
    ensures HoverStep([x, y, z], x.id, z.id) == [y, z, x]
    ensures MoveTo([y, z, x], x.id, Find([x, y, z], x.id).index) == [x, y, z]
  {
    FindInThree(x, y, z);
    MoveFirstInThree(x, y, z);
    MoveLastInThree(y, z, x);
  }

  /** Drag X over Y, then over Z, in [X, Y, Z]: the live list is [Y, X, Z], then [Y, Z, X]. */
  lemma ScenarioCommit(x: Item, y: Item, z: Item)
    requires x.id != y.id && y.id != z.id && x.id != z.id
    ensures HasId([x, y, z], x.id) && HasId([x, y, z], y.id)
    ensures HasId([y, x, z], x.id) && HasId([y, x, z], z.id)
    ensures HoverStep([x, y, z], x.id, y.id) == [y, x, z]
    ensures HoverStep([y, x, z], x.id, z.id) == [y, z, x]
  {
    FindInThree(x, y, z);
    FindInThree(y, x, z);
    MoveFirstInThree(x, y, z);
    MoveMiddleInThree(y, x, z);
  }

  /**
   * A second hover over the same neighbour is not a no-op: once X has taken Z's place in
   * [X, Y, Z], Z sits at index 1, so hovering over Z again moves X back in front of it.
   */
  lemma RepeatedHoverMovesAgain(x: Item, y: Item, z: Item)
    requires x.id != y.id && y.id != z.id && x.id != z.id
    ensures HasId([x, y, z], x.id) && HasId([x, y, z], z.id)
    ensures HasId([y, z, x], x.id) && HasId([y, z, x], z.id)
    ensures HoverStep([x, y, z], x.id, z.id) == [y, z, x]
    ensures HoverStep([y, z, x], x.id, z.id) == [y, x, z]
  {
    FindInThree(x, y, z);
    FindInThree(y, z, x);
    MoveFirstInThree(x, y, z);
    MoveLastInThree(y, z, x);
  }

  /** Where the drag-and-drop state machine is. */
  datatype DragState = Idle | Dragging(id: string, originalIndex: nat)

  /** The live list together with the drag in progress, if any. */
  class DragSession {
    var todoList: seq<Item>
    var state: DragState
    /** The list as it was when the current drag started. */
    ghost var preDrag: seq<Item>

    ghost predicate Valid()
      reads this
    {
      UniqueIds(todoList) &&
      (state.Dragging? ==> DragInvariant(preDrag, state.id, state.originalIndex, todoList))
    }

    constructor (initial: seq<Item>)
      requires UniqueIds(initial)
      ensures Valid() && todoList == initial && state == Idle
    {
      todoList := initial;
      state := Idle;
      preDrag := initial;
    }

    /** Drag-start on entry `id`: capture its current index; the list is unchanged. */
    method BeginDrag(id: string)
      requires Valid() && HasId(todoList, id)
      modifies this
      ensures Valid() && todoList == old(todoList) && preDrag == old(todoList)
      ensures state == Dragging(id, Find(todoList, id).index)
    {
      var loc := Find(todoList, id);
      state := Dragging(id, loc.index);
      preDrag := todoList;
      DragStartInvariant(todoList, id);
    }

    /** The dragged entry hovers over entry `overId`. */
    method Hover(overId: string)
      requires Valid() && state.Dragging? && HasId(todoList, overId)
      modifies this
      ensures Valid() && state == old(state) && preDrag == old(preDrag)
      ensures todoList == HoverStep(old(todoList), state.id, overId)
    {
      var cur, draggedId := todoList, state.id;
      HoverKeepsInvariant(preDrag, draggedId, state.originalIndex, cur, overId);
      if draggedId != overId {
        var over := Find(cur, overId);
        cur := Move(cur, draggedId, over.index);
      }
      assert cur == HoverStep(todoList, draggedId, overId);
      todoList := cur;
    }

    /**
     * Drag-end: after a drop the live list stays; without one, one corrective move puts the
     * entry back at the captured index, which restores the pre-drag list.
     */
    method EndDrag(didDrop: bool)
      requires Valid() && state.Dragging?
      modifies this
      ensures Valid() && state == Idle
      ensures didDrop ==> todoList == old(todoList)
      ensures !didDrop ==> todoList == MoveTo(old(todoList), old(state).id, old(state).originalIndex)
      ensures !didDrop ==> todoList == old(preDrag)
    {
      if !didDrop {
        CancelRestores(preDrag, state.id, state.originalIndex, todoList);
        todoList := Move(todoList, state.id, state.originalIndex);
      }
      state := Idle;
    }
  }

  /**
   * One whole gesture on a fresh session: drag-start on `id`, the hovers `overs` in order, then
   * drag-end. A drop keeps the live order; no drop gives back the starting list.
   */
  method RunDrag(s: seq<Item>, id: string, overs: seq<string>, didDrop: bool) returns (r: seq<Item>)
    requires UniqueIds(s) && HasId(s, id)
    requires forall i :: 0 <= i < |overs| ==> HasId(s, overs[i])
    ensures didDrop ==> r == Hovers(s, id, overs)
    ensures !didDrop ==> r == s
  {
    var session := new DragSession(s);
    session.BeginDrag(id);
    var i := 0;
    while i < |overs|
      invariant 0 <= i <= |overs|
      invariant session.Valid() && session.preDrag == s
      invariant session.state == Dragging(id, Find(s, id).index)
      invariant forall o :: HasId(session.todoList, o) <==> HasId(s, o)
      invariant Hovers(session.todoList, id, overs[i..]) == Hovers(s, id, overs)
    {
      assert overs[i..][1..] == overs[i + 1..];
      HoverStepKeepsIds(session.todoList, id, overs[i]);
      session.Hover(overs[i]);
      i := i + 1;
    }
    assert overs[i..] == [];
    session.EndDrag(didDrop);
    r := session.todoList;
  }
}
