/**
 * The list's `move(id, toIndex)`: take the entry with `id` out of a copy of the list and splice
 * it back in at `toIndex`, where `toIndex` counts positions in the list after the removal.
 */
module ReorderEngine {
  import opened ArrayOps
  import opened TodoItem

  /** Reference semantics of `move`: remove the entry `find` locates, re-insert it at `toIndex`. */
  function MoveTo(s: seq<Item>, id: string, toIndex: nat): (r: seq<Item>)
    requires HasId(s, id) && toIndex < |s|
    ensures |r| == |s| && r[toIndex] == Find(s, id).item
  {
    var loc := Find(s, id);
    InsertAt(RemoveAt(s, loc.index), toIndex, loc.item)
  }

  /**
   * `move` as the source runs it: copy the list into a fresh array, `splice(index, 1)` it at the
   * entry's current index, then `splice(toIndex, 0, item)`.
   */
  method Move(s: seq<Item>, id: string, toIndex: nat) returns (r: seq<Item>)
    requires HasId(s, id) && toIndex < |s|
    ensures r == MoveTo(s, id, toIndex)
    ensures |r| == |s| && multiset(r) == multiset(s)
    ensures r[toIndex] == Find(s, id).item
    ensures RemoveAt(r, toIndex) == RemoveAt(s, Find(s, id).index)
  {
    var loc := Find(s, id);
    var a := new Item[|s|](i requires 0 <= i < |s| => s[i]);
    assert a[..|s|] == s;
    SpliceOut(a, |s|, loc.index);
    ghost var rest := a[..|s| - 1];
    assert rest == RemoveAt(s, loc.index);
    SpliceIn(a, |s| - 1, toIndex, loc.item);
    assert a[..|s|] == InsertAt(rest, toIndex, loc.item);
    r := a[..|s|];
    MoveToPermutation(s, id, toIndex);
    MoveToKeepsOrder(s, id, toIndex);
  }

  /** A move neither adds nor drops entries: the result is a permutation of the list. */
  lemma {:induction false} MoveToPermutation(s: seq<Item>, id: string, toIndex: nat)
    requires HasId(s, id) && toIndex < |s|
    ensures |MoveTo(s, id, toIndex)| == |s|
    ensures multiset(MoveTo(s, id, toIndex)) == multiset(s)
  {
    ReinsertPermutes(s, Find(s, id).index, toIndex);
  }

  /**
   * Taking the moved entry out of the result leaves the same list as taking it out of the
   * original: every other entry keeps its relative order.
   */
  lemma {:induction false} MoveToKeepsOrder(s: seq<Item>, id: string, toIndex: nat)
    requires HasId(s, id) && toIndex < |s|
    ensures RemoveAt(MoveTo(s, id, toIndex), toIndex) == RemoveAt(s, Find(s, id).index)
  {
    RemoveInsert(RemoveAt(s, Find(s, id).index), toIndex, Find(s, id).item);
  }

  /** Moving an entry to the index `find` reports for it returns the list unchanged. */
  lemma {:induction false} MoveToOwnIndex(s: seq<Item>, id: string)
    requires HasId(s, id)
    ensures MoveTo(s, id, Find(s, id).index) == s
  {
    InsertRemove(s, Find(s, id).index);
  }

  /** A move keeps ids unique, every id stays present, and `find` then locates the entry at `toIndex`. */
  lemma {:induction false} MoveToKeepsIds(s: seq<Item>, id: string, toIndex: nat)
    requires HasId(s, id) && toIndex < |s| && UniqueIds(s)
    ensures UniqueIds(MoveTo(s, id, toIndex))
    ensures forall o :: HasId(MoveTo(s, id, toIndex), o) <==> HasId(s, o)
    ensures HasId(MoveTo(s, id, toIndex), id) && Find(MoveTo(s, id, toIndex), id).index == toIndex
  {
    var k := Find(s, id).index;
    var t := RemoveAt(s, k);
    var r := MoveTo(s, id, toIndex);
    assert forall m :: 0 <= m < |t| ==> t[m].id != id by {
      forall m | 0 <= m < |t| ensures t[m].id != id {
        if m < k { assert t[m] == s[m]; } else { assert t[m] == s[m + 1]; }
      }
    }
    assert UniqueIds(t) by {
      forall i, j | 0 <= i < j < |t| ensures t[i].id != t[j].id {
        var i' := if i < k then i else i + 1;
        var j' := if j < k then j else j + 1;
        assert t[i] == s[i'] && t[j] == s[j'] && i' < j';
      }
    }
    forall i, j | 0 <= i < j < |r| ensures r[i].id != r[j].id {
      if i == toIndex {
        assert r[j] == t[j - 1];
      } else if j == toIndex {
        assert r[i] == t[i];
      } else {
        var i' := if i < toIndex then i else i - 1;
        var j' := if j < toIndex then j else j - 1;
        assert r[i] == t[i'] && r[j] == t[j'] && i' < j';
      }
    }
    MoveToPermutation(s, id, toIndex);
    forall o ensures HasId(r, o) <==> HasId(s, o) {
      SameIds(r, s, o);
    }
    FindUnique(r, toIndex);
  }
}
