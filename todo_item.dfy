/**
 * One to-do entry (`TodoItemDataType`: value, checked, date, id) and the lookups the list
 * performs by id: `Array.prototype.findIndex`, `Array.prototype.find` and the list's own `find`
 * callback, which pairs the found item with its `indexOf` position.
 */
module TodoItem {
  import opened Wrappers
  import opened ArrayOps

  /** A to-do entry; `date` is its creation time in epoch milliseconds. */
  datatype Item = Item(value: string, checked: bool, date: int, id: string)

  /** Some entry of `s` carries `id`. */
  predicate HasId(s: seq<Item>, id: string) {
    exists i :: 0 <= i < |s| && s[i].id == id
  }

  /** No two entries of `s` share an id. */
  predicate UniqueIds(s: seq<Item>) {
    forall i, j :: 0 <= i < j < |s| ==> s[i].id != s[j].id
  }

  /** `s.findIndex(item => item.id === id)`: the first index carrying `id`, or -1. */
  function FindIndex(s: seq<Item>, id: string): (r: int)
    ensures -1 <= r < |s|
    ensures r == -1 <==> !HasId(s, id)
    ensures r >= 0 ==> s[r].id == id && forall j :: 0 <= j < r ==> s[j].id != id
  {
    if s == [] then -1
    else if s[0].id == id then 0
    else
      var k := FindIndex(s[1..], id);
      if k == -1 then
        assert forall i :: 1 <= i < |s| ==> s[i] == s[1..][i - 1];
        -1
      else k + 1
  }

  /** `s.find(c => c.id === id)`: the first entry carrying `id`, or nothing. */
  function FindItem(s: seq<Item>, id: string): (r: Option<Item>)
    ensures r.Some? <==> HasId(s, id)
    ensures r.Some? ==> r.value == s[FindIndex(s, id)]
  {
    if s == [] then None
    else if s[0].id == id then Some(s[0])
    else FindItem(s[1..], id)
  }

  /** What the list's `find` callback returns: an entry and its position. */
  datatype Located = Located(item: Item, index: nat)

  /**
   * The list's `find(id)`: the first entry with `id` and the index `indexOf` reports for it.
   * The source asserts the entry exists (a non-null assertion), so the id must be present.
   */
  function Find(s: seq<Item>, id: string): (r: Located)
    requires HasId(s, id)
    ensures r.index < |s| && r.item == s[r.index] && r.item.id == id
    ensures forall j :: 0 <= j < r.index ==> s[j].id != id
    ensures r.index == FindIndex(s, id)
  {
    var item := FindItem(s, id).value;
    var k := IndexOf(s, item);
    Located(item, k)
  }

  /** In a list with unique ids, the entry at `k` is the one `Find` returns for its id. */
  lemma {:induction false} FindUnique(s: seq<Item>, k: nat)
    requires UniqueIds(s) && k < |s|
    ensures HasId(s, s[k].id) && Find(s, s[k].id).index == k
  {
  }

  /** Lists with the same elements carry the same ids. */
  lemma {:induction false} SameIds(s: seq<Item>, t: seq<Item>, id: string)
    requires multiset(s) == multiset(t)
    ensures HasId(s, id) <==> HasId(t, id)
  {
    if HasId(s, id) {
      var i :| 0 <= i < |s| && s[i].id == id;
      assert s[i] in multiset(t);
      var j :| 0 <= j < |t| && t[j] == s[i];
    }
    if HasId(t, id) {
      var i :| 0 <= i < |t| && t[i].id == id;
      assert t[i] in multiset(s);
      var j :| 0 <= j < |s| && s[j] == t[i];
    }
  }
}
