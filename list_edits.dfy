/**
 * The edits of the list outside dragging: the startup sweep of expired completed entries, delete
 * by id, toggle "checked" by id and append of a new entry. The clock is a parameter: `now` is the
 * current time in epoch milliseconds and `utcOffset` the local time zone's offset from UTC in
 * milliseconds, so that local time is `t + utcOffset`.
 */
module ListEdits {
  import opened ArrayOps
  import opened TodoItem

  /** Milliseconds in a day. */
  const DayMs: int := 86_400_000

  /** The local calendar day (days since the epoch, in local time) that the instant `t` falls on. */
  function LocalDay(t: int, utcOffset: int): int {
    (t + utcOffset) / DayMs
  }

  /**
   * `new Date().setHours(0, 0, 0, 0)`: local midnight at the start of the day `now` falls on.
   */
  function StartOfToday(now: int, utcOffset: int): (r: int)
    ensures r <= now < r + DayMs
    ensures (r + utcOffset) % DayMs == 0
    ensures LocalDay(r, utcOffset) == LocalDay(now, utcOffset)
  {
    now - (now + utcOffset) % DayMs
  }

  /** `checkExpired`: the entry was created on an earlier local day than `now`. */
  predicate IsExpired(date: int, now: int, utcOffset: int)
    ensures IsExpired(date, now, utcOffset) <==> LocalDay(date, utcOffset) < LocalDay(now, utcOffset)
  {
    date < StartOfToday(now, utcOffset)
  }

  /** The sweep keeps an entry unless it is both expired and checked. */
  predicate SurvivesSweep(x: Item, now: int, utcOffset: int)
    ensures !x.checked ==> SurvivesSweep(x, now, utcOffset)
    ensures LocalDay(x.date, utcOffset) >= LocalDay(now, utcOffset) ==> SurvivesSweep(x, now, utcOffset)
    ensures !SurvivesSweep(x, now, utcOffset) ==> x.checked && LocalDay(x.date, utcOffset) < LocalDay(now, utcOffset)
  {
    !(IsExpired(x.date, now, utcOffset) && x.checked)
  }

  /** The startup sweep: `filter` with the survival test. */
  function Sweep(s: seq<Item>, now: int, utcOffset: int): (r: seq<Item>)
    ensures forall k :: 0 <= k < |r| ==> r[k] in s && SurvivesSweep(r[k], now, utcOffset)
    ensures forall k :: 0 <= k < |s| && SurvivesSweep(s[k], now, utcOffset) ==> s[k] in r
  {
    Filter(s, x => SurvivesSweep(x, now, utcOffset))
  }

  /** The sweep keeps, in their original order, exactly the surviving entries. */
  lemma SweepOrder(a: seq<Item>, b: seq<Item>, x: Item, now: int, utcOffset: int)
    ensures Sweep(a + b, now, utcOffset) == Sweep(a, now, utcOffset) + Sweep(b, now, utcOffset)
    ensures Sweep([x], now, utcOffset) == if SurvivesSweep(x, now, utcOffset) then [x] else []
  {
    FilterAppend(a, b, x => SurvivesSweep(x, now, utcOffset));
  }

  /** A surviving entry is kept as often as it occurs; an expired checked one not at all. */
  lemma SweepCount(s: seq<Item>, now: int, utcOffset: int, x: Item)
    ensures multiset(Sweep(s, now, utcOffset))[x] ==
      if SurvivesSweep(x, now, utcOffset) then multiset(s)[x] else 0
  {
    FilterCount(s, y => SurvivesSweep(y, now, utcOffset), x);
  }

  /** Sweeping twice with the same start of day is the same as sweeping once. */
  lemma SweepIdempotent(s: seq<Item>, now: int, utcOffset: int)
    ensures Sweep(Sweep(s, now, utcOffset), now, utcOffset) == Sweep(s, now, utcOffset)
  {
    FilterIdempotent(s, x => SurvivesSweep(x, now, utcOffset));
  }

  /** Of a checked entry from yesterday, an unchecked one from yesterday and a checked one from today, only the first goes. */
  lemma SweepScenario(a: Item, b: Item, c: Item, now: int, utcOffset: int)
    requires a.checked && LocalDay(a.date, utcOffset) < LocalDay(now, utcOffset)
    requires !b.checked && LocalDay(b.date, utcOffset) < LocalDay(now, utcOffset)
    requires c.checked && LocalDay(c.date, utcOffset) == LocalDay(now, utcOffset)
    ensures Sweep([a, b, c], now, utcOffset) == [b, c]
  {
    var p := x => SurvivesSweep(x, now, utcOffset);
    assert [a, b, c][1..] == [b, c] && [b, c][1..] == [c] && [c][1..] == [];
    assert Filter([c], p) == [c];
    assert Filter([b, c], p) == [b, c];
    assert Filter([a, b, c], p) == [b, c];
  }

  /** Filtering a list with unique ids keeps them unique. */
  lemma {:induction false} FilterKeepsUnique(s: seq<Item>, p: Item -> bool)
    requires UniqueIds(s)
    ensures UniqueIds(Filter(s, p))
  {
    if s != [] {
      var t := s[1..];
      assert UniqueIds(t) by {
        forall i, j | 0 <= i < j < |t| ensures t[i].id != t[j].id {
          assert t[i] == s[i + 1] && t[j] == s[j + 1];
        }
      }
      FilterKeepsUnique(t, p);
      var f := Filter(t, p);
      forall k | 0 <= k < |f| ensures f[k].id != s[0].id {
        var j :| 0 <= j < |t| && t[j] == f[k];
        assert t[j] == s[j + 1];
      }
    }
  }

  /** The sweep keeps ids unique. */
  lemma SweepKeepsUnique(s: seq<Item>, now: int, utcOffset: int)
    requires UniqueIds(s)
    ensures UniqueIds(Sweep(s, now, utcOffset))
  {
    FilterKeepsUnique(s, x => SurvivesSweep(x, now, utcOffset));
  }

  /** `onDelete`: `filter` out every entry carrying `id`. */
  function Delete(s: seq<Item>, id: string): (r: seq<Item>)
    ensures !HasId(r, id)
    ensures forall k :: 0 <= k < |r| ==> r[k] in s
    ensures forall k :: 0 <= k < |s| && s[k].id != id ==> s[k] in r
  {
    Filter(s, (x: Item) => x.id != id)
  }

  /** Delete keeps ids unique. */
  lemma DeleteKeepsUnique(s: seq<Item>, id: string)
    requires UniqueIds(s)
    ensures UniqueIds(Delete(s, id))
  {
    FilterKeepsUnique(s, (x: Item) => x.id != id);
  }

  /** Delete keeps the other entries in their original order. */
  lemma DeleteOrder(a: seq<Item>, b: seq<Item>, x: Item, id: string)
    ensures Delete(a + b, id) == Delete(a, id) + Delete(b, id)
    ensures Delete([x], id) == if x.id != id then [x] else []
  {
    FilterAppend(a, b, (x: Item) => x.id != id);
  }

  /** Delete drops every copy of the entries with `id` and keeps every copy of the others. */
  lemma DeleteCount(s: seq<Item>, id: string, x: Item)
    ensures multiset(Delete(s, id))[x] == if x.id != id then multiset(s)[x] else 0
  {
    FilterCount(s, (y: Item) => y.id != id, x);
  }

  /** In a list with unique ids, deleting an id removes exactly the one entry `find` locates. */
  lemma DeleteIsRemoveAt(s: seq<Item>, id: string)
    requires UniqueIds(s) && HasId(s, id)
    ensures Delete(s, id) == RemoveAt(s, Find(s, id).index)
  {
    var k := Find(s, id).index;
    var pre, post := s[..k], s[k + 1..];
    assert s == pre + ([s[k]] + post);
    forall j | 0 <= j < |pre| ensures pre[j].id != id {
    }
    forall j | 0 <= j < |post| ensures post[j].id != id {
      assert post[j] == s[k + 1 + j];
    }
    DeleteOrder(pre, [s[k]] + post, s[k], id);
    DeleteOrder([s[k]], post, s[k], id);
    FilterAll(pre, (x: Item) => x.id != id);
    FilterAll(post, (x: Item) => x.id != id);
    assert Delete(s, id) == pre + post;
  }

  /** Deleting an id no entry carries changes nothing. */
  lemma DeleteAbsent(s: seq<Item>, id: string)
    requires !HasId(s, id)
    ensures Delete(s, id) == s
  {
    FilterAll(s, (x: Item) => x.id != id);
  }

  /**
   * The toggled list: the first entry carrying `id` has `checked` flipped; nothing else changes.
   */
  function Toggled(s: seq<Item>, id: string): (r: seq<Item>)
    ensures |r| == |s|
    ensures forall i :: 0 <= i < |s| && i != FindIndex(s, id) ==> r[i] == s[i]
    ensures HasId(s, id) ==>
      var k := FindIndex(s, id);
      r[k].checked == !s[k].checked && r[k].(checked := s[k].checked) == s[k]
  {
    if s == [] then []
    else if s[0].id == id then [s[0].(checked := !s[0].checked)] + s[1..]
    else [s[0]] + Toggled(s[1..], id)
  }

  /**
   * `onChangeStats`: copy the list, find the index of `id`, and store there a copy of the entry
   * with `checked` flipped. `newStatus` is the new value of `checked`, the signal on which the
   * source fires its celebration.
   */
  method ToggleChecked(s: seq<Item>, id: string) returns (r: seq<Item>, newStatus: bool)
    requires HasId(s, id)
    ensures r == Toggled(s, id)
    ensures newStatus == !s[FindIndex(s, id)].checked && r[FindIndex(s, id)].checked == newStatus
  {
    var a := new Item[|s|](i requires 0 <= i < |s| => s[i]);
    var index := FindIndex(s, id);
    newStatus := !a[index].checked;
    a[index] := a[index].(checked := newStatus);
    r := a[..];
    ghost var t := Toggled(s, id);
    assert |r| == |t|;
    forall i | 0 <= i < |r| ensures r[i] == t[i] {
    }
  }

  /** Toggling the same id twice restores the list. */
  lemma {:induction false} ToggleTwice(s: seq<Item>, id: string)
    ensures Toggled(Toggled(s, id), id) == s
  {
    var t := Toggled(s, id);
    if HasId(s, id) {
      var k := FindIndex(s, id);
      assert t[k].id == id;
      assert forall j :: 0 <= j < k ==> t[j].id != id;
      assert FindIndex(t, id) == k;
      var u := Toggled(t, id);
      assert |u| == |s|;
      forall i | 0 <= i < |s| ensures u[i] == s[i] {
        if i == k {
          assert t[k].(checked := s[k].checked) == s[k];
          assert u[k].(checked := t[k].checked) == t[k];
        }
      }
    } else {
      assert forall j :: 0 <= j < |t| ==> t[j] == s[j];
      assert t == s;
    }
  }

  /** Toggling keeps every id where it was, so unique ids stay unique. */
  lemma {:induction false} ToggleKeepsIds(s: seq<Item>, id: string)
    requires UniqueIds(s)
    ensures UniqueIds(Toggled(s, id))
    ensures forall i :: 0 <= i < |s| ==> Toggled(s, id)[i].id == s[i].id
  {
    var t := Toggled(s, id);
    forall i | 0 <= i < |s| ensures t[i].id == s[i].id {
      if HasId(s, id) && i == FindIndex(s, id) {
        assert t[i].(checked := s[i].checked) == s[i];
      }
    }
  }

  /**
   * `onAdd`: an empty input is ignored; otherwise a new unchecked entry created at `now` with id
   * `newId` is appended at the end.
   */
  function Add(s: seq<Item>, value: string, now: int, newId: string): (r: seq<Item>)
    ensures value == "" ==> r == s
    ensures value != "" ==> |r| == |s| + 1 && r[..|s|] == s
    ensures value != "" ==> r[|s|] == Item(value, false, now, newId)
  {
    if value == "" then s else s + [Item(value, false, now, newId)]
  }

  /** Adding an entry under a fresh id and deleting that id gives back the list. */
  lemma AddThenDelete(s: seq<Item>, value: string, now: int, newId: string)
    requires !HasId(s, newId)
    ensures Delete(Add(s, value, now, newId), newId) == s
  {
    if value != "" {
      DeleteOrder(s, [Item(value, false, now, newId)], Item(value, false, now, newId), newId);
    }
    DeleteAbsent(s, newId);
  }

  /** Adding under a fresh id keeps ids unique. */
  lemma AddKeepsUnique(s: seq<Item>, value: string, now: int, newId: string)
    requires UniqueIds(s) && !HasId(s, newId)
    ensures UniqueIds(Add(s, value, now, newId))
  {
  }
}
