/**
 * The open list (`OpenList`): the frontier of the search, a vector of (key, row, column) entries
 * that the source keeps as a binary heap under `std::greater`, so that its front is the
 * lexicographically least entry.
 *
 * The model keeps the vector as a sequence and does not model the heap layout: the least entry
 * is found by `LeastIndex`, and "first" (for `UpdateKey`) means first in this sequence.
 */
module OpenLists {
  import opened Positions

  datatype Entry = Entry(key: real, pos: Pos)

  /** The order of `std::greater<>` on `std::tuple<double, int, int>`, reversed: by key, then row, then column. */
  predicate LexLess(a: Entry, b: Entry) {
    a.key < b.key || (a.key == b.key && RowMajorLess(a.pos, b.pos))
  }

  predicate LexLe(a: Entry, b: Entry) {
    a == b || LexLess(a, b)
  }

  /** The index of the first lexicographically least entry. */
  function LeastIndex(s: seq<Entry>): (i: nat)
    requires s != []
    ensures i < |s|
    ensures forall j :: 0 <= j < |s| ==> LexLe(s[i], s[j])
    ensures forall j :: 0 <= j < i ==> LexLess(s[i], s[j])
  {
    if |s| == 1 then 0
    else
      var k := LeastIndex(s[..|s| - 1]);
      if LexLe(s[k], s[|s| - 1]) then k else |s| - 1
  }

  /** The entry at `i` taken out, the others kept in order. */
  function RemoveAt(s: seq<Entry>, i: nat): (r: seq<Entry>)
    requires i < |s|
    ensures |r| == |s| - 1
    ensures forall j :: 0 <= j < i ==> r[j] == s[j]
    ensures forall j :: i <= j < |r| ==> r[j] == s[j + 1]
  {
    s[..i] + s[i + 1..]
  }

  /** Taking out the entry at `i` keeps every entry at another position, and adds none. */
  lemma RemoveAtMembers(s: seq<Entry>, i: nat)
    requires i < |s|
    ensures forall e :: e in RemoveAt(s, i) ==> e in s
    ensures forall e :: e in s && e.pos != s[i].pos ==> e in RemoveAt(s, i)
  {
    var r := RemoveAt(s, i);
    forall e | e in r ensures e in s {
      var j :| 0 <= j < |r| && r[j] == e;
      assert e == s[if j < i then j else j + 1];
    }
    forall e | e in s && e.pos != s[i].pos ensures e in r {
      var j :| 0 <= j < |s| && s[j] == e;
      assert e == r[if j < i then j else j - 1];
    }
  }

  /** Some entry refers to position `p`. */
  predicate Contains(s: seq<Entry>, p: Pos) {
    exists i :: 0 <= i < |s| && s[i].pos == p
  }

  /** The index of the first entry that refers to `p`. */
  function FirstAt(s: seq<Entry>, p: Pos): (i: nat)
    requires Contains(s, p)
    ensures i < |s| && s[i].pos == p
    ensures forall j :: 0 <= j < i ==> s[j].pos != p
  {
    if s[0].pos == p then 0
    else
      assert Contains(s[1..], p) by {
        var i :| 0 <= i < |s| && s[i].pos == p;
        assert s[1..][i - 1].pos == p;
      }
      1 + FirstAt(s[1..], p)
  }

  /** What `UpdateKey(k, p)` leaves: the first entry at `p` takes the key `k`; without one, nothing changes. */
  function Rekeyed(s: seq<Entry>, p: Pos, k: real): seq<Entry> {
    if Contains(s, p) then s[FirstAt(s, p) := Entry(k, p)] else s
  }

  /** The key `Remove` gives its victim so that it comes to the top. */
  const RemovalKey: real := -1.0

  /** What `Remove(p)` leaves: rekey the first entry at `p` to -1, then pop the least entry. */
  function Removed(s: seq<Entry>, p: Pos): seq<Entry>
    requires s != []
  {
    var t := Rekeyed(s, p, RemovalKey);
    RemoveAt(t, LeastIndex(t))
  }

  /** Every key lies above the removal key. */
  ghost predicate KeysAboveRemoval(s: seq<Entry>) {
    forall i :: 0 <= i < |s| ==> RemovalKey < s[i].key
  }

  /** With `p` present and every key above -1, `Remove(p)` deletes exactly the first entry at `p`. */
  lemma RemovedPresent(s: seq<Entry>, p: Pos)
    requires Contains(s, p) && KeysAboveRemoval(s)
    ensures s != [] && Removed(s, p) == RemoveAt(s, FirstAt(s, p))
  {
    var i := FirstAt(s, p);
    var t := Rekeyed(s, p, RemovalKey);
    assert t == s[i := Entry(RemovalKey, p)];
    assert LeastIndex(t) == i by {
      var m := LeastIndex(t);
      assert LexLe(t[m], t[i]);
    }
  }

  /** With `p` absent, `Remove(p)` pops the least entry instead. */
  lemma RemovedAbsent(s: seq<Entry>, p: Pos)
    requires s != [] && !Contains(s, p)
    ensures Removed(s, p) == RemoveAt(s, LeastIndex(s))
  {
  }

  /** Number of entries that refer to `p`. */
  function CountAt(s: seq<Entry>, p: Pos): nat {
    if s == [] then 0
    else CountAt(s[..|s| - 1], p) + (if s[|s| - 1].pos == p then 1 else 0)
  }

  lemma {:induction false} CountAtContains(s: seq<Entry>, p: Pos)
    ensures CountAt(s, p) > 0 <==> Contains(s, p)
  {
    if s != [] {
      var init := s[..|s| - 1];
      CountAtContains(init, p);
      if Contains(init, p) {
        var i :| 0 <= i < |init| && init[i].pos == p;
        assert s[i].pos == p;
      }
      if Contains(s, p) && s[|s| - 1].pos != p {
        var i :| 0 <= i < |s| && s[i].pos == p;
        assert init[i].pos == p;
      }
    }
  }

  lemma CountAtAppend(s: seq<Entry>, e: Entry, p: Pos)
    ensures CountAt(s + [e], p) == CountAt(s, p) + (if e.pos == p then 1 else 0)
  {
    assert (s + [e])[..|s|] == s;
  }

  lemma {:induction false} CountAtRemoveAt(s: seq<Entry>, i: nat, p: Pos)
    requires i < |s|
    ensures CountAt(RemoveAt(s, i), p) == CountAt(s, p) - (if s[i].pos == p then 1 else 0)
  {
    var r := RemoveAt(s, i);
    var init := s[..|s| - 1];
    if i == |s| - 1 {
      assert r == init;
    } else {
      CountAtRemoveAt(init, i, p);
      assert r[..|r| - 1] == RemoveAt(init, i);
      assert r[|r| - 1] == s[|s| - 1];
    }
  }

  class OpenList {
    var entries: seq<Entry>

    constructor ()
      ensures entries == []
    {
      entries := [];
    }

    /** `OpenList::Insert`: adds one entry, without looking for an existing entry at the same position. */
    method Insert(key: real, p: Pos)
      modifies this
      ensures entries == old(entries) + [Entry(key, p)]
    {
      entries := entries + [Entry(key, p)];
    }

    /** `OpenList::Top`: the least entry; the source reads the front of the vector, so the list
      * must not be empty. */
    function Top(): (e: Entry)
      reads this
      requires entries != []
      ensures e in entries
      ensures forall j :: 0 <= j < |entries| ==> LexLe(e, entries[j])
    {
      entries[LeastIndex(entries)]
    }

    /** `OpenList::Pop`: removes and returns the least entry (the first copy, if it occurs twice). */
    method Pop() returns (e: Entry)
      requires entries != []
      modifies this
      ensures e == old(Top())
      ensures entries == RemoveAt(old(entries), LeastIndex(old(entries)))
    {
      var i := LeastIndex(entries);
      e := entries[i];
      entries := RemoveAt(entries, i);
    }

    /** `OpenList::Find`: a linear scan for an entry at `p`. */
    method Find(p: Pos) returns (found: bool)
      ensures found <==> Contains(entries, p)
    {
      for i := 0 to |entries|
        invariant forall j :: 0 <= j < i ==> entries[j].pos != p
      {
        if entries[i].pos == p {
          return true;
        }
      }
      return false;
    }

    /** `OpenList::UpdateKey`: rewrites the key of the first entry at `p`; the source then rebuilds
      * the heap, which leaves the entries as they are. */
    method UpdateKey(key: real, p: Pos)
      modifies this
      ensures entries == Rekeyed(old(entries), p, key)
    {
      var i := 0;
      while i < |entries|
        invariant i <= |entries|
        invariant forall j :: 0 <= j < i ==> entries[j].pos != p
      {
        if entries[i].pos == p {
          assert FirstAt(entries, p) == i;
          entries := entries[i := Entry(key, p)];
          return;
        }
        i := i + 1;
      }
    }

    /** `OpenList::Remove`: gives the first entry at `p` the key -1 and pops the least entry; the
      * pop needs a non-empty list. */
    method Remove(p: Pos)
      requires entries != []
      modifies this
      ensures entries == Removed(old(entries), p)
    {
      UpdateKey(RemovalKey, p);
      var _ := Pop();
    }
  }

  /** The tops that the sequence of `test/OpenListTest.cpp` goes through. */
  lemma OpenListTestTops(a: Entry, b: Entry, c: Entry)
    requires a == Entry(0.7, Pos(3, 2)) && b == Entry(1.5, Pos(4, 5)) && c == Entry(0.5, Pos(6, 0))
    ensures LeastIndex([a, b, c]) == 2
    ensures RemoveAt([a, b, c], 2) == [a, b] && LeastIndex([a, b]) == 0
    ensures Rekeyed([a, b], Pos(3, 2), 3.3) == [Entry(3.3, Pos(3, 2)), b]
    ensures LeastIndex([Entry(3.3, Pos(3, 2)), b]) == 1
  {
    assert FirstAt([a, b], Pos(3, 2)) == 0;
  }

  /** The sequence of `test/OpenListTest.cpp`. */
  method OpenListTestSequence() returns (top1: Pos, popped: Pos, top2: Pos, top3: Pos, found1: bool, found2: bool)
    ensures top1 == Pos(6, 0) && popped == Pos(6, 0) && top2 == Pos(3, 2) && top3 == Pos(4, 5)
    ensures !found1 && found2
  {
    var a, b, c := Entry(0.7, Pos(3, 2)), Entry(1.5, Pos(4, 5)), Entry(0.5, Pos(6, 0));
    var a' := Entry(3.3, Pos(3, 2));
    OpenListTestTops(a, b, c);
    var list := new OpenList();
    list.Insert(0.7, Pos(3, 2));
    list.Insert(1.5, Pos(4, 5));
    list.Insert(0.5, Pos(6, 0));
    assert list.entries == [a, b, c];
    assert list.Top() == c;
    top1 := list.Top().pos;
    var e := list.Pop();
    popped := e.pos;
    assert list.entries == [a, b];
    assert list.Top() == a;
    top2 := list.Top().pos;
    list.UpdateKey(3.3, Pos(3, 2));
    assert list.entries == [a', b];
    assert list.Top() == b;
    top3 := list.Top().pos;
    assert top3 == b.pos;
    found1 := list.Find(Pos(6, 0));
    found2 := list.Find(Pos(3, 2));
    assert list.entries[0].pos == Pos(3, 2);
  }
}
