/**
 * The borrowing iterator and the cursor of rust/src/list.rs.
 *
 * A cursor rests between two elements. It is proved to refine the pair (elements before it,
 * elements after it), on rings of every length including the empty one.
 */
module ListCursor {
  import opened Common
  import opened IntrusiveList

  class Iter {
    const list: List
    var current: Links?
    var stop: Links?
    /** How many elements have been yielded. */
    ghost var pos: nat

    ghost predicate Valid()
      reads this, list, list.items
    {
      && list.Valid() && stop == list.first && pos <= |list.items|
      && current == (if pos < |list.items| then list.items[pos] else null)
    }

    constructor (list: List)
      requires list.Valid()
      ensures Valid() && this.list == list && pos == 0
    {
      this.list, current, stop, pos := list, list.first, list.first, 0;
    }

    method Next() returns (r: Option<Links>)
      requires Valid()
      modifies this
      ensures Valid()
      ensures old(pos) < |list.items| ==> r == Some(list.items[old(pos)]) && pos == old(pos) + 1
      ensures old(pos) == |list.items| ==> r == None && pos == old(pos)
    {
      if current == null {
        return None;
      }
      var cur := current;
      assert cur == list.items[pos];
      var next := cur.next;
      assert pos + 1 < |list.items| ==> next != list.items[0];
      current := if next != stop then next else null;
      pos := pos + 1;
      r := Some(cur);
    }
  }

  /** Running the iterator to exhaustion yields the list's elements once each, in order, and stops. */
  method Collect(list: List) returns (out: seq<Links>)
    requires list.Valid()
    ensures out == list.items
  {
    var it := new Iter(list);
    out := [];
    while true
      invariant it.Valid() && it.list == list && out == list.items[..it.pos]
      decreases |list.items| - it.pos
    {
      var r := it.Next();
      if r.None? {
        break;
      }
      out := out + [r.value];
    }
  }

  /** What is left and right of a removed element. */
  lemma RemovedParts(s: seq<Links>, k: nat)
    requires k < |s|
    ensures var t := RemoveAt(s, k);
            && |t| == |s| - 1 && t[..k] == s[..k] == s[..k + 1][..k]
            && t[k..] == s[k + 1..] == s[k..][1..]
  {
  }

  class Cursor {
    const list: List
    /** The element after the cursor, or null when the cursor is after the last element. */
    var next: Links?
    ghost var pos: nat

    ghost predicate Valid()
      reads this, list, list.items
    {
      && list.Valid() && pos <= |list.items|
      && next == (if pos < |list.items| then list.items[pos] else null)
    }

    ghost function Left(): seq<Links>
      reads this, list, list.items
      requires Valid()
    {
      list.items[..pos]
    }

    ghost function Right(): seq<Links>
      reads this, list, list.items
      requires Valid()
    {
      list.items[pos..]
    }

    constructor Front(list: List)
      requires list.Valid()
      ensures Valid() && this.list == list && Left() == [] && Right() == list.items
    {
      this.list, next, pos := list, list.first, 0;
    }

    constructor Back(list: List)
      requires list.Valid()
      ensures Valid() && this.list == list && Left() == list.items && Right() == []
    {
      this.list, next, pos := list, null, |list.items|;
    }

    method PrevPtr() returns (r: Links?)
      requires Valid()
      ensures r == if Left() == [] then null else Left()[|Left()| - 1]
    {
      var n := next;
      var first := list.first;
      if n == first {
        return null;
      }
      if n == null {
        n := first;
      }
      assert n == list.items[if pos < |list.items| then pos else 0];
      r := n.prev;
    }

    method PeekNext() returns (r: Links?)
      requires Valid()
      ensures r == if Right() == [] then null else Right()[0]
    {
      r := next;
    }

    method PeekPrev() returns (r: Links?)
      requires Valid()
      ensures r == if Left() == [] then null else Left()[|Left()| - 1]
    {
      r := PrevPtr();
    }

    method MoveNext() returns (moved: bool)
      requires Valid()
      modifies this
      ensures Valid() && moved == (old(Right()) != [])
      ensures moved ==> Left() == old(Left()) + [old(Right())[0]] && Right() == old(Right())[1..]
      ensures !moved ==> Left() == old(Left()) && Right() == old(Right())
    {
      if next == null {
        return false;
      }
      assert next == list.items[pos];
      var n := next.next;
      assert pos + 1 < |list.items| ==> n != list.items[0];
      if n == list.first {
        n := null;
      }
      next, pos := n, pos + 1;
      moved := true;
    }

    method MovePrev() returns (moved: bool)
      requires Valid()
      modifies this
      ensures Valid() && moved == (old(Left()) != [])
      ensures moved ==> Left() == old(Left())[..|old(Left())| - 1]
                        && Right() == [old(Left())[|old(Left())| - 1]] + old(Right())
      ensures !moved ==> Left() == old(Left()) && Right() == old(Right())
    {
      if next == list.first {
        return false;
      }
      var p := PrevPtr();
      ghost var left, right := Left(), Right();
      assert left != [] && p == left[|left| - 1];
      next, pos := p, pos - 1;
      assert Left() == left[..|left| - 1] && Right() == [left[|left| - 1]] + right;
      moved := true;
    }

    /** Splices `item` in at the cursor; the caller then decides on which side of it to rest. */
    method InsertInner(item: Links) returns (r: Links)
      requires Valid() && item !in list.items
      modifies list, list.items, item
      ensures list.Valid() && r == item
      ensures list.items == InsertAt(old(list.items), pos, item)
    {
      ghost var s := list.items;
      var ptr := if next == null then list.first else next;
      if pos < |s| {
        IndexOfUnique(s, pos);
      }
      r := list.InsertInner(item, ptr);
      if next == list.first {
        assert list.items == s + [item];
        RotateRing(s, item);
        list.first, list.items := r, [item] + s;
      }
    }

    method InsertNext(item: Links)
      requires Valid() && item !in list.items
      modifies this, list, list.items, item
      ensures Valid() && Left() == old(Left()) && Right() == [item] + old(Right())
    {
      var n := InsertInner(item);
      next := n;
    }

    method InsertPrev(item: Links)
      requires Valid() && item !in list.items
      modifies this, list, list.items, item
      ensures Valid() && Left() == old(Left()) + [item] && Right() == old(Right())
    {
      var _ := InsertInner(item);
      pos := pos + 1;
    }

    /** `CursorPeek::remove`; `isNext` says which neighbour `ptr` is. */
    method RemovePeeked(ptr: Links, isNext: bool)
      requires Valid()
      requires isNext ==> Right() != [] && ptr == Right()[0]
      requires !isNext ==> Left() != [] && ptr == Left()[|Left()| - 1]
      modifies this, list, list.items
      ensures Valid() && ptr.Unlinked()
      ensures isNext ==> Left() == old(Left()) && Right() == old(Right())[1..]
      ensures !isNext ==> Left() == old(Left())[..|old(Left())| - 1] && Right() == old(Right())
    {
      ghost var k := if isNext then pos else pos - 1;
      IndexOfUnique(list.items, k);
      RemovedParts(list.items, k);
      if isNext {
        var _ := MoveNext();
      }
      list.RemoveInternal(ptr);
      pos := k;
    }

    method RemoveNext() returns (r: Option<Links>)
      requires Valid()
      modifies this, list, list.items
      ensures Valid() && Left() == old(Left())
      ensures old(Right()) == [] ==> r == None && Right() == []
      ensures old(Right()) != [] ==> r == Some(old(Right())[0]) && Right() == old(Right())[1..]
      ensures r.Some? ==> r.value.Unlinked()
    {
      var p := PeekNext();
      if p == null {
        return None;
      }
      RemovePeeked(p, true);
      r := Some(p);
    }

    method RemovePrev() returns (r: Option<Links>)
      requires Valid()
      modifies this, list, list.items
      ensures Valid() && Right() == old(Right())
      ensures old(Left()) == [] ==> r == None && Left() == []
      ensures old(Left()) != [] ==> r == Some(old(Left())[|old(Left())| - 1])
                                    && Left() == old(Left())[..|old(Left())| - 1]
      ensures r.Some? ==> r.value.Unlinked()
    {
      var p := PeekPrev();
      if p == null {
        return None;
      }
      RemovePeeked(p, false);
      r := Some(p);
    }
  }
}
