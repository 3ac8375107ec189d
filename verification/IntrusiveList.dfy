/**
 * The intrusive cyclic list of rust/src/list.rs: `ListLinks` nodes joined into a ring, a `List`
 * that points at the first of them, and the owning drop loop.
 *
 * Each `List` is proved to refine the sequence `items`. The pointer stores are those of the
 * source, in the source's order.
 */
module IntrusiveList {
  import opened Common

  /** The prev/next pair embedded in an item. Both are null exactly when the item is in no list. */
  class Links {
    var next: Links?
    var prev: Links?

    constructor ()
      ensures Unlinked()
    {
      next, prev := null, null;
    }

    ghost predicate Unlinked()
      reads this
    {
      next == null && prev == null
    }
  }

  ghost predicate Distinct(s: seq<Links>) {
    forall i, j :: 0 <= i < j < |s| ==> s[i] != s[j]
  }

  ghost predicate Disjoint(s: seq<Links>, t: seq<Links>) {
    forall i, j :: 0 <= i < |s| && 0 <= j < |t| ==> s[i] != t[j]
  }

  /** The element that follows, respectively precedes, index `i` in the cycle. */
  ghost function After(s: seq<Links>, i: int): Links
    requires 0 <= i < |s|
  {
    if i + 1 < |s| then s[i + 1] else s[0]
  }

  ghost function Before(s: seq<Links>, i: int): Links
    requires 0 <= i < |s|
  {
    if i > 0 then s[i - 1] else s[|s| - 1]
  }

  /** `s` lists, without repetition, a cycle whose next and prev pointers are inverse. */
  ghost predicate Ring(s: seq<Links>)
    reads s
  {
    && Distinct(s)
    && (forall i {:trigger s[i].next} :: 0 <= i < |s| ==> s[i].next == After(s, i))
    && (forall i {:trigger s[i].prev} :: 0 <= i < |s| ==> s[i].prev == Before(s, i))
  }

  ghost function IndexOf(s: seq<Links>, x: Links): (i: nat)
    requires x in s
    ensures i < |s| && s[i] == x
  {
    if s[0] == x then 0 else 1 + IndexOf(s[1..], x)
  }

  ghost function RemoveAt(s: seq<Links>, k: nat): seq<Links>
    requires k < |s|
  {
    s[..k] + s[k + 1..]
  }

  ghost function InsertAt(s: seq<Links>, k: nat, x: Links): seq<Links>
    requires k <= |s|
  {
    s[..k] + [x] + s[k..]
  }

  /** Where an element linked in front of `x` in the cycle appears: before the head means last. */
  ghost function RingPosition(s: seq<Links>, x: Links): (k: nat)
    requires x in s
    ensures k <= |s|
  {
    if s[0] == x then |s| else IndexOf(s, x)
  }

  /** A ring may be read from any of its elements: moving the last element to the front is a no-op. */
  lemma RotateRing(s: seq<Links>, x: Links)
    requires Ring(s + [x])
    ensures Ring([x] + s)
  {
    var was := s + [x];
    var now := [x] + s;
    forall i | 0 <= i < |now|
      ensures now[i].next == After(now, i) && now[i].prev == Before(now, i)
    {
      if i == 0 {
        assert was[|s|] == x && x.next == After(was, |s|) && x.prev == Before(was, |s|);
      } else {
        assert was[i - 1] == now[i];
        assert now[i].next == After(was, i - 1) && now[i].prev == Before(was, i - 1);
      }
    }
    forall i, j | 0 <= i < j < |now|
      ensures now[i] != now[j]
    {
      if i == 0 {
        assert was[j - 1] != was[|s|];
      } else {
        assert was[i - 1] != was[j - 1];
      }
    }
  }

  lemma IndexOfUnique(s: seq<Links>, k: nat)
    requires k < |s| && Distinct(s)
    ensures IndexOf(s, s[k]) == k
  {
    assert s[k] in s;
  }

  class List {
    var first: Links?
    ghost var items: seq<Links>

    ghost predicate Valid()
      reads this, items
    {
      Ring(items) && first == (if items == [] then null else items[0])
    }

    constructor ()
      ensures Valid() && items == []
    {
      first, items := null, [];
    }

    predicate IsEmpty()
      requires Valid()
      reads this, items
      ensures IsEmpty() <==> items == []
    {
      first == null
    }

    method InsertInner(item: Links, next: Links?) returns (r: Links)
      requires Valid() && item !in items
      requires next == null ==> items == []
      requires next != null ==> next in items
      modifies this, items, item
      ensures Valid() && r == item
      ensures items == if next == null then [item]
                       else InsertAt(old(items), RingPosition(old(items), next), item)
      ensures old(items) != [] ==> first == old(first)
    {
      if next == null {
        item.next := item;
        item.prev := item;
        first := item;
        items := [item];
      } else {
        ghost var k := IndexOf(items, next);
        var prev := next.prev;
        item.next := next;
        item.prev := prev;
        prev.next := item;
        next.prev := item;
        items := InsertAt(items, RingPosition(items, next), item);
        RingAfterInsert(old(items), k, item);
      }
      r := item;
    }

    /** The four stores of an insertion in front of `s[k]` give the ring with `x` spliced in. */
    static lemma RingAfterInsert(s: seq<Links>, k: nat, x: Links)
      requires k < |s| && x !in s && Distinct(s)
      requires x.next == s[k] && x.prev == Before(s, k)
      requires forall i {:trigger s[i].next} :: 0 <= i < |s| ==>
                 s[i].next == if s[i] == Before(s, k) then x else After(s, i)
      requires forall i {:trigger s[i].prev} :: 0 <= i < |s| ==>
                 s[i].prev == if i == k then x else Before(s, i)
      ensures Ring(InsertAt(s, if k == 0 then |s| else k, x))
    {
      var p := if k == 0 then |s| else k;
      var t := InsertAt(s, p, x);
      forall i | 0 <= i < |t|
        ensures t[i].next == After(t, i) && t[i].prev == Before(t, i)
      {
        if i != p {
          var j := if i < p then i else i - 1;
          assert t[i] == s[j];
        }
      }
    }

    method PushBack(item: Links)
      requires Valid() && item !in items
      modifies this, items, item
      ensures Valid() && items == old(items) + [item]
    {
      var _ := InsertInner(item, first);
    }

    method PushFront(item: Links)
      requires Valid() && item !in items
      modifies this, items, item
      ensures Valid() && items == [item] + old(items)
    {
      ghost var s := items;
      var newElem := InsertInner(item, first);
      assert items == s + [item];
      RotateRing(s, item);
      first := newElem;
      items := [item] + s;
    }

    method RemoveInternalInner(item: Links, next: Links, prev: Links)
      requires Valid() && item in items && item.next == next && item.prev == prev
      modifies this, items
      ensures Valid() && item.Unlinked()
      ensures items == RemoveAt(old(items), IndexOf(old(items), item))
    {
      ghost var k := IndexOf(items, item);
      assert next == After(items, k) && prev == Before(items, k);
      next.prev := prev;
      prev.next := next;
      item.prev := null;
      item.next := null;
      if first == item {
        first := prev.next;
      }
      items := RemoveAt(items, k);
      RingAfterRemove(old(items), k);
    }

    /** The four stores of a removal leave the ring without `s[k]`, for one, two or more elements. */
    static lemma RingAfterRemove(s: seq<Links>, k: nat)
      requires k < |s| && Distinct(s)
      requires forall i {:trigger s[i].next} :: 0 <= i < |s| && i != k ==>
                 s[i].next == if s[i] == Before(s, k) then After(s, k) else After(s, i)
      requires forall i {:trigger s[i].prev} :: 0 <= i < |s| && i != k ==>
                 s[i].prev == if s[i] == After(s, k) then Before(s, k) else Before(s, i)
      ensures Ring(RemoveAt(s, k))
    {
      var t := RemoveAt(s, k);
      forall i | 0 <= i < |t|
        ensures t[i].next == After(t, i) && t[i].prev == Before(t, i)
      {
        var j := if i < k then i else i + 1;
        assert t[i] == s[j];
      }
    }

    method RemoveInternal(item: Links)
      requires Valid() && item in items
      modifies this, items
      ensures Valid() && item.Unlinked()
      ensures items == RemoveAt(old(items), IndexOf(old(items), item))
    {
      assert item == items[IndexOf(items, item)];
      RemoveInternalInner(item, item.next, item.prev);
    }

    method PopBack() returns (r: Option<Links>)
      requires Valid()
      modifies this, items
      ensures Valid()
      ensures r.None? <==> old(items) == []
      ensures r.None? ==> items == []
      ensures r.Some? ==> r.value.Unlinked() && old(items) == items + [r.value]
    {
      if first == null {
        return None;
      }
      var last := first.prev;
      ghost var s := items;
      assert last == s[|s| - 1];
      IndexOfUnique(s, |s| - 1);
      RemoveInternal(last);
      r := Some(last);
    }

    method PopFront() returns (r: Option<Links>)
      requires Valid()
      modifies this, items
      ensures Valid()
      ensures r.None? <==> old(items) == []
      ensures r.None? ==> items == []
      ensures r.Some? ==> r.value.Unlinked() && old(items) == [r.value] + items
    {
      if first == null {
        return None;
      }
      var item := first;
      RemoveInternal(item);
      r := Some(item);
    }

    /** `item` must not be in a different list, so it is in this one or unlinked. */
    method Remove(item: Links) returns (r: Option<Links>)
      requires Valid() && (item in items || item.Unlinked())
      modifies this, items
      ensures Valid()
      ensures r == if item in old(items) then Some(item) else None
      ensures items == if item in old(items) then RemoveAt(old(items), IndexOf(old(items), item))
                       else old(items)
      ensures item in old(items) ==> item.Unlinked()
      ensures item !in old(items) ==> unchanged(this) && unchanged(items)
    {
      var next, prev := item.next, item.prev;
      if next != null {
        assert item in items && item == items[IndexOf(items, item)];
        var it := next.prev;
        assert it == item;
        RemoveInternalInner(it, next, prev);
        r := Some(it);
      } else {
        assert forall i :: 0 <= i < |items| ==> items[i].next != null;
        r := None;
      }
    }

    method PushAllBack(other: List)
      requires Valid() && other.Valid() && other != this
      requires Disjoint(items, other.items)
      modifies this, items, other, other.items
      ensures Valid() && other.Valid()
      ensures items == old(items) + old(other.items) && other.items == []
    {
      ghost var s, t := items, other.items;
      if IsEmpty() {
        assert s + t == t;
        first := other.first;
      } else if !other.IsEmpty() {
        Splice(other.first, t);
      } else {
        assert s + t == s;
      }
      items := s + t;
      other.first := null;
      other.items := [];
    }

    /** The four stores of push_all_back that tie the ends of two non-empty rings together. */
    method Splice(otherFirst: Links, ghost t: seq<Links>)
      requires Valid() && items != [] && Ring(t) && t != [] && otherFirst == t[0] && Disjoint(items, t)
      modifies items, t
      ensures Ring(items + t)
    {
      ghost var s := items;
      var otherLast := otherFirst.prev;
      var selfFirst := first;
      var selfLast := selfFirst.prev;
      selfFirst.prev := otherLast;
      otherLast.next := selfFirst;
      selfLast.next := otherFirst;
      otherFirst.prev := selfLast;
      HalfIsSpliced(s, t);
      HalfIsSpliced(t, s);
      RingAfterSplice(s, t);
    }

    /** `s` is a chain whose ends are tied to those of `t`. */
    static ghost predicate HalfSpliced(s: seq<Links>, t: seq<Links>)
      requires s != [] && t != []
      reads s
    {
      && (forall i {:trigger s[i].next} :: 0 <= i < |s| ==> s[i].next == if i + 1 < |s| then s[i + 1] else t[0])
      && (forall i {:trigger s[i].prev} :: 0 <= i < |s| ==> s[i].prev == if i > 0 then s[i - 1] else t[|t| - 1])
    }

    /** Storing the new neighbours at the two ends of a ring makes it such a chain. */
    static lemma HalfIsSpliced(s: seq<Links>, t: seq<Links>)
      requires s != [] && t != [] && Distinct(s)
      requires forall i {:trigger s[i].next} :: 0 <= i < |s| ==>
                 s[i].next == if s[i] == s[|s| - 1] then t[0] else After(s, i)
      requires forall i {:trigger s[i].prev} :: 0 <= i < |s| ==>
                 s[i].prev == if s[i] == s[0] then t[|t| - 1] else Before(s, i)
      ensures HalfSpliced(s, t)
    {
    }

    static lemma RingAfterSplice(s: seq<Links>, t: seq<Links>)
      requires Distinct(s) && Distinct(t) && Disjoint(s, t)
      requires s != [] && t != [] && HalfSpliced(s, t) && HalfSpliced(t, s)
      ensures Ring(s + t)
    {
      var u := s + t;
      forall i | 0 <= i < |u|
        ensures u[i].next == After(u, i) && u[i].prev == Before(u, i)
      {
        if i < |s| {
          assert u[i] == s[i];
        } else {
          assert u[i] == t[i - |s|];
        }
      }
    }

    /** `Drop for List`: every item is handed to its destructor once, front to back, and unlinked. */
    method DropAll() returns (dropped: seq<Links>)
      requires Valid()
      modifies this, items
      ensures Valid() && items == [] && first == null
      ensures dropped == old(items)
      ensures forall x :: x in dropped ==> x.Unlinked()
    {
      dropped := [];
      ghost var s, k: nat := items, 0;
      while true
        invariant Valid() && k <= |s| && dropped == s[..k] && items == s[k..]
        invariant forall i :: 0 <= i < k ==> s[i].Unlinked()
        decreases |s| - k
      {
        DistinctTail(s, k);
        var r := PopFront();
        if r.None? {
          break;
        }
        assert r.value == s[k..][0] && items == s[k..][1..] == s[k + 1..];
        dropped, k := dropped + [r.value], k + 1;
      }
    }

    static lemma DistinctTail(s: seq<Links>, k: nat)
      requires Distinct(s) && k <= |s|
      ensures forall i :: 0 <= i < k ==> s[i] !in s[k..]
      ensures forall x :: x in s[k..] ==> x in s
    {
    }
  }
}
