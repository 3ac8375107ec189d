/**
 * `RBTree` as a class: the loops and in-place updates of rust/src/rbtree.rs, each proved against
 * the finite map `Map()` from keys to (node, value).
 */
module RbTreeMap {
  import opened Common
  import opened RbTree

  datatype RawEntry = Occupied(addr: Addr) | Vacant(parent: Option<Addr>, slot: Slot)

  /** At a node reached by a descent, its subtrees are separated by its key. */
  lemma DescendSorted<V>(slot: Slot, l: Tree, a: Addr, r: Tree, mem: Memory<V>)
    requires Sorted(InOrder(Plug(slot, Node(l, a, r))), mem)
    ensures a in mem && a in InOrder(Plug(slot, Node(l, a, r)))
    ensures Below(InOrder(l), mem, mem[a].key) && Above(InOrder(r), mem, mem[a].key)
    ensures Below(LeftOf(slot), mem, mem[a].key) && Above(RightOf(slot), mem, mem[a].key)
  {
    PlugInOrder(slot, Node(l, a, r));
    Regroup(LeftOf(slot), InOrder(l), [a], InOrder(r), RightOf(slot));
    NodeBetween(LeftOf(slot), InOrder(l), a, InOrder(r), RightOf(slot), mem);
  }

  lemma NodeBetween<V>(p: seq<Addr>, l: seq<Addr>, a: Addr, r: seq<Addr>, q: seq<Addr>, mem: Memory<V>)
    requires Sorted(p + (l + [a] + r) + q, mem)
    ensures a in mem && a in p + (l + [a] + r) + q
    ensures Below(p, mem, mem[a].key) && Below(l, mem, mem[a].key)
    ensures Above(r, mem, mem[a].key) && Above(q, mem, mem[a].key)
  {
    assert p + (l + [a] + r) + q == (p + l) + [a] + (r + q);
    SortedSplit(p + l, a, r + q, mem);
    BoundsConcat(p, l, mem, mem[a].key);
    BoundsConcat(r, q, mem, mem[a].key);
  }

  lemma BoundsConcat<V>(s: seq<Addr>, t: seq<Addr>, mem: Memory<V>, k: int)
    ensures Below(s + t, mem, k) <==> Below(s, mem, k) && Below(t, mem, k)
    ensures Above(s + t, mem, k) <==> Above(s, mem, k) && Above(t, mem, k)
  {
    assert forall i :: 0 <= i < |s| ==> s[i] == (s + t)[i];
    assert forall i :: 0 <= i < |t| ==> t[i] == (s + t)[|s| + i];
  }

  /** A descent that moves left or right keeps the nodes outside the subtree on their sides of `key`. */
  lemma DescendBounds<V>(slot: Slot, l: Tree, a: Addr, r: Tree, mem: Memory<V>, key: int)
    requires Sorted(InOrder(Plug(slot, Node(l, a, r))), mem)
    requires Below(LeftOf(slot), mem, key) && Above(RightOf(slot), mem, key)
    ensures a in mem
    ensures key < mem[a].key ==> Above(RightOf(LeftField(slot, a, r)), mem, key)
    ensures key > mem[a].key ==> Below(LeftOf(RightField(l, a, slot)), mem, key)
  {
    DescendSorted(slot, l, a, r, mem);
  }

  /** An empty subtree reached by a descent proves that the key is absent. */
  lemma NotFound<V>(slot: Slot, mem: Memory<V>, key: int)
    requires Sorted(InOrder(Plug(slot, Nil)), mem)
    requires Below(LeftOf(slot), mem, key) && Above(RightOf(slot), mem, key)
    ensures key !in View(InOrder(Plug(slot, Nil)), mem)
  {
    PlugInOrder(slot, Nil);
    var s := InOrder(Plug(slot, Nil));
    assert s == LeftOf(slot) + RightOf(slot);
    ViewContents(s, mem);
  }

  lemma Found<V>(s: seq<Addr>, mem: Memory<V>, a: Addr)
    requires Sorted(s, mem) && a in s
    ensures mem[a].key in View(s, mem) && View(s, mem)[mem[a].key] == Entry(a, mem[a].value)
  {
    ViewContents(s, mem);
  }

  class RBTree<V> {
    var root: Tree
    var mem: Memory<V>

    ghost predicate Valid()
      reads this
    {
      Sorted(InOrder(root), mem)
    }

    ghost function Map(): map<int, Entry<V>>
      reads this
      requires Valid()
    {
      View(InOrder(root), mem)
    }

    constructor ()
      ensures Valid() && Map() == map[]
    {
      root, mem := Nil, map[];
    }

    /** The insertion search. A vacant result is an empty child field where `key` keeps the order. */
    method FindEntry(key: int) returns (e: RawEntry)
      requires Valid()
      ensures e.Occupied? ==> e.addr in InOrder(root) && key in Map() && Map()[key].addr == e.addr
                              && mem[e.addr].key == key
      ensures e.Vacant? ==> key !in Map() && Plug(e.slot, Nil) == root && e.parent == ParentOf(e.slot)
                            && Below(LeftOf(e.slot), mem, key) && Above(RightOf(e.slot), mem, key)
    {
      var parent, slot, curr := None, RootField, root;
      while curr.Node?
        invariant Plug(slot, curr) == root && parent == ParentOf(slot)
        invariant Below(LeftOf(slot), mem, key) && Above(RightOf(slot), mem, key)
        decreases curr
      {
        var Node(l, a, r) := curr;
        DescendSorted(slot, l, a, r, mem);
        DescendBounds(slot, l, a, r, mem, key);
        if key < mem[a].key {
          slot, curr := LeftField(slot, a, r), l;
        } else if key > mem[a].key {
          slot, curr := RightField(l, a, slot), r;
        } else {
          Found(InOrder(root), mem, a);
          return Occupied(a);
        }
        parent := Some(a);
      }
      NotFound(slot, mem, key);
      e := Vacant(parent, slot);
    }

    /** The separate search loop of `get`; it agrees with the map, hence with `FindEntry`. */
    method Get(key: int) returns (r: Option<V>)
      requires Valid()
      ensures r == if key in Map() then Some(Map()[key].value) else None
    {
      var node := root;
      ghost var slot := RootField;
      while node.Node?
        invariant Plug(slot, node) == root
        invariant Below(LeftOf(slot), mem, key) && Above(RightOf(slot), mem, key)
        decreases node
      {
        var Node(l, a, r) := node;
        DescendSorted(slot, l, a, r, mem);
        DescendBounds(slot, l, a, r, mem, key);
        if key < mem[a].key {
          slot, node := LeftField(slot, a, r), l;
        } else if key > mem[a].key {
          slot, node := RightField(l, a, slot), r;
        } else {
          Found(InOrder(root), mem, a);
          return Some(mem[a].value);
        }
      }
      NotFound(slot, mem, key);
      r := None;
    }

    /** `RawVacantEntry::insert`: rb_link_node into the empty field, then rb_insert_color. */
    method LinkAt(slot: Slot, node: Addr, rebalance: Tree -> Tree)
      requires Valid() && Plug(slot, Nil) == root && node in mem && Rebalances(rebalance)
      requires Below(LeftOf(slot), mem, mem[node].key) && Above(RightOf(slot), mem, mem[node].key)
      modifies this`root
      ensures Valid() && InOrder(root) == LeftOf(slot) + [node] + RightOf(slot)
      ensures mem[node].key !in old(Map())
      ensures Map() == old(Map())[mem[node].key := Entry(node, mem[node].value)]
    {
      ghost var l, r := LeftOf(slot), RightOf(slot);
      PlugInOrder(slot, Nil);
      assert InOrder(root) == l + r;
      PlugInOrder(slot, Node(Nil, node, Nil));
      assert InOrder(Node(Nil, node, Nil)) == [node];
      ViewLink(l, r, node, mem);
      root := rebalance(Plug(slot, Node(Nil, node, Nil)));
      assert InOrder(root) == l + [node] + r;
    }

    /** `insert`: the node takes the place of the one with its key, which is returned, or is linked in. */
    method Insert(node: Addr, rebalance: Tree -> Tree) returns (r: Option<Addr>)
      requires Valid() && node in mem && Rebalances(rebalance)
      modifies this`root
      ensures Valid()
      ensures r == if mem[node].key in old(Map()) then Some(old(Map())[mem[node].key].addr) else None
      ensures Map() == old(Map())[mem[node].key := Entry(node, mem[node].value)]
    {
      var e := FindEntry(mem[node].key);
      match e {
        case Occupied(a) =>
          ghost var s := InOrder(root);
          ghost var i :| 0 <= i < |s| && s[i] == a;
          ReplaceInOrder(root, a, node);
          ViewReplace(s, i, node, mem);
          root := Replace(root, a, node);
          assert InOrder(root) == s[i := node];
          r := Some(a);
        case Vacant(_, slot) =>
          LinkAt(slot, node, rebalance);
          r := None;
      }
    }

    /** `entry(key)` followed by `VacantEntry::insert` when vacant: an existing node is left alone. */
    method EntryInsert(key: int, value: V, reservation: Addr, rebalance: Tree -> Tree) returns (r: Option<Addr>)
      requires Valid() && reservation !in InOrder(root) && Rebalances(rebalance)
      modifies this
      ensures Valid()
      ensures r == if key in old(Map()) then Some(old(Map())[key].addr) else None
      ensures Map() == if key in old(Map()) then old(Map()) else old(Map())[key := Entry(reservation, value)]
      ensures mem == if key in old(Map()) then old(mem) else old(mem)[reservation := Cell(key, value)]
    {
      var e := FindEntry(key);
      match e {
        case Occupied(a) => r := Some(a);
        case Vacant(_, slot) =>
          ghost var mem0 := mem;
          PlugInOrder(slot, Nil);
          assert InOrder(root) == LeftOf(slot) + RightOf(slot);
          mem := mem[reservation := Cell(key, value)];
          ViewFrame(InOrder(root), mem0, mem);
          BoundsFrame(slot, mem0, mem, key);
          LinkAt(slot, reservation, rebalance);
          r := None;
      }
    }

    /** `OccupiedEntry::remove_node`: rb_erase, handing the node back to the caller. */
    method EraseNode(a: Addr, erase: (Tree, Addr) -> Tree)
      requires Valid() && a in InOrder(root) && Erases(erase)
      modifies this`root
      ensures Valid() && a !in InOrder(root)
      ensures InOrder(root) == Without(old(InOrder(root)), a)
      ensures Map() == old(Map()) - {mem[a].key}
    {
      ViewErase(InOrder(root), a, mem);
      root := erase(root, a);
    }

    method Remove(key: int, erase: (Tree, Addr) -> Tree) returns (r: Option<Addr>)
      requires Valid() && Erases(erase)
      modifies this`root
      ensures Valid() && Map() == old(Map()) - {key}
      ensures r == if key in old(Map()) then Some(old(Map())[key].addr) else None
    {
      var e := FindEntry(key);
      match e {
        case Occupied(a) =>
          EraseNode(a, erase);
          r := Some(a);
        case Vacant(_, _) =>
          r := None;
      }
    }

    /** `get_mut` followed by a store through the reference; `None` when the key is absent. */
    method Update(key: int, value: V) returns (r: Option<Addr>)
      requires Valid()
      modifies this`mem
      ensures Valid()
      ensures r == if key in old(Map()) then Some(old(Map())[key].addr) else None
      ensures Map() == if key in old(Map()) then old(Map())[key := Entry(old(Map())[key].addr, value)] else old(Map())
    {
      var e := FindEntry(key);
      match e {
        case Occupied(a) =>
          ViewUpdate(InOrder(root), a, value, mem, mem[a := mem[a].(value := value)]);
          mem := mem[a := mem[a].(value := value)];
          r := Some(a);
        case Vacant(_, _) =>
          r := None;
      }
    }
  }

  lemma SortedHalves<V>(l: seq<Addr>, r: seq<Addr>, mem: Memory<V>)
    requires Sorted(l + r, mem)
    ensures Sorted(l, mem) && Sorted(r, mem)
  {
    assert (l + r)[0..|l|] == l && (l + r)[|l|..|l + r|] == r;
    SortedSlice(l + r, 0, |l|, mem);
    SortedSlice(l + r, |l|, |l + r|, mem);
  }

  lemma ViewLink<V>(l: seq<Addr>, r: seq<Addr>, n: Addr, mem: Memory<V>)
    requires n in mem && Sorted(l + r, mem) && Below(l, mem, mem[n].key) && Above(r, mem, mem[n].key)
    ensures Sorted(l + [n] + r, mem) && mem[n].key !in View(l + r, mem)
    ensures View(l + [n] + r, mem) == View(l + r, mem)[mem[n].key := Entry(n, mem[n].value)]
  {
    SortedHalves(l, r, mem);
    SortedJoin(l, n, r, mem);
    ViewInsert(l, r, n, mem);
  }

  lemma BoundsFrame<V>(slot: Slot, mem: Memory<V>, mem': Memory<V>, key: int)
    requires Below(LeftOf(slot), mem, key) && Above(RightOf(slot), mem, key)
    requires forall a :: a in LeftOf(slot) + RightOf(slot) ==> a in mem' && (a in mem ==> mem'[a] == mem[a])
    ensures Below(LeftOf(slot), mem', key) && Above(RightOf(slot), mem', key)
  {
    assert forall a :: a in LeftOf(slot) ==> a in LeftOf(slot) + RightOf(slot);
    assert forall a :: a in RightOf(slot) ==> a in LeftOf(slot) + RightOf(slot);
  }

  lemma ViewErase<V>(s: seq<Addr>, a: Addr, mem: Memory<V>)
    requires Sorted(s, mem) && a in s
    ensures Sorted(Without(s, a), mem) && a !in Without(s, a)
    ensures View(Without(s, a), mem) == View(s, mem) - {mem[a].key}
  {
    var i :| 0 <= i < |s| && s[i] == a;
    WithoutAt(s, i);
    ViewRemove(s, i, mem);
    assert forall j :: 0 <= j < i ==> s[..i][j] != a;
    assert forall j :: i < j < |s| ==> s[j] != a;
  }

  lemma {:induction false} ViewUpdate<V>(s: seq<Addr>, a: Addr, value: V, mem: Memory<V>, mem': Memory<V>)
    requires Sorted(s, mem) && a in s
    requires forall i :: 0 <= i < |s| ==>
               s[i] in mem' && mem'[s[i]] == if s[i] == a then Cell(mem[a].key, value) else mem[s[i]]
    ensures Sorted(s, mem') && View(s, mem') == View(s, mem)[mem[a].key := Entry(a, value)]
  {
    assert Sorted(s, mem') by {
      assert forall i :: 0 <= i < |s| ==> mem'[s[i]].key == mem[s[i]].key;
    }
    var t, b := s[..|s| - 1], s[|s| - 1];
    assert forall i :: 0 <= i < |t| ==> t[i] == s[i] && mem[t[i]].key < mem[b].key;
    if b == a {
      ViewFrame(t, mem, mem');
    } else {
      assert a in t;
      ViewUpdate(t, a, value, mem, mem');
    }
  }
}
