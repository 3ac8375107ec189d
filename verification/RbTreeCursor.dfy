/**
 * The lower-bound search and the cursor of rust/src/rbtree.rs.
 */
module RbTreeCursor {
  import opened Common
  import opened RbTree
  import opened RbTreeMap

  /**
   * `cursor_lower_bound`: the node of the least key not below `key`. `rejected` counts how often
   * the `is_better_match` test came out false, which never happens.
   */
  method LowerBound<V>(tree: RBTree<V>, key: int) returns (best: Option<Addr>, rejected: int)
    requires tree.Valid()
    ensures rejected == 0
    ensures best.None? <==> forall k :: k in tree.Map() ==> k < key
    ensures best.Some? ==>
              && best.value in InOrder(tree.root)
              && var b := tree.mem[best.value].key;
                 b >= key && forall k :: k in tree.Map() && k >= key ==> b <= k
  {
    var mem := tree.mem;
    var node := tree.root;
    ghost var slot := RootField;
    best, rejected := None, 0;
    while node.Node?
      invariant Plug(slot, node) == tree.root && rejected == 0
      invariant Below(LeftOf(slot), mem, key) && Above(RightOf(slot), mem, key)
      invariant best == if RightOf(slot) == [] then None else Some(RightOf(slot)[0])
      decreases node
    {
      var Node(l, a, r) := node;
      DescendSorted(slot, l, a, r, mem);
      DescendBounds(slot, l, a, r, mem, key);
      if key == mem[a].key {
        best := Some(a);
        EqualIsBound(InOrder(tree.root), mem, a);
        assert key in tree.Map();
        return;
      } else if key > mem[a].key {
        slot, node := RightField(l, a, slot), r;
      } else {
        var isBetterMatch := best.None? || mem[best.value].key > mem[a].key;
        if isBetterMatch {
          best := Some(a);
        } else {
          rejected := rejected + 1;
        }
        slot, node := LeftField(slot, a, r), l;
      }
    }
    PlugInOrder(slot, Nil);
    FirstAboveIsBound(InOrder(tree.root), LeftOf(slot), RightOf(slot), mem, key);
    assert best.Some? ==> mem[best.value].key in tree.Map();
  }

  lemma EqualIsBound<V>(s: seq<Addr>, mem: Memory<V>, a: Addr)
    requires Sorted(s, mem) && a in s
    ensures mem[a].key in View(s, mem)
  {
    ViewContents(s, mem);
  }

  lemma FirstAboveIsBound<V>(s: seq<Addr>, l: seq<Addr>, r: seq<Addr>, mem: Memory<V>, key: int)
    requires s == l + r && Sorted(s, mem) && Below(l, mem, key) && Above(r, mem, key)
    ensures r == [] ==> forall k :: k in View(s, mem) ==> k < key
    ensures r != [] ==> r[0] in s && mem[r[0]].key in View(s, mem) && mem[r[0]].key >= key
                        && forall k :: k in View(s, mem) && k >= key ==> mem[r[0]].key <= k
  {
    ViewContents(s, mem);
    if r != [] {
      assert s[|l|] == r[0];
    }
    assert forall j :: 0 <= j < |l| ==> s[j] == l[j] && mem[s[j]].key < key;
    forall k | k in View(s, mem) && k >= key
      ensures r != [] && mem[r[0]].key <= k
    {
      var i :| 0 <= i < |s| && mem[s[i]].key == k;
      assert i > |l| ==> mem[s[|l|]].key < mem[s[i]].key;
    }
  }

  /** `rb_next` and `rb_prev`: the neighbour of `a` in the in-order sequence. */
  datatype Direction = Prev | Next

  function Position(s: seq<Addr>, a: Addr): (i: nat)
    requires a in s
    ensures i < |s| && s[i] == a
  {
    if s[0] == a then 0 else 1 + Position(s[1..], a)
  }

  function Neighbor(s: seq<Addr>, a: Addr, d: Direction): Option<Addr>
    requires a in s
  {
    var i := Position(s, a);
    match d
    case Prev => if i > 0 then Some(s[i - 1]) else None
    case Next => if i + 1 < |s| then Some(s[i + 1]) else None
  }

  lemma PositionUnique<V>(s: seq<Addr>, mem: Memory<V>, i: nat)
    requires Sorted(s, mem) && i < |s|
    ensures s[i] in s && Position(s, s[i]) == i
    ensures Without(s, s[i]) == s[..i] + s[i + 1..]
  {
    assert forall j :: 0 <= j < |s| && j != i ==> mem[s[j]].key != mem[s[i]].key;
    WithoutAt(s, i);
  }

  /** `mv`: the cursor goes to the neighbour, or is lost if there is none. */
  method Move<V>(tree: RBTree<V>, current: Addr, d: Direction) returns (r: Option<Addr>)
    requires tree.Valid() && current in InOrder(tree.root)
    ensures var s := InOrder(tree.root);
            var i := Position(s, current);
            match d
            case Next => r.Some? <==> i + 1 < |s|
            case Prev => r.Some? <==> i > 0
    ensures r.Some? ==> r.value in InOrder(tree.root) &&
                        Position(InOrder(tree.root), r.value)
                        == Position(InOrder(tree.root), current) + (if d.Next? then 1 else -1)
  {
    r := Neighbor(InOrder(tree.root), current, d);
    if r.Some? {
      PositionUnique(InOrder(tree.root), tree.mem, Position(InOrder(tree.root), current) + if d.Next? then 1 else -1);
    }
  }

  /** `remove_current`: the cursor goes to the next node, else to the previous one, else is lost. */
  method RemoveCurrent<V>(tree: RBTree<V>, current: Addr, erase: (Tree, Addr) -> Tree) returns (r: Option<Addr>)
    requires tree.Valid() && current in InOrder(tree.root) && Erases(erase)
    modifies tree`root
    ensures tree.Valid() && tree.Map() == old(tree.Map()) - {tree.mem[current].key}
    ensures var s := old(InOrder(tree.root));
            var i := Position(s, current);
            && InOrder(tree.root) == s[..i] + s[i + 1..]
            && r == if i + 1 < |s| then Some(s[i + 1]) else if i > 0 then Some(s[i - 1]) else None
  {
    var prev := Neighbor(InOrder(tree.root), current, Prev);
    var next := Neighbor(InOrder(tree.root), current, Next);
    PositionUnique(InOrder(tree.root), tree.mem, Position(InOrder(tree.root), current));
    tree.EraseNode(current, erase);
    r := match (prev, next)
         case (_, Some(n)) => Some(n)
         case (Some(p), None) => Some(p)
         case (None, None) => None;
  }

  /** `remove_prev` and `remove_next`: the neighbour goes, the cursor stays. */
  method RemoveNeighbor<V>(tree: RBTree<V>, current: Addr, d: Direction, erase: (Tree, Addr) -> Tree)
    returns (r: Option<Addr>)
    requires tree.Valid() && current in InOrder(tree.root) && Erases(erase)
    modifies tree`root
    ensures tree.Valid() && current in InOrder(tree.root)
    ensures r == Neighbor(old(InOrder(tree.root)), current, d)
    ensures InOrder(tree.root) == if r.None? then old(InOrder(tree.root)) else Without(old(InOrder(tree.root)), r.value)
    ensures r.Some? ==> tree.Map() == old(tree.Map()) - {tree.mem[r.value].key}
  {
    r := Neighbor(InOrder(tree.root), current, d);
    if r.Some? {
      ghost var s := InOrder(tree.root);
      ghost var i := Position(s, current);
      ghost var j := if d.Next? then i + 1 else i - 1;
      PositionUnique(s, tree.mem, j);
      assert (s[..j] + s[j + 1..])[if i < j then i else i - 1] == current;
      tree.EraseNode(r.value, erase);
    }
  }

  ghost function Reversed(s: seq<Addr>): seq<Addr> {
    if s == [] then [] else [s[|s| - 1]] + Reversed(s[..|s| - 1])
  }

  /** The nodes met by repeating `remove_current` from position `i`. */
  ghost function RemovalOrder(s: seq<Addr>, i: nat): seq<Addr>
    requires s != [] ==> i < |s|
    decreases |s|
  {
    if s == [] then []
    else [s[i]] + RemovalOrder(s[..i] + s[i + 1..], if i + 1 < |s| || i == 0 then i else i - 1)
  }

  lemma {:induction false} RemovalOrderIs(s: seq<Addr>, i: nat)
    requires i < |s|
    ensures RemovalOrder(s, i) == s[i..] + Reversed(s[..i])
    decreases |s|
  {
    var t := s[..i] + s[i + 1..];
    if i + 1 < |s| {
      RemovalOrderIs(t, i);
      assert t[i..] == s[i + 1..] && t[..i] == s[..i];
      assert s[i..] == [s[i]] + s[i + 1..];
    } else if i > 0 {
      RemovalOrderIs(t, i - 1);
      assert t == s[..i] && s[i..] == [s[i]];
      assert t[i - 1..] == [s[i - 1]] && t[..i - 1] == s[..i][..i - 1];
    } else {
      assert t == [] && s[i..] == [s[i]];
    }
  }

  /** From position `i`, the rest ascends, then the front descends; every node goes exactly once. */
  method RemoveAll<V>(tree: RBTree<V>, start: Addr, erase: (Tree, Addr) -> Tree) returns (removed: seq<Addr>)
    requires tree.Valid() && start in InOrder(tree.root) && Erases(erase)
    modifies tree`root
    ensures tree.Valid() && InOrder(tree.root) == [] && tree.Map() == map[]
    ensures var s := old(InOrder(tree.root));
            var i := Position(s, start);
            removed == s[i..] + Reversed(s[..i])
  {
    RemovalOrderIs(InOrder(tree.root), Position(InOrder(tree.root), start));
    removed := RemoveRest(tree, start, erase);
  }

  /** The cursor after `remove_current` stands where `RemovalOrder` continues. */
  lemma RemovalStep<V>(t: seq<Addr>, mem: Memory<V>, k: nat, u: seq<Addr>, next: Option<Addr>)
    requires Sorted(t, mem) && k < |t| && u == t[..k] + t[k + 1..] && Sorted(u, mem)
    requires next == if k + 1 < |t| then Some(t[k + 1]) else if k > 0 then Some(t[k - 1]) else None
    ensures next.None? <==> u == []
    ensures next.None? ==> RemovalOrder(t, k) == [t[k]]
    ensures next.Some? ==> next.value in u && RemovalOrder(t, k) == [t[k]] + RemovalOrder(u, Position(u, next.value))
  {
    if next.Some? {
      var j := if k + 1 < |t| then k else k - 1;
      assert u[j] == next.value;
      PositionUnique(u, mem, j);
    } else {
      assert u == [] && RemovalOrder(u, 0) == [];
    }
  }

  method RemoveRest<V>(tree: RBTree<V>, cursor: Addr, erase: (Tree, Addr) -> Tree) returns (removed: seq<Addr>)
    requires tree.Valid() && cursor in InOrder(tree.root) && Erases(erase)
    modifies tree`root
    ensures tree.Valid() && InOrder(tree.root) == []
    ensures removed == RemovalOrder(old(InOrder(tree.root)), Position(old(InOrder(tree.root)), cursor))
    decreases |InOrder(tree.root)|
  {
    ghost var t, k := InOrder(tree.root), Position(InOrder(tree.root), cursor);
    var next := RemoveCurrent(tree, cursor, erase);
    RemovalStep(t, tree.mem, k, InOrder(tree.root), next);
    removed := [cursor];
    if next.Some? {
      var rest := RemoveRest(tree, next.value, erase);
      removed := removed + rest;
    }
  }
}
