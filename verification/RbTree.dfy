/**
 * The client logic of rust/src/rbtree.rs: its search loops, insertion, replacement and removal of
 * entries, and its cursor.
 *
 * Rebalancing happens in C code outside the repository. It appears here as a function parameter
 * that may return any tree with the same in-order node sequence (`rb_insert_color`) or with one
 * node less (`rb_erase`), so every result holds for every such rebalancing. Nodes keep their
 * addresses throughout. Keys are integers, standing for the finitely many keys of a total order.
 */
module RbTree {
  import opened Common

  type Addr = nat

  datatype Tree = Nil | Node(left: Tree, addr: Addr, right: Tree)

  /** The key and value stored in a node's box. */
  datatype Cell<V> = Cell(key: int, value: V)

  type Memory<V> = map<Addr, Cell<V>>

  function InOrder(t: Tree): seq<Addr> {
    match t
    case Nil => []
    case Node(l, a, r) => InOrder(l) + [a] + InOrder(r)
  }

  function Without(s: seq<Addr>, a: Addr): seq<Addr> {
    if s == [] then [] else (if s[0] == a then [] else [s[0]]) + Without(s[1..], a)
  }

  /** What the client relies on from `rb_insert_color` and from `rb_erase`. */
  ghost predicate Rebalances(f: Tree -> Tree) {
    forall t :: InOrder(f(t)) == InOrder(t)
  }

  ghost predicate Erases(f: (Tree, Addr) -> Tree) {
    forall t, a :: InOrder(f(t, a)) == Without(InOrder(t), a)
  }

  /**
   * A pointer to a child field, with the tree around it: the root field, or the left or right
   * field of node `addr`, whose own field is `up`.
   */
  datatype Slot =
    | RootField
    | LeftField(up: Slot, addr: Addr, right: Tree)
    | RightField(left: Tree, addr: Addr, up: Slot)

  /** The whole tree when the field holds `t`. */
  function Plug(p: Slot, t: Tree): Tree {
    match p
    case RootField => t
    case LeftField(up, a, r) => Plug(up, Node(t, a, r))
    case RightField(l, a, up) => Plug(up, Node(l, a, t))
  }

  function LeftOf(p: Slot): seq<Addr> {
    match p
    case RootField => []
    case LeftField(up, _, _) => LeftOf(up)
    case RightField(l, a, up) => LeftOf(up) + InOrder(l) + [a]
  }

  function RightOf(p: Slot): seq<Addr> {
    match p
    case RootField => []
    case LeftField(up, a, r) => [a] + InOrder(r) + RightOf(up)
    case RightField(_, _, up) => RightOf(up)
  }

  function ParentOf(p: Slot): Option<Addr> {
    match p
    case RootField => None
    case LeftField(_, a, _) => Some(a)
    case RightField(_, a, _) => Some(a)
  }

  lemma Regroup(a: seq<Addr>, b: seq<Addr>, c: seq<Addr>, d: seq<Addr>, e: seq<Addr>)
    ensures a + (b + c + d) + e == a + b + (c + d + e)
    ensures a + (b + c + d) + e == (a + b + c) + d + e
  {
  }

  lemma {:induction false} PlugInOrder(p: Slot, t: Tree)
    ensures InOrder(Plug(p, t)) == LeftOf(p) + InOrder(t) + RightOf(p)
  {
    match p {
      case RootField =>
      case LeftField(up, a, r) =>
        PlugInOrder(up, Node(t, a, r));
        Regroup(LeftOf(up), InOrder(t), [a], InOrder(r), RightOf(up));
      case RightField(l, a, up) =>
        PlugInOrder(up, Node(l, a, t));
        Regroup(LeftOf(up), InOrder(l), [a], InOrder(t), RightOf(up));
    }
  }

  /** `rb_replace_node`: `b` takes the place of `a`. */
  function Replace(t: Tree, a: Addr, b: Addr): Tree {
    match t
    case Nil => Nil
    case Node(l, x, r) => Node(Replace(l, a, b), if x == a then b else x, Replace(r, a, b))
  }

  lemma {:induction false} ReplaceInOrder(t: Tree, a: Addr, b: Addr)
    ensures |InOrder(Replace(t, a, b))| == |InOrder(t)|
    ensures forall i :: 0 <= i < |InOrder(t)| ==>
              InOrder(Replace(t, a, b))[i] == if InOrder(t)[i] == a then b else InOrder(t)[i]
  {
    match t {
      case Nil =>
      case Node(l, _, r) =>
        ReplaceInOrder(l, a, b);
        ReplaceInOrder(r, a, b);
    }
  }

  lemma {:induction false} WithoutAt(s: seq<Addr>, i: nat)
    requires i < |s| && forall j :: 0 <= j < |s| && j != i ==> s[j] != s[i]
    ensures Without(s, s[i]) == s[..i] + s[i + 1..]
  {
    if i == 0 {
      WithoutAbsent(s[1..], s[0]);
    } else {
      assert forall j :: 0 <= j < |s[1..]| ==> s[1..][j] == s[j + 1];
      WithoutAt(s[1..], i - 1);
      assert s[..i] == [s[0]] + s[1..][..i - 1] && s[1..][i..] == s[i + 1..];
    }
  }

  lemma {:induction false} WithoutAbsent(s: seq<Addr>, a: Addr)
    requires a !in s
    ensures Without(s, a) == s
  {
    if s != [] {
      WithoutAbsent(s[1..], a);
    }
  }

  /** The nodes exist and their keys strictly increase. */
  ghost predicate Sorted<V>(s: seq<Addr>, mem: Memory<V>) {
    && (forall i :: 0 <= i < |s| ==> s[i] in mem)
    && (forall i, j :: 0 <= i < j < |s| ==> mem[s[i]].key < mem[s[j]].key)
  }

  /** An abstract map entry remembers which node holds it. */
  datatype Entry<V> = Entry(addr: Addr, value: V)

  /** The finite map that the node sequence `s` represents. */
  ghost function View<V>(s: seq<Addr>, mem: Memory<V>): map<int, Entry<V>>
    requires Sorted(s, mem)
  {
    if s == [] then map[]
    else
      var a := s[|s| - 1];
      View(s[..|s| - 1], mem)[mem[a].key := Entry(a, mem[a].value)]
  }

  lemma {:induction false} ViewContents<V>(s: seq<Addr>, mem: Memory<V>)
    requires Sorted(s, mem)
    ensures forall i :: 0 <= i < |s| ==>
              mem[s[i]].key in View(s, mem) && View(s, mem)[mem[s[i]].key] == Entry(s[i], mem[s[i]].value)
    ensures forall k :: k in View(s, mem) ==> exists i :: 0 <= i < |s| && mem[s[i]].key == k
  {
    if s != [] {
      var t := s[..|s| - 1];
      ViewContents(t, mem);
      forall k | k in View(s, mem)
        ensures exists i :: 0 <= i < |s| && mem[s[i]].key == k
      {
        if k in View(t, mem) {
          var i :| 0 <= i < |t| && mem[t[i]].key == k;
          assert s[i] == t[i];
        } else {
          assert mem[s[|s| - 1]].key == k;
        }
      }
      forall i | 0 <= i < |s|
        ensures mem[s[i]].key in View(s, mem) && View(s, mem)[mem[s[i]].key] == Entry(s[i], mem[s[i]].value)
      {
        assert i < |t| ==> s[i] == t[i];
      }
    }
  }

  /** The view is the only map with one entry per node and no other. */
  lemma ViewIs<V>(s: seq<Addr>, mem: Memory<V>, m: map<int, Entry<V>>)
    requires Sorted(s, mem)
    requires forall i :: 0 <= i < |s| ==> mem[s[i]].key in m && m[mem[s[i]].key] == Entry(s[i], mem[s[i]].value)
    requires forall k :: k in m ==> exists i :: 0 <= i < |s| && mem[s[i]].key == k
    ensures View(s, mem) == m
  {
    ViewContents(s, mem);
    forall k
      ensures k in m <==> k in View(s, mem)
      ensures k in m ==> m[k] == View(s, mem)[k]
    {
      if k in m {
        var i :| 0 <= i < |s| && mem[s[i]].key == k;
      }
    }
  }

  ghost predicate Below<V>(s: seq<Addr>, mem: Memory<V>, k: int) {
    forall i :: 0 <= i < |s| ==> s[i] in mem && mem[s[i]].key < k
  }

  ghost predicate Above<V>(s: seq<Addr>, mem: Memory<V>, k: int) {
    forall i :: 0 <= i < |s| ==> s[i] in mem && k < mem[s[i]].key
  }

  lemma SortedSlice<V>(s: seq<Addr>, lo: nat, hi: nat, mem: Memory<V>)
    requires Sorted(s, mem) && lo <= hi <= |s|
    ensures Sorted(s[lo..hi], mem)
  {
    var t := s[lo..hi];
    forall i | 0 <= i < |t|
      ensures t[i] in mem && t[i] == s[lo + i]
    {
    }
    forall i, j | 0 <= i < j < |t|
      ensures mem[t[i]].key < mem[t[j]].key
    {
      assert t[i] == s[lo + i] && t[j] == s[lo + j];
    }
  }

  lemma SortedSplit<V>(l: seq<Addr>, n: Addr, r: seq<Addr>, mem: Memory<V>)
    requires Sorted(l + [n] + r, mem)
    ensures n in mem && Sorted(l, mem) && Sorted(r, mem)
    ensures Below(l, mem, mem[n].key) && Above(r, mem, mem[n].key)
  {
    var s := l + [n] + r;
    assert s[|l|] == n && s[0..|l|] == l && s[|l| + 1..|s|] == r;
    SortedSlice(s, 0, |l|, mem);
    SortedSlice(s, |l| + 1, |s|, mem);
    forall i | 0 <= i < |l|
      ensures mem[l[i]].key < mem[n].key
    {
      assert s[i] == l[i];
    }
    forall i | 0 <= i < |r|
      ensures mem[n].key < mem[r[i]].key
    {
      assert s[|l| + 1 + i] == r[i];
    }
  }

  lemma SortedJoin<V>(l: seq<Addr>, n: Addr, r: seq<Addr>, mem: Memory<V>)
    requires n in mem && Sorted(l, mem) && Sorted(r, mem)
    requires Below(l, mem, mem[n].key) && Above(r, mem, mem[n].key)
    ensures Sorted(l + [n] + r, mem)
  {
    assert Sorted(l + [n], mem);
    forall i, j | 0 <= i < |l + [n]| && 0 <= j < |r|
      ensures mem[(l + [n])[i]].key < mem[r[j]].key
    {
    }
  }

  lemma SortedSkip<V>(l: seq<Addr>, r: seq<Addr>, mem: Memory<V>, k: int)
    requires Sorted(l, mem) && Sorted(r, mem) && Below(l, mem, k) && Above(r, mem, k)
    ensures Sorted(l + r, mem)
  {
  }

  lemma ViewSnoc<V>(s: seq<Addr>, b: Addr, mem: Memory<V>)
    requires Sorted(s + [b], mem)
    ensures Sorted(s, mem) && b in mem && Below(s, mem, mem[b].key)
    ensures View(s + [b], mem) == View(s, mem)[mem[b].key := Entry(b, mem[b].value)]
  {
    var t := s + [b];
    assert t[..|t| - 1] == s && t[|t| - 1] == b;
    assert forall i :: 0 <= i < |s| ==> s[i] == t[i];
  }

  lemma AbsentAbove<V>(s: seq<Addr>, mem: Memory<V>, k: int)
    requires Sorted(s, mem) && Below(s, mem, k)
    ensures k !in View(s, mem)
  {
    ViewContents(s, mem);
  }

  /** Linking node `n` between nodes of smaller and of larger keys adds its entry. */
  lemma {:induction false} ViewInsert<V>(l: seq<Addr>, r: seq<Addr>, n: Addr, mem: Memory<V>)
    requires n in mem && Sorted(l + [n] + r, mem) && Sorted(l + r, mem)
    ensures mem[n].key !in View(l + r, mem)
    ensures View(l + [n] + r, mem) == View(l + r, mem)[mem[n].key := Entry(n, mem[n].value)]
  {
    if r == [] {
      assert l + [n] + r == l + [n] && l + r == l;
      ViewSnoc(l, n, mem);
      AbsentAbove(l, mem, mem[n].key);
    } else {
      var q, b := r[..|r| - 1], r[|r| - 1];
      assert l + [n] + r == (l + [n] + q) + [b] && l + r == (l + q) + [b];
      ViewSnoc(l + [n] + q, b, mem);
      ViewSnoc(l + q, b, mem);
      assert (l + [n] + q)[|l|] == n;
      ViewInsert(l, q, n, mem);
    }
  }

  lemma ViewRemove<V>(s: seq<Addr>, i: nat, mem: Memory<V>)
    requires Sorted(s, mem) && i < |s|
    ensures Sorted(s[..i] + s[i + 1..], mem)
    ensures View(s[..i] + s[i + 1..], mem) == View(s, mem) - {mem[s[i]].key}
  {
    assert s == s[..i] + [s[i]] + s[i + 1..];
    SortedSplit(s[..i], s[i], s[i + 1..], mem);
    SortedSkip(s[..i], s[i + 1..], mem, mem[s[i]].key);
    ViewInsert(s[..i], s[i + 1..], s[i], mem);
  }

  /** Swapping in node `n` for the node of the same key. */
  lemma ViewReplace<V>(s: seq<Addr>, i: nat, n: Addr, mem: Memory<V>)
    requires Sorted(s, mem) && i < |s| && n in mem && mem[n].key == mem[s[i]].key
    ensures Sorted(s[i := n], mem)
    ensures View(s[i := n], mem) == View(s, mem)[mem[n].key := Entry(n, mem[n].value)]
  {
    var t := s[i := n];
    ViewContents(s, mem);
    var m := View(s, mem)[mem[n].key := Entry(n, mem[n].value)];
    forall k | k in m
      ensures exists j :: 0 <= j < |t| && mem[t[j]].key == k
    {
      var j :| 0 <= j < |s| && mem[s[j]].key == k;
      assert mem[t[j]].key == k;
    }
    ViewIs(t, mem, m);
  }

  /** Changing memory outside the tree changes nothing. */
  lemma ViewFrame<V>(s: seq<Addr>, mem: Memory<V>, mem': Memory<V>)
    requires Sorted(s, mem)
    requires forall i :: 0 <= i < |s| ==> s[i] in mem' && mem'[s[i]] == mem[s[i]]
    ensures Sorted(s, mem') && View(s, mem') == View(s, mem)
  {
    ViewContents(s, mem);
    ViewIs(s, mem', View(s, mem));
  }
}
