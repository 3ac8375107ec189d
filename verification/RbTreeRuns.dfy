/**
 * Whole runs of tree operations: any schedule of insertions, entry insertions, removals, lookups
 * and updates, each with its own arbitrary rebalancing, behaves as the same schedule on a finite
 * map from keys to (node, value).
 */
module RbTreeRuns {
  import opened Common
  import opened RbTree
  import opened RbTreeMap

  type FiniteMap<V> = map<int, Entry<V>>

  datatype Op<V> =
    | Insert(addr: Addr, key: int, value: V, rebalance: Tree -> Tree)
    | EntryInsert(addr: Addr, key: int, value: V, rebalance: Tree -> Tree)
    | Remove(key: int, erase: (Tree, Addr) -> Tree)
    | Get(key: int)
    | GetMut(key: int, value: V)

  /** A node box handed to the tree is owned by the caller, so it is not already in the tree. */
  ghost predicate Enabled<V>(m: FiniteMap<V>, op: Op<V>) {
    match op
    case Insert(a, _, _, f) => Rebalances(f) && forall k :: k in m ==> m[k].addr != a
    case EntryInsert(a, _, _, f) => Rebalances(f) && forall k :: k in m ==> m[k].addr != a
    case Remove(_, f) => Erases(f)
    case Get(_) => true
    case GetMut(_, _) => true
  }

  ghost function Lookup<V>(m: FiniteMap<V>, k: int): Option<V> {
    if k in m then Some(m[k].value) else None
  }

  /** The map meaning: the new map. Every operation answers with the previous value of its key. */
  ghost function Apply<V>(m: FiniteMap<V>, op: Op<V>): FiniteMap<V> {
    match op
    case Insert(a, k, v, _) => m[k := Entry(a, v)]
    case EntryInsert(a, k, v, _) => if k in m then m else m[k := Entry(a, v)]
    case Remove(k, _) => m - {k}
    case Get(_) => m
    case GetMut(k, v) => if k in m then m[k := m[k].(value := v)] else m
  }

  /**
   * What an operation does, key by key: an insertion sets its key, an entry insertion only if the key is
   * vacant, a removal clears it, a lookup changes nothing, and a store through `get_mut` changes the
   * value of a key that is there and keeps its node.
   */
  lemma ApplyMeans<V>(m: FiniteMap<V>, op: Op<V>, k: int)
    ensures var m' := Apply(m, op);
            if k != op.key then (k in m' <==> k in m) && (k in m ==> m'[k] == m[k])
            else
              match op
              case Insert(a, _, v, _) => k in m' && m'[k] == Entry(a, v)
              case EntryInsert(a, _, v, _) => k in m' && m'[k] == if k in m then m[k] else Entry(a, v)
              case Remove(_, _) => k !in m'
              case Get(_) => (k in m' <==> k in m) && (k in m ==> m'[k] == m[k])
              case GetMut(_, v) => (k in m' <==> k in m) && (k in m ==> m'[k] == Entry(m[k].addr, v))
    ensures Lookup(m, k).None? <==> k !in m
    ensures k in m ==> Lookup(m, k) == Some(m[k].value)
  {
  }

  /** Lookups and stores may always be made, and so may the others with a node that is not in the tree. */
  lemma WhenEnabled<V>(m: FiniteMap<V>, a: Addr, k: int, v: V, f: Tree -> Tree, e: (Tree, Addr) -> Tree)
    ensures Enabled(m, Get(k)) && Enabled(m, GetMut(k, v)) && (Erases(e) ==> Enabled(m, Remove(k, e)))
    ensures Rebalances(f) && (forall i :: i in m ==> m[i].addr != a) ==>
              Enabled(m, Insert(a, k, v, f)) && Enabled(m, EntryInsert(a, k, v, f))
  {
  }

  ghost predicate Runnable<V>(m: FiniteMap<V>, ops: seq<Op<V>>)
    decreases |ops|
  {
    ops == [] || (Enabled(m, ops[0]) && Runnable(Apply(m, ops[0]), ops[1..]))
  }

  ghost function Final<V>(m: FiniteMap<V>, ops: seq<Op<V>>): FiniteMap<V>
    decreases |ops|
  {
    if ops == [] then m else Final(Apply(m, ops[0]), ops[1..])
  }

  ghost function Answers<V>(m: FiniteMap<V>, ops: seq<Op<V>>): seq<Option<V>>
    decreases |ops|
  {
    if ops == [] then [] else [Lookup(m, ops[0].key)] + Answers(Apply(m, ops[0]), ops[1..])
  }

  /** A run of one operation is that operation, and a run in two parts is the second after the first. */
  lemma {:induction false} RunInParts<V>(m: FiniteMap<V>, a: seq<Op<V>>, b: seq<Op<V>>)
    ensures Final(m, a + b) == Final(Final(m, a), b)
    ensures Answers(m, a + b) == Answers(m, a) + Answers(Final(m, a), b)
    ensures Runnable(m, a + b) <==> Runnable(m, a) && Runnable(Final(m, a), b)
    ensures |a| == 1 ==>
              && Final(m, a) == Apply(m, a[0]) && Answers(m, a) == [Lookup(m, a[0].key)]
              && (Runnable(m, a) <==> Enabled(m, a[0]))
    decreases |a|
  {
    if a == [] {
      assert a + b == b;
    } else {
      assert (a + b)[0] == a[0] && (a + b)[1..] == a[1..] + b;
      RunInParts(Apply(m, a[0]), a[1..], b);
    }
  }

  /** A node is in the tree exactly if the map mentions it. */
  lemma AddrInTree<V>(s: seq<Addr>, mem: Memory<V>, a: Addr)
    requires Sorted(s, mem)
    ensures a in s <==> exists k :: k in View(s, mem) && View(s, mem)[k].addr == a
  {
    ViewContents(s, mem);
    if k :| k in View(s, mem) && View(s, mem)[k].addr == a {
      var i :| 0 <= i < |s| && mem[s[i]].key == k;
    }
    if a in s {
      assert mem[a].key in View(s, mem);
    }
  }

  method Step<V>(tree: RBTree<V>, op: Op<V>) returns (r: Option<V>)
    requires tree.Valid() && Enabled(tree.Map(), op)
    modifies tree
    ensures tree.Valid() && tree.Map() == Apply(old(tree.Map()), op)
    ensures r == Lookup(old(tree.Map()), op.key)
  {
    ghost var s := InOrder(tree.root);
    ViewContents(s, tree.mem);
    match op {
      case Insert(a, k, v, f) =>
        AddrInTree(s, tree.mem, a);
        ViewFrame(s, tree.mem, tree.mem[a := Cell(k, v)]);
        tree.mem := tree.mem[a := Cell(k, v)];
        var replaced := tree.Insert(a, f);
        r := ValueAt(tree.mem, replaced);
      case EntryInsert(a, k, v, f) =>
        AddrInTree(s, tree.mem, a);
        var occupied := tree.EntryInsert(k, v, a, f);
        r := ValueAt(tree.mem, occupied);
      case Remove(k, f) =>
        var removed := tree.Remove(k, f);
        r := ValueAt(tree.mem, removed);
      case Get(k) =>
        r := tree.Get(k);
      case GetMut(k, v) =>
        r := tree.Get(k);
        var node := tree.Update(k, v);
        assert node.Some? <==> r.Some?;
    }
  }

  function ValueAt<V>(mem: Memory<V>, a: Option<Addr>): Option<V>
    requires a.Some? ==> a.value in mem
  {
    if a.Some? then Some(mem[a.value].value) else None
  }

  /** Every run refines the map, step by step: same answers, same final contents, order kept. */
  method Run<V>(tree: RBTree<V>, ops: seq<Op<V>>) returns (answers: seq<Option<V>>)
    requires tree.Valid() && Runnable(tree.Map(), ops)
    modifies tree
    ensures tree.Valid()
    ensures tree.Map() == Final(old(tree.Map()), ops)
    ensures answers == Answers(old(tree.Map()), ops)
  {
    answers := [];
    for i := 0 to |ops|
      invariant tree.Valid() && Runnable(tree.Map(), ops[i..])
      invariant Final(old(tree.Map()), ops) == Final(tree.Map(), ops[i..])
      invariant Answers(old(tree.Map()), ops) == answers + Answers(tree.Map(), ops[i..])
    {
      assert ops[i..][0] == ops[i] && ops[i..][1..] == ops[i + 1..];
      var r := Step(tree, ops[i]);
      answers := answers + [r];
    }
  }
}
