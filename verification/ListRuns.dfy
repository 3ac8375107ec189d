/**
 * Whole runs of list operations over any number of lists that share one pool of items.
 *
 * `Apply` gives each operation its meaning on plain sequences. `Run` drives the pointer
 * implementation through any schedule of operations and is proved to agree with `Apply` at every
 * step, while every ring stays well formed and every item outside the lists stays unlinked.
 */
module ListRuns {
  import opened Common
  import opened IntrusiveList

  type Contents = seq<seq<Links>>

  datatype Op =
    | PushFront(l: nat, item: Links)
    | PushBack(l: nat, item: Links)
    | PopFront(l: nat)
    | PopBack(l: nat)
    | Remove(l: nat, item: Links)
    | PushAllBack(l: nat, m: nat)

  ghost predicate InSome(st: Contents, x: Links) {
    exists i :: 0 <= i < |st| && x in st[i]
  }

  /**
   * What the caller owes. Pushing needs the item's `ListArc`, which exists only outside the lists;
   * `remove` needs an item that is in no other list; `push_all_back` needs two different lists.
   */
  ghost predicate Enabled(op: Op, st: Contents, pool: set<Links>) {
    op.l < |st| &&
    match op
    case PushFront(_, x) => x in pool && !InSome(st, x)
    case PushBack(_, x) => x in pool && !InSome(st, x)
    case PopFront(_) => true
    case PopBack(_) => true
    case Remove(l, x) => x in pool && (x in st[l] || !InSome(st, x))
    case PushAllBack(l, m) => m < |st| && l != m
  }

  /** The sequence meaning of a single-list operation: new contents, and the item handed back. */
  ghost function ApplyOne(op: Op, s: seq<Links>): (seq<Links>, Option<Links>)
    requires !op.PushAllBack?
  {
    match op
    case PushFront(_, x) => ([x] + s, None)
    case PushBack(_, x) => (s + [x], None)
    case PopFront(_) => if s == [] then (s, None) else (s[1..], Some(s[0]))
    case PopBack(_) => if s == [] then (s, None) else (s[..|s| - 1], Some(s[|s| - 1]))
    case Remove(_, x) => if x in s then (RemoveAt(s, IndexOf(s, x)), Some(x)) else (s, None)
  }

  /** The meaning of any operation on the contents of all lists; one out of bounds does nothing. */
  ghost function Apply(op: Op, st: Contents): (Contents, Option<Links>) {
    if op.l >= |st| || (op.PushAllBack? && op.m >= |st|) then (st, None)
    else if op.PushAllBack? then (st[op.l := st[op.l] + st[op.m]][op.m := []], None)
    else
      var (s, r) := ApplyOne(op, st[op.l]);
      (st[op.l := s], r)
  }

  /** The contents reached by running `ops` on sequences alone. */
  ghost function Final(ops: seq<Op>, st: Contents): Contents
    decreases |ops|
  {
    if ops == [] then st else Final(ops[1..], Apply(ops[0], st).0)
  }

  ghost function Results(ops: seq<Op>, st: Contents): seq<Option<Links>>
    decreases |ops|
  {
    if ops == [] then [] else [Apply(ops[0], st).1] + Results(ops[1..], Apply(ops[0], st).0)
  }

  ghost predicate Runnable(ops: seq<Op>, st: Contents, pool: set<Links>)
    decreases |ops|
  {
    ops == [] || (Enabled(ops[0], st, pool) && Runnable(ops[1..], Apply(ops[0], st).0, pool))
  }

  /** A run of one operation is that operation. */
  lemma RunOfOne(op: Op, st: Contents, pool: set<Links>)
    ensures Final([op], st) == Apply(op, st).0 && Results([op], st) == [Apply(op, st).1]
    ensures Runnable([op], st, pool) <==> Enabled(op, st, pool)
  {
    assert [op][1..] == [];
  }

  lemma {:induction false} FirstOfRun(op: Op, ops: seq<Op>, st: Contents, pool: set<Links>, st': Contents)
    requires st' == Apply(op, st).0
    ensures Final([op] + ops, st) == Final(ops, st')
    ensures Results([op] + ops, st) == [Apply(op, st).1] + Results(ops, st')
    ensures Runnable([op] + ops, st, pool) <==> Enabled(op, st, pool) && Runnable(ops, st', pool)
  {
    assert ([op] + ops)[1..] == ops;
  }

  ghost predicate InParts(a: seq<Op>, b: seq<Op>, ab: seq<Op>, st: Contents, pool: set<Links>) {
    && Final(ab, st) == Final(b, Final(a, st))
    && Results(ab, st) == Results(a, st) + Results(b, Final(a, st))
    && (Runnable(ab, st, pool) <==> Runnable(a, st, pool) && Runnable(b, Final(a, st), pool))
  }

  lemma {:induction false} InPartsFirst(op: Op, a: seq<Op>, b: seq<Op>, ab: seq<Op>,
                                        st: Contents, pool: set<Links>, st': Contents)
    requires st' == Apply(op, st).0 && InParts(a, b, ab, st', pool)
    ensures InParts([op] + a, b, [op] + ab, st, pool)
  {
    FirstOfRun(op, a, st, pool, st');
    FirstOfRun(op, ab, st, pool, st');
  }

  /** A run in two parts is the second after the first. */
  lemma {:induction false} RunInParts(a: seq<Op>, b: seq<Op>, st: Contents, pool: set<Links>)
    ensures InParts(a, b, a + b, st, pool)
    decreases |a|
  {
    if a == [] {
      assert a + b == b;
    } else {
      var st' := Apply(a[0], st).0;
      RunInParts(a[1..], b, st', pool);
      InPartsFirst(a[0], a[1..], b, a[1..] + b, st, pool, st');
      assert a == [a[0]] + a[1..] && a + b == [a[0]] + (a[1..] + b);
    }
  }

  /** What goes in at one end comes out at that end, and the other items stay. */
  lemma PushThenPop(st: Contents, pool: set<Links>, l: nat, x: Links)
    requires l < |st| && x in pool && forall i :: 0 <= i < |st| ==> x !in st[i]
    ensures Enabled(PushFront(l, x), st, pool) && Enabled(PushBack(l, x), st, pool)
    ensures var front := Apply(PushFront(l, x), st);
            && front.1 == None && front.0[l][0] == x && Enabled(PopFront(l), front.0, pool)
            && Apply(PopFront(l), front.0) == (st, Some(x))
    ensures var back := Apply(PushBack(l, x), st);
            && back.1 == None && back.0[l][|st[l]|] == x && Enabled(PopBack(l), back.0, pool)
            && Apply(PopBack(l), back.0) == (st, Some(x))
  {
    var front, back := Apply(PushFront(l, x), st).0, Apply(PushBack(l, x), st).0;
    assert front[l][1..] == st[l] && back[l][..|st[l]|] == st[l];
    assert front[l := st[l]] == st && back[l := st[l]] == st;
  }

  /** The first item comes out in front and the last at the back, and an empty list gives none. */
  lemma PopEnds(st: Contents, pool: set<Links>, l: nat)
    requires l < |st|
    ensures Enabled(PopFront(l), st, pool) && Enabled(PopBack(l), st, pool)
    ensures st[l] == [] ==> Apply(PopFront(l), st) == (st, None) && Apply(PopBack(l), st) == (st, None)
    ensures st[l] != [] ==>
              && Apply(PopFront(l), st).1 == Some(st[l][0]) && [st[l][0]] + Apply(PopFront(l), st).0[l] == st[l]
              && Apply(PopBack(l), st).1 == Some(st[l][|st[l]| - 1])
              && Apply(PopBack(l), st).0[l] + [st[l][|st[l]| - 1]] == st[l]
  {
    assert st[l := st[l]] == st;
  }

  /** Removing takes the item out from between its neighbours, and an item that is in no list is not found. */
  lemma RemoveFromBetween(st: Contents, pool: set<Links>, l: nat, a: seq<Links>, x: Links, b: seq<Links>)
    requires l < |st| && x in pool
    ensures st[l] == a + [x] + b && x !in a && x !in b ==>
              Enabled(Remove(l, x), st, pool) && Apply(Remove(l, x), st) == (st[l := a + b], Some(x))
    ensures (forall i :: 0 <= i < |st| ==> x !in st[i]) ==>
              Enabled(Remove(l, x), st, pool) && Apply(Remove(l, x), st) == (st, None)
  {
    assert st[l := st[l]] == st;
    if st[l] == a + [x] + b && x !in a && x !in b {
      assert st[l][|a|] == x;
      assert IndexOf(st[l], x) == |a|;
      assert RemoveAt(st[l], |a|) == a + b;
    }
  }

  /** Splicing appends the other list, which becomes empty, and leaves the rest alone. */
  lemma SpliceAppends(st: Contents, pool: set<Links>, l: nat, m: nat)
    requires l < |st| && m < |st| && l != m
    ensures Enabled(PushAllBack(l, m), st, pool)
    ensures var (st', r) := Apply(PushAllBack(l, m), st);
            && r == None && |st'| == |st| && st'[l] == st[l] + st[m] && st'[m] == []
            && forall i :: 0 <= i < |st| && i != l && i != m ==> st'[i] == st[i]
  {
  }

  /** Operations on one list leave the others alone. */
  lemma OthersStay(op: Op, st: Contents, i: nat)
    requires i < |st| && i != op.l && !op.PushAllBack?
    ensures |Apply(op, st).0| == |st| && Apply(op, st).0[i] == st[i]
  {
  }

  /** The contents of all lists. */
  ghost function View(lists: seq<List>): (st: Contents)
    reads lists
    ensures |st| == |lists| && forall i :: 0 <= i < |st| ==> st[i] == lists[i].items
  {
    seq(|lists|, i requires 0 <= i < |lists| reads lists => lists[i].items)
  }

  /** No item occurs twice, in one list or in two, and all items are from the pool. */
  ghost predicate Separate(st: Contents, pool: set<Links>) {
    && (forall i :: 0 <= i < |st| ==> Distinct(st[i]))
    && (forall i, j :: 0 <= i < |st| && 0 <= j < |st| && i != j ==> Disjoint(st[i], st[j]))
    && (forall i, x :: 0 <= i < |st| && x in st[i] ==> x in pool)
  }

  /** Replacing the `l`-th contents by a rearrangement of itself plus fresh items stays separate. */
  lemma SeparateUpdate(st: Contents, pool: set<Links>, l: nat, s: seq<Links>)
    requires Separate(st, pool) && l < |st| && Distinct(s)
    requires forall x :: x in s ==> x in st[l] || (x in pool && !InSome(st, x))
    ensures Separate(st[l := s], pool)
  {
    var st' := st[l := s];
    forall i | 0 <= i < |st| && i != l
      ensures Disjoint(st'[i], st'[l]) && Disjoint(st'[l], st'[i])
    {
      forall a, b | 0 <= a < |st[i]| && 0 <= b < |s|
        ensures st[i][a] != s[b]
      {
        assert s[b] in s && st[i][a] in st[i];
        assert s[b] in st[l] ==> s[b] == st[l][IndexOf(st[l], s[b])] && Disjoint(st[i], st[l]);
      }
    }
  }

  /** A single-list operation permutes, adds the pushed item, or takes out the one handed back. */
  lemma ApplyOneItems(op: Op, s: seq<Links>)
    requires Distinct(s) && !op.PushAllBack?
    requires op.PushFront? || op.PushBack? ==> op.item !in s
    ensures Distinct(ApplyOne(op, s).0)
    ensures forall x :: x in s ==> x in ApplyOne(op, s).0 || ApplyOne(op, s).1 == Some(x)
    ensures forall x :: x in ApplyOne(op, s).0 ==> x in s || ((op.PushFront? || op.PushBack?) && op.item == x)
  {
    var (t, r) := ApplyOne(op, s);
    forall x | x in s && r != Some(x)
      ensures x in t
    {
      var k := IndexOf(s, x);
      match op {
        case PushFront(_, _) => assert t[k + 1] == x;
        case PushBack(_, _) => assert t[k] == x;
        case PopFront(_) => assert t[k - 1] == x;
        case PopBack(_) => assert t[k] == x;
        case Remove(_, y) =>
          if y in s {
            assert t[if k < IndexOf(s, y) then k else k - 1] == x;
          }
      }
    }
  }

  /** Operations never duplicate or invent an item, and lose none but the one they hand back. */
  lemma ApplyKeepsSeparate(op: Op, st: Contents, pool: set<Links>)
    requires Separate(st, pool) && Enabled(op, st, pool)
    ensures Separate(Apply(op, st).0, pool)
    ensures forall x :: InSome(st, x) ==> InSome(Apply(op, st).0, x) || Apply(op, st).1 == Some(x)
    ensures forall x :: InSome(Apply(op, st).0, x) ==>
              InSome(st, x) || ((op.PushFront? || op.PushBack?) && op.item == x)
  {
    var l, s, t := op.l, st[op.l], Apply(op, st).0[op.l];
    assert forall x :: x in s ==> InSome(st, x);
    if op.PushAllBack? {
      SpliceKeepsSeparate(st, pool, l, op.m);
    } else {
      ApplyOneItems(op, s);
      SeparateUpdate(st, pool, l, t);
      InSomeUpdate(st, l, t);
    }
  }

  lemma InSomeUpdate(st: Contents, l: nat, t: seq<Links>)
    requires l < |st|
    ensures forall x :: InSome(st[l := t], x) ==> InSome(st, x) || x in t
    ensures forall x :: InSome(st, x) ==> InSome(st[l := t], x) || x in st[l]
    ensures forall x :: x in t ==> InSome(st[l := t], x)
  {
    var st' := st[l := t];
    forall x | InSome(st', x)
      ensures InSome(st, x) || x in t
    {
      var i :| 0 <= i < |st'| && x in st'[i];
      assert i != l ==> x in st[i];
    }
    forall x | InSome(st, x)
      ensures InSome(st', x) || x in st[l]
    {
      var i :| 0 <= i < |st| && x in st[i];
      assert i != l ==> x in st'[i];
    }
    assert st'[l] == t;
  }

  lemma SpliceKeepsSeparate(st: Contents, pool: set<Links>, l: nat, m: nat)
    requires Separate(st, pool) && l < |st| && m < |st| && l != m
    ensures Separate(st[l := st[l] + st[m]][m := []], pool)
    ensures forall x :: InSome(st[l := st[l] + st[m]][m := []], x) <==> InSome(st, x)
  {
    var st1 := st[l := st[l] + st[m]];
    var st' := st1[m := []];
    assert Disjoint(st[l], st[m]);
    forall i | 0 <= i < |st| && i != l && i != m
      ensures Disjoint(st'[i], st'[l]) && Disjoint(st'[l], st'[i])
    {
      assert Disjoint(st[i], st[l]) && Disjoint(st[i], st[m]);
    }
    InSomeUpdate(st, l, st1[l]);
    InSomeUpdate(st1, m, []);
    assert st[l] == st1[l][..|st[l]|] && st[m] == st1[l][|st[l]|..];
    assert st'[l] == st1[l];
    assert forall x :: x in st'[l] ==> InSome(st', x);
    assert forall x :: x in st[m] ==> InSome(st, x);
  }

  /** Lists are distinct and valid, share no item, and every other item of the pool is unlinked. */
  ghost predicate World(lists: seq<List>, pool: set<Links>)
    reads lists, pool
  {
    && AllDifferent(lists)
    && Separate(View(lists), pool)
    && (forall i :: 0 <= i < |lists| ==>
          assert forall x :: x in lists[i].items ==> x in View(lists)[i];
          lists[i].Valid())
    && (forall x :: x in pool && !InSome(View(lists), x) ==> x.Unlinked())
  }

  ghost predicate AllDifferent(lists: seq<List>) {
    forall i, j :: 0 <= i < j < |lists| ==> lists[i] != lists[j]
  }

  /** The items outside the contents `st`, but for some exceptions, are unlinked. */
  ghost predicate OutsidersUnlinked(st: Contents, pool: set<Links>, but: set<Links>)
    reads pool
  {
    forall x :: x in pool && x !in but && !InSome(st, x) ==> x.Unlinked()
  }

  /** Valid lists that hold `st` make a world. */
  lemma WorldFrom(lists: seq<List>, pool: set<Links>, st: Contents)
    requires |st| == |lists| && AllDifferent(lists)
    requires forall i :: 0 <= i < |lists| ==> lists[i].items == st[i] && lists[i].Valid()
    requires Separate(st, pool) && OutsidersUnlinked(st, pool, {})
    ensures World(lists, pool) && View(lists) == st
  {
    assert View(lists) == st;
  }

  /** After an operation on one list the item it hands back has joined the outsiders. */
  lemma OutsidersAfter(op: Op, st: Contents, pool: set<Links>, pushed: set<Links>)
    requires Separate(st, pool) && Enabled(op, st, pool) && !op.PushAllBack?
    requires pushed == if op.PushFront? || op.PushBack? then {op.item} else {}
    requires OutsidersUnlinked(st, pool, pushed)
    requires Apply(op, st).1.Some? ==> Apply(op, st).1.value.Unlinked()
    ensures OutsidersUnlinked(Apply(op, st).0, pool, {})
  {
    var st' := Apply(op, st).0;
    ApplyKeepsSeparate(op, st, pool);
    assert forall x :: x in pushed ==> x in st'[op.l];
    assert forall x :: x in st'[op.l] ==> InSome(st', x);
  }

  /** An operation on one list leaves the other lists, and the items outside that list, as they were. */
  method OnOneList(lists: seq<List>, pool: set<Links>, op: Op, ghost pushed: set<Links>) returns (r: Option<Links>)
    requires World(lists, pool) && Enabled(op, View(lists), pool) && !op.PushAllBack?
    requires pushed == if op.PushFront? || op.PushBack? then {op.item} else {}
    modifies lists[op.l], lists[op.l].items, pushed
    ensures (lists[op.l].items, r) == ApplyOne(op, old(lists[op.l].items))
    ensures lists[op.l].Valid() && (r.Some? ==> r.value.Unlinked())
    ensures forall j :: 0 <= j < |lists| && j != op.l ==> lists[j].items == old(lists[j].items) && lists[j].Valid()
    ensures OutsidersUnlinked(old(View(lists)), pool, pushed)
  {
    var l := lists[op.l];
    ghost var st := View(lists);
    assert forall x :: x in st[op.l] ==> InSome(st, x);
    r := OnList(l, op, pushed);
    forall j | 0 <= j < |lists| && j != op.l
      ensures lists[j].items == st[j] && lists[j].Valid()
    {
      OtherListApart(st, pool, op.l, j, pushed);
    }
  }

  method StepOne(lists: seq<List>, pool: set<Links>, op: Op) returns (r: Option<Links>)
    requires World(lists, pool) && Enabled(op, View(lists), pool) && !op.PushAllBack?
    modifies lists, pool
    ensures World(lists, pool)
    ensures (View(lists), r) == Apply(op, old(View(lists)))
  {
    ghost var st := View(lists);
    ghost var pushed := if op.PushFront? || op.PushBack? then {op.item} else {};
    ApplyKeepsSeparate(op, st, pool);
    assert forall x :: x in st[op.l] ==> InSome(st, x) && x in pool;
    r := OnOneList(lists, pool, op, pushed);
    OutsidersAfter(op, st, pool, pushed);
    WorldFrom(lists, pool, Apply(op, st).0);
  }

  lemma OtherListApart(st: Contents, pool: set<Links>, l: nat, j: nat, pushed: set<Links>)
    requires Separate(st, pool) && l < |st| && j < |st| && j != l
    requires forall x :: x in pushed ==> !InSome(st, x)
    ensures forall x :: x in st[j] ==> x !in st[l] && x !in pushed
  {
    assert Disjoint(st[l], st[j]);
    forall x | x in st[j]
      ensures x !in st[l] && x !in pushed
    {
      assert InSome(st, x);
      assert x == st[j][IndexOf(st[j], x)];
    }
  }

  /** The pointer operation named by a single-list `op`. */
  method OnList(l: List, op: Op, ghost pushed: set<Links>) returns (r: Option<Links>)
    requires l.Valid() && !op.PushAllBack?
    requires op.PushFront? || op.PushBack? ==> op.item !in l.items
    requires op.Remove? ==> op.item in l.items || op.item.Unlinked()
    requires op.PushFront? || op.PushBack? ==> op.item in pushed
    modifies l, l.items, pushed
    ensures l.Valid() && (r.Some? ==> r.value.Unlinked())
    ensures (l.items, r) == ApplyOne(op, old(l.items))
  {
    r := None;
    match op {
      case PushFront(_, x) => l.PushFront(x);
      case PushBack(_, x) => l.PushBack(x);
      case PopFront(_) => r := l.PopFront();
      case PopBack(_) => r := l.PopBack();
      case Remove(_, x) => r := l.Remove(x);
    }
  }

  /** A splice of two lists leaves the others as they were. */
  method OnTwoLists(lists: seq<List>, pool: set<Links>, l: nat, m: nat)
    requires World(lists, pool) && l < |lists| && m < |lists| && l != m
    modifies lists[l], lists[l].items, lists[m], lists[m].items
    ensures lists[l].items == old(lists[l].items + lists[m].items) && lists[m].items == []
    ensures lists[l].Valid() && lists[m].Valid()
    ensures forall j :: 0 <= j < |lists| && j != l && j != m ==>
              lists[j].items == old(lists[j].items) && lists[j].Valid()
    ensures OutsidersUnlinked(old(View(lists)), pool, {})
  {
    ghost var st := View(lists);
    assert forall x :: x in st[l] || x in st[m] ==> InSome(st, x);
    lists[l].PushAllBack(lists[m]);
    forall j | 0 <= j < |lists| && j != l && j != m
      ensures lists[j].items == st[j] && lists[j].Valid()
    {
      OtherListApart(st, pool, l, j, {});
      OtherListApart(st, pool, m, j, {});
    }
  }

  method StepTwo(lists: seq<List>, pool: set<Links>, op: Op)
    requires World(lists, pool) && Enabled(op, View(lists), pool) && op.PushAllBack?
    modifies lists, pool
    ensures World(lists, pool)
    ensures (View(lists), None) == Apply(op, old(View(lists)))
  {
    ghost var st := View(lists);
    ApplyKeepsSeparate(op, st, pool);
    assert forall x :: x in st[op.l] || x in st[op.m] ==> InSome(st, x) && x in pool;
    OnTwoLists(lists, pool, op.l, op.m);
    WorldFrom(lists, pool, Apply(op, st).0);
  }

  method Step(lists: seq<List>, pool: set<Links>, op: Op) returns (r: Option<Links>)
    requires World(lists, pool) && Enabled(op, View(lists), pool)
    modifies lists, pool
    ensures World(lists, pool)
    ensures (View(lists), r) == Apply(op, old(View(lists)))
  {
    if op.PushAllBack? {
      StepTwo(lists, pool, op);
      r := None;
    } else {
      r := StepOne(lists, pool, op);
    }
  }

  lemma RunStep(ops: seq<Op>, i: nat, st: Contents, pool: set<Links>, out: seq<Option<Links>>)
    requires i < |ops| && Runnable(ops[i..], st, pool)
    ensures Enabled(ops[i], st, pool)
    ensures var (st', r) := Apply(ops[i], st);
            && Runnable(ops[i + 1..], st', pool) && Final(ops[i..], st) == Final(ops[i + 1..], st')
            && out + Results(ops[i..], st) == (out + [r]) + Results(ops[i + 1..], st')
  {
    assert ops[i..][1..] == ops[i + 1..] && ops[i..][0] == ops[i];
  }

  method Run(lists: seq<List>, pool: set<Links>, ops: seq<Op>) returns (out: seq<Option<Links>>)
    requires World(lists, pool) && Runnable(ops, View(lists), pool)
    modifies lists, pool
    ensures World(lists, pool)
    ensures View(lists) == Final(ops, old(View(lists)))
    ensures out == Results(ops, old(View(lists)))
  {
    ghost var st := View(lists);
    ghost var final, results := Final(ops, st), Results(ops, st);
    out := [];
    assert ops[0..] == ops;
    for i := 0 to |ops|
      invariant World(lists, pool) && View(lists) == st
      invariant Runnable(ops[i..], st, pool)
      invariant final == Final(ops[i..], st) && results == out + Results(ops[i..], st)
    {
      RunStep(ops, i, st, pool, out);
      var r := Step(lists, pool, ops[i]);
      out := out + [r];
      st := Apply(ops[i], st).0;
    }
  }
}
