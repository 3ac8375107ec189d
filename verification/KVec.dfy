/**
 * `Vec` from rust/src/alloc/kvec.rs, with `ArrayLayout` from rust/src/alloc/layout.rs.
 *
 * A buffer slot is `Init(v)` while the buffer owns the value and `Uninit` once it has been moved
 * out, so reading a slot twice or dropping it twice does not verify. Elements of size zero have
 * slots too, as many as the capacity of such a vector allows, but no memory.
 */
module KVec {
  import opened Common
  import RS = ReallocStack

  datatype Cell<T> = Uninit | Init(v: T)

  /** `ArrayLayout::new`: refused when the byte size overflows or exceeds `isize::MAX`. */
  function ArrayLayout(len: nat, elemSize: nat): (r: Option<nat>)
    ensures r.Some? <==> len * elemSize <= 0x7FFF_FFFF_FFFF_FFFF
    ensures r.Some? ==> r.value == len
  {
    var bytes := len * elemSize;
    if bytes > USIZE_MAX then None
    else if bytes <= ISIZE_MAX then Some(len)
    else None
  }

  /** What `reserve` does about capacity. */
  datatype Plan = Enough | Refused | GrowTo(cap: nat)

  /** The capacity in elements: unlimited for zero-sized elements. */
  function Capacity(slots: nat, elemSize: nat): nat {
    if elemSize == 0 then USIZE_MAX else slots
  }

  /** The arithmetic of `reserve`; its asserts say that no machine operation overflows. */
  function PlanReserve(slots: nat, len: nat, additional: nat, elemSize: nat): (p: Plan)
    requires slots * elemSize <= ISIZE_MAX && len <= Capacity(slots, elemSize) && additional <= USIZE_MAX
    ensures p.Enough? <==> len + additional <= if elemSize == 0 then 0xFFFF_FFFF_FFFF_FFFF else slots
    ensures p.GrowTo? ==> elemSize > 0 && p.cap == Max(2 * slots, len + additional) && p.cap * elemSize <= ISIZE_MAX
    ensures p.Refused? <==> len + additional > Capacity(slots, elemSize)
                            && (elemSize == 0 || Max(2 * slots, len + additional) * elemSize > ISIZE_MAX)
  {
    var cap := Capacity(slots, elemSize);
    if cap - len >= additional then Enough
    else if elemSize == 0 then Refused
    else
      SlotsBelowBytes(slots, elemSize);
      assert cap * 2 <= USIZE_MAX;
      if len + additional > USIZE_MAX then
        SlotsBelowBytes(len + additional, elemSize);
        Refused
      else
        var newCap := Max(cap * 2, len + additional);
        match ArrayLayout(newCap, elemSize)
        case None => Refused
        case Some(n) => GrowTo(n)
  }

  /** Whether a reservation succeeds. */
  predicate Granted(plan: Plan, reply: Reply) { plan.Enough? || (plan.GrowTo? && !reply.Refuse?) }

  lemma SlotsBelowBytes(slots: nat, elemSize: nat)
    requires elemSize > 0
    ensures slots <= slots * elemSize
    ensures Max(0, slots) == slots
    ensures forall other: nat :: slots * elemSize <= Max(other, slots) * elemSize
  {
    forall other: nat
      ensures slots * elemSize <= Max(other, slots) * elemSize
    {
      if other > slots {
        assert other * elemSize == slots * elemSize + (other - slots) * elemSize;
      }
    }
  }

  ghost predicate AllInit<T>(s: seq<Cell<T>>) {
    forall i :: 0 <= i < |s| ==> s[i].Init?
  }

  ghost function Values<T>(s: seq<Cell<T>>): (r: seq<T>)
    requires AllInit(s)
    ensures |r| == |s| && forall i :: 0 <= i < |s| ==> r[i] == s[i].v
  {
    seq(|s|, i requires 0 <= i < |s| => s[i].v)
  }

  lemma ValuesAre<T>(cells: seq<Cell<T>>, vs: seq<T>)
    requires |cells| == |vs| && forall j :: 0 <= j < |cells| ==> cells[j] == Init(vs[j])
    ensures AllInit(cells) && Values(cells) == vs
  {
  }

  /** What `A::realloc` answers: an error, the block resized where it is, or a new block. */
  datatype Reply = Refuse | InPlace | Move

  /**
   * The allocator's view: which blocks are live. A block is known by the object at which it was
   * first placed, and is freed only while it is live.
   */
  class Mem<T(!new)> {
    ghost var live: set<object>

    constructor ()
      ensures live == {}
    {
      live := {};
    }

    /** A request for no bytes makes no block: the buffer is a dangling pointer. */
    method Alloc(n: nat, elemSize: nat) returns (b: array<Cell<T>>)
      modifies this
      ensures fresh(b) && b.Length == n && forall i :: 0 <= i < n ==> b[i].Uninit?
      ensures live == if Backed(n, elemSize) then old(live) + {b} else old(live)
    {
      b := new Cell<T>[n](_ => Uninit);
      if Backed(n, elemSize) {
        live := live + {b};
      }
    }

    method Free(at: object, n: nat, elemSize: nat)
      requires Backed(n, elemSize) ==> at in live
      modifies this
      ensures live == if Backed(n, elemSize) then old(live) - {at} else old(live)
    {
      if Backed(n, elemSize) {
        live := live - {at};
      }
    }

    /**
     * `A::realloc` of the block `at`, whose slots are `buf`, to `n` slots. It keeps the slots up to
     * the lesser of the two sizes; without a block there is nothing to resize in place.
     */
    method Realloc(at: object, buf: array<Cell<T>>, n: nat, reply: Reply) returns (r: Option<object>, b: array<Cell<T>>)
      requires buf.Length > 0 <==> at in live
      modifies this
      ensures r.None? <==> reply.Refuse?
      ensures r.None? ==> b == buf && live == old(live)
      ensures r.Some? ==> fresh(b) && b.Length == n
                          && forall i :: 0 <= i < n ==> b[i] == if i < buf.Length then buf[i] else Uninit
      ensures reply.InPlace? && buf.Length > 0 && n > 0 ==> r == Some(at) && live == old(live)
      ensures reply.Move? || (reply.InPlace? && (buf.Length == 0 || n == 0)) ==>
                r == Some(b) && live == old(live) - {at} + (if n > 0 then {b} else {})
    {
      b := buf;
      if reply.Refuse? {
        return None, b;
      }
      b := new Cell<T>[n](_ => Uninit);
      forall i | 0 <= i < n && i < buf.Length {
        b[i] := buf[i];
      }
      if Stays(buf.Length, n, reply) {
        return Some(at), b;
      }
      live := live - {at} + (if n > 0 then {b} else {});
      r := Some(b);
    }
  }

  /** Whether a reallocation from `m` to `n` slots keeps the block. */
  predicate Stays(m: nat, n: nat, reply: Reply) { m > 0 && n > 0 && reply.InPlace? }

  ghost function Element(data: seq<Byte>, i: nat, size: nat): seq<Byte>
    requires (i + 1) * size <= |data|
  {
    assert (i + 1) * size == i * size + size;
    data[i * size..(i + 1) * size]
  }

  lemma Within(i: nat, n: nat, size: nat)
    requires i < n
    ensures (i + 1) * size == i * size + size <= n * size
  {
    assert n * size == (i + 1) * size + (n - i - 1) * size;
  }

  /**
   * Why a vector may rely on slots being kept: the byte contract of `Allocator::realloc`, between
   * array layouts of `m` and `n` elements, keeps every element up to the lesser of the two.
   */
  lemma ReallocKeepsElement(h: RS.Heap, h': RS.Heap, p: RS.Addr, q: RS.Addr, bytes: nat,
                            m: nat, n: nat, size: nat, align: RS.Align, i: nat)
    requires size > 0 && i < m && i < n && p in h && m * size <= |h[p].data|
    requires RS.Contract(h, h', Some(p), RS.Layout(n * size, align), RS.Layout(m * size, align), Ok((q, bytes)))
    ensures (i + 1) * size <= m * size && n * size > 0 && q in h' && (i + 1) * size <= |h'[q].data|
    ensures Element(h'[q].data, i, size) == Element(h[p].data, i, size)
  {
    Within(i, m, size);
    Within(i, n, size);
    var was, now := Element(h[p].data, i, size), Element(h'[q].data, i, size);
    forall k | 0 <= k < size
      ensures now[k] == was[k]
    {
      assert now[k] == h'[q].data[i * size + k] && was[k] == h[p].data[i * size + k];
    }
  }

  /** `ptr::copy` within one buffer; the ranges may overlap. */
  method Copy<T>(buf: array<Cell<T>>, src: nat, dst: nat, n: nat)
    requires src + n <= buf.Length && dst + n <= buf.Length
    modifies buf
    ensures forall j {:trigger buf[j]} :: 0 <= j < buf.Length ==>
              buf[j] == if dst <= j < dst + n then old(buf[j - dst + src]) else old(buf[j])
  {
    forall i | 0 <= i < n {
      buf[dst + i] := buf[src + i];
    }
  }

  /** The copy and the write of `insert_within_capacity`. */
  method ShiftIn<T>(buf: array<Cell<T>>, len: nat, index: nat, element: T)
    requires index <= len < buf.Length
    modifies buf
    ensures buf[index] == Init(element)
    ensures forall j {:trigger buf[j]} :: 0 <= j < index ==> buf[j] == old(buf[j])
    ensures forall j {:trigger buf[j]} :: index < j <= len ==> buf[j] == old(buf[j - 1])
  {
    Copy(buf, index, index + 1, len - index);
    buf[index] := Init(element);
  }

  /** The copy of `remove`; the last slot is no longer the vector's. */
  method ShiftOut<T>(buf: array<Cell<T>>, len: nat, i: nat)
    requires i < len <= buf.Length
    modifies buf
    ensures forall j {:trigger buf[j]} :: 0 <= j < i ==> buf[j] == old(buf[j])
    ensures forall j {:trigger buf[j]} :: i <= j < len - 1 ==> buf[j] == old(buf[j + 1])
  {
    Copy(buf, i + 1, i, len - i - 1);
    buf[len - 1] := Uninit;
  }

  lemma Removed<T>(s: seq<T>, i: nat)
    requires i < |s|
    ensures var t := s[..i] + s[i + 1..];
            |t| == |s| - 1 && forall j :: 0 <= j < |t| ==> t[j] == if j < i then s[j] else s[j + 1]
  {
  }

  /** All values of a type of size zero are equal. */
  ghost predicate OneValue<T(!new)>() {
    forall x: T, y: T :: Same(x, y)
  }

  ghost predicate Same<T>(x: T, y: T) { x == y }

  /** `slots` slots are backed by a block exactly if they take memory. */
  predicate Backed(slots: nat, elemSize: nat) { slots > 0 && elemSize > 0 }

  datatype InsertError<T> = IndexOutOfBounds(element: T) | OutOfCapacity(element: T)

  lemma Inserted<T>(s: seq<T>, i: nat, x: T)
    requires i <= |s|
    ensures var t := s[..i] + [x] + s[i..];
            && |t| == |s| + 1
            && forall j :: 0 <= j < |t| ==> t[j] == if j < i then s[j] else if j == i then x else s[j - 1]
  {
  }

  class Vec<T(!new)> {
    const mem: Mem<T>
    const elemSize: nat
    /** The block that `ptr` points to, if there is one, and its slots. */
    var at: object
    var buf: array<Cell<T>>
    var len: nat
    /** How many elements reallocations have moved so far. */
    ghost var moved: nat

    ghost predicate Valid()
      reads this, buf, mem
    {
      && len <= buf.Length == Capacity(buf.Length, elemSize) && buf.Length * elemSize <= ISIZE_MAX
      && AllInit(buf[..len])
      && (Backed(buf.Length, elemSize) <==> at in mem.live)
      && (elemSize == 0 ==> OneValue<T>())
    }

    ghost function Contents(): seq<T>
      reads this, buf, mem
      requires Valid()
    {
      Values(buf[..len])
    }

    constructor (mem: Mem<T>, elemSize: nat)
      requires elemSize == 0 ==> OneValue<T>()
      ensures Valid() && Contents() == [] && this.mem == mem && this.elemSize == elemSize
      ensures buf.Length == Capacity(0, elemSize) && moved == 0 && fresh(buf) && fresh(at)
    {
      this.mem, this.elemSize := mem, elemSize;
      var b := new Cell<T>[Capacity(0, elemSize)](_ => Uninit);
      at, buf := b, b;
      len, moved := 0, 0;
    }

    method Reserve(additional: nat, reply: Reply) returns (ok: bool)
      requires Valid() && additional <= USIZE_MAX
      modifies this, mem
      ensures Valid() && Contents() == old(Contents()) && len == old(len)
      ensures ok <==> Granted(PlanReserve(old(buf.Length), len, additional, elemSize), reply)
      ensures ok ==> len + additional <= buf.Length
      ensures var plan := PlanReserve(old(buf.Length), len, additional, elemSize);
              if ok && plan.GrowTo? then
                && fresh(buf) && buf.Length == plan.cap
                && moved == old(moved) + (if at == old(at) then 0 else len)
                && (if Stays(old(buf.Length), plan.cap, reply) then at == old(at) && mem.live == old(mem.live)
                    else fresh(at) && mem.live == old(mem.live) - {old(at)} + {at})
              else buf == old(buf) && at == old(at) && moved == old(moved) && mem.live == old(mem.live)
      ensures ok && buf != old(buf) ==> at in mem.live && (reply.InPlace? && old(buf.Length) > 0 ==> at == old(at))
    {
      var plan := PlanReserve(buf.Length, len, additional, elemSize);
      match plan {
        case Enough => return true;
        case Refused => return false;
        case GrowTo(cap) =>
          var r, b := mem.Realloc(at, buf, cap, reply);
          if r.None? {
            return false;
          }
          assert b[..len] == buf[..len];
          moved := if r.value == at then moved else moved + len;
          at, buf := r.value, b;
          ok := true;
      }
    }

    method Push(v: T, reply: Reply) returns (ok: bool)
      requires Valid()
      modifies this, buf, mem
      ensures Valid() && (buf == old(buf) || fresh(buf))
      ensures ok <==> Granted(PlanReserve(old(buf.Length), old(len), 1, elemSize), reply)
      ensures Contents() == if ok then old(Contents()) + [v] else old(Contents())
      ensures !ok || old(len) < old(buf.Length) ==> buf == old(buf) && at == old(at) && moved == old(moved)
      ensures ok && old(len) == old(buf.Length) ==>
                && buf.Length == Max(2 * old(buf.Length), old(len) + 1)
                && moved == old(moved) + (if at == old(at) then 0 else old(len))
    {
      ok := Reserve(1, reply);
      if ok {
        buf[len] := Init(v);
        len := len + 1;
        assert buf[..len - 1] == buf[..len][..len - 1];
      }
    }

    /** The element goes into the vector, or comes back with the error. */
    method InsertWithinCapacity(index: nat, element: T) returns (r: Result<(), InsertError<T>>)
      requires Valid()
      modifies this, buf
      ensures Valid() && buf == old(buf)
      ensures index > old(len) <==> r == Err(IndexOutOfBounds(element))
      ensures index <= old(len) && old(len) == buf.Length <==> r == Err(OutOfCapacity(element))
      ensures r.Ok? <==> index <= old(len) < buf.Length
      ensures Contents() == if r.Ok? then old(Contents())[..index] + [element] + old(Contents())[index..]
                            else old(Contents())
    {
      if index > len {
        return Err(IndexOutOfBounds(element));
      }
      if len >= buf.Length {
        return Err(OutOfCapacity(element));
      }
      ghost var was := Contents();
      ghost var now := was[..index] + [element] + was[index..];
      Inserted(was, index, element);
      assert forall j :: 0 <= j < len ==> buf[j] == Init(was[j]);
      ShiftIn(buf, len, index, element);
      len := len + 1;
      r := Ok(());
      forall j | 0 <= j < len
        ensures buf[j] == Init(now[j])
      {
        if j > index {
          assert buf[j] == old(buf[j - 1]) == Init(was[j - 1]);
        }
      }
      ValuesAre(buf[..len], now);
    }

    method Remove(i: nat) returns (r: Option<T>)
      requires Valid()
      modifies this, buf
      ensures Valid() && buf == old(buf)
      ensures r == if i < old(len) then Some(old(Contents())[i]) else None
      ensures Contents() == if r.Some? then old(Contents())[..i] + old(Contents())[i + 1..] else old(Contents())
    {
      if i >= len {
        return None;
      }
      ghost var was := Contents();
      ghost var now := was[..i] + was[i + 1..];
      Removed(was, i);
      assert forall j :: 0 <= j < len ==> buf[j] == Init(was[j]);
      r := Some(buf[i].v);
      ShiftOut(buf, len, i);
      len := len - 1;
      forall j | 0 <= j < len
        ensures buf[j] == Init(now[j])
      {
        if j >= i {
          assert buf[j] == old(buf[j + 1]) == Init(was[j + 1]);
        }
      }
      ValuesAre(buf[..len], now);
    }

    /** The elements past `n` are dropped, in order, once each. */
    method Truncate(n: nat) returns (dropped: seq<T>)
      requires Valid()
      modifies this, buf
      ensures Valid() && buf == old(buf)
      ensures Contents() + dropped == old(Contents())
      ensures len == if n < old(len) then n else old(len)
    {
      dropped := [];
      if n <= len {
        ghost var was := Contents();
        var end := len;
        len := n;
        for i := n to end
          modifies buf
          invariant dropped == was[n..i]
          invariant forall j :: 0 <= j < n || i <= j < end ==> buf[j] == Init(was[j])
        {
          dropped := dropped + [buf[i].v];
          buf[i] := Uninit;
        }
        assert Contents() == was[..n];
        assert was[..n] + was[n..] == was;
      }
    }

    /** The writes of `extend_with` into spare capacity: `n - 1` clones and the value itself. */
    method Fill(n: nat, value: T)
      requires Valid() && 0 < n && len + n <= buf.Length
      modifies this`len, buf
      ensures Valid() && buf == old(buf) && Contents() == old(Contents()) + seq(n, _ => value)
    {
      for i := 0 to n - 1
        invariant len == old(len)
        invariant forall j :: 0 <= j < len ==> buf[j] == old(buf[j])
        invariant forall j :: len <= j < len + i ==> buf[j] == Init(value)
      {
        buf[len + i] := Init(value);
      }
      buf[len + n - 1] := Init(value);
      len := len + n;
    }

    method ExtendWith(n: nat, value: T, reply: Reply) returns (ok: bool)
      requires Valid() && n <= USIZE_MAX
      modifies this, buf, mem
      ensures Valid() && (buf == old(buf) || fresh(buf))
      ensures ok <==> Granted(PlanReserve(old(buf.Length), old(len), n, elemSize), reply)
      ensures Contents() == if ok then old(Contents()) + seq(n, _ => value) else old(Contents())
    {
      if n == 0 {
        return true;
      }
      ok := Reserve(n, reply);
      if ok {
        Fill(n, value);
      }
    }

    /** The body of the loop in `retain`: consult the closure on slot `i`, swap into slot `k` if kept. */
    method RetainOne<S>(f: (S, T) -> (S, T, bool), s: S, i: nat, k: nat) returns (s': S, keep: bool)
      requires Valid() && k <= i < len
      modifies buf
      ensures Valid()
      ensures s' == f(s, old(Contents())[i]).0 && keep == f(s, old(Contents())[i]).2
      ensures Contents() == Stepped(old(Contents()), i, k, f(s, old(Contents())[i]).1, keep)
    {
      var r := f(s, buf[i].v);
      s', keep := r.0, r.2;
      buf[i] := Init(r.1);
      if keep {
        var t := buf[k];
        buf[k] := buf[i];
        buf[i] := t;
      }
    }

    /** The loop of `retain`: the kept elements come to the front, in order. */
    method RetainLoop<S>(f: (S, T) -> (S, T, bool), s0: S) returns (s: S, numKept: nat)
      requires Valid()
      modifies buf
      ensures Valid() && Progress(f, s0, old(Contents()), len, s, Contents(), numKept)
    {
      s, numKept := s0, 0;
      ghost var xs, cs := Contents(), Contents();
      RetainStart(f, s0, xs);
      for nextToCheck := 0 to len
        invariant Valid() && len == |xs| && cs == Contents()
        invariant numKept <= nextToCheck && Progress(f, s0, xs, nextToCheck, s, cs, numKept)
      {
        RetainStep(f, s0, xs, nextToCheck, cs, numKept, s);
        ghost var x := f(s, cs[nextToCheck]).1;
        var keep;
        s, keep := RetainOne(f, s, nextToCheck, numKept);
        cs := Stepped(cs, nextToCheck, numKept, x, keep);
        if keep {
          numKept := numKept + 1;
        }
      }
    }

    /**
     * `retain`. The closure `f` takes its own state and the element, and gives back both, possibly
     * changed, with its verdict.
     */
    method Retain<S>(f: (S, T) -> (S, T, bool), s0: S) returns (s: S, dropped: seq<T>)
      requires Valid()
      modifies this, buf
      ensures Valid() && buf == old(buf)
      ensures var spec := Retained(f, s0, old(Contents()));
              s == spec.state && Contents() == spec.kept && dropped == spec.dropped
      ensures multiset(dropped) == multiset(Retained(f, s0, old(Contents())).rejected)
    {
      var numKept;
      ghost var xs := Contents();
      s, numKept := RetainLoop(f, s0);
      ghost var cs := Contents();
      dropped := Truncate(numKept);
      RetainDone(f, s0, xs, s, cs, numKept, Contents(), dropped);
      DropsRejected(f, s0, xs);
    }
  }

  // ----- retain on sequences -----

  /** `rejected` is in the order of the verdicts, `dropped` in the order of the drops. */
  datatype Retention<S, T> = Retention(state: S, kept: seq<T>, rejected: seq<T>, dropped: seq<T>)

  /** The closure applied to each element of `xs` in order, its verdicts sorting the results. */
  ghost function Retained<S, T>(f: (S, T) -> (S, T, bool), s: S, xs: seq<T>): Retention<S, T> {
    if xs == [] then Retention(s, [], [], [])
    else
      var r := Retained(f, s, xs[..|xs| - 1]);
      var (s', x, keep) := f(r.state, xs[|xs| - 1]);
      if keep then Retention(s', r.kept + [x], r.rejected, FirstToLast(r.dropped))
      else Retention(s', r.kept, r.rejected + [x], r.dropped + [x])
  }

  /** What keeping an element does to the rejected ones before it: the swap moves the first behind the others. */
  function FirstToLast<T>(s: seq<T>): seq<T> {
    if s == [] then [] else s[1..] + [s[0]]
  }

  /** The drops are of the rejected elements, once each. */
  lemma {:induction false} DropsRejected<S, T>(f: (S, T) -> (S, T, bool), s: S, xs: seq<T>)
    ensures multiset(Retained(f, s, xs).dropped) == multiset(Retained(f, s, xs).rejected)
  {
    if xs != [] {
      DropsRejected(f, s, xs[..|xs| - 1]);
      var d := Retained(f, s, xs[..|xs| - 1]).dropped;
      assert d != [] ==> d == [d[0]] + d[1..];
    }
  }

  /** The loop state after `i` elements: kept ones, then rejected ones in drop order, then the rest. */
  ghost predicate Progress<S, T>(f: (S, T) -> (S, T, bool), s0: S, xs: seq<T>, i: nat, s: S, cs: seq<T>, k: nat) {
    && k <= i <= |xs| == |cs|
    && var r := Retained(f, s0, xs[..i]);
       s == r.state && cs[..k] == r.kept && cs[k..i] == r.dropped && cs[i..] == xs[i..]
  }

  /** Slot `i` becomes `x`, and if kept it changes places with slot `k`. */
  ghost function Stepped<T>(cs: seq<T>, i: nat, k: nat, x: T, keep: bool): (ds: seq<T>)
    requires k <= i < |cs|
    ensures |ds| == |cs|
  {
    if !keep || k == i then cs[i := x] else cs[k := x][i := cs[k]]
  }

  lemma SteppedKept<T>(cs: seq<T>, i: nat, k: nat, x: T)
    requires k <= i < |cs|
    ensures var ds := Stepped(cs, i, k, x, true);
            && ds[..k + 1] == cs[..k] + [x] && ds[i + 1..] == cs[i + 1..]
            && ds[k + 1..i + 1] == FirstToLast(cs[k..i])
  {
    var ds := Stepped(cs, i, k, x, true);
    if k < i {
      assert ds[k + 1..i + 1] == cs[k + 1..i] + [cs[k]];
      assert cs[k..i] == [cs[k]] + cs[k + 1..i];
    }
  }

  lemma SteppedRejected<T>(cs: seq<T>, i: nat, k: nat, x: T)
    requires k <= i < |cs|
    ensures var ds := Stepped(cs, i, k, x, false);
            ds[..k] == cs[..k] && ds[k..i + 1] == cs[k..i] + [x] && ds[i + 1..] == cs[i + 1..]
  {
  }

  lemma RetainStart<S, T>(f: (S, T) -> (S, T, bool), s0: S, xs: seq<T>)
    ensures Progress(f, s0, xs, 0, s0, xs, 0)
  {
    assert xs[..0] == [] && xs[0..0] == [];
  }

  lemma RetainStep<S, T>(f: (S, T) -> (S, T, bool), s0: S, xs: seq<T>, i: nat, cs: seq<T>, k: nat, s: S)
    requires i < |xs| && Progress(f, s0, xs, i, s, cs, k)
    ensures var (s', x, keep) := f(s, cs[i]);
            Progress(f, s0, xs, i + 1, s', Stepped(cs, i, k, x, keep), if keep then k + 1 else k)
  {
    var (s', x, keep) := f(s, cs[i]);
    assert xs[..i + 1][..i] == xs[..i] && cs[i] == cs[i..][0] == xs[i..][0];
    assert cs[i + 1..] == cs[i..][1..] == xs[i..][1..] == xs[i + 1..];
    if keep {
      SteppedKept(cs, i, k, x);
    } else {
      SteppedRejected(cs, i, k, x);
    }
  }

  lemma RetainDone<S, T>(f: (S, T) -> (S, T, bool), s0: S, xs: seq<T>, s: S, cs: seq<T>, k: nat,
                         kept: seq<T>, dropped: seq<T>)
    requires Progress(f, s0, xs, |xs|, s, cs, k) && kept + dropped == cs && |kept| == k
    ensures var r := Retained(f, s0, xs);
            s == r.state && kept == r.kept && dropped == r.dropped
  {
    assert xs[..|xs|] == xs && cs[..k] == kept && cs[k..|xs|] == dropped;
  }

  /** The elements of `xs` with the property, in order. */
  ghost function Filter<T>(p: T -> bool, xs: seq<T>): seq<T> {
    if xs == [] then [] else if p(xs[0]) then [xs[0]] + Filter(p, xs[1..]) else Filter(p, xs[1..])
  }

  lemma {:induction false} FilterOfSum<T>(p: T -> bool, a: seq<T>, b: seq<T>)
    ensures Filter(p, a + b) == Filter(p, a) + Filter(p, b)
  {
    if a == [] {
      assert a + b == b;
    } else {
      assert (a + b)[0] == a[0] && (a + b)[1..] == a[1..] + b;
      FilterOfSum(p, a[1..], b);
    }
  }

  ghost function Mapped<T>(g: T -> T, xs: seq<T>): (r: seq<T>)
    ensures |r| == |xs| && forall i :: 0 <= i < |xs| ==> r[i] == g(xs[i])
  {
    seq(|xs|, i requires 0 <= i < |xs| => g(xs[i]))
  }

  /** For a closure that changes each element by `g` and keeps those that had the property `p`. */
  lemma {:induction false} RetainedIsFilter<S, T>(f: (S, T) -> (S, T, bool), p: T -> bool, g: T -> T, s: S, xs: seq<T>)
    requires forall x: T :: f(s, x) == (s, g(x), p(x))
    ensures var r := Retained(f, s, xs);
            && r.state == s && r.kept == Mapped(g, Filter(p, xs))
            && r.rejected == Mapped(g, Filter((x: T) => !p(x), xs))
  {
    var np := (x: T) => !p(x);
    if xs != [] {
      var n := |xs| - 1;
      var x := xs[n];
      RetainedIsFilter(f, p, g, s, xs[..n]);
      assert xs == xs[..n] + [x];
      FilterOfSum(p, xs[..n], [x]);
      FilterOfSum(np, xs[..n], [x]);
      assert Filter(p, [x]) == if p(x) then [x] else [] by { assert [x][1..] == []; }
      assert Filter(np, [x]) == if p(x) then [] else [x] by { assert [x][1..] == []; }
    }
  }

  /** A closure that also writes down its arguments. */
  ghost function Logged<S, T>(f: (S, T) -> (S, T, bool)): ((S, seq<T>), T) -> ((S, seq<T>), T, bool) {
    (sl: (S, seq<T>), x: T) => var (s, y, keep) := f(sl.0, x); ((s, sl.1 + [x]), y, keep)
  }

  /** The closure is called exactly once per element, in the original order. */
  lemma {:induction false} RetainCallsInOrder<S, T>(f: (S, T) -> (S, T, bool), s: S, xs: seq<T>)
    ensures var r := Retained(f, s, xs);
            Retained(Logged(f), (s, []), xs) == Retention((r.state, xs), r.kept, r.rejected, r.dropped)
  {
    if xs != [] {
      RetainCallsInOrder(f, s, xs[..|xs| - 1]);
      assert xs[..|xs| - 1] + [xs[|xs| - 1]] == xs;
    }
  }

  // ----- pushes -----

  /** The elements whose push succeeded. */
  ghost function Select<T>(xs: seq<T>, oks: seq<bool>): seq<T>
    requires |oks| <= |xs|
  {
    if oks == [] then []
    else Select(xs, oks[..|oks| - 1]) + if oks[|oks| - 1] then [xs[|oks| - 1]] else []
  }

  /** Capacity and length as pushes go, and which of them succeed. */
  datatype Pushes = Pushes(cap: nat, len: nat, oks: seq<bool>)

  function Pushed(p: Pushes, elemSize: nat, reply: Reply): (r: Pushes)
    requires PushesOk(p, elemSize)
    ensures PushesOk(r, elemSize)
  {
    var plan := PlanReserve(p.cap, p.len, 1, elemSize);
    if !Granted(plan, reply) then p.(oks := p.oks + [false])
    else Pushes(if plan.GrowTo? then plan.cap else p.cap, p.len + 1, p.oks + [true])
  }

  predicate PushesOk(p: Pushes, elemSize: nat) {
    p.cap * elemSize <= ISIZE_MAX && p.len <= p.cap == Capacity(p.cap, elemSize)
  }

  /** What the allocator's answers make of a series of pushes on a new vector. */
  function AfterPushes(elemSize: nat, replies: seq<Reply>): (p: Pushes)
    ensures PushesOk(p, elemSize) && |p.oks| == |replies|
  {
    if replies == [] then Pushes(Capacity(0, elemSize), 0, [])
    else Pushed(AfterPushes(elemSize, replies[..|replies| - 1]), elemSize, replies[|replies| - 1])
  }

  /** Unless the allocator refuses, every push succeeds while twice the elements fit in memory. */
  lemma {:induction false} PushesSucceed(elemSize: nat, replies: seq<Reply>)
    requires 2 * |replies| * elemSize <= ISIZE_MAX && |replies| <= USIZE_MAX
    requires forall i :: 0 <= i < |replies| ==> !replies[i].Refuse?
    ensures var p := AfterPushes(elemSize, replies);
            p.len == |replies| && (elemSize > 0 ==> p.cap <= 2 * p.len) && forall i :: 0 <= i < |replies| ==> p.oks[i]
  {
    if replies != [] {
      var n := |replies| - 1;
      assert 2 * |replies| * elemSize == 2 * n * elemSize + 2 * elemSize;
      PushesSucceed(elemSize, replies[..n]);
      var p := AfterPushes(elemSize, replies[..n]);
      var plan := PlanReserve(p.cap, p.len, 1, elemSize);
      if elemSize > 0 && p.len == p.cap {
        var cap := Max(2 * p.cap, p.len + 1);
        assert cap <= 2 * |replies|;
        assert 2 * |replies| * elemSize == cap * elemSize + (2 * |replies| - cap) * elemSize;
        assert plan.GrowTo?;
      }
      assert Granted(plan, replies[n]);
    }
  }

  /**
   * Any sequence of pushes, some of which may fail, on a new vector: which succeed is what the
   * allocator's answers say, the contents are the accepted elements, and reallocation has moved
   * fewer than two elements per accepted one, whether or not blocks grow in place.
   */
  method PushAll<T(!new)>(mem: Mem<T>, elemSize: nat, xs: seq<T>, replies: seq<Reply>)
    returns (v: Vec<T>, oks: seq<bool>)
    requires (elemSize == 0 ==> OneValue<T>()) && |replies| == |xs|
    modifies mem
    ensures fresh(v) && v.Valid() && |oks| == |xs| && oks == AfterPushes(elemSize, replies).oks
    ensures v.Contents() == Select(xs, oks)
    ensures v.len > 0 ==> v.moved < 2 * v.len
    ensures v.len == 0 ==> v.moved == 0
  {
    v := new Vec<T>(mem, elemSize);
    oks := [];
    ghost var p := AfterPushes(elemSize, []);
    for i := 0 to |xs|
      invariant fresh(v) && v.mem == mem && v.elemSize == elemSize && v.Valid() && fresh(v.buf) && |oks| == i
      invariant v.Contents() == Select(xs, oks)
      invariant p == AfterPushes(elemSize, replies[..i]) && p == Pushes(v.buf.Length, v.len, oks)
      invariant MovedFew(v.moved, v.buf.Length, v.len, elemSize)
    {
      AfterOneMore(elemSize, replies, i);
      SelectOneMore(xs, oks);
      var ok := PushTracked(v, xs[i], replies[i], p);
      p := Pushed(p, elemSize, replies[i]);
      oks := oks + [ok];
    }
    assert replies[..|xs|] == replies;
  }

  /** One push, together with the record of it. */
  method PushTracked<T(!new)>(v: Vec<T>, x: T, reply: Reply, ghost p: Pushes) returns (ok: bool)
    requires v.Valid() && p.cap == v.buf.Length && p.len == v.len && MovedFew(v.moved, v.buf.Length, v.len, v.elemSize)
    modifies v, v.buf, v.mem
    ensures v.Valid() && (v.buf == old(v.buf) || fresh(v.buf))
    ensures v.Contents() == if ok then old(v.Contents()) + [x] else old(v.Contents())
    ensures Pushed(p, v.elemSize, reply) == Pushes(v.buf.Length, v.len, p.oks + [ok])
    ensures MovedFew(v.moved, v.buf.Length, v.len, v.elemSize)
  {
    ghost var n := |v.Contents()|;
    ok := v.Push(x, reply);
    assert v.len == |v.Contents()| == if ok then n + 1 else n;
  }

  lemma AfterOneMore(elemSize: nat, replies: seq<Reply>, i: nat)
    requires i < |replies|
    ensures AfterPushes(elemSize, replies[..i + 1]) == Pushed(AfterPushes(elemSize, replies[..i]), elemSize, replies[i])
  {
    assert replies[..i + 1][..i] == replies[..i];
  }

  lemma SelectOneMore<T>(xs: seq<T>, oks: seq<bool>)
    requires |oks| < |xs|
    ensures Select(xs, oks + [true]) == Select(xs, oks) + [xs[|oks|]]
    ensures Select(xs, oks + [false]) == Select(xs, oks)
  {
    assert (oks + [true])[..|oks|] == oks && (oks + [false])[..|oks|] == oks;
  }

  /** Each doubling pays for the moves before it. */
  predicate MovedFew(moved: nat, slots: nat, len: nat, elemSize: nat) {
    if elemSize == 0 || len == 0 then moved == 0 && (elemSize == 0 || slots == 0)
    else moved <= slots - 1 && slots <= 2 * len - 1
  }
}
