/**
 * In-place initialisation of a boxed array with rollback: `init_array_from_fn` and `ChainInit` of
 * rust/src/init.rs, `ScopeGuard` of rust/src/types.rs, and the box of rust/src/alloc/kbox.rs.
 *
 * A slot is `Init(v)` while it holds a value that someone must drop. Dropping a slot empties it,
 * so a second drop of the same value does not verify.
 */
module InitArray {
  import opened Common
  import opened KVec

  /**
   * `ScopeGuard`: data and a cleanup closure, which takes the data and the state `W` of the world it
   * acts on. `dismiss` takes both out, and the destructor calls the closure if it is still there.
   */
  class ScopeGuard<D, W> {
    var guarded: Option<(D, (D, W) -> W)>

    constructor (data: D, cleanup: (D, W) -> W)
      ensures guarded == Some((data, cleanup))
    {
      guarded := Some((data, cleanup));
    }

    /** A store through `deref_mut`. */
    method Set(data: D)
      requires guarded.Some?
      modifies this
      ensures guarded == Some((data, old(guarded).value.1))
    {
      guarded := Some((data, guarded.value.1));
    }

    method Dismiss() returns (data: D)
      requires guarded.Some?
      modifies this
      ensures guarded == None && data == old(guarded).value.0
    {
      data := guarded.value.0;
      guarded := None;
    }

    method Drop(w: W) returns (w': W)
      modifies this
      ensures guarded == None
      ensures w' == match old(guarded) case None => w case Some((data, cleanup)) => cleanup(data, w)
    {
      w' := w;
      if guarded.Some? {
        var (data, cleanup) := guarded.value;
        guarded := None;
        w' := cleanup(data, w);
      }
    }
  }

  /** What a scope does with its guard: it may change the data, and it may dismiss the guard at some point. */
  datatype GuardUse<D> = Store(data: D) | DismissGuard

  /** The data at the end of the scope, if the guard was not dismissed. */
  function Guarded<D>(data: D, uses: seq<GuardUse<D>>): (r: Option<D>)
    ensures r.None? <==> DismissGuard in uses
    ensures DismissGuard !in uses ==> r == Some(if uses == [] then data else uses[|uses| - 1].data)
  {
    if uses == [] then Some(data)
    else if uses[0].DismissGuard? then None
    else Guarded(uses[0].data, uses[1..])
  }

  /**
   * Whatever the scope does, at its end the cleanup is called once, on the last data, exactly if the
   * guard was not dismissed.
   */
  method Scope<D, W>(data: D, cleanup: (D, W) -> W, uses: seq<GuardUse<D>>, w: W) returns (w': W)
    ensures DismissGuard in uses ==> w' == w
    ensures DismissGuard !in uses ==> w' == cleanup(if uses == [] then data else uses[|uses| - 1].data, w)
  {
    var guard := new ScopeGuard(data, cleanup);
    ghost var last := data;
    var i := 0;
    assert uses[0..] == uses;
    while i < |uses|
      invariant i <= |uses| && fresh(guard) && guard.guarded == Some((last, cleanup))
      invariant Guarded(data, uses) == Guarded(last, uses[i..])
    {
      assert uses[i..][0] == uses[i] && uses[i..][1..] == uses[i + 1..];
      match uses[i] {
        case Store(d) =>
          guard.Set(d);
          last := d;
        case DismissGuard =>
          var _ := guard.Dismiss();
          break;
      }
      i := i + 1;
    }
    w' := guard.Drop(w);
  }

  /** `ptr::drop_in_place` of the first `n` slots. */
  method DropInPlace<T>(slots: array<Cell<T>>, n: nat) returns (dropped: seq<T>)
    requires n <= slots.Length && AllInit(slots[..n])
    modifies slots
    ensures dropped == Values(old(slots[..n]))
    ensures forall i :: 0 <= i < slots.Length ==> slots[i] == if i < n then Uninit else old(slots[i])
  {
    dropped := [];
    ghost var was := slots[..n];
    for i := 0 to n
      invariant dropped == Values(was)[..i]
      invariant forall j :: 0 <= j < slots.Length ==> slots[j] == if j < i then Uninit else old(slots[j])
    {
      assert slots[i] == was[i];
      dropped := dropped + [slots[i].v];
      slots[i] := Uninit;
    }
  }

  /** The index of the first element whose initializer fails, or `n`. */
  ghost function FirstFailure<T, E>(make: nat -> Result<T, E>, n: nat): (k: nat)
    ensures k <= n && (forall i :: 0 <= i < k ==> make(i).Ok?) && (k < n ==> make(k).Err?)
  {
    if n == 0 then 0
    else
      var k := FirstFailure(make, n - 1);
      if k < n - 1 then k else if make(n - 1).Ok? then n else n - 1
  }

  /** The first `k` values made. */
  ghost function Made<T, E>(make: nat -> Result<T, E>, k: nat): (s: seq<T>)
    requires forall i :: 0 <= i < k ==> make(i).Ok?
    ensures |s| == k && forall i :: 0 <= i < k ==> s[i] == make(i).value
  {
    seq(k, i requires 0 <= i < k => make(i).value)
  }

  function LogCall(n: nat, calls: seq<nat>): seq<nat> { calls + [n] }

  /** `init_array_from_fn`, which for a pinned array is the same loop. */
  method InitArrayFromFn<T, E>(slots: array<Cell<T>>, make: nat -> Result<T, E>) returns (r: Option<E>, dropped: seq<T>)
    requires forall i :: 0 <= i < slots.Length ==> slots[i].Uninit?
    modifies slots
    ensures var k := FirstFailure(make, slots.Length);
            if k == slots.Length then
              r == None && dropped == [] && forall i :: 0 <= i < slots.Length ==> slots[i] == Init(make(i).value)
            else
              && r == Some(make(k).error) && dropped == Made(make, k)
              && forall i :: 0 <= i < slots.Length ==> slots[i].Uninit?
  {
    // The cleanup's calls, each of which drops that many elements.
    var initCount: ScopeGuard<nat, seq<nat>> := new ScopeGuard(0, LogCall);
    for i := 0 to slots.Length
      invariant fresh(initCount) && initCount.guarded == Some((i, LogCall))
      invariant i <= FirstFailure(make, slots.Length)
      invariant forall j :: 0 <= j < slots.Length ==>
                  if j < i then slots[j] == Init(make(j).value) else slots[j].Uninit?
    {
      match make(i) {
        case Err(e) =>
          assert slots[..i] == slots[..][..i];
          var calls := initCount.Drop([]);
          assert calls == [i];
          dropped := DropInPlace(slots, calls[0]);
          return Some(e), dropped;
        case Ok(v) =>
          slots[i] := Init(v);
      }
      initCount.Set(i + 1);
    }
    var _ := initCount.Dismiss();
    var calls := initCount.Drop([]);
    assert calls == [];
    r, dropped := None, [];
  }

  /** `Box::try_init` of an array: allocate, initialise in place, and on failure free without dropping. */
  method BoxInit<T(!new), E>(mem: Mem<T>, n: nat, elemSize: nat, available: bool, noMemory: E,
                             make: nat -> Result<T, E>)
    returns (r: Result<array<Cell<T>>, E>, dropped: seq<T>)
    modifies mem
    ensures !available ==> r == Err(noMemory) && dropped == [] && mem.live == old(mem.live)
    ensures available ==>
              var k := FirstFailure(make, n);
              if k == n then
                && r.Ok? && fresh(r.value) && r.value.Length == n && dropped == []
                && AllInit(r.value[..]) && Values(r.value[..]) == Made(make, n)
                && mem.live == if n > 0 && elemSize > 0 then old(mem.live) + {r.value} else old(mem.live)
              else
                r == Err(make(k).error) && dropped == Made(make, k) && mem.live == old(mem.live)
  {
    if !available {
      return Err(noMemory), [];
    }
    var box := mem.Alloc(n, elemSize);
    var e;
    e, dropped := InitArrayFromFn(box, make);
    if e.Some? {
      mem.Free(box, n, elemSize);
      r := Err(e.value);
    } else {
      r := Ok(box);
    }
  }

  /** `Drop for Box`: the contents once, then the allocation once. */
  method BoxDrop<T(!new)>(mem: Mem<T>, box: array<Cell<T>>, elemSize: nat) returns (dropped: seq<T>)
    requires AllInit(box[..]) && (Backed(box.Length, elemSize) ==> box in mem.live)
    modifies mem, box
    ensures dropped == Values(old(box[..]))
    ensures mem.live == if box.Length > 0 && elemSize > 0 then old(mem.live) - {box} else old(mem.live)
  {
    assert box[..box.Length] == box[..];
    dropped := DropInPlace(box, box.Length);
    mem.Free(box, box.Length, elemSize);
  }

  /** Initialising and then dropping the box, if there is one, leaves no block and drops each value made once. */
  method InitThenDrop<T(!new), E>(mem: Mem<T>, n: nat, elemSize: nat, available: bool, noMemory: E,
                                  make: nat -> Result<T, E>)
    returns (ok: bool, dropped: seq<T>)
    modifies mem
    ensures mem.live == old(mem.live)
    ensures ok <==> available && FirstFailure(make, n) == n
    ensures dropped == if available then Made(make, FirstFailure(make, n)) else []
  {
    var r;
    r, dropped := BoxInit(mem, n, elemSize, available, noMemory, make);
    ok := r.Ok?;
    if ok {
      dropped := BoxDrop(mem, r.value, elemSize);
    }
  }

  /**
   * `ChainInit`: the initializer, then a closure on the initialised value. If the closure fails,
   * the value, as the closure left it, is dropped and the slot is empty again.
   */
  method ChainInit<T, E>(slot: array<Cell<T>>, init: Result<T, E>, f: T -> (T, Option<E>))
    returns (r: Option<E>, dropped: seq<T>)
    requires slot.Length == 1 && slot[0].Uninit?
    modifies slot
    ensures init.Err? ==> r == Some(init.error) && dropped == [] && slot[0].Uninit?
    ensures init.Ok? ==> r == f(init.value).1
    ensures init.Ok? && r.None? ==> dropped == [] && slot[0] == Init(f(init.value).0)
    ensures init.Ok? && r.Some? ==> dropped == [f(init.value).0] && slot[0].Uninit?
  {
    if init.Err? {
      return Some(init.error), [];
    }
    slot[0] := Init(init.value);
    var (v, e) := f(slot[0].v);
    slot[0] := Init(v);
    dropped := [];
    if e.Some? {
      assert slot[..1] == [Init(v)];
      dropped := DropInPlace(slot, 1);
    }
    r := e;
  }
}
