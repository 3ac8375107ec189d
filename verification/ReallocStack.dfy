/**
 * The reallocation contract through its three layers: `Allocator::realloc` and `ReallocFunc::call`
 * of rust/src/alloc/allocator.rs, and the `rs_kvrealloc` and `rs_vrealloc` fallbacks of src/shim.c.
 *
 * The kernel's own allocators are not part of the repository. Where they are called, an
 * environment function decides whether they refuse and where they place a block; it may decide
 * anything that their documented contract allows.
 */
module ReallocStack {
  import opened Common

  type Addr = nat

  const NULL: Addr := 0
  /** What `kmalloc(0)` returns: not NULL, and no block. */
  const ZERO_SIZE_PTR: Addr := 16
  const PAGE_SIZE: nat := 4096

  datatype AllocError = AllocError

  datatype Kind = Slab | Vm

  /** A live block: the size asked for, and at least that many bytes. */
  datatype Block = Block(kind: Kind, size: nat, data: seq<Byte>)

  type Heap = map<Addr, Block>

  datatype Func = Krealloc | Vrealloc | Kvrealloc

  predicate Serves(f: Func, k: Kind) {
    match f
    case Krealloc => k.Slab?
    case Vrealloc => k.Vm?
    case Kvrealloc => true
  }

  /** What an allocator did: refuse, reuse the block in place, or take a fresh address. */
  datatype Outcome = Refuse | InPlace(data: seq<Byte>) | Fresh(at: Addr, kind: Kind, data: seq<Byte>)

  type Env = (Heap, Func, Addr, nat) -> Outcome

  ghost predicate BlockFits(data: seq<Byte>, size: nat, k: Kind) {
    |data| >= size && (k.Vm? ==> |data| > 0 && |data| % PAGE_SIZE == 0)
  }

  /** `data` keeps what a block held, up to the lesser of its old and new sizes. */
  ghost predicate Keeps(block: Block, data: seq<Byte>, size: nat) {
    forall i :: 0 <= i < block.size && i < size && i < |block.data| && i < |data| ==> data[i] == block.data[i]
  }

  /**
   * The alignment that the kernel documents for a new block: that of a page for vmalloc, and for the
   * slab every power of two that divides the size.
   */
  ghost predicate Placed(at: Addr, k: Kind, size: nat) {
    match k
    case Vm => at % PAGE_SIZE == 0
    case Slab => forall a: nat :: IsPowerOfTwo(a) && size % a == 0 ==> at % a == 0
  }

  ghost predicate OutcomeOk(h: Heap, f: Func, p: Addr, n: nat, o: Outcome) {
    match o
    case Refuse => true
    case InPlace(data) => p in h ==> BlockFits(data, n, h[p].kind) && Keeps(h[p], data, n)
    case Fresh(at, k, data) =>
      && at != NULL && at != ZERO_SIZE_PTR && at !in h && Serves(f, k) && BlockFits(data, n, k) && Placed(at, k, n)
      && (p in h ==> Keeps(h[p], data, n))
  }

  /** The documented freedom of the kernel's allocators. */
  ghost predicate Honest(env: Env) {
    forall h: Heap, f: Func, p: Addr, n: nat :: OutcomeOk(h, f, p, n, env(h, f, p, n))
  }

  predicate IsPowerOfTwo(a: nat) {
    a == 1 || (a > 0 && a % 2 == 0 && IsPowerOfTwo(a / 2))
  }

  type Align = a: nat | IsPowerOfTwo(a) witness 1

  datatype Layout = Layout(size: nat, align: Align)

  /** `aligned_size`: the size padded to a multiple of the alignment. */
  function AlignedSize(l: Layout): (n: nat)
    ensures n >= l.size && n % l.align == 0 && n < l.size + l.align
    ensures n == 0 <==> l.size == 0
  {
    var blocks := (l.size + l.align - 1) / l.align;
    DivFacts(l.size, l.align);
    blocks * l.align
  }

  lemma DivFacts(s: nat, a: nat)
    requires a > 0
    ensures var n := ((s + a - 1) / a) * a;
            n >= s && n % a == 0 && n < s + a && (n == 0 <==> s == 0)
  {
    var q, r := (s + a - 1) / a, (s + a - 1) % a;
    assert q * a + r == s + a - 1;
    ModOfMultiple(q, a);
  }

  lemma {:induction false} ModOfMultiple(q: nat, a: nat)
    requires a > 0
    ensures (q * a) % a == 0
  {
    if q > 0 {
      ModOfMultiple(q - 1, a);
      assert q * a == (q - 1) * a + a;
      assert ((q - 1) * a + a) % a == ((q - 1) * a) % a by { AddModulus((q - 1) * a, a); }
    }
  }

  lemma AddModulus(x: nat, a: nat)
    requires a > 0
    ensures (x + a) % a == x % a
  {
    var q, r := x / a, x % a;
    var q', r' := (x + a) / a, (x + a) % a;
    var d := q' - q - 1;
    assert d * a == r - r' by {
      assert q * a + r == x && q' * a + r' == x + a;
      assert d * a == q' * a - q * a - a;
    }
    if d >= 1 {
      AtLeastOnce(d, a);
    } else if d <= -1 {
      AtLeastOnce(-d, a);
    }
  }

  lemma AtLeastOnce(d: int, a: nat)
    requires d >= 1
    ensures d * a >= a && (-d) * a == -(d * a)
  {
  }

  /** `x` is a multiple of every divisor of one of its divisors. */
  lemma DividesThrough(x: nat, b: nat, a: nat)
    requires a > 0 && b > 0 && x % b == 0 && b % a == 0
    ensures x % a == 0
  {
    var q, k := x / b, b / a;
    assert x == q * b && b == k * a;
    assert x == (q * k) * a;
    ModOfMultiple(q * k, a);
  }

  /** Of two powers of two the lesser divides the greater. */
  lemma {:induction false} PowersDivide(a: nat, b: nat)
    requires IsPowerOfTwo(a) && IsPowerOfTwo(b) && a <= b
    ensures b % a == 0
  {
    if a > 1 {
      PowersDivide(a / 2, b / 2);
      var k := (b / 2) / (a / 2);
      assert b / 2 == k * (a / 2);
      assert b == 2 * (b / 2) && a == 2 * (a / 2);
      assert b == k * a;
      ModOfMultiple(k, a);
    }
  }

  lemma PageIsPower()
    ensures IsPowerOfTwo(PAGE_SIZE)
  {
    assert IsPowerOfTwo(16);
    assert IsPowerOfTwo(128);
    assert IsPowerOfTwo(1024);
  }

  /** A block placed as the kernel documents has the alignment that its padded size was made for. */
  lemma PlacedIsAligned(at: Addr, k: Kind, layout: Layout)
    requires Placed(at, k, AlignedSize(layout)) && (k.Vm? ==> layout.align <= PAGE_SIZE)
    ensures at % layout.align == 0
  {
    if k.Vm? {
      PageIsPower();
      PowersDivide(layout.align, PAGE_SIZE);
      DividesThrough(at, PAGE_SIZE, layout.align);
    }
  }

  /** Which kernel symbols resolved: the native reallocators, and find_vm_area. */
  datatype Symbols = Symbols(kvrealloc: bool, vrealloc: bool, findVmArea: bool)

  function FreshAt(o: Outcome): Addr { if o.Fresh? then o.at else NULL }

  function ResizedAt(o: Outcome, p: Addr): Addr { if o.InPlace? then p else FreshAt(o) }

  /**
   * Where a reallocator puts a block of `size` > 0 bytes, or NULL if it fails. Resizing a vmalloc block
   * without a native reallocator takes find_vm_area and a new block.
   */
  function Where(sym: Symbols, h: Heap, f: Func, p: Addr, size: nat, env: Env): Addr {
    if p == NULL || p !in h then FreshAt(env(h, f, NULL, size))
    else if h[p].kind.Vm? && ((f.Vrealloc? && !sym.vrealloc) || (f.Kvrealloc? && !sym.kvrealloc)) then
      if sym.findVmArea then FreshAt(env(h, f, NULL, size)) else NULL
    else if f.Kvrealloc? && !sym.kvrealloc then ResizedAt(env(h, Krealloc, p, size), p)
    else ResizedAt(env(h, f, p, size), p)
  }

  predicate Grants(sym: Symbols, h: Heap, f: Func, p: Addr, size: nat, env: Env) {
    Where(sym, h, f, p, size, env) != NULL
  }

  predicate IsNative(sym: Symbols, f: Func) {
    match f
    case Krealloc => true
    case Vrealloc => sym.vrealloc
    case Kvrealloc => sym.kvrealloc
  }

  /** Without find_vm_area and a native reallocator, a live vmalloc block cannot be resized at all. */
  lemma VmBlockStuck(sym: Symbols, h: Heap, f: Func, p: Addr, size: nat, env: Env)
    requires p != NULL && p in h && h[p].kind.Vm? && !IsNative(sym, f) && !sym.findVmArea
    ensures !Grants(sym, h, f, p, size, env)
  {
  }

  /**
   * In every other case a request is granted exactly if the allocator that is consulted does not refuse:
   * the one asked for, if there is no block yet or it is native; `krealloc` for a slab block; and for a
   * vmalloc block one that makes a new block.
   */
  lemma GrantedIff(sym: Symbols, h: Heap, f: Func, p: Addr, size: nat, env: Env)
    requires Honest(env) && (p == NULL || (p in h && Serves(f, h[p].kind)))
    ensures p == NULL ==> (Grants(sym, h, f, p, size, env) <==> env(h, f, NULL, size).Fresh?)
    ensures p != NULL && IsNative(sym, f) ==> (Grants(sym, h, f, p, size, env) <==> !env(h, f, p, size).Refuse?)
    ensures p != NULL && !IsNative(sym, f) && h[p].kind.Slab? ==>
              && (Grants(sym, h, f, p, size, env) <==> !env(h, Krealloc, p, size).Refuse?)
              && Where(sym, h, f, p, size, env) == Where(sym, h, Krealloc, p, size, env)
    ensures p != NULL && !IsNative(sym, f) && h[p].kind.Vm? && sym.findVmArea ==>
              (Grants(sym, h, f, p, size, env) <==> env(h, f, NULL, size).Fresh?)
  {
    assert OutcomeOk(h, f, NULL, size, env(h, f, NULL, size));
    assert OutcomeOk(h, f, p, size, env(h, f, p, size));
    assert OutcomeOk(h, Krealloc, p, size, env(h, Krealloc, p, size));
  }

  class Kernel {
    var heap: Heap
    const sym: Symbols

    constructor (sym: Symbols)
      ensures heap == map[] && this.sym == sym
    {
      heap := map[];
      this.sym := sym;
    }

    /** `kmalloc`, `__vmalloc`, `kvmalloc`. A zero size makes no block. */
    method Allocate(f: Func, size: nat, env: Env) returns (p: Addr)
      requires Honest(env)
      modifies this
      ensures size == 0 ==> heap == old(heap)
      ensures size > 0 ==> p == FreshAt(env(old(heap), f, NULL, size))
      ensures size > 0 && p == NULL ==> heap == old(heap)
      ensures size > 0 && p != NULL ==>
                && p !in old(heap) && p in heap && heap == old(heap)[p := heap[p]] && heap[p].size == size
                && Serves(f, heap[p].kind) && BlockFits(heap[p].data, size, heap[p].kind)
                && Placed(p, heap[p].kind, size)
    {
      if size == 0 {
        return if f.Vrealloc? then NULL else ZERO_SIZE_PTR;
      }
      var outcome := env(heap, f, NULL, size);
      assert OutcomeOk(heap, f, NULL, size, outcome);
      match outcome {
        case Fresh(at, k, data) =>
          heap := heap[at := Block(k, size, data)];
          p := at;
        case _ => p := NULL;
      }
    }

    /** `kfree`, `vfree`, `kvfree`: only ever of a live block. */
    method Free(p: Addr)
      requires p in heap
      modifies this
      ensures heap == old(heap) - {p}
    {
      heap := heap - {p};
    }

    /**
     * `krealloc`, and `vrealloc` or `kvrealloc` where the kernel has them. `p` is NULL or live; a
     * zero size frees; on refusal nothing changes.
     */
    method NativeRealloc(f: Func, p: Addr, size: nat, env: Env) returns (q: Addr)
      requires Honest(env) && (p == NULL || (p in heap && Serves(f, heap[p].kind)))
      requires NULL !in heap
      modifies this
      ensures Realloced(old(heap), heap, f, p, q, size)
      ensures size > 0 ==>
                q == if p == NULL then FreshAt(env(old(heap), f, NULL, size))
                     else ResizedAt(env(old(heap), f, p, size), p)
    {
      if p == NULL {
        q := Allocate(f, size, env);
      } else if size == 0 {
        Free(p);
        q := if f.Vrealloc? then NULL else ZERO_SIZE_PTR;
      } else {
        var outcome := env(heap, f, p, size);
        assert OutcomeOk(heap, f, p, size, outcome);
        match outcome {
          case Refuse => q := NULL;
          case InPlace(data) =>
            heap := heap[p := Block(heap[p].kind, size, data)];
            q := p;
          case Fresh(at, k, data) =>
            heap := (heap - {p})[at := Block(k, size, data)];
            q := at;
        }
      }
    }

    /** `rs_vmalloc_size`: the mapped size, or zero when find_vm_area did not resolve. */
    function VmallocSize(p: Addr): nat
      reads this
      requires p in heap
    {
      if sym.findVmArea then |heap[p].data| else 0
    }

    /** `rs_kvrealloc`. */
    method ShimKvrealloc(p: Addr, size: nat, env: Env) returns (q: Addr)
      requires Honest(env) && HeapOk(heap) && (p == NULL || p in heap)
      modifies this
      ensures Realloced(old(heap), heap, Kvrealloc, p, q, size)
      ensures size > 0 ==> q == Where(sym, old(heap), Kvrealloc, p, size, env)
    {
      if sym.kvrealloc {
        q := NativeRealloc(Kvrealloc, p, size, env);
        return;
      }
      if p == NULL {
        q := Allocate(Kvrealloc, size, env);
        return;
      }
      if size == 0 {
        Free(p);
        return NULL;
      }
      if heap[p].kind.Vm? {
        q := CopyOut(Kvrealloc, p, size, env);
        return;
      }
      q := NativeRealloc(Krealloc, p, size, env);
    }

    /** `rs_vrealloc`. */
    method ShimVrealloc(p: Addr, size: nat, env: Env) returns (q: Addr)
      requires Honest(env) && HeapOk(heap) && (p == NULL || (p in heap && heap[p].kind.Vm?))
      modifies this
      ensures Realloced(old(heap), heap, Vrealloc, p, q, size)
      ensures size > 0 ==> q == Where(sym, old(heap), Vrealloc, p, size, env)
    {
      if sym.vrealloc {
        q := NativeRealloc(Vrealloc, p, size, env);
        return;
      }
      if p == NULL {
        q := Allocate(Vrealloc, size, env);
        return;
      }
      if size == 0 {
        Free(p);
        return NULL;
      }
      q := CopyOut(Vrealloc, p, size, env);
    }

    /** The tail that both fallbacks share: allocate, copy the lesser of the two sizes, free. */
    method CopyOut(f: Func, p: Addr, size: nat, env: Env) returns (newp: Addr)
      requires Honest(env) && NULL !in heap && size > 0 && p in heap && heap[p].kind.Vm?
      requires BlockFits(heap[p].data, heap[p].size, heap[p].kind)
      modifies this
      ensures Realloced(old(heap), heap, f, p, newp, size)
      ensures newp == if sym.findVmArea then FreshAt(env(old(heap), f, NULL, size)) else NULL
    {
      var oldSize := VmallocSize(p);
      if oldSize == 0 {
        return NULL;
      }
      newp := Allocate(f, size, env);
      if newp == NULL {
        return NULL;
      }
      var n := Min(oldSize, size);
      heap := heap[newp := heap[newp].(data := heap[p].data[..n] + heap[newp].data[n..])];
      Free(p);
    }

    /** The C function behind a `ReallocFunc`. */
    method CallRaw(f: Func, p: Addr, size: nat, env: Env) returns (q: Addr)
      requires Honest(env) && HeapOk(heap) && (p == NULL || (p in heap && Serves(f, heap[p].kind)))
      modifies this
      ensures HeapOk(heap) && Realloced(old(heap), heap, f, p, q, size)
      ensures size > 0 ==> q == Where(sym, old(heap), f, p, size, env)
    {
      match f {
        case Krealloc => q := NativeRealloc(Krealloc, p, size, env);
        case Vrealloc => q := ShimVrealloc(p, size, env);
        case Kvrealloc => q := ShimKvrealloc(p, size, env);
      }
    }

    /** `ReallocFunc::call`. */
    method Call(f: Func, ptr: Option<Addr>, layout: Layout, oldLayout: Layout, env: Env) returns (r: Answer)
      requires Honest(env) && HeapOk(heap)
      requires ptr.Some? && oldLayout.size > 0 ==> Held(heap, f, ptr.value, oldLayout)
      modifies this
      ensures HeapOk(heap) && (r.Ok? && layout.size > 0 ==> r.value.0 in heap && Serves(f, heap[r.value.0].kind))
      ensures Contract(old(heap), heap, Real(ptr, oldLayout), layout, oldLayout, r)
      ensures f.Krealloc? || layout.align <= PAGE_SIZE ==> Aligned(Real(ptr, oldLayout), layout, r)
      ensures r.Ok? <==> layout.size == 0 || Grants(sym, old(heap), f, RawPtr(ptr, oldLayout), AlignedSize(layout), env)
      ensures r.Ok? && layout.size > 0 ==>
                r.value.0 == Where(sym, old(heap), f, RawPtr(ptr, oldLayout), AlignedSize(layout), env)
    {
      var size := AlignedSize(layout);
      var p := if ptr.Some? && oldLayout.size != 0 then ptr.value else NULL;
      var raw := CallRaw(f, p, size, env);
      if size == 0 {
        r := Ok((layout.align, size));
      } else if raw == NULL {
        r := Err(AllocError);
      } else {
        r := Ok((raw, size));
        assert raw != NULL;
        if raw != p && (f.Krealloc? || layout.align <= PAGE_SIZE) {
          PlacedIsAligned(raw, heap[raw].kind, layout);
        }
      }
    }

    /** `Allocator::realloc` of `Kmalloc`, `Vmalloc` and `KVmalloc`. */
    method Realloc(f: Func, ptr: Option<Addr>, layout: Layout, oldLayout: Layout, env: Env) returns (r: Answer)
      requires Honest(env) && HeapOk(heap)
      requires ptr.Some? && oldLayout.size > 0 ==> Held(heap, f, ptr.value, oldLayout)
      modifies this
      ensures HeapOk(heap) && (r.Ok? && layout.size > 0 ==> r.value.0 in heap && Serves(f, heap[r.value.0].kind))
      ensures Contract(old(heap), heap, Real(ptr, oldLayout), layout, oldLayout, r)
      ensures Aligned(Real(ptr, oldLayout), layout, r)
      ensures r.Ok? <==> Succeeds(sym, old(heap), f, RawPtr(ptr, oldLayout), layout, env)
      ensures r.Ok? && layout.size > 0 ==>
                r.value.0 == Where(sym, old(heap), f, RawPtr(ptr, oldLayout), AlignedSize(layout), env)
    {
      if !f.Krealloc? && layout.align > PAGE_SIZE {
        return Err(AllocError);
      }
      r := Call(f, ptr, layout, oldLayout, env);
    }

    /** `Allocator::free` always succeeds, and a zero-sized allocation has nothing to free. */
    method Release(f: Func, ptr: Addr, layout: Layout, env: Env)
      requires Honest(env) && HeapOk(heap)
      requires layout.size > 0 ==> Held(heap, f, ptr, layout)
      modifies this
      ensures HeapOk(heap)
      ensures heap == if layout.size == 0 then old(heap) else old(heap) - {ptr}
    {
      var _ := Realloc(f, Some(ptr), Layout(0, 1), layout, env);
    }
  }

  /** The raw-pointer contract of one reallocator. */
  ghost predicate Realloced(h: Heap, h': Heap, f: Func, p: Addr, q: Addr, size: nat) {
    if size == 0 then h' == h - {p}
    else if q == NULL then h' == h
    else
      && q in h' && (q == p || q !in h) && h' == (h - {p})[q := h'[q]]
      && h'[q].size == size && Serves(f, h'[q].kind) && BlockFits(h'[q].data, size, h'[q].kind)
      && (q != p ==> Placed(q, h'[q].kind, size)) && (p in h ==> Keeps(h[p], h'[q].data, size))
  }

  /** All blocks are well formed, and NULL is not one of them. Blocks of several allocators may be there. */
  ghost predicate HeapOk(h: Heap) {
    NULL !in h && forall a :: a in h ==> BlockFits(h[a].data, h[a].size, h[a].kind)
  }

  /** `p` is a live block that `f` may reallocate, last asked for with `layout`. */
  ghost predicate Held(h: Heap, f: Func, p: Addr, layout: Layout)
  {
    p in h && Serves(f, h[p].kind) && h[p].size == AlignedSize(layout)
  }

  /** The address and the size of the block, or an error. */
  type Answer = Result<(Addr, nat), AllocError>

  /** The block that is passed in: none if the old layout says that it has no bytes. */
  function Real(ptr: Option<Addr>, oldLayout: Layout): Option<Addr> {
    if oldLayout.size == 0 then None else ptr
  }

  function RawPtr(ptr: Option<Addr>, oldLayout: Layout): Addr {
    if ptr.Some? && oldLayout.size != 0 then ptr.value else NULL
  }

  /**
   * Exactly when `Allocator::realloc` succeeds: the alignment is supported, and either the block is to
   * be freed or the reallocator grants it.
   */
  predicate Succeeds(sym: Symbols, h: Heap, f: Func, p: Addr, layout: Layout, env: Env)
  {
    (f.Krealloc? || layout.align <= PAGE_SIZE) && (layout.size == 0 || Grants(sym, h, f, p, AlignedSize(layout), env))
  }

  /**
   * The address is not null. It is aligned as asked if the block is new, and also if there is none; a
   * block that is resized in place stays where it is.
   */
  predicate Aligned(ptr: Option<Addr>, layout: Layout, r: Answer)
  {
    r.Ok? ==> r.value.0 != 0 && (layout.size == 0 || ptr != Some(r.value.0) ==> r.value.0 % layout.align == 0)
  }

  /** What `Allocator::realloc` promises: `ptr` is the block passed in, if it was a real one. */
  ghost predicate Contract(h: Heap, h': Heap, ptr: Option<Addr>, layout: Layout, oldLayout: Layout, r: Answer)
  {
    var gone := if ptr.Some? then {ptr.value} else {};
    match r
    case Err(_) => h' == h
    case Ok((q, n)) =>
      n == AlignedSize(layout) &&
      if layout.size == 0 then h' == h - gone
      else
        && q in h' && (q in gone || q !in h) && h' == (h - gone)[q := h'[q]]
        && h'[q].size == n && |h'[q].data| >= n
        && (ptr.Some? && ptr.value in h ==>
              forall i :: 0 <= i < layout.size && i < oldLayout.size && i < |h[ptr.value].data| ==>
                            h'[q].data[i] == h[ptr.value].data[i])
  }

  // ----- a client that allocates, reallocates and frees -----

  /** `realloc(ptr, layout)`: `None` allocates, a zero size frees. */
  datatype Request = Request(ptr: Option<Addr>, layout: Layout)

  /**
   * The live blocks are those the client owns, each under the layout it asked for last, and those
   * of other users of the heap.
   */
  ghost predicate Owns(h: Heap, f: Func, owned: map<Addr, Layout>, others: Heap) {
    && h.Keys == owned.Keys + others.Keys && owned.Keys !! others.Keys
    && (forall a :: a in others ==> h[a] == others[a])
    && (forall a :: a in owned ==> owned[a].size > 0 && Held(h, f, a, owned[a]))
  }

  /** What the client owns after a reallocation that returned `q`. */
  function OwnedAfter(owned: map<Addr, Layout>, ptr: Option<Addr>, layout: Layout, q: Addr): map<Addr, Layout> {
    var rest := if ptr.Some? then owned - {ptr.value} else owned;
    if layout.size > 0 then rest[q := layout] else rest
  }

  lemma OwnsRemoved(h: Heap, f: Func, owned: map<Addr, Layout>, others: Heap, p: Addr)
    requires Owns(h, f, owned, others) && p in owned
    ensures Owns(h - {p}, f, owned - {p}, others)
  {
  }

  lemma OwnsAdded(h: Heap, f: Func, owned: map<Addr, Layout>, others: Heap, q: Addr, b: Block, layout: Layout)
    requires Owns(h, f, owned, others) && q !in h
    requires layout.size > 0 && Serves(f, b.kind) && b.size == AlignedSize(layout)
    ensures Owns(h[q := b], f, owned[q := layout], others) && q !in owned
  {
  }

  /** A successful reallocation moves ownership along with the block. */
  lemma OwnsAfter(h: Heap, h': Heap, f: Func, owned: map<Addr, Layout>, others: Heap,
                  ptr: Option<Addr>, layout: Layout, oldLayout: Layout, q: Addr, n: nat)
    requires Owns(h, f, owned, others) && (ptr.Some? ==> ptr.value in owned)
    requires Contract(h, h', ptr, layout, oldLayout, Ok((q, n)))
    requires layout.size > 0 ==> q in h' && Serves(f, h'[q].kind)
    ensures Owns(h', f, OwnedAfter(owned, ptr, layout, q), others)
  {
    var h1 := if ptr.Some? then h - {ptr.value} else h;
    var rest := if ptr.Some? then owned - {ptr.value} else owned;
    if ptr.Some? {
      OwnsRemoved(h, f, owned, others, ptr.value);
    }
    assert h1 == h - (if ptr.Some? then {ptr.value} else {});
    if layout.size > 0 {
      OwnsAdded(h1, f, rest, others, q, h'[q], layout);
    }
  }

  /** The layout under which the client holds the block of a request. */
  function OldLayout(owned: map<Addr, Layout>, ptr: Option<Addr>): Layout {
    if ptr.Some? && ptr.value in owned then owned[ptr.value] else Layout(0, 1)
  }

  /** What the client owns after an answer; `None` stands for a request that was not made. */
  function OwnedAfterAnswer(owned: map<Addr, Layout>, request: Request, r: Option<Answer>): map<Addr, Layout> {
    if r.Some? && r.value.Ok? then OwnedAfter(owned, request.ptr, request.layout, r.value.value.0) else owned
  }

  /** One request as it was served: what the heap and the client had before, what the heap is now, and the answer. */
  datatype Event = Event(request: Request, env: Env, before: Heap, owned: map<Addr, Layout>,
                         after: Heap, result: Option<Answer>)

  /**
   * A request is answered as it should be. It is not made if the client does not own the block;
   * otherwise it succeeds exactly if it can, and meets the contract.
   */
  ghost predicate Answered(sym: Symbols, f: Func, e: Event) {
    var Request(ptr, layout) := e.request;
    if ptr.Some? && ptr.value !in e.owned then e.result == None && e.after == e.before
    else e.result.Some? && Met(sym, f, e, OldLayout(e.owned, ptr), e.result.value)
  }

  ghost predicate Met(sym: Symbols, f: Func, e: Event, oldLayout: Layout, r: Answer) {
    var Request(ptr, layout) := e.request;
    && Contract(e.before, e.after, ptr, layout, oldLayout, r) && Aligned(ptr, layout, r)
    && (r.Ok? <==> Succeeds(sym, e.before, f, RawPtr(ptr, oldLayout), layout, e.env))
    && (r.Ok? && layout.size > 0 ==>
          r.value.0 == Where(sym, e.before, f, RawPtr(ptr, oldLayout), AlignedSize(layout), e.env))
  }

  /** The events lead from one heap and ownership to another, each beginning where the one before it ended. */
  ghost predicate Trace(sym: Symbols, f: Func, h0: Heap, owned0: map<Addr, Layout>, events: seq<Event>,
                        h: Heap, owned: map<Addr, Layout>)
  {
    if events == [] then h == h0 && owned == owned0
    else
      var e := events[|events| - 1];
      && Answered(sym, f, e) && h == e.after && owned == OwnedAfterAnswer(e.owned, e.request, e.result)
      && Trace(sym, f, h0, owned0, events[..|events| - 1], e.before, e.owned)
  }

  method ServeOne(k: Kernel, f: Func, request: Request, env: Env, start: map<Addr, Layout>, ghost others: Heap)
    returns (owned: map<Addr, Layout>, r: Option<Answer>)
    requires Honest(env) && HeapOk(k.heap) && Owns(k.heap, f, start, others)
    modifies k
    ensures HeapOk(k.heap) && Owns(k.heap, f, owned, others)
    ensures owned == OwnedAfterAnswer(start, request, r)
    ensures Answered(k.sym, f, Event(request, env, old(k.heap), start, k.heap, r))
  {
    owned, r := start, None;
    var Request(ptr, layout) := request;
    if ptr.None? || ptr.value in owned {
      var oldLayout := OldLayout(owned, ptr);
      ghost var h := k.heap;
      var answer := k.Realloc(f, ptr, layout, oldLayout, env);
      r := Some(answer);
      assert Met(k.sym, f, Event(request, env, h, start, k.heap, r), oldLayout, answer);
      if answer.Ok? {
        owned := OwnedAfter(owned, ptr, layout, answer.value.0);
        OwnsAfter(h, k.heap, f, start, others, ptr, layout, oldLayout, answer.value.0, answer.value.1);
      }
    }
  }

  /**
   * Any sequence of requests, whatever the kernel decides about each of them. Each is answered as it
   * should be, ownership follows the answers and stays exact, so that no block is leaked, lost or freed
   * twice, and the blocks of other users, of whatever allocator, are not touched.
   */
  method Serve(k: Kernel, f: Func, requests: seq<Request>, envs: seq<Env>, start: map<Addr, Layout>, ghost others: Heap)
    returns (owned: map<Addr, Layout>, results: seq<Option<Answer>>, ghost events: seq<Event>)
    requires |envs| == |requests| && forall i :: 0 <= i < |envs| ==> Honest(envs[i])
    requires HeapOk(k.heap) && Owns(k.heap, f, start, others)
    modifies k
    ensures HeapOk(k.heap) && Owns(k.heap, f, owned, others)
    ensures Trace(k.sym, f, old(k.heap), start, events, k.heap, owned)
    ensures |results| == |events| == |requests|
    ensures forall i :: 0 <= i < |requests| ==>
              events[i].request == requests[i] && events[i].env == envs[i] && events[i].result == results[i]
  {
    owned, results, events := start, [], [];
    for i := 0 to |requests|
      invariant HeapOk(k.heap) && Owns(k.heap, f, owned, others)
      invariant Trace(k.sym, f, old(k.heap), start, events, k.heap, owned)
      invariant |results| == |events| == i
      invariant forall j :: 0 <= j < i ==>
                  events[j].request == requests[j] && events[j].env == envs[j] && events[j].result == results[j]
    {
      ghost var before, had := k.heap, owned;
      var r;
      owned, r := ServeOne(k, f, requests[i], envs[i], owned, others);
      ghost var e := Event(requests[i], envs[i], before, had, k.heap, r);
      assert (events + [e])[..i] == events;
      results, events := results + [r], events + [e];
    }
  }

  /** A block keeps its bytes, and its owner, through every request that concerns other blocks. */
  lemma {:induction false} Undisturbed(sym: Symbols, f: Func, h0: Heap, owned0: map<Addr, Layout>, events: seq<Event>,
                                       h: Heap, owned: map<Addr, Layout>, a: Addr)
    requires Trace(sym, f, h0, owned0, events, h, owned)
    requires a in owned0 && a in h0 && forall i :: 0 <= i < |events| ==> events[i].request.ptr != Some(a)
    ensures a in owned && owned[a] == owned0[a] && a in h && h[a] == h0[a]
  {
    if events != [] {
      var e := events[|events| - 1];
      Undisturbed(sym, f, h0, owned0, events[..|events| - 1], e.before, e.owned, a);
    }
  }

  /** Every block of the client is aligned as it asked. */
  ghost predicate AllAligned(owned: map<Addr, Layout>) {
    forall a :: a in owned ==> a % owned[a].align == 0
  }

  /** A request for a block that the client owns and has aligned to less. */
  ghost predicate RaisesAlign(e: Event) {
    var Request(ptr, layout) := e.request;
    ptr.Some? && ptr.value in e.owned && layout.align > e.owned[ptr.value].align
  }

  lemma AnswerAligned(sym: Symbols, f: Func, e: Event)
    requires Answered(sym, f, e) && AllAligned(e.owned) && !RaisesAlign(e)
    ensures AllAligned(OwnedAfterAnswer(e.owned, e.request, e.result))
  {
    var Request(ptr, layout) := e.request;
    if e.result.Some? && e.result.value.Ok? && layout.size > 0 {
      var q := e.result.value.value.0;
      if ptr == Some(q) {
        PowersDivide(layout.align, e.owned[q].align);
        DividesThrough(q, e.owned[q].align, layout.align);
      }
      assert q % layout.align == 0;
    }
  }

  /**
   * A client that never raises the alignment of a block has only aligned blocks. One that does may
   * get its block back where it was.
   */
  lemma {:induction false} StaysAligned(sym: Symbols, f: Func, h0: Heap, owned0: map<Addr, Layout>, events: seq<Event>,
                                        h: Heap, owned: map<Addr, Layout>)
    requires Trace(sym, f, h0, owned0, events, h, owned) && AllAligned(owned0)
    requires forall i :: 0 <= i < |events| ==> !RaisesAlign(events[i])
    ensures AllAligned(owned)
  {
    if events != [] {
      var e := events[|events| - 1];
      StaysAligned(sym, f, h0, owned0, events[..|events| - 1], e.before, e.owned);
      AnswerAligned(sym, f, e);
    }
  }

  /** An environment that never refuses, and has a new block for whoever asks for one. */
  ghost predicate Generous(env: Env) {
    forall h: Heap, f: Func, p: Addr, n: nat ::
      !env(h, f, p, n).Refuse? && (p == NULL ==> env(h, f, p, n).Fresh?)
  }

  lemma {:induction false} EventsAnswered(sym: Symbols, f: Func, h0: Heap, owned0: map<Addr, Layout>,
                                          events: seq<Event>, h: Heap, owned: map<Addr, Layout>, i: nat)
    requires Trace(sym, f, h0, owned0, events, h, owned) && i < |events|
    ensures Answered(sym, f, events[i])
    decreases |events|
  {
    var n := |events| - 1;
    if i < n {
      EventsAnswered(sym, f, h0, owned0, events[..n], events[n].before, events[n].owned, i);
    }
  }

  lemma GenerousGrants(sym: Symbols, h: Heap, f: Func, p: Addr, size: nat, env: Env)
    requires Honest(env) && Generous(env) && (IsNative(sym, f) || sym.findVmArea)
    ensures Grants(sym, h, f, p, size, env)
  {
    assert OutcomeOk(h, f, NULL, size, env(h, f, NULL, size)) && !env(h, f, NULL, size).Refuse?;
    assert OutcomeOk(h, f, p, size, env(h, f, p, size)) && !env(h, f, p, size).Refuse?;
    assert OutcomeOk(h, Krealloc, p, size, env(h, Krealloc, p, size)) && !env(h, Krealloc, p, size).Refuse?;
  }

  /**
   * With a kernel that never refuses, every request for a new block or an owned one is made, and it
   * succeeds exactly if its alignment is supported, which is a page for all but `Kmalloc`.
   */
  lemma {:induction false} AllServed(sym: Symbols, f: Func, h0: Heap, owned0: map<Addr, Layout>, events: seq<Event>,
                                     h: Heap, owned: map<Addr, Layout>, i: nat)
    requires Trace(sym, f, h0, owned0, events, h, owned) && i < |events| && (IsNative(sym, f) || sym.findVmArea)
    requires Honest(events[i].env) && Generous(events[i].env)
    ensures var e := events[i];
            && (e.result.Some? <==> e.request.ptr.None? || e.request.ptr.value in e.owned)
            && (e.result.Some? ==> (e.result.value.Ok? <==> f.Krealloc? || e.request.layout.align <= 4096))
  {
    EventsAnswered(sym, f, h0, owned0, events, h, owned, i);
    var e := events[i];
    var p := RawPtr(e.request.ptr, OldLayout(e.owned, e.request.ptr));
    GenerousGrants(sym, e.before, f, p, AlignedSize(e.request.layout), e.env);
  }

  /** A slab that has one object of 96 bytes, at 4192, and resizes it in place whenever it can. */
  function OneObject(h: Heap, f: Func, p: Addr, n: nat): Outcome {
    if f.Krealloc? && p == NULL && n == 72 && NULL !in h && 4192 !in h then Fresh(4192, Slab, seq(96, _ => 0))
    else if p in h && h[p].kind.Slab? && n <= |h[p].data| then InPlace(h[p].data)
    else Refuse
  }

  /** No power of two above eight divides 72. */
  lemma DividesSeventyTwo(a: nat)
    requires IsPowerOfTwo(a) && 72 % a == 0
    ensures 4192 % a == 0
  {
    assert IsPowerOfTwo(8) && IsPowerOfTwo(16);
    if a <= 8 {
      PowersDivide(a, 8);
      DividesThrough(4192, 8, a);
    } else {
      assert false;
    }
  }

  lemma OneObjectHonest()
    ensures Honest(OneObject)
  {
    forall h: Heap, f: Func, p: Addr, n: nat
      ensures OutcomeOk(h, f, p, n, OneObject(h, f, p, n))
    {
      forall a: nat | IsPowerOfTwo(a) && 72 % a == 0
        ensures 4192 % a == 0
      {
        DividesSeventyTwo(a);
      }
    }
  }

  /**
   * Raising the alignment of a block can fail to align it: 72 bytes aligned to 8, resized to 64 bytes
   * aligned to 64, may stay in place.
   */
  method RaisedAlignment() returns (first: Answer, second: Answer)
    ensures first == Ok((4192, 72)) && second == Ok((4192, 64)) && 4192 % 64 != 0
  {
    OneObjectHonest();
    assert IsPowerOfTwo(8) && IsPowerOfTwo(64);
    var k := new Kernel(Symbols(true, true, true));
    var small, wide := Layout(72, 8), Layout(64, 64);
    assert AlignedSize(small) == 72 && AlignedSize(wide) == 64;
    first := k.Realloc(Krealloc, None, small, Layout(0, 1), OneObject);
    assert first == Ok((4192, 72)) && k.heap[4192].kind.Slab? && |k.heap[4192].data| >= 72;
    second := k.Realloc(Krealloc, Some(4192), wide, small, OneObject);
  }
}
