/**
 * The ID pool of rust/src/id_pool.rs over the bitmap of rust/src/bitmap.rs.
 *
 * The first half is the imperative bitmap and pool, proved against functions on bit sequences.
 * The second half runs those functions in every interleaving of acquisitions, releases, requests,
 * reallocations and applications of possibly stale resizers.
 */
module IdPool {
  import opened Common

  /** `i32::MAX`. */
  const MAX_LEN: nat := 0x7FFF_FFFF

  /** `usize::BITS` on a 64-bit machine. */
  const MAX_INLINE_LEN: nat := 64

  type Bits = seq<bool>

  /** `_find_last_bit`: the index of the last set bit, or the length. */
  function FindLastBit(b: Bits): (i: nat)
    ensures i <= |b|
    ensures i < |b| ==> b[i] && forall j :: i < j < |b| ==> !b[j]
    ensures i == |b| ==> forall j :: 0 <= j < |b| ==> !b[j]
  {
    if b == [] then 0
    else if b[|b| - 1] then |b| - 1
    else
      var i := FindLastBit(b[..|b| - 1]);
      if i == |b| - 1 then |b| else i
  }

  /** `_find_next_zero_bit`: the first clear bit from `start` on, or a value not below the length. */
  function FindNextZeroBit(b: Bits, start: nat): (i: nat)
    ensures i >= start
    ensures i < |b| ==> !b[i]
    ensures forall j :: start <= j < i && j < |b| ==> b[j]
    decreases |b| - start
  {
    if start >= |b| || !b[start] then start else FindNextZeroBit(b, start + 1)
  }

  /** `bitmap_copy_and_extend`: the first bits of `src`, then zeroes, `n` in all. */
  function Extended(src: Bits, n: nat): Bits {
    seq(n, i requires 0 <= i < n => i < |src| && src[i])
  }

  class BitmapVec {
    var bits: Bits

    constructor Zeroed(nbits: nat)
      ensures bits == Extended([], nbits)
    {
      bits := Extended([], nbits);
    }

    /** `BitmapVec::new`; `available` is the outcome of `bitmap_zalloc`. */
    static method New(nbits: nat, available: bool) returns (r: Option<BitmapVec>)
      ensures r.Some? <==> nbits <= 64 || (nbits <= 0x7FFF_FFFF && available)
      ensures r.Some? ==> fresh(r.value) && r.value.bits == Extended([], nbits)
    {
      if nbits <= MAX_INLINE_LEN {
        var b := new BitmapVec.Zeroed(nbits);
        return Some(b);
      }
      if nbits > MAX_LEN || !available {
        return None;
      }
      var b := new BitmapVec.Zeroed(nbits);
      r := Some(b);
    }

    /** Out of range, a store does nothing. */
    method SetBit(index: nat)
      modifies this
      ensures bits == if index < |old(bits)| then old(bits)[index := true] else old(bits)
    {
      if index < |bits| {
        bits := bits[index := true];
      }
    }

    method ClearBit(index: nat)
      modifies this
      ensures bits == if index < |old(bits)| then old(bits)[index := false] else old(bits)
    {
      if index < |bits| {
        bits := bits[index := false];
      }
    }

    /** The length stays; the set bits become those of `src` that lie within it. */
    method CopyAndExtend(src: BitmapVec)
      modifies this
      ensures bits == Extended(old(src.bits), |old(bits)|)
      ensures |bits| == |old(bits)| && forall i :: i in SetIds(bits) <==> i in SetIds(old(src.bits)) && i < |old(bits)|
    {
      var len := if |src.bits| < |bits| then |src.bits| else |bits|;
      bits := Extended(src.bits[..len], |bits|);
    }
  }

  function LastBit(b: Bits): Option<nat> {
    var i := FindLastBit(b);
    if i >= |b| then None else Some(i)
  }

  function NextZeroBit(b: Bits, start: nat): Option<nat> {
    var i := FindNextZeroBit(b, start);
    if i >= |b| then None else Some(i)
  }

  function ShrinkRequest(b: Bits): Option<nat> {
    if |b| <= MAX_INLINE_LEN then None
    else match LastBit(b)
      case None => Some(MAX_INLINE_LEN)
      case Some(bit) => if bit >= |b| / 4 then None else Some(Max(MAX_INLINE_LEN, |b| / 2))
  }

  function GrowRequest(b: Bits): Option<nat> {
    if |b| * 2 > MAX_LEN then None else Some(|b| * 2)
  }

  /** The bits after applying a grow, respectively shrink, with a resizer of length `n`. */
  function Grown(b: Bits, n: nat): Bits {
    if n <= |b| then b else Extended(b, n)
  }

  function Shrunk(b: Bits, n: nat): Bits {
    match ShrinkRequest(b)
    case None => b
    case Some(u) => if u > n then b else Extended(b, n)
  }

  class IdPool {
    var bitmap: BitmapVec

    constructor (bitmap: BitmapVec)
      ensures this.bitmap == bitmap
    {
      this.bitmap := bitmap;
    }

    /** A capacity below MAX_INLINE_LEN is raised to it; one above MAX_LEN is refused. */
    static method WithCapacity(numIds: nat, available: bool) returns (r: Option<IdPool>)
      ensures r.Some? <==> numIds <= 64 || (numIds <= 0x7FFF_FFFF && available)
      ensures r.Some? ==> fresh(r.value) && fresh(r.value.bitmap)
                          && |r.value.bitmap.bits| == (if numIds < 64 then 64 else numIds)
                          && true !in r.value.bitmap.bits
    {
      var b := BitmapVec.New(Max(numIds, MAX_INLINE_LEN), available);
      if b.None? {
        return None;
      }
      var pool := new IdPool(b.value);
      r := Some(pool);
    }

    /** `find_unused_id` and the `acquire` of the ID it found, which borrows the pool in between. */
    method Acquire(offset: nat) returns (id: Option<nat>)
      modifies bitmap
      ensures id == NextZeroBit(old(bitmap.bits), offset)
      ensures bitmap.bits == if id.Some? then old(bitmap.bits)[id.value := true] else old(bitmap.bits)
    {
      id := NextZeroBit(bitmap.bits, offset);
      if id.Some? {
        bitmap.SetBit(id.value);
      }
    }

    method Release(id: nat)
      modifies bitmap
      ensures bitmap.bits == if id < |old(bitmap.bits)| then old(bitmap.bits)[id := false] else old(bitmap.bits)
    {
      bitmap.ClearBit(id);
    }

    method Grow(resizer: BitmapVec)
      requires resizer != bitmap
      modifies this, resizer
      ensures bitmap.bits == Grown(old(bitmap.bits), |old(resizer.bits)|)
    {
      if |resizer.bits| <= |bitmap.bits| {
        return;
      }
      resizer.CopyAndExtend(bitmap);
      bitmap := resizer;
    }

    method Shrink(resizer: BitmapVec)
      requires resizer != bitmap
      modifies this, resizer
      ensures bitmap.bits == Shrunk(old(bitmap.bits), |old(resizer.bits)|)
    {
      var updated := ShrinkRequest(bitmap.bits);
      if updated.None? {
        return;
      }
      if updated.value > |resizer.bits| {
        return;
      }
      resizer.CopyAndExtend(bitmap);
      bitmap := resizer;
    }
  }

  // ----- what requests ask for -----

  /** The growth that a pool asks for is undone by the shrink it then asks for, if its IDs are in its lower half. */
  lemma GrowThenShrink(b: Bits)
    requires InRange(|b|) && GrowRequest(b).Some?
    requires SetIds(b) != {} && forall i :: i in SetIds(b) ==> i < |b| / 2
    ensures var g := Grown(b, GrowRequest(b).value);
            && |g| == 2 * |b| && SetIds(g) == SetIds(b)
            && ShrinkRequest(g) == Some(|b|) && Shrunk(g, |b|) == b
  {
    var g := Grown(b, GrowRequest(b).value);
    GrowKeepsIds(b, GrowRequest(b).value);
    ShrinkRequestIff(g);
    assert Shrunk(g, |b|) == Extended(g, |b|) == b;
  }

  function Power(n: nat): nat { if n == 0 then 1 else 2 * Power(n - 1) }

  /** The pool after growing `n` times by its own request, or nothing if one of them is refused. */
  function OwnGrows(b: Bits, n: nat): Option<Bits> {
    if n == 0 then Some(b)
    else
      match OwnGrows(b, n - 1)
      case None => None
      case Some(c) => if GrowRequest(c).None? then None else Some(Grown(c, GrowRequest(c).value))
  }

  /** Each growth doubles the capacity, and is refused exactly when that would exceed the maximum. */
  lemma {:induction false} GrowsDouble(b: Bits, n: nat)
    requires 0 < |b| <= 0x7FFF_FFFF
    ensures OwnGrows(b, n).Some? <==> |b| * Power(n) <= 0x7FFF_FFFF
    ensures OwnGrows(b, n).Some? ==>
              |OwnGrows(b, n).value| == |b| * Power(n) && SetIds(OwnGrows(b, n).value) == SetIds(b)
  {
    if n > 0 {
      GrowsDouble(b, n - 1);
      TimesPower(|b|, n);
      if OwnGrows(b, n - 1).Some? {
        GrowOnce(OwnGrows(b, n - 1).value);
      }
    }
  }

  lemma {:induction false} TimesPower(c: nat, n: nat)
    requires n > 0
    ensures c * Power(n) == 2 * (c * Power(n - 1))
  {
    var x := Power(n - 1);
    assert c * (2 * x) == 2 * (c * x);
  }

  lemma GrowOnce(c: Bits)
    requires |c| <= 0x7FFF_FFFF
    ensures GrowRequest(c).Some? <==> 2 * |c| <= 0x7FFF_FFFF
    ensures GrowRequest(c).Some? ==>
              var g := Grown(c, GrowRequest(c).value); |g| == 2 * |c| && SetIds(g) == SetIds(c)
  {
    GrowKeepsIds(c, 2 * |c|);
  }

  // ----- every interleaving -----

  ghost function SetIds(b: Bits): set<nat> {
    set i | 0 <= i < |b| && b[i]
  }

  /** The pool, the IDs handed out and not released, and the requests and resizers in flight. */
  datatype State = State(bits: Bits, live: set<nat>, requests: set<nat>, resizers: multiset<nat>)

  datatype Action =
    | Acquire(offset: nat)
    | Release(id: nat)
    | AskGrow
    | AskShrink
    | Realloc(size: nat, available: bool)
    | Grow(size: nat)
    | Shrink(size: nat)

  /** A resizer comes only from `realloc`, and `realloc` only from a request, both perhaps long ago. */
  predicate Enabled(s: State, a: Action) {
    match a
    case Realloc(n, _) => n in s.requests
    case Grow(n) => n in s.resizers
    case Shrink(n) => n in s.resizers
    case _ => true
  }

  ghost function Next(s: State, a: Action): State
    requires Enabled(s, a)
  {
    match a
    case Acquire(offset) =>
      var id := NextZeroBit(s.bits, offset);
      if id.None? then s else s.(bits := s.bits[id.value := true], live := s.live + {id.value})
    case Release(id) =>
      s.(bits := if id < |s.bits| then s.bits[id := false] else s.bits, live := s.live - {id})
    case AskGrow =>
      var r := GrowRequest(s.bits);
      if r.None? then s else s.(requests := s.requests + {r.value})
    case AskShrink =>
      var r := ShrinkRequest(s.bits);
      if r.None? then s else s.(requests := s.requests + {r.value})
    case Realloc(n, available) =>
      if n > MAX_LEN || (n > MAX_INLINE_LEN && !available) then s else s.(resizers := s.resizers + multiset{n})
    case Grow(n) => s.(bits := Grown(s.bits, n), resizers := s.resizers - multiset{n})
    case Shrink(n) => s.(bits := Shrunk(s.bits, n), resizers := s.resizers - multiset{n})
  }

  predicate InRange(n: nat) { MAX_INLINE_LEN <= n <= MAX_LEN }

  ghost predicate Inv(s: State) {
    && SetIds(s.bits) == s.live && InRange(|s.bits|)
    && (forall n :: n in s.requests ==> InRange(n))
    && (forall n :: n in s.resizers ==> InRange(n))
  }

  /**
   * One action on the pool itself. `resizer` is the bitmap that a grow or shrink is given; `request` and
   * `made` are what a request and a reallocation return.
   */
  method Perform(pool: IdPool, ghost s: State, a: Action, resizer: BitmapVec)
    returns (id: Option<nat>, request: Option<nat>, made: Option<BitmapVec>)
    requires pool.bitmap.bits == s.bits && Enabled(s, a) && resizer != pool.bitmap
    requires a.Grow? || a.Shrink? ==> |resizer.bits| == a.size
    modifies pool, pool.bitmap, resizer
    ensures pool.bitmap.bits == Next(s, a).bits
    ensures Next(s, a).live == if a.Release? then s.live - {a.id} else if id.Some? then s.live + {id.value} else s.live
    ensures Next(s, a).requests == if request.Some? then s.requests + {request.value} else s.requests
    ensures a.Realloc? ==>
              Next(s, a).resizers == s.resizers + (if made.Some? then multiset{|made.value.bits|} else multiset{})
    ensures a.Grow? || a.Shrink? ==> Next(s, a).resizers == s.resizers - multiset{a.size}
  {
    id, request, made := None, None, None;
    match a {
      case Acquire(offset) => id := pool.Acquire(offset);
      case Release(i) => pool.Release(i);
      case AskGrow => request := GrowRequest(pool.bitmap.bits);
      case AskShrink => request := ShrinkRequest(pool.bitmap.bits);
      case Realloc(n, available) => made := BitmapVec.New(n, available);
      case Grow(_) => pool.Grow(resizer);
      case Shrink(_) => pool.Shrink(resizer);
    }
  }

  /** Asking, reallocating and growing, with memory available, is always possible below half the maximum. */
  lemma GrowGoesThrough(s: State)
    requires Inv(s) && 2 * |s.bits| <= 0x7FFF_FFFF
    ensures var s1, n := Next(s, AskGrow), 2 * |s.bits|;
            && Enabled(s, AskGrow) && Enabled(s1, Realloc(n, true))
            && var s2 := Next(s1, Realloc(n, true));
               && Enabled(s2, Grow(n))
               && var s3 := Next(s2, Grow(n));
                  && |s3.bits| == n && s3.live == s.live && SetIds(s3.bits) == s.live && s3.resizers == s.resizers
  {
    var s1, n := Next(s, AskGrow), 2 * |s.bits|;
    assert n in s1.requests;
    var s2 := Next(s1, Realloc(n, true));
    assert n in s2.resizers;
    GrowKeepsIds(s.bits, n);
    assert s2.resizers - multiset{n} == s.resizers;
  }

  /** A shrink that is still allowed leaves every set bit inside the new length. */
  lemma ShrinkKeepsIds(b: Bits, n: nat)
    requires InRange(|b|)
    ensures SetIds(Shrunk(b, n)) == SetIds(b)
    ensures ShrinkRequest(b).Some? ==> MAX_INLINE_LEN <= ShrinkRequest(b).value <= |b|
    ensures |Shrunk(b, n)| == if ShrinkRequest(b).Some? && ShrinkRequest(b).value <= n then n else |b|
  {
    var b' := Shrunk(b, n);
    forall i | 0 <= i < |b| && b[i]
      ensures i < |b'| && b'[i]
    {
      if b' != b {
        assert i <= LastBit(b).value;
      }
    }
  }

  /**
   * When a shrink may be requested, and to what size: the capacity is above the minimum and no live
   * ID is past the first quarter; then half the capacity, or the minimum if that is more or if no
   * ID is live.
   */
  lemma ShrinkRequestIff(b: Bits)
    ensures ShrinkRequest(b).Some? <==> |b| > 64 && forall i :: i in SetIds(b) ==> i < |b| / 4
    ensures ShrinkRequest(b).Some? ==>
              ShrinkRequest(b).value == if SetIds(b) == {} || |b| / 2 < 64 then 64 else |b| / 2
  {
    var last := FindLastBit(b);
    if last < |b| {
      assert last in SetIds(b);
      assert forall i :: i in SetIds(b) ==> i <= last;
    } else {
      assert SetIds(b) == {};
    }
  }

  lemma GrowKeepsIds(b: Bits, n: nat)
    ensures SetIds(Grown(b, n)) == SetIds(b)
    ensures |Grown(b, n)| == Max(|b|, n)
  {
  }

  lemma StepKeeps(s: State, a: Action)
    requires Inv(s) && Enabled(s, a)
    ensures Inv(Next(s, a))
  {
    match a {
      case Grow(n) => GrowKeepsIds(s.bits, n);
      case Shrink(n) => ShrinkKeepsIds(s.bits, n);
      case AskShrink => ShrinkKeepsIds(s.bits, 0);
      case Acquire(offset) =>
        var id := NextZeroBit(s.bits, offset);
        if id.Some? {
          assert SetIds(s.bits[id.value := true]) == s.live + {id.value};
        }
      case Release(id) =>
        assert SetIds(Next(s, a).bits) == s.live - {id};
      case _ =>
    }
  }

  /**
   * What one step does to the live IDs: an acquisition hands out the least free ID from `offset`
   * on, never a live one, and fails exactly when none is free; a release gives back one; nothing
   * else changes which IDs are live.
   */
  lemma StepOnIds(s: State, a: Action)
    requires Inv(s) && Enabled(s, a)
    ensures a.Acquire? ==>
              match NextZeroBit(s.bits, a.offset)
              case Some(id) => a.offset <= id < |s.bits| && id !in s.live && Next(s, a).live == s.live + {id}
                               && forall j :: a.offset <= j < id ==> j in s.live
              case None => Next(s, a).live == s.live && forall j :: a.offset <= j < |s.bits| ==> j in s.live
    ensures a.Release? ==> Next(s, a).live == s.live - {a.id}
    ensures !a.Acquire? && !a.Release? ==> Next(s, a).live == s.live == SetIds(Next(s, a).bits)
  {
    StepKeeps(s, a);
    if a.Acquire? {
      assert forall j :: 0 <= j < |s.bits| ==> (j in s.live <==> s.bits[j]);
    }
  }

  /** `states` is a run of `actions` from a pool that starts empty with some admissible capacity. */
  ghost predicate Run(states: seq<State>, actions: seq<Action>) {
    && |states| == |actions| + 1
    && InRange(|states[0].bits|) && states[0] == State(Extended([], |states[0].bits|), {}, {}, multiset{})
    && forall i :: 0 <= i < |actions| ==> Enabled(states[i], actions[i]) && states[i + 1] == Next(states[i], actions[i])
  }

  /** In every reachable state the set bits are the live IDs and the capacity is in range. */
  lemma {:induction false} RunSafe(states: seq<State>, actions: seq<Action>, i: nat)
    requires Run(states, actions) && i < |states|
    ensures Inv(states[i]) && 64 <= |states[i].bits| <= 0x7FFF_FFFF
  {
    if i == 0 {
      assert SetIds(states[0].bits) == {};
    } else {
      RunSafe(states, actions, i - 1);
      StepKeeps(states[i - 1], actions[i - 1]);
    }
  }

  /** The ID that step `i` of a run hands out, if it is a successful acquisition. */
  function HandedOut(states: seq<State>, actions: seq<Action>, i: nat): Option<nat>
    requires |states| == |actions| + 1 && i < |actions|
  {
    if actions[i].Acquire? then NextZeroBit(states[i].bits, actions[i].offset) else None
  }

  /** After a step, an ID is live if the step handed it out, or if it was live and the step did not release it. */
  lemma LiveAfterStep(s: State, a: Action, id: nat)
    requires Inv(s) && Enabled(s, a)
    requires (a.Acquire? && NextZeroBit(s.bits, a.offset) == Some(id)) || (id in s.live && a != Release(id))
    ensures id in Next(s, a).live
  {
    StepOnIds(s, a);
  }

  lemma {:induction false} LiveInRun(states: seq<State>, actions: seq<Action>, j: nat, id: nat)
    requires Run(states, actions) && j < |actions|
    requires HandedOut(states, actions, j) == Some(id) || (id in states[j].live && actions[j] != Release(id))
    ensures id in states[j + 1].live && id < |states[j + 1].bits| && states[j + 1].bits[id]
  {
    RunSafe(states, actions, j);
    RunSafe(states, actions, j + 1);
    LiveAfterStep(states[j], actions[j], id);
    LiveIsSet(states[j + 1], id);
  }

  lemma LiveIsSet(s: State, id: nat)
    requires Inv(s) && id in s.live
    ensures id < |s.bits| && s.bits[id]
  {
    assert id in SetIds(s.bits);
  }

  /** An ID handed out stays live until it is released, whatever resizing happens in between. */
  lemma {:induction false} StaysLive(states: seq<State>, actions: seq<Action>, i: nat, j: nat, id: nat)
    requires Run(states, actions) && i < j < |states| && HandedOut(states, actions, i) == Some(id)
    requires forall k :: i < k < j ==> actions[k] != Release(id)
    ensures id in states[j].live && id < |states[j].bits| && states[j].bits[id]
    decreases j
  {
    if j > i + 1 {
      StaysLive(states, actions, i, j - 1, id);
      assert actions[j - 1] != Release(id);
    }
    LiveInRun(states, actions, j - 1, id);
  }

  /** No ID is handed out twice without a release in between. */
  lemma NoDoubleHandout(states: seq<State>, actions: seq<Action>, i: nat, j: nat, id: nat)
    requires Run(states, actions) && i < j < |actions|
    requires HandedOut(states, actions, i) == Some(id) && HandedOut(states, actions, j) == Some(id)
    ensures exists k :: i < k < j && actions[k] == Release(id)
  {
    if forall k :: i < k < j ==> actions[k] != Release(id) {
      StaysLive(states, actions, i, j, id);
    }
  }

  /** Exactly when a shrink enlarges the pool: it is still allowed, and the resizer is stale and larger. */
  lemma ShrinkEnlargesIff(b: Bits, n: nat)
    requires InRange(|b|)
    ensures |Shrunk(b, n)| > |b| <==> ShrinkRequest(b).Some? && n > |b|
    ensures |Shrunk(b, n)| < |b| <==> ShrinkRequest(b).Some? && ShrinkRequest(b).value <= n < |b|
  {
    ShrinkKeepsIds(b, n);
  }

  /** A bitmap of `n` bits of which only the first is set. */
  ghost function OneBit(n: nat): Bits { Extended([true], n) }

  lemma OneBitResizes(n: nat, m: nat)
    requires n >= 128 && m >= 64
    ensures ShrinkRequest(OneBit(n)) == Some(Max(MAX_INLINE_LEN, n / 2))
    ensures m >= Max(MAX_INLINE_LEN, n / 2) ==> Shrunk(OneBit(n), m) == OneBit(m)
  {
    assert OneBit(n)[0] && FindLastBit(OneBit(n)) == 0;
    assert Extended(OneBit(n), m) == OneBit(m);
  }

  lemma FirstAcquire(n: nat)
    requires n > 0
    ensures NextZeroBit(Extended([], n), 0) == Some(0) && Extended([], n)[0 := true] == OneBit(n)
  {
  }

  /** Any run may be continued by an enabled action. */
  lemma ContinueRun(states: seq<State>, actions: seq<Action>, a: Action, s: State)
    requires Run(states, actions) && Enabled(states[|actions|], a) && s == Next(states[|actions|], a)
    ensures Run(states + [s], actions + [a])
  {
  }

  /** A run that ends with one ID live in a pool of 512 and a request to shrink it to 256. */
  lemma OneLiveOneRequest() returns (states: seq<State>, actions: seq<Action>)
    ensures Run(states, actions) && states[|actions|] == State(OneBit(512), {0}, {256}, multiset{})
  {
    FirstAcquire(512);
    OneBitResizes(512, 256);
    states, actions := [State(Extended([], 512), {}, {}, multiset{})], [];
    var s1 := State(OneBit(512), {0}, {}, multiset{});
    ContinueRun(states, actions, Acquire(0), s1);
    states, actions := states + [s1], actions + [Acquire(0)];
    var s2 := s1.(requests := {256});
    ContinueRun(states, actions, AskShrink, s2);
    states, actions := states + [s2], actions + [AskShrink];
  }

  /** The request is realloced twice. */
  lemma TwoStaleResizers() returns (states: seq<State>, actions: seq<Action>)
    ensures Run(states, actions) && states[|actions|] == State(OneBit(512), {0}, {256}, multiset{256, 256})
  {
    states, actions := OneLiveOneRequest();
    var s3 := State(OneBit(512), {0}, {256}, multiset{256});
    ContinueRun(states, actions, Realloc(256, true), s3);
    states, actions := states + [s3], actions + [Realloc(256, true)];
    var s4 := s3.(resizers := multiset{256, 256});
    ContinueRun(states, actions, Realloc(256, true), s4);
    states, actions := states + [s4], actions + [Realloc(256, true)];
  }

  /** One of them is used, and another, smaller resize is asked for. */
  lemma ShrunkOnce() returns (states: seq<State>, actions: seq<Action>)
    ensures Run(states, actions) && states[|actions|] == State(OneBit(256), {0}, {256, 128}, multiset{256})
  {
    states, actions := TwoStaleResizers();
    OneBitResizes(512, 256);
    OneBitResizes(256, 128);
    var s5 := State(OneBit(256), {0}, {256}, multiset{256});
    assert multiset{256, 256} - multiset{256} == multiset{256};
    ContinueRun(states, actions, Shrink(256), s5);
    states, actions := states + [s5], actions + [Shrink(256)];
    var s6 := s5.(requests := {256, 128});
    ContinueRun(states, actions, AskShrink, s6);
    states, actions := states + [s6], actions + [AskShrink];
  }

  /** The run goes on until the pool has shrunk to 128 with the other of those resizers left over. */
  lemma ShrunkWithLeftover() returns (states: seq<State>, actions: seq<Action>)
    ensures Run(states, actions) && states[|actions|] == State(OneBit(128), {0}, {256, 128}, multiset{256})
  {
    states, actions := ShrunkOnce();
    OneBitResizes(256, 128);
    var s6 := State(OneBit(256), {0}, {256, 128}, multiset{256});
    var s7 := s6.(resizers := multiset{256, 128});
    ContinueRun(states, actions, Realloc(128, true), s7);
    states, actions := states + [s7], actions + [Realloc(128, true)];
    var s8 := s6.(bits := OneBit(128));
    assert multiset{256, 128} - multiset{128} == multiset{256};
    ContinueRun(states, actions, Shrink(128), s8);
    states, actions := states + [s8], actions + [Shrink(128)];
  }

  /** A run whose last step, a shrink with a resizer left over from before, doubles the pool. */
  lemma StaleShrinkEnlarges() returns (states: seq<State>, actions: seq<Action>)
    ensures Run(states, actions) && |actions| > 0 && actions[|actions| - 1].Shrink?
    ensures |states[|actions| - 1].bits| == 128 && |states[|actions|].bits| == 256
  {
    states, actions := ShrunkWithLeftover();
    OneBitResizes(128, 256);
    var s := State(OneBit(256), {0}, {256, 128}, multiset{});
    ContinueRun(states, actions, Shrink(256), s);
    states, actions := states + [s], actions + [Shrink(256)];
  }

  /** After a full pool is grown with its own request, a new ID is available, beyond the old ones. */
  lemma GrowMakesRoom(s: State)
    requires Inv(s) && NextZeroBit(s.bits, 0) == None && GrowRequest(s.bits).Some?
    ensures var b := Grown(s.bits, GrowRequest(s.bits).value);
            NextZeroBit(b, 0) == Some(|s.bits|)
  {
    var b := Grown(s.bits, GrowRequest(s.bits).value);
    var i := FindNextZeroBit(b, 0);
    assert forall j :: 0 <= j < |s.bits| ==> s.bits[j] && b[j];
    assert !b[|s.bits|];
  }
}
