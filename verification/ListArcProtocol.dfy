/**
 * The "at most one ListArc per object and ID" protocol of rust/src/list/arc.rs, together with the
 * reference count of rust/src/sync/arc.rs that it leans on.
 *
 * The model is a step relation. An object carries its count, its trackers and every handle that
 * some thread or list owns; each action is one atomic memory access, so a thread may be suspended
 * between any two of them and every interleaving is a run.
 */
module ListArcProtocol {
  type Obj = nat
  type Id = nat
  type Name = nat

  /** The tracking inside `T` for one ID: none at all, or an `AtomicTracker`. */
  datatype Tracking = Untracked | Atomic(flag: bool)

  datatype Kind =
    | Arc
    /** A `UniqueArc`; `marked` are the IDs already announced by on_create_list_arc_from_unique. */
    | Unique(marked: set<Id>)
    /** into_unique_or_drop brought the count to zero and has not yet written one. */
    | Claimed
    /** try_new_list_arc returned true for this `Arc`; the transmute is still to come. */
    | Won(id: Id)
    /** try_new_list_arc returned true for a borrow of `lender`; the count is not yet raised. */
    | BorrowWon(id: Id, lender: Name)
    | ListArc(id: Id)
    /** A `ListArc` turned into a raw pointer and owned by a list. */
    | Listed(id: Id)
    /** into_arc has transmuted the `ListArc` and not yet run on_drop_list_arc. */
    | Released(id: Id)
    /** ListArc::drop has run on_drop_list_arc and not yet dropped its inner `Arc`. */
    | Dropping

  type Handles = map<Name, Kind>

  /** `live` turns false when the memory is freed. */
  datatype Object = Object(live: bool, refcount: nat, tracker: map<Id, Tracking>, handles: Handles)

  type State = map<Obj, Object>

  /** Whether a handle owns one unit of the reference count. */
  predicate Weighs(k: Kind) { !k.Claimed? && !k.BorrowWon? }

  /** Whether a handle is, is about to be, or was until its pending store, the `ListArc` of `id`. */
  predicate Claims(k: Kind, id: Id) { HasId(k) && k.id == id }

  predicate HasId(k: Kind) { k.Won? || k.BorrowWon? || k.ListArc? || k.Listed? || k.Released? }

  /** Whether a handle has told the tracking inside `T` about `id`. */
  predicate Announces(k: Kind, id: Id) {
    Claims(k, id) || (k.Unique? && id in k.marked)
  }

  predicate Exclusive(k: Kind) { k.Unique? || k.Claimed? }

  /** Handles through which an `Arc` can be cloned or borrowed. */
  predicate Lendable(k: Kind) { k.Arc? || k.ListArc? || k.Listed? }

  ghost predicate Lent(hs: Handles, h: Name) {
    exists g :: g in hs && hs[g].BorrowWon? && hs[g].lender == h
  }

  ghost function Owners(hs: Handles): set<Name> {
    set h | h in hs && Weighs(hs[h])
  }

  datatype Action =
    | Clone(h: Name, g: Name)
    | DropRef(h: Name)
    | DecForUnique(h: Name)
    | WriteOne(h: Name)
    | MarkUnique(h: Name, id: Id)
    | FromUnique(h: Name, id: Id)
    | PairFromUnique(h: Name, id: Id, id2: Id, g: Name)
    | UniqueToArc(h: Name)
    | CompareExchange(h: Name, id: Id)
    | TransmuteWon(h: Name)
    | BorrowCompareExchange(h: Name, id: Id, g: Name)
    | RaiseBorrowWon(h: Name)
    | IntoList(h: Name)
    | OutOfList(h: Name)
    | TransmuteToArc(h: Name)
    | StoreFalse(h: Name)
    | DropListArcStore(h: Name)
    /** A call of the safe method try_new_list_arc whose answer is thrown away. */
    | BareTryNew(h: Name, id: Id)
    /** ListArc::into_raw, then Arc::from_raw: the tracker is not told. */
    | RawToArc(h: Name)

  /** Which owner may perform which action. A handle that is borrowed may not be moved or dropped. */
  ghost predicate Enabled(o: Object, a: Action) {
    var hs, tr := o.handles, o.tracker;
    a.h in hs &&
    var k := hs[a.h];
    match a
    case Clone(_, g) => g !in hs && Lendable(k)
    case DropRef(h) => !Lent(hs, h) && (k.Arc? || k.Dropping? || k == Unique({}))
    case DecForUnique(h) => !Lent(hs, h) && k.Arc?
    case WriteOne(_) => k.Claimed?
    case MarkUnique(_, id) => k.Unique? && id in tr
    case FromUnique(_, id) => k == Unique({id})
    case PairFromUnique(_, id, id2, g) => id != id2 && k == Unique({id, id2}) && g !in hs
    case UniqueToArc(_) => k == Unique({})
    case CompareExchange(h, id) => !Lent(hs, h) && k.Arc? && id in tr && tr[id].Atomic?
    case TransmuteWon(_) => k.Won?
    case BorrowCompareExchange(_, id, g) => Lendable(k) && id in tr && tr[id].Atomic? && g !in hs
    case RaiseBorrowWon(_) => k.BorrowWon?
    case IntoList(h) => !Lent(hs, h) && k.ListArc?
    case OutOfList(h) => !Lent(hs, h) && k.Listed?
    case TransmuteToArc(h) => !Lent(hs, h) && k.ListArc?
    case StoreFalse(_) => k.Released? && k.id in tr
    case DropListArcStore(h) => !Lent(hs, h) && k.ListArc? && k.id in tr
    case BareTryNew(_, id) => (Lendable(k) || k.Unique?) && id in tr && tr[id].Atomic?
    case RawToArc(h) => !Lent(hs, h) && k.ListArc?
  }

  /** A store to the tracker of `id`; a type that tracks nothing ignores it. */
  function Store(tr: map<Id, Tracking>, id: Id, b: bool): map<Id, Tracking>
    requires id in tr
  {
    tr[id := if tr[id].Untracked? then Untracked else Atomic(b)]
  }

  /** refcount_dec_and_test on behalf of `h`, and the free that follows when the count reaches zero. */
  function Decrement(o: Object, h: Name): Object {
    if o.refcount <= 1 then o.(live := false, refcount := 0, handles := o.handles - {h})
    else o.(refcount := o.refcount - 1, handles := o.handles - {h})
  }

  ghost function Do(o: Object, a: Action): Object
    requires Enabled(o, a)
  {
    var hs, tr, n, k := o.handles, o.tracker, o.refcount, o.handles[a.h];
    match a
    case Clone(_, g) => o.(refcount := n + 1, handles := hs[g := Arc])
    case DropRef(h) => Decrement(o, h)
    case DecForUnique(h) => if n <= 1 then o.(refcount := 0, handles := hs[h := Claimed]) else Decrement(o, h)
    case WriteOne(h) => o.(refcount := 1, handles := hs[h := Unique({})])
    case MarkUnique(h, id) => o.(tracker := Store(tr, id, true), handles := hs[h := Unique(k.marked + {id})])
    case FromUnique(h, id) => o.(handles := hs[h := ListArc(id)])
    case PairFromUnique(h, id, id2, g) => o.(refcount := n + 1, handles := hs[h := ListArc(id)][g := ListArc(id2)])
    case UniqueToArc(h) => o.(handles := hs[h := Arc])
    case CompareExchange(h, id) =>
      if tr[id].flag then o else o.(tracker := Store(tr, id, true), handles := hs[h := Won(id)])
    case TransmuteWon(h) => o.(handles := hs[h := ListArc(k.id)])
    case BorrowCompareExchange(h, id, g) =>
      if tr[id].flag then o else o.(tracker := Store(tr, id, true), handles := hs[g := BorrowWon(id, h)])
    case RaiseBorrowWon(h) => o.(refcount := n + 1, handles := hs[h := ListArc(k.id)])
    case IntoList(h) => o.(handles := hs[h := Listed(k.id)])
    case OutOfList(h) => o.(handles := hs[h := ListArc(k.id)])
    case TransmuteToArc(h) => o.(handles := hs[h := Released(k.id)])
    case StoreFalse(h) => o.(tracker := Store(tr, k.id, false), handles := hs[h := Arc])
    case DropListArcStore(h) => o.(tracker := Store(tr, k.id, false), handles := hs[h := Dropping])
    case BareTryNew(_, id) => if tr[id].flag then o else o.(tracker := Store(tr, id, true))
    case RawToArc(h) => o.(handles := hs[h := Arc])
  }

  /** The count is the number of handles that own a unit of it. */
  ghost predicate Counted(o: Object) { o.refcount == |Owners(o.handles)| }

  /** Memory is freed exactly when no handle is left: nothing dangles and nothing leaks. */
  ghost predicate LiveIffHeld(o: Object) { o.live <==> exists h :: h in o.handles }

  /** A `UniqueArc`, or a claim to one, is the only handle. */
  ghost predicate Alone(hs: Handles) {
    forall h, g :: h in hs && g in hs && h != g ==> !Exclusive(hs[h])
  }

  /** At most one handle per ID holds, is about to hold or has just held the `ListArc`. */
  ghost predicate OneClaim(hs: Handles) {
    forall h, g, id {:trigger Claims(hs[h], id), Claims(hs[g], id)} ::
      h in hs && g in hs && Claims(hs[h], id) && Claims(hs[g], id) ==> h == g
  }

  ghost predicate Announced(tr: map<Id, Tracking>, id: Id) { id in tr && tr[id] != Atomic(false) }

  /** While such a handle exists the tracker is not false. */
  ghost predicate Tracked(o: Object) {
    forall h, id :: h in o.handles && Announces(o.handles[h], id) ==> Announced(o.tracker, id)
  }

  /**
   * An atomic tracker is true only on account of a handle that announced its ID. The documentation
   * does not promise this, and it is not part of the invariant.
   */
  ghost predicate Attested(o: Object) {
    forall id :: id in o.tracker && o.tracker[id] == Atomic(true) ==> Announcer(o.handles, id)
  }

  ghost predicate Announcer(hs: Handles, id: Id) { exists h :: h in hs && Announces(hs[h], id) }

  /** A borrow in progress keeps its lender in place. */
  ghost predicate LendersStay(hs: Handles) {
    forall h :: h in hs && hs[h].BorrowWon? ==> hs[h].lender in hs && Lendable(hs[hs[h].lender])
  }

  ghost predicate Inv(o: Object) {
    && Counted(o) && LiveIffHeld(o) && Alone(o.handles) && OneClaim(o.handles)
    && Tracked(o) && LendersStay(o.handles)
  }

  lemma OwnersUpdate(hs: Handles, h: Name, k: Kind)
    ensures Owners(hs[h := k]) == if Weighs(k) then Owners(hs) + {h} else Owners(hs) - {h}
  {
  }

  lemma OwnersRemove(hs: Handles, h: Name)
    ensures Owners(hs - {h}) == Owners(hs) - {h}
  {
  }

  function Weight(k: Kind): nat { if Weighs(k) then 1 else 0 }

  /**
   * A tracker update is sound for a handle turning from `k` into `k'` if it is not false for what
   * `k'` announces, and turns false only for what `k` claimed and `k'` no longer announces.
   */
  ghost predicate SoundStore(tr: map<Id, Tracking>, tr': map<Id, Tracking>, k: Kind, k': Kind) {
    && (forall id :: Announces(k', id) ==> Announced(tr', id))
    && (forall id :: Announced(tr, id) && !Announced(tr', id) ==> Claims(k, id) && !Announces(k', id))
  }

  /** The kind `h` had; an `Arc`, which claims nothing, if `h` is new. */
  function Was(hs: Handles, h: Name): Kind { if h in hs then hs[h] else Arc }

  lemma CountAfter(o: Object, h: Name, k: Kind, n: nat)
    requires Counted(o) && n == o.refcount - (if h in o.handles then Weight(o.handles[h]) else 0) + Weight(k)
    ensures n == |Owners(o.handles[h := k])|
  {
    OwnersUpdate(o.handles, h, k);
    assert h in Owners(o.handles) <==> h in o.handles && Weighs(o.handles[h]);
  }

  lemma ClaimsAfter(o: Object, h: Name, k: Kind)
    requires Alone(o.handles) && OneClaim(o.handles) && Tracked(o)
    requires forall id :: Claims(k, id) ==>
               !Announced(o.tracker, id) || (h in o.handles && Announces(o.handles[h], id))
               || forall g :: g in o.handles && g != h ==> !Claims(o.handles[g], id)
    ensures OneClaim(o.handles[h := k])
  {
    var hs := o.handles;
    forall g, id | g in hs && g != h && Claims(hs[g], id)
      ensures !Claims(k, id)
    {
      assert Announces(hs[g], id);
    }
  }

  /** What `g` announces, no other handle claims. */
  lemma NotClaimedByAnother(hs: Handles, g: Name, k: Kind, h: Name, id: Id)
    requires Alone(hs) && OneClaim(hs) && g in hs && g != h && Announces(hs[g], id) && k == Was(hs, h)
    ensures !Claims(k, id)
  {
  }

  lemma TrackedAfter(o: Object, h: Name, k: Kind, tr: map<Id, Tracking>)
    requires Alone(o.handles) && OneClaim(o.handles) && Tracked(o)
    requires SoundStore(o.tracker, tr, Was(o.handles, h), k)
    ensures Tracked(o.(tracker := tr, handles := o.handles[h := k]))
  {
    var hs := o.handles;
    forall g, id | g in hs && g != h && Announces(hs[g], id)
      ensures Announced(tr, id)
    {
      assert Announced(o.tracker, id);
      NotClaimedByAnother(hs, g, Was(hs, h), h, id);
    }
  }

  lemma LendersAfter(hs: Handles, h: Name, k: Kind)
    requires LendersStay(hs) && (Lent(hs, h) ==> Lendable(k))
    requires k.BorrowWon? ==> k.lender in hs && k.lender != h && Lendable(hs[k.lender])
    ensures LendersStay(hs[h := k])
  {
  }

  /** One handle is created or changes kind, with the count and the tracker that go with it. */
  lemma UpdateKeeps(o: Object, h: Name, k: Kind, tr: map<Id, Tracking>, n: nat)
    requires Inv(o) && SoundStore(o.tracker, tr, Was(o.handles, h), k)
    requires n == o.refcount - (if h in o.handles then Weight(o.handles[h]) else 0) + Weight(k)
    requires Exclusive(k) ==> o.handles.Keys == {h}
    requires h in o.handles || exists g :: g in o.handles && Lendable(o.handles[g])
    requires Lent(o.handles, h) ==> Lendable(k)
    requires k.BorrowWon? ==> k.lender in o.handles && k.lender != h && Lendable(o.handles[k.lender])
    requires forall id :: Claims(k, id) ==>
               !Announced(o.tracker, id) || (h in o.handles && Announces(o.handles[h], id))
               || forall g :: g in o.handles && g != h ==> !Claims(o.handles[g], id)
    ensures Inv(Object(o.live, n, tr, o.handles[h := k]))
  {
    var o' := Object(o.live, n, tr, o.handles[h := k]);
    CountAfter(o, h, k, n);
    ClaimsAfter(o, h, k);
    TrackedAfter(o, h, k, tr);
    LendersAfter(o.handles, h, k);
    assert LiveIffHeld(o') by { assert h in o'.handles; }
    assert Alone(o'.handles) by { AloneAfter(o.handles, h, k); }
    assert o' == o.(refcount := n, tracker := tr, handles := o.handles[h := k]);
  }

  lemma AloneAfter(hs: Handles, h: Name, k: Kind)
    requires Alone(hs) && (Exclusive(k) ==> hs.Keys == {h})
    requires h in hs || exists g :: g in hs && Lendable(hs[g])
    ensures Alone(hs[h := k])
  {
    forall g | g in hs && g != h
      ensures !Exclusive(hs[g]) && !Exclusive(k)
    {
      if h !in hs {
        var l :| l in hs && Lendable(hs[l]);
        assert g != l ==> !Exclusive(hs[g]);
      }
    }
  }

  /** Besides an owner that is not lent, any other handle implies another owner. */
  lemma AnotherOwner(o: Object, h: Name, g: Name) returns (l: Name)
    requires Inv(o) && h in o.handles && g in o.handles && g != h
    requires Weighs(o.handles[h]) && !Lent(o.handles, h)
    ensures l in Owners(o.handles) && l != h
  {
    l := if o.handles[g].BorrowWon? then o.handles[g].lender else g;
  }

  /** If one unit of the count is left, its owner is the only handle there is. */
  lemma LastOwnerIsOnly(o: Object, h: Name)
    requires Inv(o) && h in o.handles && Weighs(o.handles[h]) && o.refcount <= 1 && !Lent(o.handles, h)
    ensures o.refcount == 1 && o.handles.Keys == {h}
  {
    var hs := o.handles;
    assert h in Owners(hs);
    assert |Owners(hs) - {h}| == |Owners(hs)| - 1;
    forall g | g in hs
      ensures g == h
    {
      if g != h {
        var l := AnotherOwner(o, h, g);
      }
    }
  }

  lemma RemoveKeeps(o: Object, h: Name)
    requires Inv(o) && h in o.handles && Weighs(o.handles[h]) && !Lent(o.handles, h)
    requires forall id :: !Announces(o.handles[h], id)
    ensures Inv(Decrement(o, h))
    ensures Decrement(o, h).live <==> o.refcount > 1
  {
    var hs, o' := o.handles, Decrement(o, h);
    OwnersRemove(hs, h);
    assert h in Owners(hs);
    if o.refcount <= 1 {
      LastOwnerIsOnly(o, h);
      assert o'.handles == map[];
    } else {
      assert |Owners(hs) - {h}| > 0;
      var g :| g in Owners(hs) - {h};
      assert g in o'.handles;
    }
    assert OneClaim(o'.handles) by {
      forall g, f, id | g in o'.handles && f in o'.handles && Claims(o'.handles[g], id) && Claims(o'.handles[f], id)
        ensures g == f
      {
        assert Claims(hs[g], id) && Claims(hs[f], id);
      }
    }
    assert Tracked(o') by {
      forall g, id | g in o'.handles && Announces(o'.handles[g], id)
        ensures Announced(o'.tracker, id)
      {
        assert Announces(hs[g], id);
      }
    }
  }

  lemma MarkKeeps(o: Object, h: Name, id: Id)
    requires Inv(o) && Enabled(o, MarkUnique(h, id))
    ensures Inv(Do(o, MarkUnique(h, id)))
  {
    var k, k', tr' := o.handles[h], Unique(o.handles[h].marked + {id}), Store(o.tracker, id, true);
    assert Exclusive(k) && o.handles.Keys == {h} && !Lent(o.handles, h);
    forall i | Announces(k', i)
      ensures Announced(tr', i)
    {
      if i != id {
        assert Announces(k, i);
        assert Announced(o.tracker, i);
      }
    }
    UpdateKeeps(o, h, k', tr', o.refcount);
  }

  /** Actions on a `UniqueArc` or on a claim to one. */
  lemma UniqueActionKeeps(o: Object, a: Action)
    requires Inv(o) && Enabled(o, a) && Exclusive(o.handles[a.h]) && !a.DropRef? && !a.BareTryNew?
    ensures Inv(Do(o, a))
  {
    var hs, tr, n, h := o.handles, o.tracker, o.refcount, a.h;
    var k := hs[h];
    assert hs.Keys == {h} && !Lent(hs, h);
    match a {
      case WriteOne(_) =>
        assert Owners(hs) == {};
        UpdateKeeps(o, h, Unique({}), tr, 1);
      case MarkUnique(_, id) => MarkKeeps(o, h, id);
      case FromUnique(_, id) =>
        assert Announces(k, id);
        UpdateKeeps(o, h, ListArc(id), tr, n);
      case PairFromUnique(_, id, id2, g) => PairKeeps(o, h, id, id2, g);
      case UniqueToArc(_) => UpdateKeeps(o, h, Arc, tr, n);
    }
  }

  /** The claiming handle passes its claim on: the tracker stays as it is. */
  lemma ClaimPassesOn(o: Object, h: Name, k: Kind, n: nat)
    requires Inv(o) && h in o.handles && HasId(o.handles[h])
    requires (k.ListArc? || k.Listed? || k.Released?) && k.id == o.handles[h].id
    requires n == o.refcount + if o.handles[h].BorrowWon? then 1 else 0
    requires Lent(o.handles, h) ==> Lendable(k)
    ensures Inv(Object(o.live, n, o.tracker, o.handles[h := k]))
  {
    assert Announces(o.handles[h], k.id);
    assert forall id :: Announces(k, id) <==> Announces(o.handles[h], id);
    UpdateKeeps(o, h, k, o.tracker, n);
  }

  /** The claiming handle gives its claim up with a store of false. */
  lemma ClaimGivenUp(o: Object, h: Name, k: Kind)
    requires Inv(o) && h in o.handles && (o.handles[h].ListArc? || o.handles[h].Released?)
    requires o.handles[h].id in o.tracker && (k.Arc? || k.Dropping?) && !Lent(o.handles, h)
    ensures Inv(Object(o.live, o.refcount, Store(o.tracker, o.handles[h].id, false), o.handles[h := k]))
  {
    var id := o.handles[h].id;
    assert Announces(o.handles[h], id) && forall i :: !Announces(k, i);
    UpdateKeeps(o, h, k, Store(o.tracker, id, false), o.refcount);
  }

  /** Actions on the handle that claims an ID. */
  lemma ClaimActionKeeps(o: Object, a: Action)
    requires Inv(o) && Enabled(o, a) && !a.Clone? && !a.BorrowCompareExchange? && !a.BareTryNew? && !a.RawToArc?
    requires HasId(o.handles[a.h])
    ensures Inv(Do(o, a))
  {
    var n, h := o.refcount, a.h;
    var k := o.handles[h];
    match a {
      case TransmuteWon(_) => ClaimPassesOn(o, h, ListArc(k.id), n);
      case RaiseBorrowWon(_) => ClaimPassesOn(o, h, ListArc(k.id), n + 1);
      case IntoList(_) => ClaimPassesOn(o, h, Listed(k.id), n);
      case OutOfList(_) => ClaimPassesOn(o, h, ListArc(k.id), n);
      case TransmuteToArc(_) => ClaimPassesOn(o, h, Released(k.id), n);
      case StoreFalse(_) => ClaimGivenUp(o, h, Arc);
      case DropListArcStore(_) => ClaimGivenUp(o, h, Dropping);
    }
  }

  /** Actions that read or raise the count, or try the tracker, on behalf of a shared reference. */
  lemma SharedActionKeeps(o: Object, a: Action)
    requires Inv(o) && Enabled(o, a) && (a.Clone? || a.CompareExchange? || a.BorrowCompareExchange?)
    ensures Inv(Do(o, a))
  {
    var tr, n, h := o.tracker, o.refcount, a.h;
    match a {
      case Clone(_, g) => UpdateKeeps(o, g, Arc, tr, n + 1);
      case CompareExchange(_, id) =>
        if !tr[id].flag {
          UpdateKeeps(o, h, Won(id), Store(tr, id, true), n);
        }
      case BorrowCompareExchange(_, id, g) =>
        if !tr[id].flag {
          UpdateKeeps(o, g, BorrowWon(id, h), Store(tr, id, true), n);
        }
    }
  }

  /** into_unique_or_drop lowers the count and claims the object if it was the last. */
  lemma DecForUniqueKeeps(o: Object, h: Name)
    requires Inv(o) && Enabled(o, DecForUnique(h))
    ensures Inv(Do(o, DecForUnique(h)))
  {
    if o.refcount <= 1 {
      LastOwnerIsOnly(o, h);
      UpdateKeeps(o, h, Claimed, o.tracker, 0);
    } else {
      RemoveKeeps(o, h);
    }
  }

  /** A tracker that turns true without a claim can only refuse claims. */
  lemma BareTryNewKeeps(o: Object, h: Name, id: Id)
    requires Inv(o) && Enabled(o, BareTryNew(h, id))
    ensures Inv(Do(o, BareTryNew(h, id)))
  {
    var o' := Do(o, BareTryNew(h, id));
    forall g, i | g in o.handles && Announces(o.handles[g], i)
      ensures Announced(o'.tracker, i)
    {
      assert Announced(o.tracker, i);
    }
  }

  /** Nor does giving up a claim without telling the tracker endanger anything. */
  lemma RawToArcKeeps(o: Object, h: Name)
    requires Inv(o) && Enabled(o, RawToArc(h))
    ensures Inv(Do(o, RawToArc(h)))
  {
    UpdateKeeps(o, h, Arc, o.tracker, o.refcount);
  }

  /** Every action of every owner keeps the invariant. */
  lemma ActionKeeps(o: Object, a: Action)
    requires Inv(o) && Enabled(o, a)
    ensures Inv(Do(o, a))
  {
    if a.DropRef? {
      RemoveKeeps(o, a.h);
    } else if a.DecForUnique? {
      DecForUniqueKeeps(o, a.h);
    } else if a.Clone? || a.CompareExchange? || a.BorrowCompareExchange? {
      SharedActionKeeps(o, a);
    } else if a.BareTryNew? {
      BareTryNewKeeps(o, a.h, a.id);
    } else if a.RawToArc? {
      RawToArcKeeps(o, a.h);
    } else if Exclusive(o.handles[a.h]) {
      UniqueActionKeeps(o, a);
    } else {
      ClaimActionKeeps(o, a);
    }
  }

  lemma PairKeeps(o: Object, h: Name, id: Id, id2: Id, g: Name)
    requires Inv(o) && Enabled(o, PairFromUnique(h, id, id2, g))
    ensures Inv(Do(o, PairFromUnique(h, id, id2, g)))
  {
    var o' := Do(o, PairFromUnique(h, id, id2, g));
    assert o.handles.Keys == {h} && Owners(o.handles) == {h};
    var hs: Handles := map[h := ListArc(id), g := ListArc(id2)];
    assert o'.handles == hs;
    TwoListArcs(hs, h, id, g, id2);
    assert Announces(o.handles[h], id) && Announces(o.handles[h], id2);
    assert LiveIffHeld(o') by { assert h in o'.handles; }
  }

  lemma TwoListArcs(hs: Handles, h: Name, id: Id, g: Name, id2: Id)
    requires h != g && id != id2 && hs == map[h := ListArc(id), g := ListArc(id2)]
    ensures Owners(hs) == {h, g} && Alone(hs) && OneClaim(hs) && LendersStay(hs)
    ensures forall f, i :: f in hs && Announces(hs[f], i) ==> i == id || i == id2
  {
  }

  // ----- what the operations deliver, from end to end -----

  /** The object with the handle `h` of another kind and the tracker of `id` set, if there is one. */
  function With(o: Object, n: nat, id: Id, flag: bool, h: Name, k: Kind): Object {
    var tr := if id in o.tracker && o.tracker[id].Atomic? then o.tracker[id := Atomic(flag)] else o.tracker;
    Object(o.live, n, tr, o.handles[h := k])
  }

  /** `try_from_arc` makes the `Arc` the `ListArc` if the tracker was false, and otherwise gives it back. */
  lemma TryFromArc(o: Object, h: Name, id: Id)
    requires h in o.handles && o.handles[h] == Arc && !Lent(o.handles, h) && id in o.tracker && o.tracker[id].Atomic?
    ensures Enabled(o, CompareExchange(h, id))
    ensures var o1 := Do(o, CompareExchange(h, id));
            if o.tracker[id] == Atomic(false) then
              && o1.handles[h] != Arc && Enabled(o1, TransmuteWon(h))
              && Do(o1, TransmuteWon(h)) == With(o, o.refcount, id, true, h, ListArc(id))
            else o1 == o
  {
    if o.tracker[id] == Atomic(false) {
      var o1 := Do(o, CompareExchange(h, id));
      assert o1.handles[h := ListArc(id)] == o.handles[h := ListArc(id)];
    }
  }

  /** `try_from_arc_borrow` makes a new `ListArc` beside the borrowed reference, with a unit of the count. */
  lemma TryFromArcBorrow(o: Object, h: Name, id: Id, g: Name)
    requires h in o.handles && (o.handles[h].Arc? || o.handles[h].ListArc? || o.handles[h].Listed?) && g !in o.handles
    requires id in o.tracker && o.tracker[id].Atomic?
    ensures Enabled(o, BorrowCompareExchange(h, id, g))
    ensures var o1 := Do(o, BorrowCompareExchange(h, id, g));
            if o.tracker[id] == Atomic(false) then
              && g in o1.handles && Enabled(o1, RaiseBorrowWon(g))
              && Do(o1, RaiseBorrowWon(g)) == With(o, o.refcount + 1, id, true, g, ListArc(id))
            else o1 == o
  {
    if o.tracker[id] == Atomic(false) {
      var o1 := Do(o, BorrowCompareExchange(h, id, g));
      assert o1.handles[g := ListArc(id)] == o.handles[g := ListArc(id)];
    }
  }

  /** `into_arc` makes the `ListArc` an `Arc` again and clears the tracker. */
  lemma IntoArc(o: Object, h: Name, id: Id)
    requires h in o.handles && o.handles[h] == ListArc(id) && !Lent(o.handles, h) && id in o.tracker
    ensures Enabled(o, TransmuteToArc(h)) && Enabled(Do(o, TransmuteToArc(h)), StoreFalse(h))
    ensures Do(Do(o, TransmuteToArc(h)), StoreFalse(h)) == With(o, o.refcount, id, false, h, Arc)
  {
    var o1 := Do(o, TransmuteToArc(h));
    assert o1.handles[h := Arc] == o.handles[h := Arc];
    assert o.tracker[id].Untracked? ==> o.tracker[id := Untracked] == o.tracker;
  }

  /** So an `Arc` that becomes a `ListArc` and an `Arc` again leaves no trace. */
  lemma ArcRoundTrip(o: Object, h: Name, id: Id)
    requires h in o.handles && o.handles[h] == Arc && !Lent(o.handles, h)
    requires id in o.tracker && o.tracker[id] == Atomic(false)
    ensures Enabled(o, CompareExchange(h, id)) && Enabled(Do(o, CompareExchange(h, id)), TransmuteWon(h))
    ensures var o2 := Do(Do(o, CompareExchange(h, id)), TransmuteWon(h));
            && Enabled(o2, TransmuteToArc(h)) && Enabled(Do(o2, TransmuteToArc(h)), StoreFalse(h))
            && Do(Do(o2, TransmuteToArc(h)), StoreFalse(h)) == o
  {
    TryFromArc(o, h, id);
    var o2 := With(o, o.refcount, id, true, h, ListArc(id));
    IntoArc(o2, h, id);
    assert o2.handles[h := Arc] == o.handles;
    assert o2.tracker[id := Atomic(false)] == o.tracker;
  }

  /** Dropping a `ListArc` clears the tracker and gives back its unit; the last one frees the object. */
  lemma DropListArc(o: Object, h: Name, id: Id)
    requires h in o.handles && o.handles[h] == ListArc(id) && !Lent(o.handles, h) && id in o.tracker
    ensures Enabled(o, DropListArcStore(h)) && Enabled(Do(o, DropListArcStore(h)), DropRef(h))
    ensures var o2, o' := Do(Do(o, DropListArcStore(h)), DropRef(h)), With(o, o.refcount, id, false, h, Dropping);
            && o2.tracker == o'.tracker && o2.handles == o.handles - {h}
            && (o.refcount > 1 ==> o2.live == o.live && o2.refcount == o.refcount - 1)
            && (o.refcount <= 1 ==> !o2.live && o2.refcount == 0)
  {
    var o1 := Do(o, DropListArcStore(h));
    assert o1.handles - {h} == o.handles - {h};
    assert o.tracker[id].Untracked? ==> o.tracker[id := Untracked] == o.tracker;
  }

  /** A `UniqueArc` becomes the `ListArc` of any ID of the type, or an `Arc`. */
  lemma FromUniqueArc(o: Object, h: Name, id: Id)
    requires h in o.handles && o.handles[h] == Unique({}) && id in o.tracker
    ensures Enabled(o, MarkUnique(h, id)) && Enabled(Do(o, MarkUnique(h, id)), FromUnique(h, id))
    ensures Do(Do(o, MarkUnique(h, id)), FromUnique(h, id)) == With(o, o.refcount, id, true, h, ListArc(id))
    ensures Enabled(o, UniqueToArc(h)) && Do(o, UniqueToArc(h)) == o.(handles := o.handles[h := Arc])
  {
    var o1 := Do(o, MarkUnique(h, id));
    assert {} + {id} == {id};
    assert o1.handles[h := ListArc(id)] == o.handles[h := ListArc(id)];
    assert o.tracker[id].Untracked? ==> o.tracker[id := Untracked] == o.tracker;
  }

  /** Or it is dropped, and with it the object. */
  lemma DropUniqueArc(o: Object, h: Name)
    requires Inv(o) && h in o.handles && o.handles[h] == Unique({})
    ensures Enabled(o, DropRef(h)) && Do(o, DropRef(h)) == Object(false, 0, o.tracker, map[])
  {
    assert Exclusive(o.handles[h]) && o.handles.Keys == {h} && Owners(o.handles) == {h};
    assert o.handles - {h} == map[];
  }

  /** Or two ListArcs of different IDs, with one more unit of the count. */
  lemma PairFromUniqueArc(o: Object, h: Name, id: Id, id2: Id, g: Name)
    requires o.handles == map[h := Unique({})] && id in o.tracker && id2 in o.tracker && id != id2 && g != h
    ensures var o1 := Do(o, MarkUnique(h, id));
            && Enabled(o1, MarkUnique(h, id2)) && Enabled(Do(o1, MarkUnique(h, id2)), PairFromUnique(h, id, id2, g))
            && var o3 := Do(Do(o1, MarkUnique(h, id2)), PairFromUnique(h, id, id2, g));
               && o3.handles == map[h := ListArc(id), g := ListArc(id2)] && o3.refcount == o.refcount + 1
               && o3.live == o.live && Announced(o3.tracker, id) && Announced(o3.tracker, id2)
  {
    assert {} + {id} + {id2} == {id, id2};
  }

  /** A clone is one more owner, and dropping it restores the object. */
  lemma CloneThenDrop(o: Object, h: Name, g: Name)
    requires Inv(o) && h in o.handles && (o.handles[h].Arc? || o.handles[h].ListArc? || o.handles[h].Listed?)
    requires g !in o.handles
    ensures Enabled(o, Clone(h, g)) && Enabled(Do(o, Clone(h, g)), DropRef(g))
    ensures var o1 := Do(o, Clone(h, g));
            && o1.handles == o.handles[g := Arc] && Owners(o1.handles) == Owners(o.handles) + {g}
            && o1.refcount == o.refcount + 1 && Do(o1, DropRef(g)) == o
  {
    var o1 := Do(o, Clone(h, g));
    OwnersUpdate(o.handles, g, Arc);
    assert o1.handles - {g} == o.handles;
    assert h in Owners(o.handles) && o.refcount >= 1 by {
      assert Owners(o.handles) != {};
    }
  }

  /** A list takes a `ListArc` and gives back the same one. */
  lemma ListRoundTrip(o: Object, h: Name, id: Id)
    requires h in o.handles && o.handles[h] == ListArc(id) && !Lent(o.handles, h)
    ensures Enabled(o, IntoList(h)) && Do(o, IntoList(h)) == o.(handles := o.handles[h := Listed(id)])
    ensures Enabled(Do(o, IntoList(h)), OutOfList(h)) && Do(Do(o, IntoList(h)), OutOfList(h)) == o
  {
    var o1 := Do(o, IntoList(h));
    assert o1.handles[h := ListArc(id)] == o.handles;
  }

  /** The two ways not to tell the tracker: it turns true with all handles as they were, or stays as it was. */
  lemma UntoldActions(o: Object, h: Name, id: Id)
    requires h in o.handles && id in o.tracker && o.tracker[id].Atomic?
    ensures var k := o.handles[h];
            k.Arc? || k.Unique? || k.ListArc? || k.Listed? ==>
              Enabled(o, BareTryNew(h, id)) && Do(o, BareTryNew(h, id)) == o.(tracker := o.tracker[id := Atomic(true)])
    ensures o.handles[h] == ListArc(id) && !Lent(o.handles, h) ==>
              Enabled(o, RawToArc(h)) && Do(o, RawToArc(h)) == o.(handles := o.handles[h := Arc])
  {
    assert o.tracker[id] == Atomic(true) ==> o.tracker[id := Atomic(true)] == o.tracker;
  }

  /**
   * The fallback of try_from_arc_or_drop. After losing the compare-exchange, the thread lowers the
   * count. It never frees the object, and it gets a `UniqueArc` only when no other handle of any
   * kind is left, so the `ListArc` it then makes is the only one.
   */
  lemma FallbackNeverDuplicates(o: Object, h: Name, id: Id)
    requires Inv(o) && h in o.handles && o.handles[h] == Arc && !Lent(o.handles, h) && id in o.tracker
    ensures Enabled(o, DecForUnique(h))
    ensures var o1 := Do(o, DecForUnique(h));
            && o1.live && (o.refcount > 1 ==> o1.refcount == o.refcount - 1)
            && (o.refcount > 1 ==> o1.handles == o.handles - {h})
            && (o.refcount <= 1 ==>
                  && o.handles == map[h := Arc]
                  && Enabled(o1, WriteOne(h))
                  && Enabled(Do(o1, WriteOne(h)), MarkUnique(h, id))
                  && var o3 := Do(Do(o1, WriteOne(h)), MarkUnique(h, id));
                     Enabled(o3, FromUnique(h, id))
                     && Do(o3, FromUnique(h, id)).handles == map[h := ListArc(id)]
                     && Do(o3, FromUnique(h, id)).refcount == 1)
  {
    if o.refcount <= 1 {
      LastOwnerIsOnly(o, h);
    }
  }

  /** A step of the whole system: a new `UniqueArc`, or an action on an existing object. */
  datatype Step = Create(o: Obj, h: Name, tracker: map<Id, Tracking>) | Act(o: Obj, a: Action)

  ghost predicate StepEnabled(s: State, st: Step) {
    match st
    case Create(o, _, tr) => o !in s && forall i :: i in tr ==> tr[i] != Atomic(true)
    case Act(o, a) => o in s && Enabled(s[o], a)
  }

  ghost function After(s: State, st: Step): State
    requires StepEnabled(s, st)
  {
    match st
    case Create(o, h, tr) => s[o := Object(true, 1, tr, map[h := Unique({})])]
    case Act(o, a) => s[o := Do(s[o], a)]
  }

  /** `states` is an interleaving of `steps` from the empty system. */
  ghost predicate Run(states: seq<State>, steps: seq<Step>) {
    && |states| == |steps| + 1 && states[0] == map[]
    && forall i :: 0 <= i < |steps| ==> StepEnabled(states[i], steps[i]) && states[i + 1] == After(states[i], steps[i])
  }

  predicate IsListArc(k: Kind, id: Id) { k == ListArc(id) || k == Listed(id) }

  /** What the documentation of `ListArc` and `AtomicTracker` promises of one object. */
  ghost predicate Promised(o: Object) {
    // The reference count is the number of outstanding references.
    && o.refcount == |Owners(o.handles)|
    // Freed memory has no handle and live memory has one.
    && (o.live <==> o.handles != map[])
    // At most one ListArc or list membership per ID.
    && (forall h, g, id :: h in o.handles && g in o.handles ==>
          IsListArc(o.handles[h], id) && IsListArc(o.handles[g], id) ==> h == g)
    // A false tracker means that there is none.
    && (forall h, id :: h in o.handles && id in o.tracker && o.tracker[id] == Atomic(false) ==>
                          !IsListArc(o.handles[h], id))
    // A UniqueArc is the only reference.
    && (forall h :: h in o.handles && o.handles[h].Unique? ==> o.handles.Keys == {h})
  }

  lemma InvImpliesPromised(o: Object)
    requires Inv(o)
    ensures Promised(o)
  {
    var hs := o.handles;
    assert hs != map[] <==> exists h :: h in hs;
    forall h, g, id | h in hs && g in hs && IsListArc(hs[h], id) && IsListArc(hs[g], id)
      ensures h == g
    {
      assert Claims(hs[h], id) && Claims(hs[g], id);
    }
    forall h, id | h in hs && id in o.tracker && o.tracker[id] == Atomic(false)
      ensures !IsListArc(hs[h], id)
    {
      assert !Announced(o.tracker, id);
      assert !Announces(hs[h], id);
    }
    forall h | h in hs && hs[h].Unique?
      ensures hs.Keys == {h}
    {
      assert Exclusive(hs[h]);
    }
  }

  ghost predicate SystemInv(s: State) { forall o :: o in s ==> Inv(s[o]) }

  lemma StepKeeps(s: State, st: Step)
    requires SystemInv(s) && StepEnabled(s, st)
    ensures SystemInv(After(s, st))
  {
    match st {
      case Create(o, h, tr) => FreshInv(h, tr);
      case Act(o, a) => ActionKeeps(s[o], a);
    }
  }

  /** In every reachable state of every interleaving, every object keeps its promises. */
  lemma {:induction false} RunSafe(states: seq<State>, steps: seq<Step>, i: nat)
    requires Run(states, steps) && i < |states|
    ensures SystemInv(states[i])
    ensures forall o :: o in states[i] ==> Promised(states[i][o])
  {
    if i > 0 {
      RunSafe(states, steps, i - 1);
      StepKeeps(states[i - 1], steps[i - 1]);
    }
    forall o | o in states[i]
      ensures Promised(states[i][o])
    {
      InvImpliesPromised(states[i][o]);
    }
  }

  lemma FreshInv(h: Name, tr: map<Id, Tracking>)
    requires forall i :: i in tr ==> tr[i] != Atomic(true)
    ensures Inv(Object(true, 1, tr, map[h := Unique({})]))
  {
    var hs: Handles := map[h := Unique({})];
    assert Owners(hs) == {h};
  }

  // ----- when a true tracker means that a ListArc exists -----

  /** The actions that leave a tracker true although no handle announces its ID. */
  ghost predicate Spoils(o: Object, a: Action)
    requires Enabled(o, a)
  {
    || (a.BareTryNew? && !o.tracker[a.id].flag)
    || (a.RawToArc? && o.handles[a.h].id in o.tracker && o.tracker[o.handles[a.h].id].Atomic?)
  }

  /** The store is true only for what `k'` announces, or what it was true for without the help of `k`. */
  ghost predicate AttestedStore(tr: map<Id, Tracking>, tr': map<Id, Tracking>, k: Kind, k': Kind) {
    forall id :: id in tr' && tr'[id] == Atomic(true) && !Announces(k', id) ==>
      id in tr && tr[id] == Atomic(true) && !Announces(k, id)
  }

  lemma AttestedAfter(o: Object, h: Name, k: Kind, tr: map<Id, Tracking>)
    requires Attested(o) && AttestedStore(o.tracker, tr, Was(o.handles, h), k)
    ensures Attested(o.(tracker := tr, handles := o.handles[h := k]))
  {
    var hs, hs' := o.handles, o.handles[h := k];
    forall id | id in tr && tr[id] == Atomic(true)
      ensures Announcer(hs', id)
    {
      if Announces(k, id) {
        assert Announces(hs'[h], id);
      } else {
        var g :| g in hs && Announces(hs[g], id);
        assert g != h && Announces(hs'[g], id);
      }
    }
  }

  lemma AttestedAfterRemove(o: Object, h: Name)
    requires Attested(o) && h in o.handles && forall id :: !Announces(o.handles[h], id)
    ensures Attested(Decrement(o, h))
  {
    var hs, o' := o.handles, Decrement(o, h);
    forall id | id in o.tracker && o.tracker[id] == Atomic(true)
      ensures Announcer(o'.handles, id)
    {
      var g :| g in hs && Announces(hs[g], id);
      assert g in o'.handles && Announces(o'.handles[g], id);
    }
  }

  lemma PairAttested(o: Object, h: Name, id: Id, id2: Id, g: Name)
    requires Inv(o) && Attested(o) && Enabled(o, PairFromUnique(h, id, id2, g))
    ensures Attested(Do(o, PairFromUnique(h, id, id2, g)))
  {
    var hs, hs' := o.handles, Do(o, PairFromUnique(h, id, id2, g)).handles;
    assert Exclusive(hs[h]) && hs.Keys == {h};
    forall i | i in o.tracker && o.tracker[i] == Atomic(true)
      ensures Announcer(hs', i)
    {
      var f :| f in hs && Announces(hs[f], i);
      assert Announces(hs'[if i == id then h else g], i);
    }
  }

  /** Actions by a `UniqueArc`, or by an owner that drops its reference. */
  lemma OwnerAttested(o: Object, a: Action)
    requires Inv(o) && Attested(o) && Enabled(o, a)
    requires || a.DropRef? || a.DecForUnique? || a.WriteOne? || a.MarkUnique?
             || a.FromUnique? || a.PairFromUnique? || a.UniqueToArc?
    ensures Attested(Do(o, a))
  {
    var hs, tr, h := o.handles, o.tracker, a.h;
    match a {
      case DropRef(_) => AttestedAfterRemove(o, h);
      case DecForUnique(_) =>
        if o.refcount <= 1 {
          AttestedAfter(o, h, Claimed, tr);
        } else {
          AttestedAfterRemove(o, h);
        }
      case WriteOne(_) => AttestedAfter(o, h, Unique({}), tr);
      case MarkUnique(_, id) => AttestedAfter(o, h, Unique(hs[h].marked + {id}), Store(tr, id, true));
      case FromUnique(_, id) => AttestedAfter(o, h, ListArc(id), tr);
      case PairFromUnique(_, id, id2, g) => PairAttested(o, h, id, id2, g);
      case UniqueToArc(_) => AttestedAfter(o, h, Arc, tr);
    }
  }

  /** Actions that make a claim, pass it on, or give it up with a store. */
  lemma ClaimAttested(o: Object, a: Action)
    requires Inv(o) && Attested(o) && Enabled(o, a)
    requires a.CompareExchange? || a.BorrowCompareExchange? || a.Clone? || HasId(o.handles[a.h])
    requires !a.BareTryNew? && !a.RawToArc?
    ensures Attested(Do(o, a))
  {
    var hs, tr, h := o.handles, o.tracker, a.h;
    match a {
      case Clone(_, g) => AttestedAfter(o, g, Arc, tr);
      case CompareExchange(_, id) =>
        if !tr[id].flag {
          AttestedAfter(o, h, Won(id), Store(tr, id, true));
        }
      case BorrowCompareExchange(_, id, g) =>
        if !tr[id].flag {
          AttestedAfter(o, g, BorrowWon(id, h), Store(tr, id, true));
        }
      case StoreFalse(_) => AttestedAfter(o, h, Arc, Store(tr, hs[h].id, false));
      case DropListArcStore(_) => AttestedAfter(o, h, Dropping, Store(tr, hs[h].id, false));
      case IntoList(_) => AttestedAfter(o, h, Listed(hs[h].id), tr);
      case TransmuteToArc(_) => AttestedAfter(o, h, Released(hs[h].id), tr);
      case TransmuteWon(_) => AttestedAfter(o, h, ListArc(hs[h].id), tr);
      case RaiseBorrowWon(_) => AttestedAfter(o, h, ListArc(hs[h].id), tr);
      case OutOfList(_) => AttestedAfter(o, h, ListArc(hs[h].id), tr);
    }
  }

  /** After the two actions that do not tell the tracker the truth, nobody vouches for its flag. */
  lemma UntoldAttested(o: Object, a: Action)
    requires Inv(o) && Attested(o) && Enabled(o, a) && (a.BareTryNew? || a.RawToArc?)
    ensures Attested(Do(o, a)) <==> !Spoils(o, a)
  {
    var o', id := Do(o, a), if a.BareTryNew? then a.id else o.handles[a.h].id;
    if Spoils(o, a) {
      assert a.RawToArc? ==> Announces(o.handles[a.h], id) && Claims(o.handles[a.h], id) && Announced(o.tracker, id);
      assert id in o'.tracker && o'.tracker[id] == Atomic(true);
      forall g | g in o'.handles
        ensures !Announces(o'.handles[g], id)
      {
        assert a.BareTryNew? ==> !Announced(o.tracker, id);
        assert a.RawToArc? && g != a.h ==> !Exclusive(o.handles[g]) && !Claims(o.handles[g], id);
      }
      assert !Announcer(o'.handles, id);
    } else if a.RawToArc? {
      AttestedAfter(o, a.h, Arc, o.tracker);
    }
  }

  /** Exactly which actions break the rule that a true tracker has an announcer. */
  lemma AttestedIff(o: Object, a: Action)
    requires Inv(o) && Attested(o) && Enabled(o, a)
    ensures Attested(Do(o, a)) <==> !Spoils(o, a)
  {
    if a.BareTryNew? || a.RawToArc? {
      UntoldAttested(o, a);
    } else if a.CompareExchange? || a.BorrowCompareExchange? || a.Clone? || HasId(o.handles[a.h]) {
      ClaimAttested(o, a);
    } else {
      OwnerAttested(o, a);
    }
  }

  ghost predicate StepSpoils(s: State, st: Step)
    requires StepEnabled(s, st)
  {
    st.Act? && Spoils(s[st.o], st.a)
  }

  /** In a run in which no step so far has spoilt a tracker, every true tracker has an announcer. */
  lemma {:induction false} UnspoiltRun(states: seq<State>, steps: seq<Step>, i: nat)
    requires Run(states, steps) && i < |states|
    requires forall j :: 0 <= j < i ==> !StepSpoils(states[j], steps[j])
    ensures forall o :: o in states[i] ==> Attested(states[i][o])
  {
    if i > 0 {
      RunSafe(states, steps, i - 1);
      UnspoiltRun(states, steps, i - 1);
      var s, st := states[i - 1], steps[i - 1];
      assert states[i] == After(s, st) && !StepSpoils(s, st);
      if st.Act? {
        AttestedIff(s[st.o], st.a);
      }
    }
  }

  /** A run after which the tracker is true and there is no `ListArc` and none in the making. */
  lemma BareCallSpoils() returns (states: seq<State>, steps: seq<Step>)
    ensures Run(states, steps) && |steps| == 3
    ensures 0 in states[3] && states[3][0] == Object(true, 1, map[0 := Atomic(true)], map[0 := Arc])
  {
    var o := Object(true, 1, map[0 := Atomic(false)], map[0 := Unique({})]);
    steps := [Create(0, 0, o.tracker), Act(0, UniqueToArc(0)), Act(0, BareTryNew(0, 0))];
    var o2 := o.(handles := map[0 := Arc]);
    assert Do(o, UniqueToArc(0)) == o2;
    var o3 := o2.(tracker := map[0 := Atomic(true)]);
    assert Do(o2, BareTryNew(0, 0)) == o3;
    states := [map[], map[0 := o], map[0 := o2], map[0 := o3]];
    assert states[1] == After(states[0], steps[0]);
    assert states[2] == After(states[1], steps[1]);
    assert states[3] == After(states[2], steps[2]);
  }
}
