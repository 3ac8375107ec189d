/**
 * The owning iterator of rust/src/alloc/kvec.rs: elements handed out by `next`, gathered again by
 * `collect`, or dropped with the iterator.
 */
module KVecIter {
  import opened Common
  import opened KVec

  class IntoIter<T(!new)> {
    const mem: Mem<T>
    const elemSize: nat
    const at: object
    const buf: array<Cell<T>>
    /** `ptr - buf`, in elements; a pointer to elements of size zero never moves. */
    var pos: nat
    var len: nat

    ghost predicate Valid()
      reads this, buf, mem
    {
      && pos + len <= buf.Length == Capacity(buf.Length, elemSize) && buf.Length * elemSize <= ISIZE_MAX
      && (forall i :: pos <= i < pos + len ==> buf[i].Init?)
      && (Backed(buf.Length, elemSize) <==> at in mem.live)
      && (elemSize == 0 ==> pos == 0 && OneValue<T>())
    }

    ghost function Remaining(): (r: seq<T>)
      reads this, buf, mem
      requires Valid()
      ensures |r| == len && forall i :: 0 <= i < len ==> buf[pos + i] == Init(r[i])
    {
      seq(len, i requires 0 <= i < len reads this, buf, mem requires Valid() => buf[pos + i].v)
    }

    constructor (v: Vec<T>)
      requires v.Valid()
      ensures Valid() && mem == v.mem && at == v.at && buf == v.buf && elemSize == v.elemSize && pos == 0
      ensures Remaining() == v.Contents()
    {
      mem, elemSize, at, buf, pos, len := v.mem, v.elemSize, v.at, v.buf, 0, v.len;
    }

    /**
     * The value leaves the buffer for good. Of elements of size zero, which are all alike and in the
     * same place, one is taken from among those that are left.
     */
    method Next() returns (r: Option<T>)
      requires Valid()
      modifies this, buf
      ensures Valid()
      ensures old(Remaining()) == [] ==> r == None && Remaining() == [] && pos == old(pos)
      ensures old(Remaining()) != [] ==> r == Some(old(Remaining())[0]) && Remaining() == old(Remaining())[1..]
                                         && pos == old(pos) + (if elemSize > 0 then 1 else 0)
    {
      if len == 0 {
        return None;
      }
      ghost var was := Remaining();
      len := len - 1;
      if elemSize > 0 {
        var current := pos;
        pos := pos + 1;
        r := Some(buf[current].v);
        buf[current] := Uninit;
      } else {
        r := Some(buf[len].v);
        buf[len] := Uninit;
        assert Remaining() == was[..len];
        AllAlike(was);
      }
    }

    /** `shrunk` is the answer to the shrinking realloc, which is asked for only if the iterator has advanced. */
    method Collect(shrunk: Reply) returns (v: Vec<T>)
      requires Valid()
      modifies buf, mem
      ensures fresh(v) && v.Valid() && v.mem == mem && v.elemSize == elemSize
      ensures v.Contents() == old(Remaining())
      ensures pos == 0 || shrunk.Refuse? ==> v.at == at && v.buf == buf && mem.live == old(mem.live)
      ensures pos != 0 && !shrunk.Refuse? ==>
                && v.buf.Length == len
                && if Stays(buf.Length, len, shrunk) then v.at == at && mem.live == old(mem.live)
                   else fresh(v.at) && mem.live == old(mem.live) - {at} + (if len > 0 then {v.at} else {})
    {
      ghost var was := Remaining();
      var to, b := at, buf;
      if pos != 0 {
        MoveToFront();
        var r;
        r, b := mem.Realloc(at, buf, len, shrunk);
        if r.Some? {
          to := r.value;
          assert b[..len] == buf[..len];
          ShorterFits(len, buf.Length, elemSize);
        }
      }
      assert AllInit(b[..len]) && Values(b[..len]) == was;
      v := new Vec<T>(mem, elemSize);
      v.at, v.buf, v.len := to, b, len;
    }

    /** The overlapping copy of `collect`. */
    method MoveToFront()
      requires Valid()
      modifies buf
      ensures AllInit(buf[..len]) && Values(buf[..len]) == old(Remaining())
      ensures mem.live == old(mem.live)
    {
      ghost var was := Remaining();
      Copy(buf, pos, 0, len);
      forall i | 0 <= i < len
        ensures buf[i] == Init(was[i])
      {
        assert buf[i] == old(buf[pos + i]);
      }
      ValuesAre(buf[..len], was);
    }

    /** `Drop`: every remaining element once, in order, then the buffer once. */
    method Drop() returns (dropped: seq<T>)
      requires Valid()
      modifies this, buf, mem
      ensures dropped == old(Remaining())
      ensures mem.live == old(mem.live) - {at}
    {
      dropped := [];
      ghost var was := Remaining();
      for i := 0 to len
        modifies buf
        invariant dropped == was[..i]
        invariant forall j :: i <= j < len ==> buf[pos + j] == Init(was[j])
      {
        assert buf[pos + i] == Init(was[i]);
        dropped := dropped + [buf[pos + i].v];
        buf[pos + i] := Uninit;
      }
      len := 0;
      mem.Free(at, buf.Length, elemSize);
    }
  }

  lemma AllAlike<T(!new)>(s: seq<T>)
    requires OneValue<T>() && s != []
    ensures s[0] == s[|s| - 1] && s[..|s| - 1] == s[1..]
  {
    forall i, j | 0 <= i < |s| && 0 <= j < |s|
      ensures s[i] == s[j]
    {
      assert Same(s[i], s[j]);
    }
  }

  lemma ShorterFits(n: nat, m: nat, size: nat)
    requires n <= m && m * size <= ISIZE_MAX
    ensures n * size <= ISIZE_MAX
  {
    assert m * size == n * size + (m - n) * size;
  }

  lemma OneMore<T>(s: seq<T>, k: nat)
    requires k < |s|
    ensures s[k..] != [] && s[k..][0] == s[k] && s[k..][1..] == s[k + 1..] && s[..k] + [s[k]] == s[..k + 1]
  {
  }

  /** `n` calls of `next`. */
  method Take<T(!new)>(it: IntoIter<T>, n: nat) returns (handed: seq<T>)
    requires it.Valid()
    modifies it, it.buf
    ensures it.Valid() && handed + it.Remaining() == old(it.Remaining())
    ensures |handed| == Min(n, |old(it.Remaining())|)
    ensures it.pos == old(it.pos) + (if it.elemSize > 0 then |handed| else 0)
  {
    handed := [];
    ghost var was, k: nat := it.Remaining(), 0;
    for i := 0 to n
      invariant it.Valid() && k == Min(i, |was|) && it.pos == old(it.pos) + (if it.elemSize > 0 then k else 0)
      invariant handed == was[..k] && it.Remaining() == was[k..]
    {
      if k < |was| {
        OneMore(was, k);
      }
      var r := it.Next();
      if r.Some? {
        handed, k := handed + [r.value], k + 1;
      }
    }
  }

  /**
   * Take some elements, then collect the rest: together they are the original vector, and the
   * original block is either the new vector's or has been freed.
   */
  method TakeThenCollect<T(!new)>(v: Vec<T>, n: nat, shrunk: Reply) returns (handed: seq<T>, w: Vec<T>)
    requires v.Valid()
    modifies v.buf, v.mem
    ensures w.Valid() && handed + w.Contents() == old(v.Contents()) && |handed| == Min(n, |old(v.Contents())|)
    ensures w.mem == v.mem && w.elemSize == v.elemSize && (w.at == v.at || fresh(w.at))
    ensures v.mem.live == old(v.mem.live) - {v.at} + (if Backed(w.buf.Length, w.elemSize) then {w.at} else {})
  {
    var it := new IntoIter(v);
    handed := Take(it, n);
    w := it.Collect(shrunk);
  }

  /** Take some elements, then drop the iterator: every element has one owner or one drop. */
  method TakeThenDrop<T(!new)>(v: Vec<T>, n: nat) returns (handed: seq<T>, dropped: seq<T>)
    requires v.Valid()
    modifies v.buf, v.mem
    ensures handed + dropped == old(v.Contents()) && |handed| == Min(n, |old(v.Contents())|)
    ensures v.mem.live == old(v.mem.live) - {v.at}
  {
    var it := new IntoIter(v);
    handed := Take(it, n);
    dropped := it.Drop();
  }
}
