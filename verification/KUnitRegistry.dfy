/**
 * The registry of Rust test cases in src/shim_kunit.c: a fixed array and a counter, appended to by
 * registration, compacted in place by unregistration, and searched by the dispatcher. Every
 * operation runs under one spinlock, so a history is a sequence of calls.
 */
module KUnitRegistry {
  import opened Common

  const MAX_TEST_CASES: nat := 256

  type Module = nat
  type Function = nat

  datatype Entry = Entry(owner: Module, name: string, run: Function)

  /** `None` stands for a NULL argument. */
  datatype Call = Register(owner: Module, name: Option<string>, run: Option<Function>) | Unregister(owner: Module)

  /** The entries of other owners among the first `n`, in order. */
  ghost function OthersAmong(s: seq<Entry>, n: nat, owner: Module): (r: seq<Entry>)
    requires n <= |s|
    ensures |r| <= n
  {
    if n == 0 then []
    else OthersAmong(s, n - 1, owner) + if s[n - 1].owner == owner then [] else [s[n - 1]]
  }

  ghost function WithoutOwner(s: seq<Entry>, owner: Module): (r: seq<Entry>)
    ensures |r| <= |s|
  {
    OthersAmong(s, |s|, owner)
  }

  lemma {:induction false} OthersAmongPrefix(s: seq<Entry>, t: seq<Entry>, n: nat, owner: Module)
    requires n <= |s|
    ensures OthersAmong(s + t, n, owner) == OthersAmong(s, n, owner)
  {
    if n > 0 {
      OthersAmongPrefix(s, t, n - 1, owner);
    }
  }

  /** The two-index loop: the entries of other owners move down, in order. */
  method Compact(entries: array<Entry>, count: nat, owner: Module) returns (j: nat)
    requires count <= entries.Length
    modifies entries
    ensures j <= count && entries[..j] == WithoutOwner(old(entries[..count]), owner)
  {
    j := 0;
    ghost var s, kept := entries[..count], [];
    for i := 0 to count
      invariant |kept| == j <= i && kept == OthersAmong(s, i, owner)
      invariant forall k :: 0 <= k < j ==> entries[k] == kept[k]
      invariant forall k :: i <= k < count ==> entries[k] == s[k]
    {
      if entries[i].owner == owner {
        continue;
      }
      kept := kept + [s[i]];
      if j != i {
        entries[j] := entries[i];
      }
      j := j + 1;
    }
  }

  class Registry {
    const entries: array<Entry>
    var count: nat

    ghost predicate Valid()
      reads this
    {
      entries.Length == MAX_TEST_CASES && count <= MAX_TEST_CASES
    }

    ghost function Contents(): (s: seq<Entry>)
      reads this, entries
      requires Valid()
      ensures |s| <= MAX_TEST_CASES
    {
      entries[..count]
    }

    constructor ()
      ensures Valid() && Contents() == [] && fresh(entries)
    {
      entries := new Entry[MAX_TEST_CASES];
      count := 0;
    }

    method RegisterCase(owner: Module, name: Option<string>, run: Option<Function>)
      requires Valid()
      modifies this, entries
      ensures Valid() && Contents() == Next(old(Contents()), Register(owner, name, run))
    {
      if name.None? || run.None? {
        return;
      }
      if count >= MAX_TEST_CASES {
        return;
      }
      entries[count] := Entry(owner, name.value, run.value);
      count := count + 1;
    }

    method UnregisterModule(owner: Module)
      requires Valid()
      modifies this, entries
      ensures Valid() && Contents() == Next(old(Contents()), Unregister(owner))
    {
      count := Compact(entries, count, owner);
    }

    /** The dispatcher's search by `strcmp`: the function of the first entry with the name. */
    method FindCase(name: string) returns (run: Option<Function>)
      requires Valid()
      ensures run == FirstNamed(Contents(), name)
    {
      for i := 0 to count
        invariant FirstNamed(Contents(), name) == FirstNamed(Contents()[i..], name)
      {
        if entries[i].name == name {
          return Some(entries[i].run);
        }
      }
      run := None;
    }
  }

  ghost function FirstNamed(s: seq<Entry>, name: string): Option<Function> {
    if s == [] then None else if s[0].name == name then Some(s[0].run) else FirstNamed(s[1..], name)
  }

  /** The contents after one call. */
  ghost function Next(s: seq<Entry>, c: Call): seq<Entry> {
    match c
    case Register(owner, name, run) =>
      if name.None? || run.None? || |s| >= MAX_TEST_CASES then s else s + [Entry(owner, name.value, run.value)]
    case Unregister(owner) => WithoutOwner(s, owner)
  }

  ghost function After(h: seq<Call>): (s: seq<Entry>)
    ensures |s| <= MAX_TEST_CASES
  {
    if h == [] then [] else Next(After(h[..|h| - 1]), h[|h| - 1])
  }

  /** Call `i` was a registration with both arguments, made while there was room. */
  ghost predicate Accepted(h: seq<Call>, i: nat)
    requires i < |h|
  {
    h[i].Register? && h[i].name.Some? && h[i].run.Some? && |After(h[..i])| < MAX_TEST_CASES
  }

  /** It was accepted, and its owner has not been unregistered since. */
  ghost predicate Survives(h: seq<Call>, i: nat)
    requires i < |h|
  {
    Accepted(h, i) && forall j :: i < j < |h| ==> h[j] != Unregister(h[i].owner)
  }

  /** The entries of the surviving registrations among the first `n` calls, in order. */
  ghost function Survivors(h: seq<Call>, n: nat): seq<Entry>
    requires n <= |h|
  {
    if n == 0 then []
    else Survivors(h, n - 1) +
         if Survives(h, n - 1) then [Entry(h[n - 1].owner, h[n - 1].name.value, h[n - 1].run.value)] else []
  }

  /** The registry is exactly the surviving accepted registrations, in order. */
  lemma {:induction false} AfterIsSurvivors(h: seq<Call>)
    ensures After(h) == Survivors(h, |h|)
  {
    if h != [] {
      var g, c := h[..|h| - 1], h[|h| - 1];
      AfterIsSurvivors(g);
      match c {
        case Register(_, _, _) => SurvivorsUnchanged(h, |g|);
        case Unregister(owner) => SurvivorsFiltered(h, |g|, owner);
      }
    }
  }

  lemma {:induction false} SurvivorsUnchanged(h: seq<Call>, n: nat)
    requires h != [] && h[|h| - 1].Register? && n < |h|
    ensures Survivors(h, n) == Survivors(h[..|h| - 1], n)
  {
    if n > 0 {
      SurvivorsUnchanged(h, n - 1);
      assert h[..|h| - 1][..n - 1] == h[..n - 1];
      assert Survives(h, n - 1) <==> Survives(h[..|h| - 1], n - 1);
    }
  }

  lemma {:induction false} SurvivorsFiltered(h: seq<Call>, n: nat, owner: Module)
    requires h != [] && h[|h| - 1] == Unregister(owner) && n < |h|
    ensures Survivors(h, n) == WithoutOwner(Survivors(h[..|h| - 1], n), owner)
  {
    if n > 0 {
      var g := h[..|h| - 1];
      SurvivorsFiltered(h, n - 1, owner);
      assert g[..n - 1] == h[..n - 1];
      assert Survives(h, n - 1) <==> Survives(g, n - 1) && h[n - 1].owner != owner;
      var s := Survivors(g, n - 1);
      if Survives(g, n - 1) {
        var e := Entry(g[n - 1].owner, g[n - 1].name.value, g[n - 1].run.value);
        OthersAmongPrefix(s, [e], |s|, owner);
        assert WithoutOwner(s + [e], owner) == WithoutOwner(s, owner) + if e.owner == owner then [] else [e];
      } else {
        assert s + [] == s;
      }
    }
  }

  /** Registrations with both arguments on an empty registry: the first 256 are accepted, no more. */
  lemma {:induction false} RoomFor256(h: seq<Call>)
    requires forall i :: 0 <= i < |h| ==> h[i].Register? && h[i].name.Some? && h[i].run.Some?
    ensures |After(h)| == if |h| <= 256 then |h| else 256
    ensures forall i :: 0 <= i < |After(h)| ==> After(h)[i] == Entry(h[i].owner, h[i].name.value, h[i].run.value)
    ensures forall i :: 0 <= i < |h| ==> (Accepted(h, i) <==> i < 256)
  {
    if h != [] {
      var n := |h| - 1;
      RoomFor256(h[..n]);
      forall i | 0 <= i < |h|
        ensures Accepted(h, i) <==> i < 256
      {
        if i < n {
          assert h[..n][..i] == h[..i] && (Accepted(h[..n], i) <==> i < 256);
        }
      }
    }
  }

  /** After any history, the array holds the survivors, and a lookup finds the earliest by name. */
  method Replay(h: seq<Call>, name: string) returns (r: Registry, run: Option<Function>)
    ensures r.Valid() && r.Contents() == Survivors(h, |h|) && r.count <= 256
    ensures run == FirstNamed(Survivors(h, |h|), name)
  {
    r := new Registry();
    for i := 0 to |h|
      invariant fresh(r) && fresh(r.entries) && r.Valid() && r.Contents() == After(h[..i])
    {
      assert h[..i + 1][..i] == h[..i];
      match h[i] {
        case Register(o, n, f) => r.RegisterCase(o, n, f);
        case Unregister(o) => r.UnregisterModule(o);
      }
    }
    assert h[..|h|] == h;
    AfterIsSurvivors(h);
    run := r.FindCase(name);
  }

  /** What "earliest" means: the entry found has the name and no earlier one does. */
  lemma {:induction false} FirstNamedIsEarliest(s: seq<Entry>, name: string)
    ensures FirstNamed(s, name).None? <==> forall i :: 0 <= i < |s| ==> s[i].name != name
    ensures FirstNamed(s, name).Some? ==>
              exists i :: 0 <= i < |s| && s[i].name == name && s[i].run == FirstNamed(s, name).value
                          && forall j :: 0 <= j < i ==> s[j].name != name
  {
    if s != [] && s[0].name != name {
      FirstNamedIsEarliest(s[1..], name);
      if FirstNamed(s[1..], name).Some? {
        var i :| 0 <= i < |s[1..]| && s[1..][i].name == name && s[1..][i].run == FirstNamed(s, name).value
                 && forall j :: 0 <= j < i ==> s[1..][j].name != name;
        assert s[i + 1] == s[1..][i];
        assert forall j :: 0 < j < i + 1 ==> s[j] == s[1..][j - 1];
      } else {
        assert forall j :: 0 < j < |s| ==> s[j] == s[1..][j - 1];
      }
    }
  }
}
