/**
 * `parse_generics` of rust/macros/helpers.rs: one pass over a token stream that separates the
 * generics between the first angle brackets from the rest, and the parameter names from their
 * bounds.
 */
module Generics {
  /** A token tree; groups and literals are never looked into. */
  datatype Token = Ident(name: string) | Punct(ch: char) | Other(id: nat)

  const LT: Token := Punct('<')
  const GT: Token := Punct('>')
  const COMMA: Token := Punct(',')
  const QUOTE: Token := Punct('\'')
  const EQUALS: Token := Punct('=')
  const CONST: Token := Ident("const")

  /** The four output vectors and the loop's control variables. */
  datatype Scan = Scan(decl: seq<Token>, impl: seq<Token>, ty: seq<Token>, rest: seq<Token>,
                       nesting: nat, atStart: bool, skip: bool)

  const Initial := Scan([], [], [], [], 0, true, false)

  /**
   * What an iteration does with its token: how often it goes to the impl generics, whether it goes to
   * the type generics, and how the control variables are left.
   */
  datatype Effect = Effect(impl: nat, ty: bool, nesting: nat, atStart: bool, skip: bool)

  /** A token other than an angle bracket, inside the generics at depth one. */
  function AtDepthOne(atStart: bool, tt: Token): Effect {
    if atStart && tt.Ident? then Effect(1, true, 1, false, false)
    else if tt == COMMA then Effect(1, true, 1, true, false)
    else if tt == QUOTE && atStart then Effect(1, true, 1, atStart, false)
    else if tt == EQUALS then Effect(0, false, 1, atStart, true)
    else Effect(1, false, 1, atStart, false)
  }

  /** Any token that neither closes the generics nor starts a `const` parameter. */
  function OnToken(nesting: nat, atStart: bool, skip: bool, tt: Token): Effect
    requires tt == GT ==> nesting >= 2
  {
    if tt == LT then Effect(if nesting >= 1 && !skip then 1 else 0, false, nesting + 1, atStart, skip)
    else if tt == GT then Effect(if skip then 0 else 1, false, nesting - 1, atStart, skip)
    else if skip && tt == COMMA && nesting == 1 then Effect(2, false, nesting, atStart, false)
    else if skip || nesting == 0 then Effect(0, false, nesting, atStart, skip)
    else if nesting > 1 then Effect(1, false, nesting, atStart, skip)
    else AtDepthOne(atStart, tt)
  }

  function Times(s: seq<Token>, tt: Token, n: nat): seq<Token> {
    if n == 0 then s else if n == 1 then s + [tt] else s + [tt, tt]
  }

  function Applied(st: Scan, tt: Token, e: Effect): Scan {
    Scan(if st.nesting >= 1 then st.decl + [tt] else st.decl,
         Times(st.impl, tt, e.impl), if e.ty then st.ty + [tt] else st.ty,
         if st.nesting == 0 && tt != LT && !st.skip then st.rest + [tt] else st.rest, e.nesting, e.atStart, e.skip)
  }

  /** One iteration on `toks`: the new state, how many tokens it took, and whether it ends the loop. */
  datatype Iteration = Iteration(st: Scan, taken: nat, stop: bool)

  predicate StartsConst(st: Scan, tt: Token) { st.nesting == 1 && !st.skip && st.atStart && tt == CONST }

  /** A `const` takes the next token, the parameter's name, along; if there is none the loop ends. */
  function OnConst(st: Scan, toks: seq<Token>): (it: Iteration)
    requires toks != []
    ensures it.taken == 1 || (it.taken == 2 && |toks| >= 2 && !it.stop)
  {
    if |toks| == 1 then Iteration(st.(decl := st.decl + [toks[0]]), 1, true)
    else
      var both := [toks[0], toks[1]];
      Iteration(Scan(st.decl + both, st.impl + both, st.ty + [toks[1]], st.rest, 1, false, false), 2, false)
  }

  function Iterate(st: Scan, toks: seq<Token>): (it: Iteration)
    requires toks != []
    ensures it.taken == 1 || (it.taken == 2 && |toks| >= 2 && !it.stop)
  {
    var tt := toks[0];
    if tt == GT && st.nesting <= 1 then Iteration(st, 1, true)
    else if StartsConst(st, tt) then OnConst(st, toks)
    else Iteration(Applied(st, tt, OnToken(st.nesting, st.atStart, st.skip, tt)), 1, false)
  }

  /** The loop as a function of the remaining tokens. */
  function Go(st: Scan, toks: seq<Token>): Scan
    decreases |toks|
  {
    if toks == [] then st
    else
      var it := Iterate(st, toks);
      if it.stop then it.st.(rest := it.st.rest + toks[1..])
      else if it.taken == 1 then Go(it.st, toks[1..])
      else Go(it.st, toks[2..])
  }

  /** The inner match of the loop, for a token at depth one that does not start a `const` parameter. */
  method PushAtDepthOne(tt: Token, impl0: seq<Token>, ty0: seq<Token>, atStart0: bool)
    returns (impl: seq<Token>, ty: seq<Token>, atStart: bool, skip: bool)
    ensures var e := AtDepthOne(atStart0, tt);
            && impl == Times(impl0, tt, e.impl) && ty == (if e.ty then ty0 + [tt] else ty0)
            && atStart == e.atStart && skip == e.skip
  {
    impl, ty, atStart, skip := impl0, ty0, atStart0, false;
    if atStart && tt.Ident? {
      impl, ty, atStart := impl + [tt], ty + [tt], false;
    } else if tt == COMMA {
      impl, ty, atStart := impl + [tt], ty + [tt], true;
    } else if tt == QUOTE && atStart {
      impl, ty := impl + [tt], ty + [tt];
    } else if tt == EQUALS {
      skip := true;
    } else {
      impl := impl + [tt];
    }
  }

  /** The body of the loop on the remaining tokens; `stop` tells that it ends by a `break`. */
  method LoopBody(st: Scan, toks: seq<Token>) returns (st': Scan, taken: nat, stop: bool)
    requires toks != []
    ensures Iteration(st', taken, stop) == Iterate(st, toks)
  {
    var Scan(decl, impl, ty, rest, nesting, atStart, skip) := st;
    var tt := toks[0];
    taken, stop := 1, false;
    if nesting == 1 && tt == GT {
      return st, 1, true;
    } else if nesting >= 1 {
      decl := decl + [tt];
    }
    if tt == LT {
      if nesting >= 1 && !skip {
        impl := impl + [tt];
      }
      nesting := nesting + 1;
    } else if tt == GT {
      if nesting == 0 {
        return st, 1, true;
      }
      nesting := nesting - 1;
      if nesting >= 1 && !skip {
        impl := impl + [tt];
      }
    } else if skip && tt == COMMA {
      if nesting == 1 {
        impl := impl + [tt, tt];
        skip := false;
      }
    } else if !skip {
      if nesting == 0 {
        rest := rest + [tt];
      } else if nesting > 1 {
        impl := impl + [tt];
      } else if atStart && tt == CONST {
        if |toks| == 1 {
          return st.(decl := decl), 1, true;
        }
        var name := toks[1];
        impl, ty, decl, atStart := impl + [tt, name], ty + [name], st.decl + [tt, name], false;
        taken := 2;
      } else {
        impl, ty, atStart, skip := PushAtDepthOne(tt, impl, ty, atStart);
      }
    }
    st' := Scan(decl, impl, ty, rest, nesting, atStart, skip);
  }

  method ParseGenerics(input: seq<Token>) returns (decl: seq<Token>, impl: seq<Token>, ty: seq<Token>, rest: seq<Token>)
    ensures var r := Go(Initial, input); decl == r.decl && impl == r.impl && ty == r.ty && rest == r.rest
  {
    var st, toks, stop := Initial, input, false;
    while toks != [] && !stop
      invariant Go(Initial, input) == if stop then st.(rest := st.rest + toks) else Go(st, toks)
      decreases |toks|
    {
      var taken;
      st, taken, stop := LoopBody(st, toks);
      toks := toks[taken..];
    }
    decl, impl, ty, rest := st.decl, st.impl, st.ty, st.rest + toks;
  }

  // ----- what the outputs mean -----

  ghost predicate NoAngles(p: seq<Token>) { LT !in p && GT !in p }

  /** The bracket depth after one more token. */
  ghost function DepthAfter(t: Token, depth: nat): nat {
    if t == LT then depth + 1 else if t == GT && depth > 0 then depth - 1 else depth
  }

  /**
   * `d`, read from the given depth, closes every bracket it opens, never closes the generics, and
   * follows each `const` that starts a parameter by a name. `start` says that the parameter's name
   * is still to come, `skip` that a default value is being read.
   */
  ghost predicate WellFormed(d: seq<Token>, depth: nat, start: bool, skip: bool)
    decreases |d|
  {
    if d == [] then depth == 1
    else if d[0] == LT then WellFormed(d[1..], depth + 1, start, skip)
    else if d[0] == GT then depth >= 2 && WellFormed(d[1..], depth - 1, start, skip)
    else if depth > 1 then WellFormed(d[1..], depth, start, skip)
    else if d[0] == COMMA then WellFormed(d[1..], depth, true, false)
    else if skip || d[0] == EQUALS then WellFormed(d[1..], depth, start, true)
    else if start && d[0] == CONST then |d| >= 2 && d[1].Ident? && WellFormed(d[2..], depth, false, false)
    else WellFormed(d[1..], depth, start && !d[0].Ident?, false)
  }

  ghost predicate Ends(t: Token, depth: nat) { depth == 1 && t == COMMA }

  /** Whether a token belongs to a default value, its `=` included. */
  ghost predicate InDefault(t: Token, depth: nat, skip: bool) {
    !Ends(t, depth) && (skip || (depth == 1 && t == EQUALS))
  }

  /** `d` without default values: each depth-one `=` goes, and all up to the next depth-one comma. */
  ghost function WithoutDefaults(d: seq<Token>, depth: nat, skip: bool): seq<Token>
    decreases |d|
  {
    if d == [] then []
    else if InDefault(d[0], depth, skip) then WithoutDefaults(d[1..], DepthAfter(d[0], depth), true)
    else [d[0]] + WithoutDefaults(d[1..], DepthAfter(d[0], depth), false)
  }

  /** The position of the first depth-one `=`, or the length. */
  ghost function DefaultAt(d: seq<Token>, depth: nat): (k: nat)
    ensures k <= |d|
    ensures k < |d| ==> d[k] == EQUALS
  {
    if d == [] then 0
    else if d[0] == EQUALS && depth == 1 then 0
    else 1 + DefaultAt(d[1..], DepthAfter(d[0], depth))
  }

  ghost predicate NoDefault(d: seq<Token>) { DefaultAt(d, 1) == |d| }

  /** The end of the first parameter: the first depth-one comma, or the length. */
  ghost function ParamEnd(d: seq<Token>, depth: nat): (k: nat)
    ensures k <= |d|
    ensures k < |d| ==> d[k] == COMMA
  {
    if d == [] then 0
    else if d[0] == COMMA && depth == 1 then 0
    else 1 + ParamEnd(d[1..], DepthAfter(d[0], depth))
  }

  /** No depth-one comma follows a depth-one `=`: at most the last parameter has a default. */
  ghost predicate DefaultOnlyLast(d: seq<Token>) {
    var k := DefaultAt(d, 1);
    ParamEnd(d[k..], 1) == |d| - k || k == |d|
  }

  /** The name of one parameter: its leading lifetime quotes and first identifier, without `const`. */
  ghost function NameOf(q: seq<Token>, depth: nat): seq<Token>
    decreases |q|
  {
    if q == [] then []
    else if q[0] == LT then NameOf(q[1..], depth + 1)
    else if q[0] == GT then NameOf(q[1..], if depth > 0 then depth - 1 else 0)
    else if depth > 1 then NameOf(q[1..], depth)
    else if q[0] == CONST && |q| >= 2 then [q[1]]
    else if q[0].Ident? then [q[0]]
    else if q[0] == QUOTE then [QUOTE] + NameOf(q[1..], depth)
    else NameOf(q[1..], depth)
  }

  /** The parameter names, separated by the commas that separate the parameters. */
  ghost function Names(d: seq<Token>): seq<Token>
    decreases |d|
  {
    var e := ParamEnd(d, 1);
    if e == |d| then NameOf(d, 1) else NameOf(d[..e], 1) + [COMMA] + Names(d[e + 1..])
  }

  /** The names after a parameter that ends at `e`. */
  ghost function OtherNames(d: seq<Token>, e: nat): seq<Token> {
    if e >= |d| then [] else [COMMA] + Names(d[e + 1..])
  }

  /** The rest of the names when a parameter is under way: its own if still to come, then the others. */
  ghost function NamesFrom(d: seq<Token>, depth: nat, atStart: bool): seq<Token> {
    var e := ParamEnd(d, depth);
    HereName(d, e, depth, atStart) + OtherNames(d, e)
  }

  /** Before the generics, everything goes to the rest. */
  lemma {:induction false} BeforeGenerics(st: Scan, p: seq<Token>, more: seq<Token>)
    requires st.nesting == 0 && !st.skip && NoAngles(p)
    ensures Go(st, p + more) == Go(st.(rest := st.rest + p), more)
    decreases |p|
  {
    if p == [] {
      assert p + more == more && st.rest + p == st.rest;
    } else {
      var st' := st.(rest := st.rest + [p[0]]);
      assert (p + more)[0] == p[0] && (p + more)[1..] == p[1..] + more;
      BeforeGenerics(st', p[1..], more);
      assert st'.rest + p[1..] == st.rest + p;
    }
  }

  /** One iteration inside the generics: tokens taken, new depth and flag, names put out. */
  datatype Move = Move(taken: nat, depth: nat, atStart: bool, out: seq<Token>)

  /** What an iteration needs of the next tokens alone. */
  ghost predicate CanMove(d: seq<Token>, depth: nat, atStart: bool) {
    && d != [] && depth >= 1 && (d[0] == GT ==> depth >= 2)
    && (depth == 1 ==> d[0] != EQUALS)
    && (depth == 1 && atStart && d[0] == CONST ==> |d| >= 2 && d[1].Ident?)
  }

  ghost function NextMove(d: seq<Token>, depth: nat, atStart: bool): (m: Move)
    requires CanMove(d, depth, atStart)
    ensures 1 <= m.taken <= |d| && m.depth >= 1
  {
    if d[0] == LT then Move(1, depth + 1, atStart, [])
    else if d[0] == GT then Move(1, depth - 1, atStart, [])
    else if depth > 1 then Move(1, depth, atStart, [])
    else if atStart && d[0] == CONST then Move(2, depth, false, [d[1]])
    else if atStart && d[0].Ident? then Move(1, depth, false, [d[0]])
    else if d[0] == COMMA then Move(1, depth, true, [COMMA])
    else if d[0] == QUOTE && atStart then Move(1, depth, true, [QUOTE])
    else Move(1, depth, atStart, [])
  }

  /** How many default values are followed by another parameter. */
  ghost function EndedDefaults(d: seq<Token>, depth: nat, skip: bool): nat
    decreases |d|
  {
    if d == [] then 0
    else
      var rest := EndedDefaults(d[1..], DepthAfter(d[0], depth), InDefault(d[0], depth, skip));
      if skip && Ends(d[0], depth) then 1 + rest else rest
  }

  /** `d` without default values, and with each comma that ends one written twice. */
  ghost function Doubled(d: seq<Token>, depth: nat, skip: bool): seq<Token>
    decreases |d|
  {
    if d == [] then []
    else if InDefault(d[0], depth, skip) then Doubled(d[1..], DepthAfter(d[0], depth), true)
    else (if skip then [d[0], d[0]] else [d[0]]) + Doubled(d[1..], DepthAfter(d[0], depth), false)
  }

  /** `d` without default values and the commas that end them, so that what follows joins the parameter. */
  ghost function Merged(d: seq<Token>, depth: nat, skip: bool): seq<Token>
    decreases |d|
  {
    if d == [] then []
    else if skip || InDefault(d[0], depth, skip) then
      Merged(d[1..], DepthAfter(d[0], depth), InDefault(d[0], depth, skip))
    else [d[0]] + Merged(d[1..], DepthAfter(d[0], depth), false)
  }

  /** Whether a parameter's name is still to come after one more token. */
  ghost function StartAfter(t: Token, depth: nat, start: bool, skip: bool): bool {
    Ends(t, depth) || (start && !(depth == 1 && !skip && t.Ident?))
  }

  /** A declaration stays well formed token by token, also after the `const` of a parameter. */
  lemma FormAfter(d: seq<Token>, depth: nat, start: bool, skip: bool)
    requires d != [] && depth >= 1 && WellFormed(d, depth, start, skip)
    ensures d[0] == GT ==> depth >= 2
    ensures WellFormed(d[1..], DepthAfter(d[0], depth),
                       StartAfter(d[0], depth, start, skip), InDefault(d[0], depth, skip))
  {
    if depth == 1 && !skip && start && d[0] == CONST {
      assert d[1..][0] == d[1] && d[1..][1..] == d[2..];
    }
  }

  /**
   * After a default the loop does not notice that a parameter starts, so its flag `atStart` may be
   * false where `start` is true, never the other way round.
   */
  lemma {:induction false} MoveKeepsForm(d: seq<Token>, depth: nat, atStart: bool, start: bool) returns (start': bool)
    requires d != [] && depth >= 1 && WellFormed(d, depth, start, false) && (atStart ==> start)
    requires !(depth == 1 && d[0] == EQUALS)
    ensures CanMove(d, depth, atStart)
    ensures var m := NextMove(d, depth, atStart);
            && WellFormed(d[m.taken..], m.depth, start', false) && (m.atStart ==> start')
            && (atStart == start ==> m.atStart == start')
  {
    FormAfter(d, depth, start, false);
    start' := StartAfter(d[0], depth, start, false) && !(depth == 1 && atStart && d[0] == CONST);
  }

  lemma {:induction false} MoveOutputs(d: seq<Token>, depth: nat, atStart: bool)
    requires CanMove(d, depth, atStart)
    ensures var m := NextMove(d, depth, atStart);
            && Doubled(d, depth, false) == d[..m.taken] + Doubled(d[m.taken..], m.depth, false)
            && Merged(d, depth, false) == d[..m.taken] + Merged(d[m.taken..], m.depth, false)
  {
    var m := NextMove(d, depth, atStart);
    if m.taken == 2 {
      assert d[1..][1..] == d[2..] && d[1..][0] == d[1] && d[..2] == [d[0]] + [d[1]];
    } else {
      assert d[..1] == [d[0]];
    }
  }

  /** A move looks only at the tokens it takes. */
  lemma SameMove(d: seq<Token>, w: seq<Token>, depth: nat, atStart: bool)
    requires CanMove(d, depth, atStart)
    requires var m := NextMove(d, depth, atStart); m.taken <= |w| && w[..m.taken] == d[..m.taken]
    ensures CanMove(w, depth, atStart) && NextMove(w, depth, atStart) == NextMove(d, depth, atStart)
  {
    var m := NextMove(d, depth, atStart);
    assert w[0] == w[..m.taken][0] && d[0] == d[..m.taken][0];
    if m.taken == 2 {
      assert w[1] == w[..m.taken][1] && d[1] == d[..m.taken][1];
    }
  }

  ghost function Moved(st: Scan, d: seq<Token>, m: Move): Scan
    requires m.taken <= |d|
  {
    Scan(st.decl + d[..m.taken], st.impl + d[..m.taken], st.ty + m.out, st.rest, m.depth, m.atStart, false)
  }

  lemma {:induction false} MoveIsIteration(st: Scan, d: seq<Token>, more: seq<Token>)
    requires CanMove(d, st.nesting, st.atStart) && !st.skip
    ensures var m := NextMove(d, st.nesting, st.atStart);
            Iterate(st, d + more) == Iteration(Moved(st, d, m), m.taken, false)
  {
    var m := NextMove(d, st.nesting, st.atStart);
    assert (d + more)[0] == d[0];
    if m.taken == 2 {
      assert (d + more)[1] == d[1] && d[..2] == [d[0], d[1]];
    } else {
      assert d[..1] == [d[0]];
      assert OnToken(st.nesting, st.atStart, false, d[0]) == Effect(1, m.out != [], m.depth, m.atStart, false);
      assert st.ty + [] == st.ty;
    }
  }

  lemma Reassociate(a: seq<Token>, b: seq<Token>, c: seq<Token>)
    ensures (a + b) + c == a + (b + c)
  {
  }

  /** A parameter's own name, if it is still to come. */
  ghost function HereName(d: seq<Token>, e: nat, depth: nat, atStart: bool): seq<Token>
    requires e <= |d|
  {
    if atStart then NameOf(d[..e], depth) else []
  }

  lemma OtherNamesShift(d: seq<Token>, e: nat)
    requires d != []
    ensures OtherNames(d, 1 + e) == OtherNames(d[1..], e)
  {
    assert 1 + e < |d| ==> d[1 + e + 1..] == d[1..][e + 1..];
  }

  /** A token that neither ends the parameter nor is a `const` at its start. */
  lemma {:induction false} HereNameStep(d: seq<Token>, e: nat, depth: nat, atStart: bool)
    requires CanMove(d, depth, atStart) && !(d[0] == COMMA && depth == 1) && e < |d|
    requires !(depth == 1 && atStart && d[0] == CONST)
    ensures var m := NextMove(d, depth, atStart);
            HereName(d, 1 + e, depth, atStart) == m.out + HereName(d[1..], e, m.depth, m.atStart)
  {
    var q := d[..1 + e];
    assert q[0] == d[0] && q[1..] == d[1..][..e];
  }

  /** The names still due before a move are those it puts out and those due after it. */
  ghost predicate MovesNames(d: seq<Token>, depth: nat, atStart: bool, m: Move)
    requires m.taken <= |d|
  {
    NamesFrom(d, depth, atStart) == m.out + NamesFrom(d[m.taken..], m.depth, m.atStart)
  }

  lemma {:induction false} NamesAfterOne(d: seq<Token>, depth: nat, atStart: bool)
    requires CanMove(d, depth, atStart) && !(d[0] == COMMA && depth == 1)
    requires !(depth == 1 && atStart && d[0] == CONST)
    ensures MovesNames(d, depth, atStart, NextMove(d, depth, atStart))
  {
    var m := NextMove(d, depth, atStart);
    var e := ParamEnd(d[1..], m.depth);
    assert ParamEnd(d, depth) == 1 + e;
    HereNameStep(d, e, depth, atStart);
    OtherNamesShift(d, e);
    Reassociate(m.out, HereName(d[1..], e, m.depth, m.atStart), OtherNames(d[1..], e));
  }

  lemma ParamEndAfterConst(d: seq<Token>)
    requires |d| >= 2 && d[0] == CONST && d[1].Ident?
    ensures ParamEnd(d, 1) == 2 + ParamEnd(d[2..], 1)
  {
    assert d[1..][1..] == d[2..] && d[1..][0] == d[1];
    assert ParamEnd(d[1..], 1) == 1 + ParamEnd(d[2..], 1);
  }

  lemma {:induction false} NamesAfterConst(d: seq<Token>)
    requires |d| >= 2 && d[0] == CONST && d[1].Ident?
    ensures MovesNames(d, 1, true, Move(2, 1, false, [d[1]]))
  {
    var e := ParamEnd(d[2..], 1);
    ParamEndAfterConst(d);
    assert HereName(d, 2 + e, 1, true) == [d[1]] by {
      var q := d[..2 + e];
      assert q[0] == d[0] && q[1] == d[1];
    }
    assert 2 + e < |d| ==> d[2 + e + 1..] == d[2..][e + 1..];
    assert OtherNames(d, 2 + e) == OtherNames(d[2..], e);
    assert NamesFrom(d[2..], 1, false) == OtherNames(d[2..], e);
  }

  lemma {:induction false} MoveNames(d: seq<Token>, depth: nat, atStart: bool)
    requires CanMove(d, depth, atStart)
    ensures MovesNames(d, depth, atStart, NextMove(d, depth, atStart))
  {
    if d[0] == COMMA && depth == 1 {
      NamesAfterComma(d, atStart);
    } else if depth == 1 && atStart && d[0] == CONST {
      NamesAfterConst(d);
    } else {
      NamesAfterOne(d, depth, atStart);
    }
  }

  lemma NamesAfterComma(d: seq<Token>, atStart: bool)
    requires d != [] && d[0] == COMMA
    ensures MovesNames(d, 1, atStart, Move(1, 1, true, [COMMA]))
  {
    NamesAtStart(d[1..]);
    assert d[..0] == [] && NameOf(d[..0], 1) == [];
  }

  lemma NamesAtStart(d: seq<Token>)
    ensures Names(d) == NamesFrom(d, 1, true)
  {
    var e := ParamEnd(d, 1);
    assert d[..|d|] == d;
  }

  lemma GoStep(st: Scan, toks: seq<Token>, it: Iteration)
    requires toks != [] && it == Iterate(st, toks) && !it.stop
    ensures Go(st, toks) == Go(it.st, toks[it.taken..])
  {
  }

  lemma DropFromSum(d: seq<Token>, more: seq<Token>, n: nat)
    requires n <= |d|
    ensures (d + more)[n..] == d[n..] + more
  {
  }

  lemma {:induction false} GoOn(st: Scan, d: seq<Token>, more: seq<Token>, it: Iteration)
    requires d != [] && it == Iterate(st, d + more) && !it.stop && it.taken <= |d|
    ensures Go(st, d + more) == Go(it.st, d[it.taken..] + more)
  {
    DropFromSum(d, more, it.taken);
    GoStep(st, d + more, it);
  }

  function Commas(s: seq<Token>): nat { multiset(s)[COMMA] }

  /** From `st` to `r`, a declaration `d` and the tail `s` have been read, and `w` and `names` put out. */
  ghost predicate Parsed(st: Scan, r: Scan, d: seq<Token>, w: seq<Token>, names: seq<Token>, s: seq<Token>) {
    r.decl == st.decl + d && r.impl == st.impl + w && r.ty == st.ty + names && r.rest == st.rest + s
  }

  lemma {:induction false} NamesAfterMove(d: seq<Token>, w': seq<Token>, depth: nat, atStart: bool)
    requires CanMove(d, depth, atStart)
    ensures var m := NextMove(d, depth, atStart);
            NamesFrom(d[..m.taken] + w', depth, atStart) == m.out + NamesFrom(w', m.depth, m.atStart)
  {
    var m := NextMove(d, depth, atStart);
    var w := d[..m.taken] + w';
    assert w[..m.taken] == d[..m.taken] && w[m.taken..] == w';
    SameMove(d, w, depth, atStart);
    MoveNames(w, depth, atStart);
  }

  lemma {:induction false} ParsedStep(st: Scan, r: Scan, d: seq<Token>, w: seq<Token>, m: Move,
                                      names: seq<Token>, s: seq<Token>)
    requires m.taken <= |d| && Parsed(Moved(st, d, m), r, d[m.taken..], w, names, s)
    ensures Parsed(st, r, d, d[..m.taken] + w, m.out + names, s)
  {
    Rejoin(st.decl, d, m.taken);
    Reassociate(st.impl, d[..m.taken], w);
    Reassociate(st.ty, m.out, names);
  }

  /** While a default is read, tokens go to the declared generics only. */
  lemma SkipIterates(st: Scan, toks: seq<Token>)
    requires toks != [] && st.nesting >= 1 && (toks[0] == GT ==> st.nesting >= 2)
    requires InDefault(toks[0], st.nesting, st.skip)
    ensures Iterate(st, toks) ==
            Iteration(st.(decl := st.decl + [toks[0]], nesting := DepthAfter(toks[0], st.nesting), skip := true),
                      1, false)
  {
  }

  lemma {:induction false} SkipIsGo(st: Scan, d: seq<Token>, more: seq<Token>)
    requires d != [] && st.nesting >= 1 && (d[0] == GT ==> st.nesting >= 2) && InDefault(d[0], st.nesting, st.skip)
    ensures Go(st, d + more) ==
            Go(st.(decl := st.decl + [d[0]], nesting := DepthAfter(d[0], st.nesting), skip := true), d[1..] + more)
  {
    SkipIterates(st, d + more);
    GoOn(st, d, more, Iterate(st, d + more));
  }

  /** The comma after a default goes to the impl generics twice. */
  lemma {:induction false} EndedCommaIsGo(st: Scan, d: seq<Token>, more: seq<Token>)
    requires d != [] && st.skip && Ends(d[0], st.nesting)
    ensures Go(st, d + more) ==
            Go(st.(decl := st.decl + [COMMA], impl := st.impl + [COMMA, COMMA], skip := false), d[1..] + more)
  {
    assert (d + more)[0] == COMMA;
    GoOn(st, d, more, Iterate(st, d + more));
  }

  /** One move, then what follows. */
  lemma {:induction false} InsideMove(st: Scan, d: seq<Token>, s: seq<Token>, m: Move,
                                      w: seq<Token>, v: seq<Token>, r: Scan)
    requires CanMove(d, st.nesting, st.atStart) && !st.skip && m == NextMove(d, st.nesting, st.atStart)
    requires r == Go(Moved(st, d, m), d[m.taken..] + ([GT] + s))
    requires Parsed(Moved(st, d, m), r, d[m.taken..], w, NamesFrom(v, m.depth, m.atStart), s)
    ensures Go(st, d + ([GT] + s)) == r
    ensures Parsed(st, r, d, d[..m.taken] + w, NamesFrom(d[..m.taken] + v, st.nesting, st.atStart), s)
  {
    MoveIsIteration(st, d, [GT] + s);
    GoOn(st, d, [GT] + s, Iteration(Moved(st, d, m), m.taken, false));
    NamesAfterMove(d, v, st.nesting, st.atStart);
    ParsedStep(st, r, d, w, m, NamesFrom(v, m.depth, m.atStart), s);
  }

  /** One token of a default, or the comma after it, then what follows. */
  lemma {:induction false} InsideDefault(st: Scan, st': Scan, d: seq<Token>, w: seq<Token>, v: seq<Token>,
                                         names: seq<Token>, s: seq<Token>, r: Scan)
    requires d != []
    requires st' == st.(decl := st.decl + [d[0]], impl := st.impl + w, nesting := st'.nesting, skip := st'.skip)
    requires Parsed(st', r, d[1..], v, names, s)
    ensures Parsed(st, r, d, w + v, names, s)
  {
    assert st.decl + [d[0]] + d[1..] == st.decl + d;
    Reassociate(st.impl, w, v);
  }

  lemma NoNames(depth: nat, atStart: bool)
    ensures NamesFrom([], depth, atStart) == []
  {
  }

  /** What the declaration `d`, read from `st` on, has put out in the end. */
  ghost predicate Outputs(st: Scan, r: Scan, d: seq<Token>, s: seq<Token>) {
    Parsed(st, r, d, Doubled(d, st.nesting, st.skip),
           NamesFrom(Merged(d, st.nesting, st.skip), if st.skip then 1 else st.nesting, st.atStart), s)
  }

  /** Inside the generics, until the closing bracket, whatever defaults there are. */
  lemma {:induction false} InsideGenerics(st: Scan, d: seq<Token>, s: seq<Token>, start: bool)
    requires st.nesting >= 1 && WellFormed(d, st.nesting, start, st.skip) && (st.atStart ==> start)
    ensures Outputs(st, Go(st, d + ([GT] + s)), d, s)
    decreases |d|, 1
  {
    if d == [] {
      ClosingBracket(st, s);
      NoNames(if st.skip then 1 else st.nesting, st.atStart);
      assert d + ([GT] + s) == [GT] + s;
    } else if st.skip || InDefault(d[0], st.nesting, st.skip) {
      FormAfter(d, st.nesting, start, st.skip);
      DefaultStep(st, d, s, StartAfter(d[0], st.nesting, start, st.skip));
    } else {
      var start' := MoveKeepsForm(d, st.nesting, st.atStart, start);
      var m := NextMove(d, st.nesting, st.atStart);
      InsideGenerics(Moved(st, d, m), d[m.taken..], s, start');
      MoveOutputs(d, st.nesting, st.atStart);
      InsideMove(st, d, s, m, Doubled(d[m.taken..], m.depth, false), Merged(d[m.taken..], m.depth, false),
                 Go(Moved(st, d, m), d[m.taken..] + ([GT] + s)));
    }
  }

  lemma {:induction false} DefaultStep(st: Scan, d: seq<Token>, s: seq<Token>, start: bool)
    requires st.nesting >= 1 && d != [] && (d[0] == GT ==> st.nesting >= 2) && (st.atStart ==> start)
    requires st.skip || InDefault(d[0], st.nesting, st.skip)
    requires WellFormed(d[1..], DepthAfter(d[0], st.nesting), start, InDefault(d[0], st.nesting, st.skip))
    ensures Outputs(st, Go(st, d + ([GT] + s)), d, s)
    decreases |d|, 0
  {
    var gone := InDefault(d[0], st.nesting, st.skip);
    var st' := st.(decl := st.decl + [d[0]], impl := if gone then st.impl else st.impl + [COMMA, COMMA],
                   nesting := DepthAfter(d[0], st.nesting), skip := gone);
    InsideGenerics(st', d[1..], s, start);
    var r, v := Go(st', d[1..] + ([GT] + s)), Doubled(d[1..], st'.nesting, gone);
    var names := NamesFrom(Merged(d[1..], st'.nesting, gone), 1, st.atStart);
    if gone {
      SkipIsGo(st, d, [GT] + s);
      assert st.impl + [] == st.impl && [] + v == v;
      InsideDefault(st, st', d, [], v, names, s, r);
    } else {
      EndedCommaIsGo(st, d, [GT] + s);
      InsideDefault(st, st', d, [COMMA, COMMA], v, names, s, r);
    }
  }

  lemma Rejoin(a: seq<Token>, d: seq<Token>, n: nat)
    requires n <= |d|
    ensures a + d[..n] + d[n..] == a + d
  {
    assert d[..n] + d[n..] == d;
  }

  lemma ClosingBracket(st: Scan, s: seq<Token>)
    requires st.nesting == 1
    ensures Go(st, [GT] + s) == st.(rest := st.rest + s)
  {
    assert ([GT] + s)[1..] == s;
  }

  // ----- how the outputs compare with the documented ones -----

  ghost function DepthOneCommas(d: seq<Token>, depth: nat): nat
    decreases |d|
  {
    if d == [] then 0 else (if Ends(d[0], depth) then 1 else 0) + DepthOneCommas(d[1..], DepthAfter(d[0], depth))
  }

  /** Well formed, without defaults, and with `n` depth-one commas. */
  ghost predicate Clean(w: seq<Token>, depth: nat, start: bool, n: nat) {
    WellFormed(w, depth, start, false) && DefaultAt(w, depth) == |w| && DepthOneCommas(w, depth) == n
  }

  lemma {:induction false} CleanCons(t: Token, w: seq<Token>, depth: nat, start: bool, n: nat)
    requires depth >= 1 && (t == GT ==> depth >= 2)
    requires !(depth == 1 && t == EQUALS) && !(depth == 1 && start && t == CONST)
    requires Clean(w, DepthAfter(t, depth), StartAfter(t, depth, start, false), n)
    ensures Clean([t] + w, depth, start, n + if Ends(t, depth) then 1 else 0)
  {
    assert ([t] + w)[1..] == w;
  }

  lemma {:induction false} CleanConst(t: Token, w: seq<Token>, n: nat)
    requires t.Ident? && Clean(w, 1, false, n)
    ensures Clean([CONST] + ([t] + w), 1, true, n)
  {
    var v := [CONST] + ([t] + w);
    assert v[1..] == [t] + w && v[1..][0] == v[1] == t && v[1..][1..] == v[2..] == w;
  }

  /** Removing defaults leaves a declaration without defaults and with the same depth-one commas. */
  lemma {:induction false} DefaultsRemoved(d: seq<Token>, depth: nat, start: bool, skip: bool)
    requires depth >= 1 && WellFormed(d, depth, start, skip)
    ensures Clean(WithoutDefaults(d, depth, skip), if skip then 1 else depth, start, DepthOneCommas(d, depth))
    decreases |d|
  {
    if d != [] {
      var t, gone := d[0], InDefault(d[0], depth, skip);
      if depth == 1 && !skip && start && t == CONST {
        assert d[1..][0] == d[1] && d[1..][1..] == d[2..];
        DefaultsRemoved(d[2..], 1, false, false);
        CleanConst(d[1], WithoutDefaults(d[2..], 1, false), DepthOneCommas(d[2..], 1));
      } else {
        FormAfter(d, depth, start, skip);
        DefaultsRemoved(d[1..], DepthAfter(t, depth), StartAfter(t, depth, start, skip), gone);
        if !gone {
          CleanCons(t, WithoutDefaults(d[1..], DepthAfter(t, depth), false), depth, start,
                    DepthOneCommas(d[1..], DepthAfter(t, depth)));
        }
      }
    }
  }

  /** So does removing the commas that end defaults as well, which are that many fewer. */
  lemma {:induction false} MergedIsClean(d: seq<Token>, depth: nat, atStart: bool, start: bool, skip: bool)
    requires depth >= 1 && WellFormed(d, depth, start, skip) && (atStart ==> start)
    ensures DepthOneCommas(d, depth) >= EndedDefaults(d, depth, skip)
    ensures Clean(Merged(d, depth, skip), if skip then 1 else depth, atStart,
                  DepthOneCommas(d, depth) - EndedDefaults(d, depth, skip))
    decreases |d|
  {
    if d != [] {
      var t, gone := d[0], InDefault(d[0], depth, skip);
      if depth == 1 && !skip && atStart && t == CONST {
        assert d[1..][0] == d[1] && d[1..][1..] == d[2..];
        MergedIsClean(d[2..], 1, false, false, false);
        CleanConst(d[1], Merged(d[2..], 1, false), DepthOneCommas(d[2..], 1) - EndedDefaults(d[2..], 1, false));
      } else {
        FormAfter(d, depth, start, skip);
        var depth', start' := DepthAfter(t, depth), StartAfter(t, depth, start, skip);
        if skip || gone {
          MergedIsClean(d[1..], depth', atStart, start', gone);
        } else {
          var atStart' := StartAfter(t, depth, atStart, false);
          MergedIsClean(d[1..], depth', atStart', start', false);
          CleanCons(t, Merged(d[1..], depth', false), depth, atStart,
                    DepthOneCommas(d[1..], depth') - EndedDefaults(d[1..], depth', false));
        }
      }
    }
  }

  /** The surplus of the impl generics is one token for each default that another parameter follows. */
  lemma {:induction false} SurplusIs(d: seq<Token>, depth: nat, skip: bool)
    ensures |Doubled(d, depth, skip)| == |WithoutDefaults(d, depth, skip)| + EndedDefaults(d, depth, skip)
    ensures EndedDefaults(d, depth, skip) == 0 ==>
              Doubled(d, depth, skip) == Merged(d, depth, skip) == WithoutDefaults(d, depth, skip)
    decreases |d|
  {
    if d != [] {
      SurplusIs(d[1..], DepthAfter(d[0], depth), InDefault(d[0], depth, skip));
    }
  }

  lemma {:induction false} MoveCommas(d: seq<Token>, depth: nat, atStart: bool)
    requires CanMove(d, depth, atStart)
    ensures var m := NextMove(d, depth, atStart);
            && Commas(m.out) + DepthOneCommas(d[m.taken..], m.depth) == DepthOneCommas(d, depth)
            && m.taken + DefaultAt(d[m.taken..], m.depth) == DefaultAt(d, depth)
  {
    var m := NextMove(d, depth, atStart);
    if m.taken == 2 {
      assert d[1..][1..] == d[2..] && d[1..][0] == d[1];
    }
  }

  /** Without defaults, the names are separated by exactly the depth-one commas. */
  lemma {:induction false} NameCommas(d: seq<Token>, depth: nat, atStart: bool)
    requires depth >= 1 && WellFormed(d, depth, atStart, false) && DefaultAt(d, depth) == |d|
    ensures Commas(NamesFrom(d, depth, atStart)) == DepthOneCommas(d, depth)
    decreases |d|
  {
    if d == [] {
      assert NamesFrom(d, depth, atStart) == [];
    } else {
      var start' := MoveKeepsForm(d, depth, atStart, atStart);
      MoveNames(d, depth, atStart);
      MoveCommas(d, depth, atStart);
      var m := NextMove(d, depth, atStart);
      NameCommas(d[m.taken..], m.depth, m.atStart);
      CommasOfSum(m.out, NamesFrom(d[m.taken..], m.depth, m.atStart));
    }
  }

  lemma CommasOfSum(a: seq<Token>, b: seq<Token>)
    ensures Commas(a + b) == Commas(a) + Commas(b)
  {
  }

  lemma {:induction false} NothingToRemove(d: seq<Token>, depth: nat)
    requires DefaultAt(d, depth) == |d|
    ensures WithoutDefaults(d, depth, false) == d
    decreases |d|
  {
    if d != [] {
      NothingToRemove(d[1..], DepthAfter(d[0], depth));
    }
  }

  lemma {:induction false} NoneEndedAfter(d: seq<Token>, depth: nat)
    ensures EndedDefaults(d, depth, true) == 0 <==> ParamEnd(d, depth) == |d|
    decreases |d|
  {
    if d != [] {
      NoneEndedAfter(d[1..], DepthAfter(d[0], depth));
    }
  }

  /** No default is followed by a parameter exactly if no depth-one comma follows a depth-one `=`. */
  lemma {:induction false} NoneEnded(d: seq<Token>, depth: nat)
    ensures var k := DefaultAt(d, depth);
            EndedDefaults(d, depth, false) == 0 <==> k == |d| || ParamEnd(d[k..], 1) == |d| - k
    decreases |d|
  {
    if d != [] {
      if depth == 1 && d[0] == EQUALS {
        NoneEndedAfter(d[1..], 1);
        assert d[0..] == d;
      } else {
        NoneEnded(d[1..], DepthAfter(d[0], depth));
        var k := DefaultAt(d[1..], DepthAfter(d[0], depth));
        assert d[1..][k..] == d[1 + k..];
      }
    }
  }

  /** The documented impl generics; the documented type generics are its names. */
  ghost function Documented(d: seq<Token>): seq<Token> { WithoutDefaults(d, 1, false) }

  /** The documented outputs come out if and only if no default is followed by a parameter. */
  lemma {:induction false} DocumentedIff(d: seq<Token>)
    requires WellFormed(d, 1, true, false)
    ensures var w, n := Documented(d), EndedDefaults(d, 1, false);
            && (Doubled(d, 1, false) == w <==> n == 0) && (Names(Merged(d, 1, false)) == Names(w) <==> n == 0)
            && |Doubled(d, 1, false)| - |w| == Commas(Names(w)) - Commas(Names(Merged(d, 1, false))) == n
  {
    var w, v := Documented(d), Merged(d, 1, false);
    SurplusIs(d, 1, false);
    DefaultsRemoved(d, 1, true, false);
    MergedIsClean(d, 1, true, true, false);
    NamesAtStart(w);
    NamesAtStart(v);
    NameCommas(w, 1, true);
    NameCommas(v, 1, true);
  }

  lemma OpeningBracket(st: Scan, toks: seq<Token>)
    requires st.nesting == 0
    ensures Go(st, [LT] + toks) == Go(st.(nesting := 1), toks)
  {
    assert ([LT] + toks)[1..] == toks;
  }

  // ----- which parameters the type generics name -----

  ghost function DepthAt(d: seq<Token>, depth: nat): nat
    decreases |d|
  {
    if d == [] then depth else DepthAt(d[1..], DepthAfter(d[0], depth))
  }

  /** A parameter has a name: an identifier at depth one, and another one after it if it is `const`. */
  ghost predicate Named(q: seq<Token>, depth: nat)
    decreases |q|
  {
    if q == [] then false
    else if q[0] == LT || q[0] == GT || depth > 1 then Named(q[1..], DepthAfter(q[0], depth))
    else if q[0] == CONST then |q| >= 2
    else q[0].Ident? || Named(q[1..], depth)
  }

  /** Every parameter with a default has its name before the `=`. */
  ghost predicate NamedDefaults(d: seq<Token>)
    decreases |d|
  {
    var e := ParamEnd(d, 1);
    var k := DefaultAt(d[..e], 1);
    (k < e ==> Named(d[..k], 1)) && (e < |d| ==> NamedDefaults(d[e + 1..]))
  }

  /**
   * Parameter by parameter: the name is there if the parameter is the first or the one before it has
   * no default, and the comma after it is there if it has no default itself.
   */
  ghost function Shown(d: seq<Token>, name: bool): seq<Token>
    decreases |d|
  {
    var e := ParamEnd(d, 1);
    var k := DefaultAt(d[..e], 1);
    var here := if name then NameOf(d[..k], 1) else [];
    if e == |d| then here
    else if k == e then here + ([COMMA] + Shown(d[e + 1..], true))
    else here + Shown(d[e + 1..], false)
  }

  /** Up to a depth-one comma or `=` the brackets have closed, and no depth-one comma has come. */
  lemma {:induction false} BeforeEnd(d: seq<Token>, depth: nat, k: nat)
    requires k <= ParamEnd(d, depth)
    ensures ParamEnd(d[..k], depth) == k
    ensures k < |d| && (k == ParamEnd(d, depth) || k == DefaultAt(d, depth)) ==> DepthAt(d[..k], depth) == 1
    decreases |d|
  {
    if k > 0 {
      BeforeEnd(d[1..], DepthAfter(d[0], depth), k - 1);
      assert d[..k][0] == d[0] && d[..k][1..] == d[1..][..k - 1];
    }
  }

  lemma {:induction false} EndOfSum(w: seq<Token>, x: seq<Token>, depth: nat)
    requires ParamEnd(w, depth) == |w| && DepthAt(w, depth) == 1
    ensures ParamEnd(w + x, depth) == |w| + ParamEnd(x, 1)
    decreases |w|
  {
    if w == [] {
      assert w + x == x;
    } else {
      assert (w + x)[0] == w[0] && (w + x)[1..] == w[1..] + x;
      EndOfSum(w[1..], x, DepthAfter(w[0], depth));
    }
  }

  lemma {:induction false} NameOfSum(w: seq<Token>, x: seq<Token>, depth: nat)
    requires Named(w, depth)
    ensures NameOf(w + x, depth) == NameOf(w, depth)
    decreases |w|
  {
    assert (w + x)[0] == w[0] && (w + x)[1..] == w[1..] + x;
    if w[0] == LT || w[0] == GT || depth > 1 || !w[0].Ident? {
      NameOfSum(w[1..], x, DepthAfter(w[0], depth));
    } else if w[0] == CONST {
      assert (w + x)[1] == w[1];
    }
  }

  /** The first `=` of a parameter, seen from the whole declaration. */
  lemma {:induction false} DefaultInParam(d: seq<Token>, depth: nat, e: nat)
    requires e <= |d|
    ensures DefaultAt(d[..e], depth) == if DefaultAt(d, depth) < e then DefaultAt(d, depth) else e
    decreases |d|
  {
    if e > 0 {
      DefaultInParam(d[1..], DepthAfter(d[0], depth), e - 1);
      assert d[..e][0] == d[0] && d[..e][1..] == d[1..][..e - 1];
    }
  }

  /** How much of the parameter under way is kept. */
  ghost function Kept(d: seq<Token>, depth: nat, skip: bool): (k: nat)
    ensures k <= ParamEnd(d, depth)
  {
    if skip then 0 else if DefaultAt(d, depth) < ParamEnd(d, depth) then DefaultAt(d, depth) else ParamEnd(d, depth)
  }

  /** What follows the parameter that ends at `e`, with its comma or without. */
  ghost function MergedAfter(d: seq<Token>, e: nat, comma: bool): seq<Token> {
    if e >= |d| then [] else if comma then [COMMA] + Merged(d[e + 1..], 1, false) else Merged(d[e + 1..], 1, false)
  }

  lemma MergedAfterShift(d: seq<Token>, e: nat, comma: bool)
    requires d != []
    ensures MergedAfter(d, e + 1, comma) == MergedAfter(d[1..], e, comma)
  {
    assert e < |d| - 1 ==> d[1..][e + 1..] == d[e + 2..];
  }

  /** What merging makes of the parameter under way and of what follows. */
  ghost predicate MergesParam(d: seq<Token>, depth: nat, skip: bool) {
    var e, k := ParamEnd(d, depth), Kept(d, depth, skip);
    Merged(d, depth, skip) == d[..k] + MergedAfter(d, e, !skip && k == e)
  }

  lemma {:induction false} MergedDropped(d: seq<Token>, depth: nat, skip: bool)
    requires d != [] && InDefault(d[0], depth, skip) && MergesParam(d[1..], DepthAfter(d[0], depth), true)
    ensures MergesParam(d, depth, skip)
  {
    MergedAfterShift(d, ParamEnd(d[1..], DepthAfter(d[0], depth)), false);
    assert Kept(d, depth, skip) == 0;
    assert d[..0] == d[1..][..0] == [];
  }

  lemma {:induction false} MergedKept(d: seq<Token>, depth: nat)
    requires d != [] && !InDefault(d[0], depth, false) && !Ends(d[0], depth)
    requires MergesParam(d[1..], DepthAfter(d[0], depth), false)
    ensures MergesParam(d, depth, false)
  {
    var depth' := DepthAfter(d[0], depth);
    var e, k := ParamEnd(d[1..], depth'), Kept(d[1..], depth', false);
    MergedAfterShift(d, e, k == e);
    assert Kept(d, depth, false) == k + 1;
    assert d[..k + 1] == [d[0]] + d[1..][..k];
    Reassociate([d[0]], d[1..][..k], MergedAfter(d, e + 1, k == e));
  }

  lemma {:induction false} MergedParam(d: seq<Token>, depth: nat, skip: bool)
    ensures MergesParam(d, depth, skip)
    decreases |d|
  {
    if d == [] || Ends(d[0], depth) {
      assert d[..0] == [] && Kept(d, depth, skip) == ParamEnd(d, depth) == 0;
    } else if InDefault(d[0], depth, skip) {
      MergedParam(d[1..], DepthAfter(d[0], depth), true);
      MergedDropped(d, depth, skip);
    } else {
      MergedParam(d[1..], DepthAfter(d[0], depth), false);
      MergedKept(d, depth);
    }
  }

  /** The first parameter ends at `e` and its default, if any, starts at `k`. */
  lemma {:induction false} MergedFirst(d: seq<Token>, e: nat, k: nat)
    requires e == ParamEnd(d, 1) && k == DefaultAt(d[..e], 1)
    ensures Merged(d, 1, false) == d[..k] + MergedAfter(d, e, k == e)
    ensures ParamEnd(d[..k], 1) == k && (k < |d| ==> DepthAt(d[..k], 1) == 1)
  {
    MergedParam(d, 1, false);
    DefaultInParam(d, 1, e);
    BeforeEnd(d, 1, k);
  }

  /** The names of a declaration that is `w`, a depth-one comma and more, or `w` alone. */
  lemma {:induction false} NamesOfFirst(w: seq<Token>, rest: seq<Token>, name: bool)
    requires ParamEnd(w, 1) == |w| && DepthAt(w, 1) == 1
    ensures NamesFrom(w + ([COMMA] + rest), 1, name) == (if name then NameOf(w, 1) else []) + ([COMMA] + Names(rest))
  {
    var d := w + ([COMMA] + rest);
    EndOfSum(w, [COMMA] + rest, 1);
    assert ParamEnd([COMMA] + rest, 1) == 0 by { assert ([COMMA] + rest)[0] == COMMA; }
    assert d[..|w|] == w && d[|w| + 1..] == rest;
  }

  /** The name of `d` is `here`, and its other names are those of `rest`. */
  lemma {:induction false} NamesByParts(d: seq<Token>, rest: seq<Token>, n: nat, e: nat, name: bool, here: seq<Token>)
    requires ParamEnd(d, 1) == n + e && ParamEnd(rest, 1) == e
    requires HereName(d, n + e, 1, name) == here && OtherNames(d, n + e) == OtherNames(rest, e)
    ensures NamesFrom(d, 1, name) == here + NamesFrom(rest, 1, false)
  {
    assert [] + OtherNames(rest, e) == OtherNames(rest, e);
  }

  /** A named parameter `w` takes what follows it into itself. */
  lemma {:induction false} JoinedParts(d: seq<Token>, w: seq<Token>, rest: seq<Token>, e: nat, name: bool,
                                       here: seq<Token>)
    requires d == w + rest && e == ParamEnd(rest, 1) && here == (if name then NameOf(w, 1) else [])
    requires ParamEnd(w, 1) == |w| && DepthAt(w, 1) == 1 && Named(w, 1)
    ensures ParamEnd(d, 1) == |w| + e
    ensures HereName(d, |w| + e, 1, name) == here && OtherNames(d, |w| + e) == OtherNames(rest, e)
  {
    EndOfSum(w, rest, 1);
    HereNameOfSum(w, rest, e, name);
    OtherNamesOfSum(w, rest, e);
  }

  lemma {:induction false} NamesOfJoined(d: seq<Token>, w: seq<Token>, rest: seq<Token>, name: bool, here: seq<Token>)
    requires d == w + rest && here == (if name then NameOf(w, 1) else [])
    requires ParamEnd(w, 1) == |w| && DepthAt(w, 1) == 1 && Named(w, 1)
    ensures NamesFrom(d, 1, name) == here + NamesFrom(rest, 1, false)
  {
    var e := ParamEnd(rest, 1);
    JoinedParts(d, w, rest, e, name, here);
    NamesByParts(d, rest, |w|, e, name, here);
  }

  lemma HereNameOfSum(w: seq<Token>, rest: seq<Token>, e: nat, name: bool)
    requires Named(w, 1) && e <= |rest|
    ensures HereName(w + rest, |w| + e, 1, name) == if name then NameOf(w, 1) else []
  {
    NameOfSum(w, rest[..e], 1);
    assert (w + rest)[..|w| + e] == w + rest[..e];
  }

  lemma OtherNamesOfSum(w: seq<Token>, rest: seq<Token>, e: nat)
    ensures OtherNames(w + rest, |w| + e) == OtherNames(rest, e)
  {
    assert e < |rest| ==> (w + rest)[|w| + e + 1..] == rest[e + 1..];
  }

  /** Exactly which names and commas the type generics have. */
  lemma {:induction false} ShownAre(d: seq<Token>, name: bool)
    requires NamedDefaults(d)
    ensures NamesFrom(Merged(d, 1, false), 1, name) == Shown(d, name)
    decreases |d|
  {
    var e := ParamEnd(d, 1);
    var k := DefaultAt(d[..e], 1);
    MergedFirst(d, e, k);
    if e == |d| {
      NamesOfLast(d[..k], name);
    } else {
      var rest := Merged(d[e + 1..], 1, false);
      if k == e {
        ShownAre(d[e + 1..], true);
        NamesAtStart(rest);
        NamesOfFirst(d[..k], rest, name);
      } else {
        ShownAre(d[e + 1..], false);
        NamesOfJoined(Merged(d, 1, false), d[..k], rest, name, if name then NameOf(d[..k], 1) else []);
      }
    }
  }

  lemma {:induction false} NamesOfLast(w: seq<Token>, name: bool)
    requires ParamEnd(w, 1) == |w|
    ensures NamesFrom(w + [], 1, name) == if name then NameOf(w, 1) else []
  {
    assert w + [] == w && w[..|w|] == w;
  }

  /**
   * The input is p `<` d `>` s. The declared generics are d and the rest is p + s. The impl generics
   * are d without its defaults but with each comma that ends a default doubled. The type generics are
   * the parameter names with their commas, where a parameter that follows a default counts as part of
   * the one with the default; if each default has a name, `Shown` lists them one by one. Both
   * are as documented if and only if no depth-one comma follows a depth-one `=`.
   */
  lemma {:induction false} ParsesGenerics(p: seq<Token>, d: seq<Token>, s: seq<Token>)
    requires NoAngles(p) && WellFormed(d, 1, true, false)
    ensures var r, w := Go(Initial, p + ([LT] + (d + ([GT] + s)))), Documented(d);
            && r.decl == d && r.rest == p + s
            && r.impl == Doubled(d, 1, false) && r.ty == Names(Merged(d, 1, false))
            && (r.impl == w <==> DefaultOnlyLast(d))
            && (r.ty == Names(w) <==> DefaultOnlyLast(d))
            && |r.impl| - |w| == Commas(Names(w)) - Commas(r.ty) == EndedDefaults(d, 1, false)
            && (NamedDefaults(d) ==> r.ty == Shown(d, true))
    ensures NoDefault(d) ==> Documented(d) == d
  {
    var toks := d + ([GT] + s);
    var st := Initial.(rest := p, nesting := 1);
    BeforeGenerics(Initial, p, [LT] + toks);
    assert Initial.rest + p == p;
    OpeningBracket(Initial.(rest := p), toks);
    InsideGenerics(st, d, s, true);
    NamesAtStart(Merged(d, 1, false));
    DocumentedIff(d);
    NoneEnded(d, 1);
    if NamedDefaults(d) {
      ShownAre(d, true);
    }
    if NoDefault(d) {
      NothingToRemove(d, 1);
    }
  }
}
