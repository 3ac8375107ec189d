/**
 * Streams of every form, and concrete ones, through `parse_generics`: what it makes of streams without
 * generics, of generics that never close, and of the documentation's own example.
 */
module GenericsStreams {
  import opened Generics

  // ----- which declarations are found at all -----

  /**
   * `d` closes by counting tokens, as the loop counts: `<` and `>` of any meaning, except that the token
   * after a `const` that starts a parameter is not looked at.
   */
  ghost predicate Closes(d: seq<Token>, depth: nat, atStart: bool, skip: bool)
    decreases |d|
  {
    if d == [] then depth == 1
    else if d[0] == GT && depth <= 1 then false
    else if depth == 1 && !skip && atStart && d[0] == CONST then |d| >= 2 && Closes(d[2..], 1, false, false)
    else
      var e := OnToken(depth, atStart, skip, d[0]);
      Closes(d[1..], e.nesting, e.atStart, e.skip)
  }

  lemma {:induction false} DeclGrows(st: Scan, toks: seq<Token>)
    requires st.nesting >= 1
    ensures st.decl <= Go(st, toks).decl
    decreases |toks|
  {
    if toks != [] {
      var it := Iterate(st, toks);
      if !it.stop && it.st.nesting >= 1 {
        DeclGrows(it.st, toks[it.taken..]);
      }
    }
  }

  /** The declared generics are `d` exactly if it closes, and then the rest is right as well. */
  lemma {:induction false} FoundIff(st: Scan, d: seq<Token>, s: seq<Token>)
    requires st.nesting >= 1
    ensures var r := Go(st, d + ([GT] + s));
            && (r.decl == st.decl + d <==> Closes(d, st.nesting, st.atStart, st.skip))
            && (r.decl == st.decl + d ==> r.rest == st.rest + s)
    decreases |d|
  {
    var toks := d + ([GT] + s);
    var it := Iterate(st, toks);
    if d == [] {
      assert toks == [GT] + s;
      if st.nesting == 1 {
        ClosingBracket(st, s);
      } else {
        GoStep(st, toks, it);
        DeclGrows(it.st, toks[1..]);
      }
    } else if StartsConst(st, d[0]) {
      assert toks[0] == d[0] && toks[1] == if |d| >= 2 then d[1] else GT;
      GoStep(st, toks, it);
      if |d| == 1 {
        DeclGrows(it.st, toks[2..]);
      } else {
        FoundAfter(st, d, s, it);
        FoundIff(it.st, d[2..], s);
      }
    } else if d[0] == GT && st.nesting == 1 {
      assert toks[0] == GT;
    } else {
      assert toks[0] == d[0];
      FoundAfter(st, d, s, it);
      FoundIff(it.st, d[1..], s);
    }
  }

  lemma {:induction false} FoundAfter(st: Scan, d: seq<Token>, s: seq<Token>, it: Iteration)
    requires d != [] && it == Iterate(st, d + ([GT] + s)) && !it.stop && it.taken <= |d| && st.nesting >= 1
    ensures Go(st, d + ([GT] + s)) == Go(it.st, d[it.taken..] + ([GT] + s))
    ensures it.st.decl + d[it.taken..] == st.decl + d && it.st.rest == st.rest
  {
    GoOn(st, d, [GT] + s, it);
    IterateDecl(st, d + ([GT] + s));
    assert (d + ([GT] + s))[..it.taken] == d[..it.taken];
    Rejoin(st.decl, d, it.taken);
  }

  lemma {:induction false} IterateDecl(st: Scan, toks: seq<Token>)
    requires toks != [] && st.nesting >= 1 && !Iterate(st, toks).stop
    ensures var it := Iterate(st, toks); it.st.decl == st.decl + toks[..it.taken] && it.st.rest == st.rest
  {
    var it := Iterate(st, toks);
    if it.taken == 2 {
      assert toks[..2] == [toks[0], toks[1]];
    } else {
      assert toks[..1] == [toks[0]];
    }
  }

  /** For every p `<` d `>` s: exactly when the declared generics are d and the rest is p + s. */
  lemma {:induction false} GenericsFoundIff(p: seq<Token>, d: seq<Token>, s: seq<Token>)
    requires NoAngles(p)
    ensures var r := Go(Initial, p + ([LT] + (d + ([GT] + s))));
            r.decl == d && r.rest == p + s <==> Closes(d, 1, true, false)
  {
    var toks := d + ([GT] + s);
    var st := Initial.(rest := p, nesting := 1);
    BeforeGenerics(Initial, p, [LT] + toks);
    assert Initial.rest + p == p && [] + d == d;
    OpeningBracket(Initial.(rest := p), toks);
    FoundIff(st, d, s);
  }

  // ----- streams of other forms -----

  /** Without angle brackets there are no generics, and everything is rest. */
  lemma NoGenerics(input: seq<Token>)
    requires NoAngles(input)
    ensures Go(Initial, input) == Initial.(rest := input)
  {
    BeforeGenerics(Initial, input, []);
    assert input + [] == input && Initial.rest + input == input;
  }

  /** A `>` before any `<` ends the loop; it is the one token that is lost. */
  lemma StrayCloser(p: seq<Token>, s: seq<Token>)
    requires NoAngles(p)
    ensures Go(Initial, p + ([GT] + s)) == Initial.(rest := p + s)
  {
    BeforeGenerics(Initial, p, [GT] + s);
    assert Initial.rest + p == p && ([GT] + s)[1..] == s;
  }

  /** No `>` closes the generics within `d`. */
  ghost predicate Open(d: seq<Token>, depth: nat, atStart: bool, skip: bool)
    decreases |d|
  {
    if d == [] then true
    else if d[0] == GT && depth <= 1 then false
    else if depth == 1 && !skip && atStart && d[0] == CONST then |d| == 1 || Open(d[2..], 1, false, false)
    else
      var e := OnToken(depth, atStart, skip, d[0]);
      Open(d[1..], e.nesting, e.atStart, e.skip)
  }

  lemma {:induction false} OpenIsDeclared(st: Scan, d: seq<Token>)
    requires st.nesting >= 1 && Open(d, st.nesting, st.atStart, st.skip)
    ensures Go(st, d).decl == st.decl + d && Go(st, d).rest == st.rest
    decreases |d|
  {
    if d == [] {
      assert st.decl + d == st.decl;
    } else {
      var it := Iterate(st, d);
      if it.stop {
        assert d == [CONST] && d[1..] == [] && st.rest + [] == st.rest;
      } else {
        IterateDecl(st, d);
        GoStep(st, d, it);
        OpenIsDeclared(it.st, d[it.taken..]);
        Rejoin(st.decl, d, it.taken);
      }
    }
  }

  /** Generics that never close take all the rest of the stream. */
  lemma NeverClosed(p: seq<Token>, d: seq<Token>)
    requires NoAngles(p) && Open(d, 1, true, false)
    ensures var r := Go(Initial, p + ([LT] + d)); r.decl == d && r.rest == p
  {
    BeforeGenerics(Initial, p, [LT] + d);
    assert Initial.rest + p == p && [] + d == d;
    OpeningBracket(Initial.(rest := p), d);
    OpenIsDeclared(Initial.(rest := p, nesting := 1), d);
  }

  /** Every stream after a `<` closes at one place or never. */
  lemma {:induction false} ClosesOrOpen(d: seq<Token>, depth: nat, atStart: bool, skip: bool) returns (n: nat)
    requires depth >= 1
    ensures n <= |d|
    ensures n == |d| ==> Open(d, depth, atStart, skip)
    ensures n < |d| ==> d[n] == GT && Closes(d[..n], depth, atStart, skip)
    decreases |d|
  {
    if d == [] || (depth == 1 && d[0] == GT) {
      n := 0;
      assert d[..0] == [];
    } else if depth == 1 && !skip && atStart && d[0] == CONST {
      n := 1;
      if |d| > 1 {
        n := ClosesOrOpen(d[2..], 1, false, false);
        n := n + 2;
        assert d[..n][0] == d[0] && d[..n][2..] == d[2..][..n - 2];
      }
    } else {
      var e := OnToken(depth, atStart, skip, d[0]);
      n := ClosesOrOpen(d[1..], e.nesting, e.atStart, e.skip);
      n := n + 1;
      assert d[..n][0] == d[0] && d[..n][1..] == d[1..][..n - 1];
    }
  }

  /** An iteration looks no further than the tokens it takes. */
  lemma IterateLocal(st: Scan, d: seq<Token>, more: seq<Token>)
    requires d != [] && !(StartsConst(st, d[0]) && |d| == 1)
    ensures Iterate(st, d + more) == Iterate(st, d)
  {
    assert (d + more)[0] == d[0];
    assert |d| >= 2 ==> (d + more)[1] == d[1];
  }

  /** Where the generics close, the closing bracket only hands the remaining tokens to the rest. */
  lemma {:induction false} CloserAddsRest(st: Scan, d: seq<Token>, s: seq<Token>)
    requires st.nesting >= 1 && Closes(d, st.nesting, st.atStart, st.skip)
    ensures Go(st, d + ([GT] + s)) == Go(st, d).(rest := Go(st, d).rest + s)
    decreases |d|
  {
    if d == [] {
      ClosingBracket(st, s);
      assert d + ([GT] + s) == [GT] + s;
    } else {
      var it := Iterate(st, d);
      IterateLocal(st, d, [GT] + s);
      GoOn(st, d, [GT] + s, it);
      GoStep(st, d, it);
      CloserAddsRest(it.st, d[it.taken..], s);
    }
  }

  /** So all but the rest is the same if the stream ends before the closing bracket. */
  lemma LostCloser(p: seq<Token>, d: seq<Token>, s: seq<Token>)
    requires NoAngles(p) && Closes(d, 1, true, false)
    ensures var r, closed := Go(Initial, p + ([LT] + d)), Go(Initial, p + ([LT] + (d + ([GT] + s))));
            closed == r.(rest := r.rest + s) && r.rest == p
  {
    var st := Initial.(rest := p, nesting := 1);
    BeforeGenerics(Initial, p, [LT] + d);
    BeforeGenerics(Initial, p, [LT] + (d + ([GT] + s)));
    assert Initial.rest + p == p;
    OpeningBracket(Initial.(rest := p), d);
    OpeningBracket(Initial.(rest := p), d + ([GT] + s));
    CloserAddsRest(st, d, s);
    FoundIff(st, d, s);
    GenericsFoundIff(p, d, s);
    SameTail(Go(st, d).rest, p, s);
  }

  lemma SameTail(a: seq<Token>, b: seq<Token>, s: seq<Token>)
    requires a + s == b + s
    ensures a == b
  {
    assert |a| == |b|;
    forall i | 0 <= i < |a|
      ensures a[i] == b[i]
    {
      assert (a + s)[i] == a[i] && (b + s)[i] == b[i];
    }
  }

  // ----- what a parameter's name is -----

  /** The first identifier, with the quote of a lifetime, and for a const parameter the token after `const`. */
  lemma NameIs(t: string, x: Token, rest: seq<Token>)
    requires t != "const"
    ensures NameOf([Ident(t)] + rest, 1) == [Ident(t)]
    ensures NameOf([Punct('\'')] + ([Ident(t)] + rest), 1) == [Punct('\''), Ident(t)]
    ensures NameOf([Ident("const")] + ([x] + rest), 1) == [x]
  {
    assert ([Punct('\'')] + ([Ident(t)] + rest))[1..] == [Ident(t)] + rest;
    assert ([Ident("const")] + ([x] + rest))[1] == x;
    assert NameOf([Ident(t)] + rest, 1) == [Ident(t)];
  }

  /** The names of a list are the names of its members and the commas between them. */
  lemma NamesOfList(w: seq<Token>, rest: seq<Token>)
    requires ParamEnd(w, 1) == |w| && DepthAt(w, 1) == 1
    ensures Names(w + ([Punct(',')] + rest)) == NameOf(w, 1) + ([Punct(',')] + Names(rest))
    ensures Names(w) == NameOf(w, 1)
  {
    NamesAtStart(w + ([COMMA] + rest));
    NamesOfFirst(w, rest, true);
  }

  // ----- concrete streams -----

  /** One iteration that takes one token, as a step of the loop. */
  lemma GoOne(st: Scan, t: Token, more: seq<Token>, st': Scan)
    requires Iterate(st, [t] + more) == Iteration(st', 1, false)
    ensures Go(st, [t] + more) == Go(st', more)
  {
    GoStep(st, [t] + more, Iteration(st', 1, false));
    assert ([t] + more)[1..] == more;
  }

  predicate Plain(t: Token) { t != LT && t != GT && t != COMMA && t != EQUALS }

  /** A lifetime and its comma. */
  lemma {:induction false} LifetimeParam(st: Scan, a: Token, more: seq<Token>)
    requires st.nesting == 1 && st.atStart && !st.skip && a.Ident? && a != CONST
    ensures Go(st, [QUOTE] + ([a] + ([COMMA] + more))) ==
            Go(Scan(st.decl + [QUOTE] + [a] + [COMMA], st.impl + [QUOTE] + [a] + [COMMA],
                    st.ty + [QUOTE] + [a] + [COMMA], st.rest, 1, true, false), more)
  {
    var st2 := Scan(st.decl + [QUOTE], st.impl + [QUOTE], st.ty + [QUOTE], st.rest, 1, true, false);
    GoOne(st, QUOTE, [a] + ([COMMA] + more), st2);
    var st3 := Scan(st2.decl + [a], st2.impl + [a], st2.ty + [a], st.rest, 1, false, false);
    GoOne(st2, a, [COMMA] + more, st3);
    GoOne(st3, COMMA, more, Scan(st3.decl + [COMMA], st3.impl + [COMMA], st3.ty + [COMMA], st.rest, 1, true, false));
  }

  /** A parameter with a bound of two tokens, and its comma. */
  lemma {:induction false} BoundedParam(st: Scan, t: Token, c: Token, b: Token, more: seq<Token>)
    requires st.nesting == 1 && st.atStart && !st.skip && t.Ident? && t != CONST && Plain(c) && Plain(b)
    ensures Go(st, [t] + ([c] + ([b] + ([COMMA] + more)))) ==
            Go(Scan(st.decl + [t] + [c] + [b] + [COMMA], st.impl + [t] + [c] + [b] + [COMMA],
                    st.ty + [t] + [COMMA], st.rest, 1, true, false), more)
  {
    var st2 := Scan(st.decl + [t], st.impl + [t], st.ty + [t], st.rest, 1, false, false);
    GoOne(st, t, [c] + ([b] + ([COMMA] + more)), st2);
    var st3 := st2.(decl := st2.decl + [c], impl := st2.impl + [c]);
    GoOne(st2, c, [b] + ([COMMA] + more), st3);
    var st4 := st3.(decl := st3.decl + [b], impl := st3.impl + [b]);
    GoOne(st3, b, [COMMA] + more, st4);
    GoOne(st4, COMMA, more, Scan(st4.decl + [COMMA], st4.impl + [COMMA], st4.ty + [COMMA], st.rest, 1, true, false));
  }

  /** A const parameter with its type and a default of one token. */
  lemma {:induction false} ConstParam(st: Scan, n: Token, c: Token, u: Token, z: Token, more: seq<Token>)
    requires st.nesting == 1 && st.atStart && !st.skip && Plain(c) && Plain(u) && Plain(z)
    ensures Go(st, [CONST] + ([n] + ([c] + ([u] + ([EQUALS] + ([z] + more)))))) ==
            Go(Scan(st.decl + [CONST, n] + [c] + [u] + [EQUALS] + [z], st.impl + [CONST, n] + [c] + [u],
                    st.ty + [n], st.rest, 1, false, true), more)
  {
    var tail := [c] + ([u] + ([EQUALS] + ([z] + more)));
    var toks := [CONST] + ([n] + tail);
    var st2 := Scan(st.decl + [CONST, n], st.impl + [CONST, n], st.ty + [n], st.rest, 1, false, false);
    assert toks[0] == CONST && toks[1] == n && toks[2..] == tail;
    GoStep(st, toks, Iteration(st2, 2, false));
    var st3 := st2.(decl := st2.decl + [c], impl := st2.impl + [c]);
    GoOne(st2, c, [u] + ([EQUALS] + ([z] + more)), st3);
    var st4 := st3.(decl := st3.decl + [u], impl := st3.impl + [u]);
    GoOne(st3, u, [EQUALS] + ([z] + more), st4);
    var st5 := st4.(decl := st4.decl + [EQUALS], skip := true);
    GoOne(st4, EQUALS, [z] + more, st5);
    GoOne(st5, z, more, st5.(decl := st5.decl + [z]));
  }

  /** The three parameters in brackets, for any names. */
  lemma {:induction false} ThreeParams(a: Token, t: Token, c: Token, b: Token, n: Token, u: Token, z: Token)
    requires a.Ident? && a != CONST && t.Ident? && t != CONST && Plain(c) && Plain(b) && Plain(u) && Plain(z)
    ensures var part1 := [] + [QUOTE] + [a] + [COMMA];
            var part2 := part1 + [t] + [c] + [b] + [COMMA];
            var r := Go(Initial, [LT] + ([QUOTE] + ([a] + ([COMMA] + ([t] + ([c] + ([b] + ([COMMA] + ([CONST] + ([n] +
                        ([c] + ([u] + ([EQUALS] + ([z] + ([GT] + [])))))))))))))));
            && r.decl == part2 + [CONST, n] + [c] + [u] + [EQUALS] + [z] && r.impl == part2 + [CONST, n] + [c] + [u]
            && r.ty == part1 + [t] + [COMMA] + [n] && r.rest == [] + []
  {
    var toks3 := [CONST] + ([n] + ([c] + ([u] + ([EQUALS] + ([z] + ([GT] + []))))));
    var toks2 := [t] + ([c] + ([b] + ([COMMA] + toks3)));
    var part1 := [] + [QUOTE] + [a] + [COMMA];
    var part2 := part1 + [t] + [c] + [b] + [COMMA];
    OpeningBracket(Initial, [QUOTE] + ([a] + ([COMMA] + toks2)));
    LifetimeParam(Initial.(nesting := 1), a, toks2);
    BoundedParam(Scan(part1, part1, part1, [], 1, true, false), t, c, b, toks3);
    ConstParam(Scan(part2, part2, part1 + [t] + [COMMA], [], 1, true, false), n, c, u, z, [GT] + []);
    ClosingBracket(Scan(part2 + [CONST, n] + [c] + [u] + [EQUALS] + [z], part2 + [CONST, n] + [c] + [u],
                        part1 + [t] + [COMMA] + [n], [], 1, false, true), []);
  }

  lemma ThreeParamsWrittenOut(a: Token, t: Token, c: Token, b: Token, k: Token, n: Token, u: Token, z: Token)
    ensures [LT] + ([QUOTE] + ([a] + ([COMMA] + ([t] + ([c] + ([b] + ([COMMA] + ([k] + ([n] +
              ([c] + ([u] + ([EQUALS] + ([z] + ([GT] + []))))))))))))))
            == [LT, QUOTE, a, COMMA, t, c, b, COMMA, k, n, c, u, EQUALS, z, GT]
    ensures [] + [QUOTE] + [a] + [COMMA] + [t] + [c] + [b] + [COMMA] + [k, n] + [c] + [u]
            == [QUOTE, a, COMMA, t, c, b, COMMA, k, n, c, u]
    ensures [] + [QUOTE] + [a] + [COMMA] + [t] + [COMMA] + [n] == [QUOTE, a, COMMA, t, COMMA, n]
  {
  }

  /**
   * The example of the documentation with a lifetime in front, `<'a, T: Clone, const N: usize = 0>`: the
   * impl generics are without the default, and the type generics are `'a, T, N`.
   */
  lemma {:induction false} DocumentedExample()
    ensures var a, t, b, k, n, u := Ident("a"), Ident("T"), Ident("Clone"), Ident("const"), Ident("N"), Ident("usize");
            var lt, gt, quote, comma := Punct('<'), Punct('>'), Punct('\''), Punct(',');
            var colon, eq := Punct(':'), Punct('=');
            var r := Go(Initial, [lt, quote, a, comma, t, colon, b, comma, k, n, colon, u, eq, Other(0), gt]);
            && r.impl == [quote, a, comma, t, colon, b, comma, k, n, colon, u]
            && r.decl == r.impl + [eq] + [Other(0)] && r.ty == [quote, a, comma, t, comma, n] && r.rest == []
  {
    var a, t, b, k, n, u := Ident("a"), Ident("T"), Ident("Clone"), Ident("const"), Ident("N"), Ident("usize");
    assert a != CONST by { assert a.name[0] != CONST.name[0]; }
    assert t != CONST by { assert t.name[0] != CONST.name[0]; }
    ThreeParams(a, t, Punct(':'), b, n, u, Other(0));
    ThreeParamsWrittenOut(a, t, Punct(':'), b, k, n, u, Other(0));
  }

  /** A name and a default of one token, from the start of the generics. */
  lemma {:induction false} NameAndDefault(st: Scan, t: Token, v: Token, more: seq<Token>)
    requires st.nesting == 1 && st.atStart && !st.skip && t.Ident? && t != CONST && v.Ident?
    ensures Go(st, [t] + ([EQUALS] + ([v] + more))) ==
            Go(Scan(st.decl + [t] + [EQUALS] + [v], st.impl + [t], st.ty + [t], st.rest, 1, false, true), more)
  {
    var st2 := Scan(st.decl + [t], st.impl + [t], st.ty + [t], st.rest, 1, false, false);
    GoOne(st, t, [EQUALS] + ([v] + more), st2);
    var st3 := st2.(decl := st2.decl + [EQUALS], skip := true);
    GoOne(st2, EQUALS, [v] + more, st3);
    GoOne(st3, v, more, st3.(decl := st3.decl + [v]));
  }

  /** The comma after a default, and the next name, of which the loop does not notice that it is one. */
  lemma {:induction false} CommaAndName(st: Scan, u: Token, more: seq<Token>)
    requires st.nesting == 1 && !st.atStart && st.skip && u.Ident?
    ensures Go(st, [COMMA] + ([u] + more)) ==
            Go(Scan(st.decl + [COMMA] + [u], st.impl + [COMMA, COMMA] + [u], st.ty, st.rest, 1, false, false), more)
  {
    var st2 := st.(decl := st.decl + [COMMA], impl := st.impl + [COMMA, COMMA], skip := false);
    GoOne(st, COMMA, [u] + more, st2);
    GoOne(st2, u, more, st2.(decl := st2.decl + [u], impl := st2.impl + [u]));
  }

  /** A parameter with a default, then one without, as all there is. */
  lemma DefaultAndParameter(t: Token, v: Token, u: Token)
    requires t.Ident? && t != CONST && v.Ident? && u.Ident?
    ensures var r := Go(Initial, [LT] + ([t] + ([EQUALS] + ([v] + ([COMMA] + ([u] + ([GT] + [])))))));
            && r.decl == [] + [t] + [EQUALS] + [v] + [COMMA] + [u] && r.impl == [] + [t] + [COMMA, COMMA] + [u]
            && r.ty == [] + [t] && r.rest == [] + []
  {
    var tail := [COMMA] + ([u] + ([GT] + []));
    OpeningBracket(Initial, [t] + ([EQUALS] + ([v] + tail)));
    NameAndDefault(Initial.(nesting := 1), t, v, tail);
    var st := Scan([] + [t] + [EQUALS] + [v], [] + [t], [] + [t], [], 1, false, true);
    CommaAndName(st, u, [GT] + []);
    ClosingBracket(Scan(st.decl + [COMMA] + [u], st.impl + [COMMA, COMMA] + [u], st.ty, [], 1, false, false), []);
  }

  lemma WrittenOut(t: Token, v: Token, u: Token)
    ensures [LT] + ([t] + ([EQUALS] + ([v] + ([COMMA] + ([u] + ([GT] + [])))))) == [LT, t, EQUALS, v, COMMA, u, GT]
    ensures [] + [t] + [EQUALS] + [v] + [COMMA] + [u] == [t, EQUALS, v, COMMA, u]
    ensures [] + [t] + [COMMA, COMMA] + [u] == [t, COMMA, COMMA, u]
  {
  }

  /** On `<T = u8, U>` the impl generics are `T , , U` and the type generics are `T`. */
  lemma DefaultThenParameter()
    ensures var t, u, v := Ident("T"), Ident("U"), Ident("u8");
            var lt, gt, comma, eq := Punct('<'), Punct('>'), Punct(','), Punct('=');
            var r := Go(Initial, [lt, t, eq, v, comma, u, gt]);
            r.decl == [t, eq, v, comma, u] && r.impl == [t, comma, comma, u] && r.ty == [t] && r.rest == []
  {
    var t, u, v := Ident("T"), Ident("U"), Ident("u8");
    assert t != CONST by { assert t.name[0] != CONST.name[0]; }
    DefaultAndParameter(t, v, u);
    WrittenOut(t, v, u);
  }

  lemma BoundIsWellFormed(name: Token, t1: Token, t2: Token, t3: Token, t4: Token)
    requires name.Ident? && name != CONST && Plain(t1) && Plain(t2) && Plain(t3) && Plain(t4)
    ensures WellFormed([name, t1, t2, t3, t4], 1, true, false)
  {
    assert [name, t1, t2, t3, t4][1..] == [t1, t2, t3, t4] && [t1, t2, t3, t4][1..] == [t2, t3, t4];
    assert [t2, t3, t4][1..] == [t3, t4] && [t3, t4][1..] == [t4] && [t4][1..] == [];
    assert WellFormed([t3, t4], 1, false, false);
    assert WellFormed([t1, t2, t3, t4], 1, false, false);
  }

  /** A `>` at depth one closes the generics, whatever it is part of. */
  lemma {:induction false} BoundThenCloser(name: Token, t1: Token, t2: Token, t3: Token, t4: Token, v: Token)
    requires name.Ident? && name != CONST && Plain(t1) && Plain(t2) && Plain(t3) && Plain(t4)
    ensures var r := Go(Initial, [LT, name, t1, t2, t3, t4, GT, v, GT]);
            r.decl == [name, t1, t2, t3, t4] && r.rest == [v, GT]
  {
    BoundIsWellFormed(name, t1, t2, t3, t4);
    BoundWrittenOut(name, t1, t2, t3, t4, v);
    FoundIn([LT, name, t1, t2, t3, t4, GT, v, GT], [name, t1, t2, t3, t4], [v, GT]);
  }

  lemma BoundWrittenOut(name: Token, t1: Token, t2: Token, t3: Token, t4: Token, v: Token)
    ensures [] + ([LT] + ([name, t1, t2, t3, t4] + ([GT] + [v, GT]))) == [LT, name, t1, t2, t3, t4, GT, v, GT]
  {
  }

  lemma {:induction false} FoundIn(input: seq<Token>, d: seq<Token>, s: seq<Token>)
    requires input == [] + ([LT] + (d + ([GT] + s))) && WellFormed(d, 1, true, false)
    ensures Go(Initial, input).decl == d && Go(Initial, input).rest == s
  {
    ParsesGenerics([], d, s);
    assert [] + s == s;
  }

  /** On `<F: Fn() -> u8>` the arrow's `>` closes the generics: `F : Fn () -` is declared, `u8 >` is left. */
  lemma ArrowClosesGenerics()
    ensures var f, colon, fn, group, minus, v := Ident("F"), Punct(':'), Ident("Fn"), Other(0), Punct('-'), Ident("u8");
            var lt, gt := Punct('<'), Punct('>');
            var r := Go(Initial, [lt, f, colon, fn, group, minus, gt, v, gt]);
            r.decl == [f, colon, fn, group, minus] && r.rest == [v, gt]
  {
    assert Ident("F") != CONST by { assert Ident("F").name[0] != CONST.name[0]; }
    BoundThenCloser(Ident("F"), Punct(':'), Ident("Fn"), Other(0), Punct('-'), Ident("u8"));
  }
}
