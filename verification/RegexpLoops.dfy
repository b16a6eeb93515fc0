/** The code of loops offers the rounds of its body in the right order (libregexp.c,
    1600-1700). The body is any code known to implement a pattern. */
module RegexpLoops {
  import opened RegexpInput
  import opened RegexpCode
  import opened RegexpMachine
  import opened RegexpOrder
  import opened RegexpRuns

  /** The code from p to q offers the outcomes of r from every character boundary. */
  ghost predicate Does(prog: seq<Cell>, env: Env, p: int, q: int, r: Re, back: bool, cc: nat)
    requires Valid(r)
  {
    forall x: Spot, stack: seq<nat> {:trigger Gives(prog, env, p, stack, x, q, stack, Outcomes(env, r, back, cc, x))} ::
      Boundary(env, x.pos) ==> Gives(prog, env, p, stack, x, q, stack, Outcomes(env, r, back, cc, x))
  }

  /** The code from p to q offers min to max rounds of r. */
  ghost predicate DoesRounds(prog: seq<Cell>, env: Env, p: int, q: int, r: Re, back: bool, cc: nat, min: nat, max: nat, greedy: bool)
    requires Valid(r) && max <= INF
  {
    forall x: Spot, stack: seq<nat> {:trigger Gives(prog, env, p, stack, x, q, stack, Laps(env, r, back, cc, min, max, greedy, x))} ::
      Boundary(env, x.pos) ==> Gives(prog, env, p, stack, x, q, stack, Laps(env, r, back, cc, min, max, greedy, x))
  }

  /** r has no outcome that stays where it started. */
  ghost predicate Advancing(env: Env, r: Re, back: bool, cc: nat)
    requires Valid(r)
  {
    forall x: Spot {:trigger Outcomes(env, r, back, cc, x)} :: Boundary(env, x.pos) ==> AllMoved(x, Outcomes(env, r, back, cc, x))
  }

  ghost predicate AllMoved(x: Spot, ys: seq<Spot>)
  {
    forall t :: 0 <= t < |ys| ==> ys[t].pos != x.pos
  }

  /** An unbounded loop: a split at p, the body from b to e, at e the jump back, which
      falls through to e + 5 when there is a check and the body did not advance. */
  ghost predicate LoopAt(prog: seq<Cell>, p: int, b: int, e: int, check: bool, greedy: bool)
  {
    At(prog, p, Enc(Split(greedy, e - p))) &&
    if check then b == p + 6 && At(prog, p + 5, Enc(PushCharPos)) && At(prog, e, Enc(BneCharPos(p - e - 5)))
    else b == p + 5 && At(prog, e, Enc(Goto(p - e - 5)))
  }

  lemma StarChoice(prog: seq<Cell>, env: Env, p: int, b: int, e: int, check: bool, greedy: bool, x: Spot, stack: seq<nat>, more: seq<Spot>)
    requires LoopAt(prog, p, b, e, check, greedy) && Inside(env, x)
    requires Gives(prog, env, b, if check then stack + [x.pos] else stack, x, e + 5, stack, more)
    ensures Gives(prog, env, p, stack, x, e + 5, stack, LoopOr(x, more, greedy))
  {
    if check {
      GivesPushPos(prog, env, p + 5, stack, x, e + 5, stack, more);
    }
    GivesHere(prog, env, e + 5, stack, x);
    GivesSplit(prog, env, p, stack, x, greedy, e - p, e + 5, stack, more, [x]);
  }

  lemma {:induction false} StarGives(prog: seq<Cell>, env: Env, p: int, b: int, e: int, r: Re, back: bool, cc: nat, check: bool, greedy: bool, x: Spot, stack: seq<nat>)
    requires LoopAt(prog, p, b, e, check, greedy) && Valid(r) && Does(prog, env, b, e, r, back, cc)
    requires check || Advancing(env, r, back, cc)
    requires Boundary(env, x.pos)
    ensures Gives(prog, env, p, stack, x, e + 5, stack, Laps(env, r, back, cc, 0, INF, greedy, x))
    decreases Distance(env, back, x), 1
  {
    var ys := Outcomes(env, r, back, cc, x);
    var ls := LapsMore(env, r, back, cc, INF, greedy, x);
    var stackB := if check then stack + [x.pos] else stack;
    forall t | 0 <= t < |ys| ensures Gives(prog, env, e, stackB, ys[t], e + 5, stack, ls[t]) {
      StarBack(prog, env, p, b, e, r, back, cc, check, greedy, x, ys[t], stack);
    }
    assert Gives(prog, env, b, stackB, x, e, stackB, ys);
    GivesChain(prog, env, b, stackB, x, e, stackB, ys, e + 5, stack, ls);
    StarChoice(prog, env, p, b, e, check, greedy, x, stack, Flatten(ls));
  }

  lemma {:induction false} StarBack(prog: seq<Cell>, env: Env, p: int, b: int, e: int, r: Re, back: bool, cc: nat, check: bool, greedy: bool, x: Spot, y: Spot, stack: seq<nat>)
    requires LoopAt(prog, p, b, e, check, greedy) && Valid(r) && Does(prog, env, b, e, r, back, cc)
    requires check || (Advancing(env, r, back, cc) && y.pos != x.pos)
    requires Boundary(env, x.pos) && Boundary(env, y.pos) && After(env, back, x, y)
    ensures Gives(prog, env, e, if check then stack + [x.pos] else stack, y, e + 5, stack,
                  if y.pos == x.pos then [y] else Laps(env, r, back, cc, 0, INF, greedy, y))
    decreases Distance(env, back, x), 0
  {
    if y.pos != x.pos {
      StarGives(prog, env, p, b, e, r, back, cc, check, greedy, y, stack);
    }
    StarJump(prog, env, p, b, e, check, greedy, x, y, stack, if y.pos == x.pos then [y] else Laps(env, r, back, cc, 0, INF, greedy, y));
  }

  lemma StarJump(prog: seq<Cell>, env: Env, p: int, b: int, e: int, check: bool, greedy: bool, x: Spot, y: Spot, stack: seq<nat>, out: seq<Spot>)
    requires LoopAt(prog, p, b, e, check, greedy) && Inside(env, y)
    requires if y.pos == x.pos then check && out == [y] else Gives(prog, env, p, stack, y, e + 5, stack, out)
    ensures Gives(prog, env, e, if check then stack + [x.pos] else stack, y, e + 5, stack, out)
  {
    if y.pos == x.pos {
      GivesHere(prog, env, e + 5, stack, y);
    }
    if check {
      GivesBne(prog, env, e, stack, x.pos, y, p - e - 5, e + 5, stack, out);
    } else {
      GivesGoto(prog, env, e, stack, y, p - e - 5, e + 5, stack, out);
    }
  }

  /** A counted loop: a split at p, the body up to e, then the counter. */
  ghost predicate CountAt(prog: seq<Cell>, p: int, e: int, greedy: bool)
  {
    At(prog, p, Enc(Split(greedy, e - p))) && At(prog, e, Enc(Loop(p - e - 5))) && At(prog, e + 5, Enc(Drop))
  }

  lemma UpToChoice(prog: seq<Cell>, env: Env, p: int, e: int, greedy: bool, n: nat, x: Spot, stack: seq<nat>, more: seq<Spot>)
    requires CountAt(prog, p, e, greedy) && Inside(env, x)
    requires Gives(prog, env, p + 5, stack + [n], x, e + 6, stack, more)
    ensures Gives(prog, env, p, stack + [n], x, e + 6, stack, LoopOr(x, more, greedy))
  {
    GivesHere(prog, env, e + 6, stack, x);
    GivesDrop(prog, env, e + 5, stack, n, x, e + 6, stack, [x]);
    GivesSplit(prog, env, p, stack + [n], x, greedy, e - p, e + 6, stack, more, [x]);
  }

  lemma {:induction false} UpToGives(prog: seq<Cell>, env: Env, p: int, e: int, r: Re, back: bool, cc: nat, greedy: bool, n: nat, x: Spot, stack: seq<nat>)
    requires CountAt(prog, p, e, greedy) && Valid(r) && Does(prog, env, p + 5, e, r, back, cc)
    requires 1 <= n < INF && Boundary(env, x.pos)
    ensures Gives(prog, env, p, stack + [n], x, e + 6, stack, Laps(env, r, back, cc, 0, n, greedy, x))
    decreases n, 1
  {
    var ys := Outcomes(env, r, back, cc, x);
    var ls := LapsMore(env, r, back, cc, n, greedy, x);
    forall t | 0 <= t < |ys| ensures Gives(prog, env, e, stack + [n], ys[t], e + 6, stack, ls[t]) {
      assert ls[t] == Laps(env, r, back, cc, 0, n - 1, greedy, ys[t]);
      UpToBack(prog, env, p, e, r, back, cc, greedy, n, ys[t], stack);
    }
    var counted := stack + [n];
    assert Gives(prog, env, p + 5, counted, x, e, counted, ys);
    GivesChain(prog, env, p + 5, counted, x, e, counted, ys, e + 6, stack, ls);
    UpToChoice(prog, env, p, e, greedy, n, x, stack, Flatten(ls));
  }

  lemma {:induction false} UpToBack(prog: seq<Cell>, env: Env, p: int, e: int, r: Re, back: bool, cc: nat, greedy: bool, n: nat, y: Spot, stack: seq<nat>)
    requires CountAt(prog, p, e, greedy) && Valid(r) && Does(prog, env, p + 5, e, r, back, cc)
    requires 1 <= n < INF && Boundary(env, y.pos)
    ensures Gives(prog, env, e, stack + [n], y, e + 6, stack, Laps(env, r, back, cc, 0, n - 1, greedy, y))
    decreases n, 0
  {
    if n == 1 {
      LapsNone(env, r, back, cc, greedy, y);
      GivesHere(prog, env, e + 6, stack, y);
      GivesDrop(prog, env, e + 5, stack, 0, y, e + 6, stack, [y]);
    } else {
      UpToGives(prog, env, p, e, r, back, cc, greedy, n - 1, y, stack);
    }
    GivesLoop(prog, env, e, stack, n, y, p - e - 5, e + 6, stack, Laps(env, r, back, cc, 0, n - 1, greedy, y));
  }

  /** n rounds and up to max more. */
  function Total(n: nat, max: nat): nat
  {
    if max == INF then INF else n + max
  }

  /** Exactly n rounds, the body from p to e, followed by code for up to max rounds. */
  lemma {:induction false} TimesGives(prog: seq<Cell>, env: Env, p: int, e: int, q: int, r: Re, back: bool, cc: nat, greedy: bool, n: nat, max: nat, x: Spot, stack: seq<nat>)
    requires At(prog, e, Enc(Loop(p - e - 5))) && At(prog, e + 5, Enc(Drop))
    requires Valid(r) && Does(prog, env, p, e, r, back, cc)
    requires n >= 1 && (max == INF || n + max < INF) && DoesRounds(prog, env, e + 6, q, r, back, cc, 0, max, greedy)
    requires Boundary(env, x.pos)
    ensures Gives(prog, env, p, stack + [n], x, q, stack, Laps(env, r, back, cc, n, Total(n, max), greedy, x))
    decreases n, 1
  {
    var ys := Outcomes(env, r, back, cc, x);
    var ls := LapsMin(env, r, back, cc, n, Total(n, max), greedy, x);
    var counted := stack + [n];
    forall t | 0 <= t < |ys| ensures Gives(prog, env, e, counted, ys[t], q, stack, ls[t]) {
      assert ls[t] == Laps(env, r, back, cc, n - 1, Total(n - 1, max), greedy, ys[t]);
      TimesBack(prog, env, p, e, q, r, back, cc, greedy, n, max, ys[t], stack);
    }
    assert Gives(prog, env, p, counted, x, e, counted, ys);
    GivesChain(prog, env, p, counted, x, e, counted, ys, q, stack, ls);
  }

  lemma {:induction false} TimesBack(prog: seq<Cell>, env: Env, p: int, e: int, q: int, r: Re, back: bool, cc: nat, greedy: bool, n: nat, max: nat, y: Spot, stack: seq<nat>)
    requires At(prog, e, Enc(Loop(p - e - 5))) && At(prog, e + 5, Enc(Drop))
    requires Valid(r) && Does(prog, env, p, e, r, back, cc)
    requires n >= 1 && (max == INF || n + max < INF) && DoesRounds(prog, env, e + 6, q, r, back, cc, 0, max, greedy)
    requires Boundary(env, y.pos)
    ensures Gives(prog, env, e, stack + [n], y, q, stack, Laps(env, r, back, cc, n - 1, Total(n - 1, max), greedy, y))
    decreases n, 0
  {
    var ys := Laps(env, r, back, cc, n - 1, Total(n - 1, max), greedy, y);
    if n == 1 {
      GivesDrop(prog, env, e + 5, stack, 0, y, q, stack, ys);
    } else {
      TimesGives(prog, env, p, e, q, r, back, cc, greedy, n - 1, max, y, stack);
    }
    GivesLoop(prog, env, e, stack, n, y, p - e - 5, q, stack, ys);
  }

  /** One round, followed by code for up to max rounds. */
  lemma OnceGives(prog: seq<Cell>, env: Env, p: int, e: int, q: int, r: Re, back: bool, cc: nat, greedy: bool, max: nat, x: Spot, stack: seq<nat>)
    requires Valid(r) && Does(prog, env, p, e, r, back, cc)
    requires (max == INF || 1 + max < INF) && DoesRounds(prog, env, e, q, r, back, cc, 0, max, greedy)
    requires Boundary(env, x.pos)
    ensures Gives(prog, env, p, stack, x, q, stack, Laps(env, r, back, cc, 1, Total(1, max), greedy, x))
  {
    var ys := Outcomes(env, r, back, cc, x);
    var ls := LapsMin(env, r, back, cc, 1, Total(1, max), greedy, x);
    forall t | 0 <= t < |ys| ensures Gives(prog, env, e, stack, ys[t], q, stack, ls[t]) {
      assert ls[t] == Laps(env, r, back, cc, 0, max, greedy, ys[t]);
    }
    assert Gives(prog, env, p, stack, x, e, stack, ys);
    GivesChain(prog, env, p, stack, x, e, stack, ys, q, stack, ls);
  }

  ghost predicate AgainAt(prog: seq<Cell>, p: int, e: int, greedy: bool)
  {
    At(prog, e, Enc(if greedy then SplitGotoFirst(p - e - 5) else SplitNextFirst(p - e - 5)))
  }

  lemma AgainChoice(prog: seq<Cell>, env: Env, p: int, e: int, greedy: bool, x: Spot, stack: seq<nat>, more: seq<Spot>)
    requires AgainAt(prog, p, e, greedy) && Inside(env, x)
    requires Gives(prog, env, p, stack, x, e + 5, stack, more)
    ensures Gives(prog, env, e, stack, x, e + 5, stack, LoopOr(x, more, greedy))
  {
    GivesHere(prog, env, e + 5, stack, x);
    if greedy {
      GivesGotoFirst(prog, env, e, stack, x, p - e - 5, e + 5, stack, more, [x]);
    } else {
      GivesNextFirst(prog, env, e, stack, x, p - e - 5, e + 5, stack, [x], more);
    }
  }

  /** A loop that is entered at its body: at e the choice whether to go back to p. */
  lemma {:induction false} AgainGives(prog: seq<Cell>, env: Env, p: int, e: int, r: Re, back: bool, cc: nat, greedy: bool, x: Spot, stack: seq<nat>)
    requires AgainAt(prog, p, e, greedy)
    requires Valid(r) && Does(prog, env, p, e, r, back, cc) && Advancing(env, r, back, cc)
    requires Boundary(env, x.pos)
    ensures Gives(prog, env, e, stack, x, e + 5, stack, Laps(env, r, back, cc, 0, INF, greedy, x))
    decreases Distance(env, back, x)
  {
    var ys := Outcomes(env, r, back, cc, x);
    var ls := LapsMore(env, r, back, cc, INF, greedy, x);
    forall t | 0 <= t < |ys| ensures Gives(prog, env, e, stack, ys[t], e + 5, stack, ls[t]) {
      assert After(env, back, x, ys[t]) && AllMoved(x, ys);
      AgainGives(prog, env, p, e, r, back, cc, greedy, ys[t], stack);
    }
    assert Gives(prog, env, p, stack, x, e, stack, ys);
    GivesChain(prog, env, p, stack, x, e, stack, ys, e + 5, stack, ls);
    AgainChoice(prog, env, p, e, greedy, x, stack, Flatten(ls));
  }

  // --------------------------------------------------------- the code of a quantifier

  /** Wherever the code is, it offers the outcomes of r. */
  ghost predicate Implements(prog: seq<Cell>, env: Env, code: seq<Cell>, r: Re, back: bool, cc: nat)
    requires Valid(r)
  {
    forall p :: At(prog, p, code) ==> Does(prog, env, p, p + |code|, r, back, cc)
  }

  lemma StarDoes(prog: seq<Cell>, env: Env, p: int, at: seq<Cell>, check: bool, greedy: bool, r: Re, back: bool, cc: nat)
    requires Valid(r) && Implements(prog, env, at, r, back, cc) && (check || Advancing(env, r, back, cc))
    requires At(prog, p, Star(at, check, greedy))
    ensures DoesRounds(prog, env, p, p + |Star(at, check, greedy)|, r, back, cc, 0, INF, greedy)
  {
    var b := if check then p + 6 else p + 5;
    var e := b + |at|;
    var q := e + 5;
    StarLayout(prog, p, at, check, greedy);
    assert Does(prog, env, b, e, r, back, cc);
    forall x: Spot, stack: seq<nat> | Boundary(env, x.pos)
      ensures Gives(prog, env, p, stack, x, q, stack, Laps(env, r, back, cc, 0, INF, greedy, x)) {
      StarGives(prog, env, p, b, e, r, back, cc, check, greedy, x, stack);
    }
  }

  lemma StarLayout(prog: seq<Cell>, p: int, at: seq<Cell>, check: bool, greedy: bool)
    requires At(prog, p, Star(at, check, greedy))
    ensures var b := if check then p + 6 else p + 5;
            LoopAt(prog, p, b, b + |at|, check, greedy) && At(prog, b, at) && p + |Star(at, check, greedy)| == b + |at| + 5
  {
    if check { CheckedLayout(prog, p, at, greedy); } else { UncheckedLayout(prog, p, at, greedy); }
  }

  lemma CheckedLayout(prog: seq<Cell>, p: int, at: seq<Cell>, greedy: bool)
    requires At(prog, p, Star(at, true, greedy))
    ensures LoopAt(prog, p, p + 6, p + 6 + |at|, true, greedy) && At(prog, p + 6, at) && |Star(at, true, greedy)| == |at| + 11
  {
    var i1, i2, i3 := Split(greedy, |at| + 6), PushCharPos, BneCharPos(-(|at| + 11));
    AtConcat(prog, p, Enc(i1), Enc(i2) + (at + Enc(i3)));
    AtConcat(prog, p + 5, Enc(i2), at + Enc(i3));
    AtConcat(prog, p + 6, at, Enc(i3));
  }

  lemma UncheckedLayout(prog: seq<Cell>, p: int, at: seq<Cell>, greedy: bool)
    requires At(prog, p, Star(at, false, greedy))
    ensures LoopAt(prog, p, p + 5, p + 5 + |at|, false, greedy) && At(prog, p + 5, at) && |Star(at, false, greedy)| == |at| + 10
  {
    var i1, i3 := Split(greedy, |at| + 5), Goto(-(|at| + 10));
    AtConcat(prog, p, Enc(i1), at + Enc(i3));
    AtConcat(prog, p + 5, at, Enc(i3));
  }

  lemma UpToLayout(prog: seq<Cell>, p: int, at: seq<Cell>, greedy: bool, n: nat)
    requires At(prog, p, UpTo(at, greedy, n))
    ensures At(prog, p, Enc(PushI32(n))) && CountAt(prog, p + 5, p + 10 + |at|, greedy) && At(prog, p + 10, at)
    ensures |UpTo(at, greedy, n)| == |at| + 16
  {
    var i1, i2, i3 := PushI32(n), Split(greedy, |at| + 5), Loop(-(|at| + 10));
    AtConcat(prog, p, Enc(i1), Enc(i2) + (at + (Enc(i3) + Enc(Drop))));
    AtConcat(prog, p + 5, Enc(i2), at + (Enc(i3) + Enc(Drop)));
    AtConcat(prog, p + 10, at, Enc(i3) + Enc(Drop));
    AtConcat(prog, p + 10 + |at|, Enc(i3), Enc(Drop));
  }

  lemma UpToDoes(prog: seq<Cell>, env: Env, p: int, at: seq<Cell>, greedy: bool, n: nat, r: Re, back: bool, cc: nat)
    requires Valid(r) && Implements(prog, env, at, r, back, cc) && 1 <= n < INF
    requires At(prog, p, UpTo(at, greedy, n))
    ensures DoesRounds(prog, env, p, p + |UpTo(at, greedy, n)|, r, back, cc, 0, n, greedy)
  {
    var e := p + 10 + |at|;
    var q := e + 6;
    UpToLayout(prog, p, at, greedy, n);
    assert Does(prog, env, p + 10, e, r, back, cc);
    forall x: Spot, stack: seq<nat> | Boundary(env, x.pos)
      ensures Gives(prog, env, p, stack, x, q, stack, Laps(env, r, back, cc, 0, n, greedy, x)) {
      UpToGives(prog, env, p + 5, e, r, back, cc, greedy, n, x, stack);
      GivesPush(prog, env, p, stack, x, n, q, stack, Laps(env, r, back, cc, 0, n, greedy, x));
    }
  }

  lemma NoneDoes(prog: seq<Cell>, env: Env, p: int, r: Re, back: bool, cc: nat, greedy: bool)
    requires Valid(r)
    ensures DoesRounds(prog, env, p, p, r, back, cc, 0, 0, greedy)
  {
    forall x: Spot, stack: seq<nat> | Boundary(env, x.pos)
      ensures Gives(prog, env, p, stack, x, p, stack, Laps(env, r, back, cc, 0, 0, greedy, x)) {
      LapsNone(env, r, back, cc, greedy, x);
      GivesHere(prog, env, p, stack, x);
    }
  }

  lemma MaybeDoes(prog: seq<Cell>, env: Env, p: int, at: seq<Cell>, greedy: bool, r: Re, back: bool, cc: nat)
    requires Valid(r) && Implements(prog, env, at, r, back, cc)
    requires At(prog, p, Enc(Split(greedy, |at|)) + at)
    ensures DoesRounds(prog, env, p, p + 5 + |at|, r, back, cc, 0, 1, greedy)
  {
    var q := p + 5 + |at|;
    AtConcat(prog, p, Enc(Split(greedy, |at|)), at);
    assert Does(prog, env, p + 5, q, r, back, cc);
    forall x: Spot, stack: seq<nat> | Boundary(env, x.pos)
      ensures Gives(prog, env, p, stack, x, q, stack, Laps(env, r, back, cc, 0, 1, greedy, x)) {
      MaybeGives(prog, env, p, q, greedy, r, back, cc, x, stack);
    }
  }

  lemma MaybeGives(prog: seq<Cell>, env: Env, p: int, q: int, greedy: bool, r: Re, back: bool, cc: nat, x: Spot, stack: seq<nat>)
    requires Valid(r) && Does(prog, env, p + 5, q, r, back, cc) && Boundary(env, x.pos)
    requires At(prog, p, Enc(Split(greedy, q - p - 5)))
    ensures Gives(prog, env, p, stack, x, q, stack, Laps(env, r, back, cc, 0, 1, greedy, x))
  {
    var ys := Outcomes(env, r, back, cc, x);
    var ls := LapsMore(env, r, back, cc, 1, greedy, x);
    forall t | 0 <= t < |ys| ensures Gives(prog, env, q, stack, ys[t], q, stack, ls[t]) {
      LapsNone(env, r, back, cc, greedy, ys[t]);
      GivesHere(prog, env, q, stack, ys[t]);
    }
    assert Gives(prog, env, p + 5, stack, x, q, stack, ys);
    GivesChain(prog, env, p + 5, stack, x, q, stack, ys, q, stack, ls);
    MaybeChoice(prog, env, p, q, greedy, x, stack, Flatten(ls));
  }

  lemma MaybeChoice(prog: seq<Cell>, env: Env, p: int, q: int, greedy: bool, x: Spot, stack: seq<nat>, more: seq<Spot>)
    requires At(prog, p, Enc(Split(greedy, q - p - 5))) && Inside(env, x)
    requires Gives(prog, env, p + 5, stack, x, q, stack, more)
    ensures Gives(prog, env, p, stack, x, q, stack, LoopOr(x, more, greedy))
  {
    GivesHere(prog, env, q, stack, x);
    GivesSplit(prog, env, p, stack, x, greedy, q - p - 5, q, stack, more, [x]);
  }

  lemma OptionalDoes(prog: seq<Cell>, env: Env, p: int, at: seq<Cell>, check: bool, greedy: bool, max: nat, r: Re, back: bool, cc: nat)
    requires Valid(r) && Implements(prog, env, at, r, back, cc) && max <= INF
    requires max == INF ==> check || Advancing(env, r, back, cc)
    requires At(prog, p, OptionalBody(at, check, greedy, max))
    ensures DoesRounds(prog, env, p, p + |OptionalBody(at, check, greedy, max)|, r, back, cc, 0, max, greedy)
  {
    if max == 0 {
      NoneDoes(prog, env, p, r, back, cc, greedy);
    } else if max == 1 {
      MaybeDoes(prog, env, p, at, greedy, r, back, cc);
    } else if max == INF {
      StarDoes(prog, env, p, at, check, greedy, r, back, cc);
    } else {
      UpToDoes(prog, env, p, at, greedy, max, r, back, cc);
    }
  }

  /** What is left of max after min rounds. */
  function Rest(min: nat, max: nat): nat
    requires min <= max
  {
    if max == INF then INF else max - min
  }

  lemma TailDoes(prog: seq<Cell>, env: Env, p: int, at: seq<Cell>, check: bool, greedy: bool, min: nat, max: nat, r: Re, back: bool, cc: nat)
    requires Valid(r) && Implements(prog, env, at, r, back, cc) && 1 <= min <= max <= INF
    requires max == INF ==> check || Advancing(env, r, back, cc)
    requires At(prog, p, RepeatedTail(at, check, greedy, min, max))
    ensures DoesRounds(prog, env, p, p + |RepeatedTail(at, check, greedy, min, max)|, r, back, cc, 0, Rest(min, max), greedy)
  {
    if max == INF {
      StarDoes(prog, env, p, at, check, greedy, r, back, cc);
    } else if max > min {
      UpToDoes(prog, env, p, at, greedy, max - min, r, back, cc);
    } else {
      NoneDoes(prog, env, p, r, back, cc, greedy);
    }
  }

  lemma TimesLayout(prog: seq<Cell>, p: int, at: seq<Cell>, n: nat)
    requires At(prog, p, Times(at, n))
    ensures At(prog, p, Enc(PushI32(n))) && At(prog, p + 5, at)
    ensures At(prog, p + 5 + |at|, Enc(Loop(-(|at| + 5)))) && At(prog, p + 10 + |at|, Enc(Drop))
    ensures |Times(at, n)| == |at| + 11
  {
    var i1, i2 := PushI32(n), Loop(-(|at| + 5));
    AtConcat(prog, p, Enc(i1), at + (Enc(i2) + Enc(Drop)));
    AtConcat(prog, p + 5, at, Enc(i2) + Enc(Drop));
    AtConcat(prog, p + 5 + |at|, Enc(i2), Enc(Drop));
  }

  lemma TimesDoes(prog: seq<Cell>, env: Env, p: int, q: int, at: seq<Cell>, greedy: bool, n: nat, max: nat, r: Re, back: bool, cc: nat)
    requires Valid(r) && Implements(prog, env, at, r, back, cc) && n >= 1 && (max == INF || n + max < INF)
    requires At(prog, p, Times(at, n)) && DoesRounds(prog, env, p + |Times(at, n)|, q, r, back, cc, 0, max, greedy)
    ensures DoesRounds(prog, env, p, q, r, back, cc, n, Total(n, max), greedy)
  {
    var e := p + 5 + |at|;
    TimesLayout(prog, p, at, n);
    assert Does(prog, env, p + 5, e, r, back, cc);
    forall x: Spot, stack: seq<nat> | Boundary(env, x.pos)
      ensures Gives(prog, env, p, stack, x, q, stack, Laps(env, r, back, cc, n, Total(n, max), greedy, x)) {
      TimesGives(prog, env, p + 5, e, q, r, back, cc, greedy, n, max, x, stack);
      GivesPush(prog, env, p, stack, x, n, q, stack, Laps(env, r, back, cc, n, Total(n, max), greedy, x));
    }
  }

  lemma OnceDoes(prog: seq<Cell>, env: Env, p: int, q: int, at: seq<Cell>, greedy: bool, max: nat, r: Re, back: bool, cc: nat)
    requires Valid(r) && Implements(prog, env, at, r, back, cc) && (max == INF || 1 + max < INF)
    requires At(prog, p, at) && DoesRounds(prog, env, p + |at|, q, r, back, cc, 0, max, greedy)
    ensures DoesRounds(prog, env, p, q, r, back, cc, 1, Total(1, max), greedy)
  {
    assert Does(prog, env, p, p + |at|, r, back, cc);
    forall x: Spot, stack: seq<nat> | Boundary(env, x.pos)
      ensures Gives(prog, env, p, stack, x, q, stack, Laps(env, r, back, cc, 1, Total(1, max), greedy, x)) {
      OnceGives(prog, env, p, p + |at|, q, r, back, cc, greedy, max, x, stack);
    }
  }

  lemma RepeatedDoes(prog: seq<Cell>, env: Env, p: int, at: seq<Cell>, check: bool, greedy: bool, min: nat, max: nat, r: Re, back: bool, cc: nat)
    requires Valid(r) && Implements(prog, env, at, r, back, cc) && 1 <= min <= max <= INF
    requires max == INF ==> check || Advancing(env, r, back, cc)
    requires At(prog, p, RepeatedCode(at, check, greedy, min, max))
    ensures DoesRounds(prog, env, p, p + |RepeatedCode(at, check, greedy, min, max)|, r, back, cc, min, max, greedy)
  {
    if min == 1 {
      FromOnceDoes(prog, env, p, at, RepeatedTail(at, check, greedy, min, max), check, greedy, max, r, back, cc);
    } else {
      FromTimesDoes(prog, env, p, at, RepeatedTail(at, check, greedy, min, max), check, greedy, min, max, r, back, cc);
    }
  }

  lemma FromOnceDoes(prog: seq<Cell>, env: Env, p: int, at: seq<Cell>, tail: seq<Cell>, check: bool, greedy: bool, max: nat, r: Re, back: bool, cc: nat)
    requires Valid(r) && Implements(prog, env, at, r, back, cc) && 1 <= max <= INF
    requires max == INF ==> check || Advancing(env, r, back, cc)
    requires tail == RepeatedTail(at, check, greedy, 1, max) && At(prog, p, at + tail)
    ensures DoesRounds(prog, env, p, p + |at| + |tail|, r, back, cc, 1, max, greedy)
  {
    AtConcat(prog, p, at, tail);
    TailDoes(prog, env, p + |at|, at, check, greedy, 1, max, r, back, cc);
    OnceDoes(prog, env, p, p + |at| + |tail|, at, greedy, Rest(1, max), r, back, cc);
  }

  lemma FromTimesDoes(prog: seq<Cell>, env: Env, p: int, at: seq<Cell>, tail: seq<Cell>, check: bool, greedy: bool, min: nat, max: nat, r: Re, back: bool, cc: nat)
    requires Valid(r) && Implements(prog, env, at, r, back, cc) && 1 <= min <= max <= INF
    requires max == INF ==> check || Advancing(env, r, back, cc)
    requires tail == RepeatedTail(at, check, greedy, min, max) && At(prog, p, Times(at, min) + tail)
    ensures DoesRounds(prog, env, p, p + |Times(at, min)| + |tail|, r, back, cc, min, max, greedy)
  {
    var head := Times(at, min);
    AtConcat(prog, p, head, tail);
    TailDoes(prog, env, p + |head|, at, check, greedy, min, max, r, back, cc);
    TimesDoes(prog, env, p, p + |head| + |tail|, at, greedy, min, Rest(min, max), r, back, cc);
  }

  lemma PlusDoes(prog: seq<Cell>, env: Env, p: int, at: seq<Cell>, greedy: bool, r: Re, back: bool, cc: nat)
    requires Valid(r) && Implements(prog, env, at, r, back, cc) && Advancing(env, r, back, cc)
    requires At(prog, p, Plus(at, greedy))
    ensures DoesRounds(prog, env, p, p + |Plus(at, greedy)|, r, back, cc, 1, INF, greedy)
  {
    PlusLayout(prog, p, at, greedy);
    AgainDoes(prog, env, p, p + |at|, greedy, r, back, cc);
    OnceDoes(prog, env, p, p + |at| + 5, at, greedy, INF, r, back, cc);
  }

  lemma PlusLayout(prog: seq<Cell>, p: int, at: seq<Cell>, greedy: bool)
    requires At(prog, p, Plus(at, greedy))
    ensures At(prog, p, at) && AgainAt(prog, p, p + |at|, greedy) && |Plus(at, greedy)| == |at| + 5
  {
    AtConcat(prog, p, at, Enc(if greedy then SplitGotoFirst(-(|at| + 5)) else SplitNextFirst(-(|at| + 5))));
  }

  lemma AgainDoes(prog: seq<Cell>, env: Env, p: int, e: int, greedy: bool, r: Re, back: bool, cc: nat)
    requires Valid(r) && Does(prog, env, p, e, r, back, cc) && Advancing(env, r, back, cc) && AgainAt(prog, p, e, greedy)
    ensures DoesRounds(prog, env, e, e + 5, r, back, cc, 0, INF, greedy)
  {
    var q := e + 5;
    forall x: Spot, stack: seq<nat> | Boundary(env, x.pos)
      ensures Gives(prog, env, e, stack, x, q, stack, Laps(env, r, back, cc, 0, INF, greedy, x)) {
      AgainGives(prog, env, p, e, r, back, cc, greedy, x, stack);
    }
  }
}
