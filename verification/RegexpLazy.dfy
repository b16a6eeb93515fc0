/** Programs that start with a lazy loop over a body without captures: exactly when they
    stop, and with what result. */
module RegexpLazy {
  import opened RegexpInput
  import opened RegexpCode
  import opened RegexpMachine
  import opened RegexpOrder
  import opened RegexpRuns
  import opened RegexpLoops
  import opened RegexpSimple
  import opened RegexpCorrect
  import opened RegexpEndless
  import RegexpLimits

  // ------------------------------------------------------------------ captures are kept

  ghost predicate Keep(caps: Captured, ys: seq<Spot>)
  {
    forall t :: 0 <= t < |ys| ==> ys[t].caps == caps
  }

  lemma {:induction false} FlattenKeep(caps: Captured, ls: seq<seq<Spot>>)
    requires forall t :: 0 <= t < |ls| ==> Keep(caps, ls[t])
    ensures Keep(caps, Flatten(ls))
  {
    if ls != [] { FlattenKeep(caps, ls[1..]); }
  }

  /** Without captures in a pattern, its outcomes keep those that there are. */
  lemma {:induction false} OrderKeeps(env: Env, r: Re, back: bool, cc: nat, x: Spot)
    requires Valid(r) && Captures(r) == 0 && Inside(env, x)
    ensures Keep(x.caps, Order(env, r, back, cc, x))
    decreases r, 0, 1
  {
    if r.Cat? {
      CatKeeps(env, r, back, cc, x);
    } else if r.Alt? {
      OrderKeeps(env, r.a, back, cc, x);
      OrderKeeps(env, r.b, back, cc, x);
    } else if r.Look? {
      OrderKeeps(env, r.r, r.behind, cc, x);
    } else if r.Quant? {
      RoundsKeep(env, r.r, back, cc, r.min, r.max, r.greedy, x);
    }
  }

  lemma {:induction false} CatKeeps(env: Env, r: Re, back: bool, cc: nat, x: Spot)
    requires r.Cat? && Valid(r) && Captures(r) == 0 && Inside(env, x)
    ensures Keep(x.caps, Order(env, r, back, cc, x))
    decreases r, 0, 0
  {
    var ys := Order(env, First(r, back), back, FirstCount(r, back, cc), x);
    OrderKeeps(env, First(r, back), back, FirstCount(r, back, cc), x);
    var ls := CatOrder(env, r, back, cc, x);
    forall t | 0 <= t < |ls| ensures Keep(x.caps, ls[t]) {
      assert After(env, back, x, ys[t]);
      OrderKeeps(env, Second(r, back), back, SecondCount(r, back, cc), ys[t]);
    }
    FlattenKeep(x.caps, ls);
  }

  lemma {:induction false} RoundsKeep(env: Env, r: Re, back: bool, cc: nat, min: nat, max: nat, greedy: bool, x: Spot)
    requires Valid(r) && Captures(r) == 0 && max <= INF && Inside(env, x)
    ensures Keep(x.caps, Rounds(env, r, back, cc, min, max, greedy, x))
    decreases r, 1, min, if max == INF then Distance(env, back, x) else max, 1
  {
    OrderKeeps(env, r, back, cc, x);
    if min > 0 {
      var ls := RoundsMin(env, r, back, cc, min, max, greedy, x);
      forall t | 0 <= t < |ls| ensures Keep(x.caps, ls[t]) {
        var y := NextPlace(env, r, back, cc, x, t);
        RoundsKeep(env, r, back, cc, min - 1, Less(max), greedy, y);
      }
      FlattenKeep(x.caps, ls);
    } else if max > 0 {
      MoreKeep(env, r, back, cc, max, greedy, x);
    }
  }

  /** One of the outcomes of a body. */
  lemma NextPlace(env: Env, r: Re, back: bool, cc: nat, x: Spot, t: nat) returns (y: Spot)
    requires Valid(r) && Inside(env, x) && t < |Order(env, r, back, cc, x)| && Keep(x.caps, Order(env, r, back, cc, x))
    ensures y == Order(env, r, back, cc, x)[t] && After(env, back, x, y) && Inside(env, y) && y.caps == x.caps
  {
    y := Order(env, r, back, cc, x)[t];
  }

  lemma {:induction false} MoreKeep(env: Env, r: Re, back: bool, cc: nat, max: nat, greedy: bool, x: Spot)
    requires Valid(r) && Captures(r) == 0 && 0 < max <= INF && Inside(env, x) && Keep(x.caps, Order(env, r, back, cc, x))
    ensures Keep(x.caps, Rounds(env, r, back, cc, 0, max, greedy, x))
    decreases r, 1, 0, if max == INF then Distance(env, back, x) else max, 0
  {
    var ls := RoundsMore(env, r, back, cc, max, greedy, x);
    forall t | 0 <= t < |ls| ensures Keep(x.caps, ls[t]) {
      var y := NextPlace(env, r, back, cc, x, t);
      if max != INF || y.pos != x.pos {
        RoundsKeep(env, r, back, cc, 0, Less(max), greedy, y);
      }
    }
    FlattenKeep(x.caps, ls);
  }

  // ------------------------------------------------------------------ the loop

  /** The loop of r, before s. */
  ghost function LoopOf(env: Env, r: Re, s: Re, p: int): LazyLoop
    requires Valid(r) && Valid(s)
  {
    LazyLoop(p, p + 5 + |Code(r, false, 1)|, [],
      (x: Spot) => if Inside(env, x) then Outcomes(env, r, false, 1, x) else [],
      (x: Spot) => Inside(env, x) && Outcomes(env, s, false, 1, x) != [],
      (x: Spot) => if x.pos <= |env.units| then |env.units| - x.pos else 0)
  }

  ghost function OnBoundary(env: Env): Spot -> bool
  {
    (x: Spot) => Boundary(env, x.pos)
  }

  /** The outcomes of the body stay in place, or leave less of the subject. */
  lemma BodyProper(env: Env, r: Re, s: Re, p: int, x: Spot)
    requires Valid(r) && Valid(s) && Captures(r) == 0 && Boundary(env, x.pos)
    ensures var l := LoopOf(env, r, s, p); Proper(env, l, x, l.body(x)) && AllIn(OnBoundary(env), l.body(x))
  {
    OutcomesOrder(env, r, false, 1, x);
    OutcomesBoundary(env, r, false, 1, x);
    OrderKeeps(env, r, false, 1, x);
    var l := LoopOf(env, r, s, p);
    var ys := l.body(x);
    forall t | 0 <= t < |ys| ensures Inside(env, ys[t]) && (ys[t] == x || l.left(ys[t]) < l.left(x)) {
      assert After(env, false, x, ys[t]);
      assert ys[t].caps == x.caps;
      if ys[t].pos == x.pos { assert ys[t] == Spot(x.pos, x.caps); }
    }
  }

  /** Where the parts of the program are: the loop, what follows, and the end. */
  ghost predicate Layout(prog: seq<Cell>, at: seq<Cell>, cs: seq<Cell>, p: int)
  {
    LoopAt(prog, p, p + 5, p + 5 + |at|, false, false) && At(prog, p + 5, at) && At(prog, p + 10 + |at|, cs) && EndAt(prog, p + 10 + |at| + |cs|)
  }

  ghost predicate EndAt(prog: seq<Cell>, m: int)
  {
    At(prog, m, Enc(SaveEnd(0))) && At(prog, m + 2, Enc(Match))
  }

  /** What follows the loop accepts a place exactly if it has an outcome there. */
  lemma RestDecides(prog: seq<Cell>, env: Env, s: Re, q: int, m: int, x: Spot)
    requires Valid(s) && Does(prog, env, q, m, s, false, 1) && EndAt(prog, m) && Boundary(env, x.pos)
    ensures if Outcomes(env, s, false, 1, x) != [] then Leads(prog, env, q, [], x) else DeadEnd(prog, env, q, [], x)
  {
    var ys := Outcomes(env, s, false, 1, x);
    assert Gives(prog, env, q, [], x, m, [], ys);
    OutcomesBoundary(env, s, false, 1, x);
    RestGives(prog, env, q, m, x, ys);
  }

  lemma RestGives(prog: seq<Cell>, env: Env, q: int, m: int, x: Spot, ys: seq<Spot>)
    requires Gives(prog, env, q, [], x, m, [], ys) && AllBoundary(env, ys) && EndAt(prog, m)
    ensures if ys != [] then Leads(prog, env, q, [], x) else DeadEnd(prog, env, q, [], x)
  {
    var ls := Closed(prog, env, m, ys);
    GivesChain(prog, env, q, [], x, m, [], ys, m + 2, [], ls);
    FlattenOnes(ys, ls);
    forall saved ensures if ys != [] then Succeeds(prog, env, Arrived(q, x, [], saved), saved) else Fails(prog, env, Arrived(q, x, [], saved), saved) {
      Concludes(prog, env, q, [], x, m + 2, [], Flatten(ls), saved);
    }
  }

  /** The end of capture 0 is set. */
  lemma Closed(prog: seq<Cell>, env: Env, m: int, ys: seq<Spot>) returns (ls: seq<seq<Spot>>)
    requires At(prog, m, Enc(SaveEnd(0))) && AllBoundary(env, ys)
    ensures |ls| == |ys| && forall t :: 0 <= t < |ys| ==> Gives(prog, env, m, [], ys[t], m + 2, [], ls[t])
    ensures forall t :: 0 <= t < |ys| ==> |ls[t]| == 1 && ls[t][0].pos == ys[t].pos <= |env.units|
  {
    ls := seq(|ys|, t requires 0 <= t < |ys| => [Leave(false, 0, ys[t])]);
    AtOp(prog, m, SaveEnd(0));
    forall t | 0 <= t < |ys| ensures Gives(prog, env, m, [], ys[t], m + 2, [], ls[t]) {
      GivesHere(prog, env, m + 2, [], Leave(false, 0, ys[t]));
      GivesMove(prog, env, m, [], ys[t], m + 2, [], Leave(false, 0, ys[t]), m + 2, [], ls[t]);
    }
  }

  lemma FlattenOnes(ys: seq<Spot>, ls: seq<seq<Spot>>)
    requires |ls| == |ys| && forall t :: 0 <= t < |ls| ==> |ls[t]| == 1
    ensures ys == [] ==> Flatten(ls) == []
    ensures ys != [] ==> Flatten(ls) != [] && Flatten(ls)[0] == ls[0][0]
  {}

  lemma CodeDoes(prog: seq<Cell>, env: Env, p: int, r: Re)
    requires GoodEnv(env) && Valid(r) && Safe(env, r, false, 1) && At(prog, p, Code(r, false, 1))
    ensures Does(prog, env, p, p + |Code(r, false, 1)|, r, false, 1)
  {
    EmitImplements(prog, env, r, false, 1);
  }

  lemma LoopLazy(prog: seq<Cell>, env: Env, r: Re, s: Re, p: int)
    requires GoodEnv(env) && Valid(r) && Valid(s) && Captures(r) == 0 && Safe(env, r, false, 1) && Safe(env, s, false, 1)
    requires Layout(prog, Code(r, false, 1), Code(s, false, 1), p)
    ensures Lazy(prog, env, LoopOf(env, r, s, p), OnBoundary(env))
  {
    var at, cs := Code(r, false, 1), Code(s, false, 1);
    CodeDoes(prog, env, p + 5, r);
    CodeDoes(prog, env, p + 10 + |at|, s);
    LazyEverywhere(prog, env, r, s, p, p + 10 + |at| + |cs|);
  }

  lemma LazyEverywhere(prog: seq<Cell>, env: Env, r: Re, s: Re, p: int, m: int)
    requires Valid(r) && Valid(s) && Captures(r) == 0 && LoopAt(prog, p, p + 5, p + 5 + |Code(r, false, 1)|, false, false)
    requires Does(prog, env, p + 5, p + 5 + |Code(r, false, 1)|, r, false, 1) && Does(prog, env, p + 10 + |Code(r, false, 1)|, m, s, false, 1) && EndAt(prog, m)
    ensures Lazy(prog, env, LoopOf(env, r, s, p), OnBoundary(env))
  {
    var l, ok := LoopOf(env, r, s, p), OnBoundary(env);
    forall x | ok(x) ensures LazyAt(prog, env, l, x) && AllIn(ok, l.body(x)) {
      LazyHere(prog, env, r, s, p, m, x);
    }
  }

  lemma LazyHere(prog: seq<Cell>, env: Env, r: Re, s: Re, p: int, m: int, x: Spot)
    requires Valid(r) && Valid(s) && Captures(r) == 0 && Boundary(env, x.pos)
    requires Does(prog, env, p + 5, p + 5 + |Code(r, false, 1)|, r, false, 1) && Does(prog, env, p + 10 + |Code(r, false, 1)|, m, s, false, 1) && EndAt(prog, m)
    ensures var l := LoopOf(env, r, s, p); LazyAt(prog, env, l, x) && AllIn(OnBoundary(env), l.body(x))
  {
    assert Gives(prog, env, p + 5, [], x, p + 5 + |Code(r, false, 1)|, [], Outcomes(env, r, false, 1, x));
    BodyProper(env, r, s, p, x);
    RestDecides(prog, env, s, p + 10 + |Code(r, false, 1)|, m, x);
  }

  // ------------------------------------------------------------------ the program

  /** The pattern (?:r)*?s. */
  function LazyFirst(r: Re, s: Re): Re
  {
    Cat(Quant(r, 0, INF, false), s)
  }

  lemma LazyLayout(r: Re, s: Re) returns (prog: seq<Cell>)
    requires Valid(r) && Valid(s) && Captures(r) == 0
    ensures Valid(LazyFirst(r, s)) && prog == Program(LazyFirst(r, s), true)
    ensures Layout(prog, Code(r, false, 1), Code(s, false, 1), 2) && At(prog, 0, Enc(SaveStart(0)))
  {
    prog := LazyCode(r, s);
    LayoutParts(prog, Code(r, false, 1), Code(s, false, 1));
  }

  lemma LazyCode(r: Re, s: Re) returns (prog: seq<Cell>)
    requires Valid(r) && Valid(s) && Captures(r) == 0
    ensures Valid(LazyFirst(r, s)) && prog == Program(LazyFirst(r, s), true)
    ensures prog == Enc(SaveStart(0)) + ((Star(Code(r, false, 1), false, false) + Code(s, false, 1)) + (Enc(SaveEnd(0)) + Enc(Match)))
  {
    var w := LazyFirst(r, s);
    LazyBody(r, s);
    RegexpLimits.StickyProgram(w);
    prog := Program(w, true);
  }

  lemma LazyBody(r: Re, s: Re)
    requires Valid(r) && Valid(s) && Captures(r) == 0
    ensures Valid(LazyFirst(r, s)) && Emit(LazyFirst(r, s), false, 1) == Star(Code(r, false, 1), false, false) + Code(s, false, 1)
  {
    var w := LazyFirst(r, s);
    CodeEmit(w, false, 1);
    CodeCat(w, false, 1);
    LoopCode(r);
  }

  lemma LoopCode(r: Re)
    requires Valid(r) && Captures(r) == 0
    ensures Code(Quant(r, 0, INF, false), false, 1) == Star(Code(r, false, 1), false, false)
  {
    var at := Code(r, false, 1);
    CodeQuant(Quant(r, 0, INF, false), false, 1);
    assert [] + Star(at, false, false) == Star(at, false, false);
  }

  lemma LayoutParts(prog: seq<Cell>, at: seq<Cell>, cs: seq<Cell>)
    requires prog == Enc(SaveStart(0)) + ((Star(at, false, false) + cs) + (Enc(SaveEnd(0)) + Enc(Match)))
    ensures At(prog, 0, Enc(SaveStart(0))) && Layout(prog, at, cs, 2)
  {
    var tail := Enc(SaveEnd(0)) + Enc(Match);
    var star := Star(at, false, false);
    assert prog[0..|prog|] == prog;
    AtConcat(prog, 0, Enc(SaveStart(0)), (star + cs) + tail);
    AtConcat(prog, 2, star + cs, tail);
    AtConcat(prog, 2, star, cs);
    StarLayout(prog, 2, at, false, false);
    AtConcat(prog, 2 + |star| + |cs|, Enc(SaveEnd(0)), Enc(Match));
  }

  /** Where the program starts after the first instruction. */
  function Entered(start: nat, captures: nat): Spot
  {
    Enter(false, 0, Spot(start, seq(2 * captures, _ => None)))
  }

  /** The program of (?:r)*?s, r without captures, run from a start: it never stops if and
      only if the search is endless, and otherwise it stops with what the search finds. */
  lemma LazyProgramFate(env: Env, r: Re, s: Re, start: nat, captures: nat)
    requires GoodEnv(env) && Valid(r) && Valid(s) && Captures(r) == 0 && Safe(env, r, false, 1) && Safe(env, s, false, 1) && Boundary(env, start)
    ensures var prog, fate := Program(LazyFirst(r, s), true), FateFrom(LoopOf(env, r, s, 2), Entered(start, captures));
            Ends(prog, env, Start(start, captures), [], fate) && (Never(prog, env, Start(start, captures)) <==> fate == Endless)
  {
    var l := LoopOf(env, r, s, 2);
    var x := Entered(start, captures);
    var prog := LazyLayout(r, s);
    LoopLazy(prog, env, r, s, 2);
    LoopFate(prog, env, l, OnBoundary(env), x, []);
    AtOp(prog, 0, SaveStart(0));
    assert Step(prog, env, Start(start, captures)) == Arrived(2, x, [], []);
    ReachesStep(prog, env, Start(start, captures));
    EndsVia(prog, env, Start(start, captures), Arrived(2, x, [], []), [], FateFrom(l, x));
    EndsOnce(prog, env, Start(start, captures), FateFrom(l, x));
  }

  /** A run that ends does not go on for ever. */
  lemma EndsOnce(prog: seq<Cell>, env: Env, s: State, fate: Fate)
    requires Ends(prog, env, s, [], fate)
    ensures Never(prog, env, s) <==> fate == Endless
  {
    if fate != Endless {
      var caps :| Reaches(prog, env, s, Unwind(fate == Accepted, caps, []));
      var n: nat :| Steps(prog, env, n, s) == Unwind(fate == Accepted, caps, []);
      assert Final(Steps(prog, env, n, s));
    }
  }
}
