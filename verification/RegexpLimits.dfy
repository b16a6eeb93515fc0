/** Two consequences: the fast loop of simple quantifiers agrees with the general one,
    and a lazy loop whose body may stay in place need not terminate. */
module RegexpLimits {
  import opened Hints
  import opened RegexpInput
  import opened RegexpCode
  import opened RegexpMachine
  import opened RegexpOrder
  import opened RegexpRuns
  import opened RegexpLoops
  import opened RegexpSimple
  import opened RegexpCorrect
  import RegexpGreedy
  import RegexpMatch
  import RegexpEndless

  lemma SimpleAdvances(prog: seq<Cell>, env: Env, p: int, r: Re, back: bool, cc: nat)
    requires GoodEnv(env) && Valid(r) && At(prog, p, Code(r, back, cc)) && SimpleLength(Code(r, back, cc)) > 0
    ensures Advancing(env, r, back, cc)
  {
    SimpleLine(prog, env, p, r, back, cc);
    assert AskFor(Subject.SimpleLines, 0);
    var code := Code(r, back, cc);
    forall x: Spot | Boundary(env, x.pos) ensures AllMoved(x, Outcomes(env, r, back, cc, x)) {
      assert LineAt(prog, env, p, p + |code|, SimpleLength(code), x, Outcomes(env, r, back, cc, x));
    }
  }

  /** Simple code has no loop that could run for ever. */
  lemma {:induction false} SimpleSafe(env: Env, r: Re, back: bool, cc: nat)
    requires Valid(r) && SimpleLength(Code(r, back, cc)) >= 0
    ensures Safe(env, r, back, cc)
    decreases r
  {
    if r.Cat? {
      CodeCat(r, back, cc);
      SimpleConcat(Code(First(r, back), back, FirstCount(r, back, cc)), Code(Second(r, back), back, SecondCount(r, back, cc)));
      SimpleSafe(env, First(r, back), back, FirstCount(r, back, cc));
      SimpleSafe(env, Second(r, back), back, SecondCount(r, back, cc));
    } else if r.Alt? || r.Look? || r.Capture? {
      OtherNotSimple(r, back, cc);
    } else if r.Quant? {
      CodeQuant(r, back, cc);
      QuantNotSimple(Code(r.r, back, cc), r.min, r.max, r.greedy, cc, cc + Captures(r.r));
      if r.max > 0 { SimpleSafe(env, r.r, back, cc); }
    }
  }

  /** The code that a greedy quantifier with this body would get if it were not simple: the
      loop with a zero-advance check or without. */
  ghost predicate GeneralLoop(code: seq<Cell>, at: seq<Cell>, check: bool, min: nat, max: nat)
  {
    if min == 0 then code == OptionalBody(at, check, true, max)
    else code == RepeatedCode(at, check, true, min, max) || (min == 1 && max == INF && code == Plus(at, true))
  }

  lemma GeneralDoes(prog: seq<Cell>, env: Env, p: int, code: seq<Cell>, at: seq<Cell>, check: bool, min: nat, max: nat, r: Re, back: bool, cc: nat)
    requires Valid(r) && min <= max <= INF && Implements(prog, env, at, r, back, cc) && Advancing(env, r, back, cc)
    requires GeneralLoop(code, at, check, min, max) && At(prog, p, code)
    ensures DoesRounds(prog, env, p, p + |code|, r, back, cc, min, max, true)
  {
    if min == 0 {
      OptionalDoes(prog, env, p, at, check, true, max, r, back, cc);
    } else if code == RepeatedCode(at, check, true, min, max) {
      RepeatedDoes(prog, env, p, at, check, true, min, max, r, back, cc);
    } else {
      PlusDoes(prog, env, p, at, true, r, back, cc);
    }
  }

  /** The code of a greedy quantifier with a simple body, and the general loop over the
      same body in another program, offer the same outcomes in the same order: for every
      minimum, below which the fast loop does not give back. */
  lemma FastLoopAgrees(fast: seq<Cell>, p1: int, slow: seq<Cell>, p2: int, code: seq<Cell>, env: Env, r: Re, back: bool, cc: nat, check: bool, x: Spot, stack: seq<nat>)
    requires GoodEnv(env) && r.Quant? && Valid(r) && Boundary(env, x.pos)
    requires IsSimple(Code(r.r, back, cc), r.max, r.greedy)
    requires At(fast, p1, Code(r, back, cc)) && GeneralLoop(code, Code(r.r, back, cc), check, r.min, r.max) && At(slow, p2, code)
    ensures var xs := Outcomes(env, r, back, cc, x);
            Gives(fast, env, p1, stack, x, p1 + |Code(r, back, cc)|, stack, xs) && Gives(slow, env, p2, stack, x, p2 + |code|, stack, xs)
  {
    var xs := Outcomes(env, r, back, cc, x);
    SimpleDoes(fast, env, p1, r, back, cc);
    SimpleLayout(fast, p1, r, back, cc);
    SimpleAdvances(fast, env, p1 + 17, r.r, back, cc);
    SimpleSafe(env, r.r, back, cc);
    EmitImplements(slow, env, r.r, back, cc);
    GeneralDoes(slow, env, p2, code, Code(r.r, back, cc), check, r.min, r.max, r.r, back, cc);
    SimpleLaps(env, r, back, cc, x);
    assert Gives(slow, env, p2, stack, x, p2 + |code|, stack, Laps(env, r.r, back, cc, r.min, r.max, true, x));
    assert Gives(fast, env, p1, stack, x, p1 + |Code(r, back, cc)|, stack, xs);
  }

  lemma SimpleLaps(env: Env, r: Re, back: bool, cc: nat, x: Spot)
    requires r.Quant? && Valid(r) && Inside(env, x) && IsSimple(Code(r.r, back, cc), r.max, r.greedy)
    ensures Outcomes(env, r, back, cc, x) == Laps(env, r.r, back, cc, r.min, r.max, true, x)
  {
    QuantOutcomes(env, r, back, cc, x);
    RegexpGreedy.SimpleNoCaptures(r.r, back, cc);
  }

  // --------------------------------------------------------------------- endless loops

  /** A lazy loop without a check, whose body offers to stay at x first, and after which
      nothing matches from x. */
  ghost predicate Stuck(prog: seq<Cell>, env: Env, p: int, e: int, stack: seq<nat>, x: Spot, more: seq<Spot>)
  {
    LoopAt(prog, p, p + 5, e, false, false) && Inside(env, x) &&
    Gives(prog, env, p + 5, stack, x, e, stack, [x] + more) &&
    RegexpEndless.DeadEnd(prog, env, e + 5, stack, x)
  }

  /** It comes back to its start. */
  lemma StuckRound(prog: seq<Cell>, env: Env, p: int, e: int, stack: seq<nat>, x: Spot, more: seq<Spot>, saved: seq<Saved>) returns (again: seq<Saved>, k: nat)
    requires Stuck(prog, env, p, e, stack, x, more)
    ensures k > 0 && Steps(prog, env, k, Arrived(p, x, stack, saved)) == Arrived(p, x, stack, again)
  {
    AtOp(prog, p, SplitGotoFirst(e - p));
    AtOp(prog, e, Goto(p - e - 5));
    var saved1 := saved + [Saved(SplitState, p + 5, x.pos, stack, x.caps)];
    assert saved1[..|saved1| - 1] == saved;
    var s1 := Arrived(e + 5, x, stack, saved1);
    assert Step(prog, env, Arrived(p, x, stack, saved)) == s1;
    var c :| Reaches(prog, env, s1, Unwind(false, c, saved1));
    var s2 := Arrived(p + 5, x, stack, saved);
    assert Step(prog, env, Unwind(false, c, saved1)) == s2;
    ReachesStep(prog, env, Unwind(false, c, saved1));
    ReachesTrans(prog, env, s1, Unwind(false, c, saved1), s2);
    GivesMeans(prog, env, p + 5, stack, x, e, stack, [x] + more);
    assert Offers(prog, env, s2, e, stack, [x] + more, saved);
    var extra :| OffersFirst(prog, env, s2, e, stack, x, saved, extra);
    again := saved + extra;
    var s3 := Arrived(e, x, stack, again);
    ReachesTrans(prog, env, s1, s2, s3);
    assert Step(prog, env, s3) == Arrived(p, x, stack, again);
    ReachesStep(prog, env, s3);
    ReachesTrans(prog, env, s1, s3, Arrived(p, x, stack, again));
    var k1: nat :| Steps(prog, env, k1, s1) == Arrived(p, x, stack, again);
    k := k1 + 1;
  }

  /** The machine never stops. */
  lemma {:induction false} StuckForever(prog: seq<Cell>, env: Env, p: int, e: int, stack: seq<nat>, x: Spot, more: seq<Spot>, saved: seq<Saved>, n: nat)
    requires Stuck(prog, env, p, e, stack, x, more)
    ensures !Final(Steps(prog, env, n, Arrived(p, x, stack, saved)))
    decreases n
  {
    var s := Arrived(p, x, stack, saved);
    if n > 0 {
      var again, k := StuckRound(prog, env, p, e, stack, x, more, saved);
      if n <= k {
        NotYetFinal(prog, env, n, k - n, s);
      } else {
        StepsAdd(prog, env, k, n - k, s);
        StuckForever(prog, env, p, e, stack, x, more, again, n - k);
      }
    }
  }

  lemma NotYetFinal(prog: seq<Cell>, env: Env, m: nat, k: nat, s: State)
    requires !Final(Steps(prog, env, m + k, s))
    ensures !Final(Steps(prog, env, m, s))
  {
    StepsAdd(prog, env, m, k, s);
    if Final(Steps(prog, env, m, s)) {
      RegexpMatch.FinalStays(prog, env, k, Steps(prog, env, m, s));
    }
  }

  /** The pattern (?:)*?c, as it is compiled. */
  function EmptyLazily(c: nat): (r: Re)
    ensures Valid(r)
  {
    Cat(Quant(Empty, 0, INF, false), Chr(c))
  }

  /** It does not terminate on the empty subject. */
  lemma EmptyLazilyRunsForever(env: Env, c: nat, captures: nat, n: nat)
    requires |env.units| == 0 && c <= 0xffff
    ensures !Final(Steps(Program(EmptyLazily(c), true), env, n, Start(0, captures)))
  {
    var prog := EmptyLazilyCode(c);
    FiveParts(prog, Enc(SaveStart(0)), Enc(SplitGotoFirst(5)), Enc(Goto(-10)), Enc(Char(c)), Enc(SaveEnd(0)) + Enc(Match));
    EmptyLoopForever(prog, env, c, captures, n);
  }

  lemma EmptyLoopForever(prog: seq<Cell>, env: Env, c: nat, captures: nat, n: nat)
    requires |env.units| == 0 && At(prog, 0, Enc(SaveStart(0))) && At(prog, 2, Enc(SplitGotoFirst(5)))
    requires At(prog, 7, Enc(Goto(-10))) && At(prog, 12, Enc(Char(c)))
    ensures !Final(Steps(prog, env, n, Start(0, captures)))
  {
    var s := Start(0, captures);
    var x := Spot(0, SetCap(s.caps, 0, Some(0)));
    AtOp(prog, 0, SaveStart(0));
    AtOp(prog, 12, Char(c));
    assert Step(prog, env, s) == Arrived(2, x, [], []);
    GivesHere(prog, env, 7, [], x);
    assert [x] + [] == [x];
    forall saved ensures Fails(prog, env, Arrived(12, x, [], saved), saved) {
      assert Step(prog, env, Arrived(12, x, [], saved)) == Unwind(false, x.caps, saved);
      ReachesStep(prog, env, Arrived(12, x, [], saved));
    }
    if n > 0 {
      StuckForever(prog, env, 2, 7, [], x, [], [], n - 1);
    }
  }

  lemma EmptyLazilyEmit(c: nat)
    ensures Emit(EmptyLazily(c), false, 1) == (Enc(SplitGotoFirst(5)) + Enc(Goto(-10))) + Enc(Char(c))
  {
    assert OptionalCode([], false, false, INF, 1, 1) == [] + Star([], false, false) == Star([], false, false);
    assert [] + Enc(Goto(-10)) == Enc(Goto(-10));
    assert Emit(Quant(Empty, 0, INF, false), false, 1) == Star([], false, false);
  }

  lemma EmptyLazilyCode(c: nat) returns (prog: seq<Cell>)
    ensures prog == Program(EmptyLazily(c), true)
    ensures prog == Enc(SaveStart(0)) + (((Enc(SplitGotoFirst(5)) + Enc(Goto(-10))) + Enc(Char(c))) + (Enc(SaveEnd(0)) + Enc(Match)))
  {
    EmptyLazilyEmit(c);
    StickyProgram(EmptyLazily(c));
    prog := Program(EmptyLazily(c), true);
  }

  lemma StickyProgram(r: Re)
    requires Valid(r)
    ensures Program(r, true) == Enc(SaveStart(0)) + (Emit(r, false, 1) + (Enc(SaveEnd(0)) + Enc(Match)))
  {
    var all := Enc(SaveStart(0)) + (Emit(r, false, 1) + (Enc(SaveEnd(0)) + Enc(Match)));
    assert [] + all == all;
  }

  lemma FiveParts(prog: seq<Cell>, a: seq<Cell>, b: seq<Cell>, c: seq<Cell>, d: seq<Cell>, e: seq<Cell>)
    requires prog == a + (((b + c) + d) + e)
    ensures At(prog, 0, a) && At(prog, |a|, b) && At(prog, |a| + |b|, c) && At(prog, |a| + |b| + |c|, d)
  {
    assert prog[0..|prog|] == prog;
    AtConcat(prog, 0, a, ((b + c) + d) + e);
    AtConcat(prog, |a|, (b + c) + d, e);
    AtConcat(prog, |a|, b + c, d);
    AtConcat(prog, |a|, b, c);
  }
}
