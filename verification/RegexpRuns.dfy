/** Runs of the machine. Code between two positions offers a sequence of outcomes: it
    arrives at the end with the first one, when that is refused later on with the
    second one, and so on, and fails when all are refused. */
module RegexpRuns {
  import opened Hints
  import opened RegexpInput
  import opened RegexpCode
  import opened RegexpMachine
  import opened RegexpOrder

  lemma {:induction false} StepsAdd(prog: seq<Cell>, env: Env, m: nat, n: nat, s: State)
    ensures Steps(prog, env, m + n, s) == Steps(prog, env, n, Steps(prog, env, m, s))
  {
    if m > 0 { StepsAdd(prog, env, m - 1, n, Step(prog, env, s)); }
  }

  ghost predicate Reaches(prog: seq<Cell>, env: Env, s: State, t: State)
  {
    exists n: nat :: Steps(prog, env, n, s) == t
  }

  lemma ReachesTrans(prog: seq<Cell>, env: Env, s: State, t: State, u: State)
    requires Reaches(prog, env, s, t) && Reaches(prog, env, t, u)
    ensures Reaches(prog, env, s, u)
  {
    var m: nat :| Steps(prog, env, m, s) == t;
    var n: nat :| Steps(prog, env, n, t) == u;
    StepsAdd(prog, env, m, n, s);
  }

  lemma ReachesStep(prog: seq<Cell>, env: Env, s: State)
    ensures Reaches(prog, env, s, Step(prog, env, s))
  {
    assert Steps(prog, env, 1, s) == Steps(prog, env, 0, Step(prog, env, s));
  }

  // ---------------------------------------------------------- code in the program

  ghost predicate At(prog: seq<Cell>, p: int, code: seq<Cell>)
  {
    0 <= p && p + |code| <= |prog| && prog[p..p + |code|] == code
  }

  lemma AtConcat(prog: seq<Cell>, p: int, a: seq<Cell>, b: seq<Cell>)
    requires At(prog, p, a + b)
    ensures At(prog, p, a) && At(prog, p + |a|, b)
  {
    var c := a + b;
    assert prog[p..p + |a|] == c[..|a|] == a;
    assert prog[p + |a|..p + |c|] == c[|a|..] == b;
  }

  lemma AtOp(prog: seq<Cell>, p: int, i: Instr)
    requires At(prog, p, Enc(i))
    ensures IsOp(prog, p) && prog[p].i == i
  {
    assert prog[p] == prog[p..p + |Enc(i)|][0];
  }

  /** Saved states that only a failure brings back. */
  ghost predicate Choices(more: seq<Saved>)
  {
    forall t :: 0 <= t < |more| ==> more[t].kind.SplitState? || more[t].kind.GreedyState?
  }

  /** The machine is at pc with the outcome x. */
  function Arrived(pc: int, x: Spot, stack: seq<nat>, saved: seq<Saved>): State
  {
    Run(pc, x.pos, stack, x.caps, saved)
  }

  ghost predicate Fails(prog: seq<Cell>, env: Env, s: State, saved: seq<Saved>)
  {
    exists caps :: Reaches(prog, env, s, Unwind(false, caps, saved))
  }

  /** From s the machine arrives at q with each of the outcomes xs in turn. */
  ghost predicate Offers(prog: seq<Cell>, env: Env, s: State, q: int, stack: seq<nat>, xs: seq<Spot>, saved: seq<Saved>)
    decreases |xs|
  {
    if xs == [] then Fails(prog, env, s, saved)
    else exists more :: OffersFirst(prog, env, s, q, stack, xs[0], saved, more) &&
                        forall caps :: Offers(prog, env, Unwind(false, caps, saved + more), q, stack, xs[1..], saved)
  }

  ghost predicate OffersFirst(prog: seq<Cell>, env: Env, s: State, q: int, stack: seq<nat>, x: Spot, saved: seq<Saved>, more: seq<Saved>)
  {
    Choices(more) && Reaches(prog, env, s, Arrived(q, x, stack, saved + more))
  }

  lemma FailsVia(prog: seq<Cell>, env: Env, s: State, t: State, saved: seq<Saved>)
    requires Reaches(prog, env, s, t) && Fails(prog, env, t, saved)
    ensures Fails(prog, env, s, saved)
  {
    var caps :| Reaches(prog, env, t, Unwind(false, caps, saved));
    ReachesTrans(prog, env, s, t, Unwind(false, caps, saved));
  }

  lemma OffersVia(prog: seq<Cell>, env: Env, s: State, t: State, q: int, stack: seq<nat>, xs: seq<Spot>, saved: seq<Saved>)
    requires Reaches(prog, env, s, t) && Offers(prog, env, t, q, stack, xs, saved)
    ensures Offers(prog, env, s, q, stack, xs, saved)
  {
    if xs == [] {
      FailsVia(prog, env, s, t, saved);
    } else {
      var more :| OffersFirst(prog, env, t, q, stack, xs[0], saved, more) &&
                  forall caps :: Offers(prog, env, Unwind(false, caps, saved + more), q, stack, xs[1..], saved);
      ReachesTrans(prog, env, s, t, Arrived(q, xs[0], stack, saved + more));
      assert OffersFirst(prog, env, s, q, stack, xs[0], saved, more);
    }
  }

  lemma OffersStep(prog: seq<Cell>, env: Env, s: State, q: int, stack: seq<nat>, xs: seq<Spot>, saved: seq<Saved>)
    requires Offers(prog, env, Step(prog, env, s), q, stack, xs, saved)
    ensures Offers(prog, env, s, q, stack, xs, saved)
  {
    ReachesStep(prog, env, s);
    OffersVia(prog, env, s, Step(prog, env, s), q, stack, xs, saved);
  }

  /** One step to the first outcome, the others after a failure. */
  lemma OffersNext(prog: seq<Cell>, env: Env, s: State, q: int, stack: seq<nat>, x: Spot, xs: seq<Spot>, saved: seq<Saved>, more: seq<Saved>)
    requires Choices(more) && Step(prog, env, s) == Arrived(q, x, stack, saved + more)
    requires forall caps :: Offers(prog, env, Unwind(false, caps, saved + more), q, stack, xs, saved)
    ensures Offers(prog, env, s, q, stack, [x] + xs, saved)
  {
    ReachesStep(prog, env, s);
    assert ([x] + xs)[1..] == xs;
    assert OffersFirst(prog, env, s, q, stack, ([x] + xs)[0], saved, more);
  }

  /** Outcomes offered above some choices, then those of the choices. */
  lemma {:induction false} OffersAppend(prog: seq<Cell>, env: Env, s: State, q: int, stack: seq<nat>, xs: seq<Spot>, ys: seq<Spot>, saved: seq<Saved>, more: seq<Saved>)
    requires Choices(more) && Offers(prog, env, s, q, stack, xs, saved + more)
    requires forall caps :: Offers(prog, env, Unwind(false, caps, saved + more), q, stack, ys, saved)
    ensures Offers(prog, env, s, q, stack, xs + ys, saved)
    decreases |xs|
  {
    if xs == [] {
      var caps :| Reaches(prog, env, s, Unwind(false, caps, saved + more));
      OffersVia(prog, env, s, Unwind(false, caps, saved + more), q, stack, ys, saved);
      assert xs + ys == ys;
    } else {
      var extra :| OffersFirst(prog, env, s, q, stack, xs[0], saved + more, extra) &&
                   forall caps :: Offers(prog, env, Unwind(false, caps, saved + more + extra), q, stack, xs[1..], saved + more);
      assert saved + more + extra == saved + (more + extra);
      assert OffersFirst(prog, env, s, q, stack, xs[0], saved, more + extra);
      forall caps ensures Offers(prog, env, Unwind(false, caps, saved + (more + extra)), q, stack, (xs + ys)[1..], saved) {
        OffersAppend(prog, env, Unwind(false, caps, saved + more + extra), q, stack, xs[1..], ys, saved, more);
        assert (xs + ys)[1..] == xs[1..] + ys;
      }
    }
  }

  /** Each outcome at m is continued with its own outcomes at q. */
  lemma {:induction false} OffersChain(prog: seq<Cell>, env: Env, s: State, m: int, stackM: seq<nat>, xs: seq<Spot>, q: int, stackQ: seq<nat>, ls: seq<seq<Spot>>, saved: seq<Saved>)
    requires Offers(prog, env, s, m, stackM, xs, saved) && |ls| == |xs|
    requires forall t :: 0 <= t < |xs| ==> Gives(prog, env, m, stackM, xs[t], q, stackQ, ls[t])
    ensures Offers(prog, env, s, q, stackQ, Flatten(ls), saved)
    decreases |xs|
  {
    if xs != [] {
      var more :| OffersFirst(prog, env, s, m, stackM, xs[0], saved, more) &&
                  forall caps :: Offers(prog, env, Unwind(false, caps, saved + more), m, stackM, xs[1..], saved);
      forall caps ensures Offers(prog, env, Unwind(false, caps, saved + more), q, stackQ, Flatten(ls[1..]), saved) {
        OffersChain(prog, env, Unwind(false, caps, saved + more), m, stackM, xs[1..], q, stackQ, ls[1..], saved);
      }
      var t := Arrived(m, xs[0], stackM, saved + more);
      GivesMeans(prog, env, m, stackM, xs[0], q, stackQ, ls[0]);
      assert Offers(prog, env, t, q, stackQ, ls[0], saved + more);
      OffersAppend(prog, env, t, q, stackQ, ls[0], Flatten(ls[1..]), saved, more);
      OffersVia(prog, env, s, t, q, stackQ, Flatten(ls), saved);
    }
  }

  // ------------------------------------------------------- from one place to another

  /** From p with x, whatever was saved, the machine offers xs at q. */
  ghost predicate GivesAlways(prog: seq<Cell>, env: Env, p: int, stackP: seq<nat>, x: Spot, q: int, stackQ: seq<nat>, xs: seq<Spot>)
  {
    forall saved :: Offers(prog, env, Arrived(p, x, stackP, saved), q, stackQ, xs, saved)
  }

  ghost predicate IsGives(prog: seq<Cell>, env: Env, p: int, stackP: seq<nat>, x: Spot, q: int, stackQ: seq<nat>, xs: seq<Spot>, b: bool)
  {
    forall t :: AskFor(Subject.OfferedOutcomes, t) ==> (b <==> GivesAlways(prog, env, p, stackP, x, q, stackQ, xs))
  }

  /** The same under a name that stays folded. */
  ghost predicate Gives(prog: seq<Cell>, env: Env, p: int, stackP: seq<nat>, x: Spot, q: int, stackQ: seq<nat>, xs: seq<Spot>)
    ensures IsGives(prog, env, p, stackP, x, q, stackQ, xs, Gives(prog, env, p, stackP, x, q, stackQ, xs))
  {
    assert IsGives(prog, env, p, stackP, x, q, stackQ, xs, GivesAlways(prog, env, p, stackP, x, q, stackQ, xs));
    var b :| IsGives(prog, env, p, stackP, x, q, stackQ, xs, b);
    b
  }

  lemma GivesMeans(prog: seq<Cell>, env: Env, p: int, stackP: seq<nat>, x: Spot, q: int, stackQ: seq<nat>, xs: seq<Spot>)
    ensures Gives(prog, env, p, stackP, x, q, stackQ, xs) <==> GivesAlways(prog, env, p, stackP, x, q, stackQ, xs)
  {
    assert AskFor(Subject.OfferedOutcomes, 0);
  }

  lemma GivesHere(prog: seq<Cell>, env: Env, p: int, stack: seq<nat>, x: Spot)
    ensures Gives(prog, env, p, stack, x, p, stack, [x])
  {
    GivesMeans(prog, env, p, stack, x, p, stack, [x]);
    forall saved ensures Offers(prog, env, Arrived(p, x, stack, saved), p, stack, [x], saved) {
      var s := Arrived(p, x, stack, saved);
      assert saved + [] == saved;
      assert Steps(prog, env, 0, s) == s;
      assert OffersFirst(prog, env, s, p, stack, x, saved, []);
      forall caps ensures Fails(prog, env, Unwind(false, caps, saved), saved) {
        assert Steps(prog, env, 0, Unwind(false, caps, saved)) == Unwind(false, caps, saved);
      }
    }
  }

  lemma GivesChain(prog: seq<Cell>, env: Env, p: int, stackP: seq<nat>, x: Spot, m: int, stackM: seq<nat>, xs: seq<Spot>, q: int, stackQ: seq<nat>, ls: seq<seq<Spot>>)
    requires Gives(prog, env, p, stackP, x, m, stackM, xs) && |ls| == |xs|
    requires forall t :: 0 <= t < |xs| ==> Gives(prog, env, m, stackM, xs[t], q, stackQ, ls[t])
    ensures Gives(prog, env, p, stackP, x, q, stackQ, Flatten(ls))
  {
    GivesMeans(prog, env, p, stackP, x, m, stackM, xs);
    GivesMeans(prog, env, p, stackP, x, q, stackQ, Flatten(ls));
    forall saved ensures Offers(prog, env, Arrived(p, x, stackP, saved), q, stackQ, Flatten(ls), saved) {
      OffersChain(prog, env, Arrived(p, x, stackP, saved), m, stackM, xs, q, stackQ, ls, saved);
    }
  }

  /** An instruction that goes on without touching the saved states. */
  ghost predicate Moves(prog: seq<Cell>, env: Env, p: int, stackP: seq<nat>, x: Spot, m: int, stackM: seq<nat>, y: Spot)
  {
    forall saved :: Step(prog, env, Arrived(p, x, stackP, saved)) == Arrived(m, y, stackM, saved)
  }

  lemma GivesMove(prog: seq<Cell>, env: Env, p: int, stackP: seq<nat>, x: Spot, m: int, stackM: seq<nat>, y: Spot, q: int, stackQ: seq<nat>, xs: seq<Spot>)
    requires Moves(prog, env, p, stackP, x, m, stackM, y)
    requires Gives(prog, env, m, stackM, y, q, stackQ, xs)
    ensures Gives(prog, env, p, stackP, x, q, stackQ, xs)
  {
    GivesMeans(prog, env, m, stackM, y, q, stackQ, xs);
    GivesMeans(prog, env, p, stackP, x, q, stackQ, xs);
    forall saved ensures Offers(prog, env, Arrived(p, x, stackP, saved), q, stackQ, xs, saved) {
      OffersStep(prog, env, Arrived(p, x, stackP, saved), q, stackQ, xs, saved);
    }
  }

  /** An instruction at which the match fails. */
  lemma GivesNothing(prog: seq<Cell>, env: Env, p: int, stackP: seq<nat>, x: Spot, q: int, stackQ: seq<nat>)
    requires forall saved :: Step(prog, env, Arrived(p, x, stackP, saved)) == Unwind(false, x.caps, saved)
    ensures Gives(prog, env, p, stackP, x, q, stackQ, [])
  {
    GivesMeans(prog, env, p, stackP, x, q, stackQ, []);
    forall saved ensures Fails(prog, env, Arrived(p, x, stackP, saved), saved) {
      ReachesStep(prog, env, Arrived(p, x, stackP, saved));
    }
  }

  /** A choice: the outcomes of the first alternative, then those of the second. */
  lemma GivesBoth(prog: seq<Cell>, env: Env, p: int, stack: seq<nat>, x: Spot, p1: int, p2: int, q: int, stackQ: seq<nat>, xs: seq<Spot>, ys: seq<Spot>)
    requires forall saved :: Step(prog, env, Arrived(p, x, stack, saved)) ==
                             Arrived(p1, x, stack, saved + [Saved(SplitState, p2, x.pos, stack, x.caps)])
    requires Gives(prog, env, p1, stack, x, q, stackQ, xs)
    requires Gives(prog, env, p2, stack, x, q, stackQ, ys)
    ensures Gives(prog, env, p, stack, x, q, stackQ, xs + ys)
  {
    GivesMeans(prog, env, p1, stack, x, q, stackQ, xs);
    GivesMeans(prog, env, p2, stack, x, q, stackQ, ys);
    GivesMeans(prog, env, p, stack, x, q, stackQ, xs + ys);
    forall saved ensures Offers(prog, env, Arrived(p, x, stack, saved), q, stackQ, xs + ys, saved) {
      var more := [Saved(SplitState, p2, x.pos, stack, x.caps)];
      forall caps ensures Offers(prog, env, Unwind(false, caps, saved + more), q, stackQ, ys, saved) {
        assert (saved + more)[..|saved + more| - 1] == saved;
        assert Step(prog, env, Unwind(false, caps, saved + more)) == Arrived(p2, x, stack, saved);
        OffersStep(prog, env, Unwind(false, caps, saved + more), q, stackQ, ys, saved);
      }
      assert Offers(prog, env, Arrived(p1, x, stack, saved + more), q, stackQ, xs, saved + more);
      OffersAppend(prog, env, Arrived(p1, x, stack, saved + more), q, stackQ, xs, ys, saved, more);
      OffersStep(prog, env, Arrived(p, x, stack, saved), q, stackQ, xs + ys, saved);
    }
  }

  /** A match discards the choices that are left. */
  lemma {:induction false} ForgetChoices(prog: seq<Cell>, env: Env, caps: Captured, saved: seq<Saved>, more: seq<Saved>)
    requires Choices(more)
    ensures Reaches(prog, env, Unwind(true, caps, saved + more), Unwind(true, caps, saved))
    decreases |more|
  {
    if more == [] {
      assert saved + more == saved;
      assert Steps(prog, env, 0, Unwind(true, caps, saved)) == Unwind(true, caps, saved);
    } else {
      var fewer := more[..|more| - 1];
      assert (saved + more)[..|saved + more| - 1] == saved + fewer;
      assert Step(prog, env, Unwind(true, caps, saved + more)) == Unwind(true, caps, saved + fewer);
      ReachesStep(prog, env, Unwind(true, caps, saved + more));
      ForgetChoices(prog, env, caps, saved, fewer);
      ReachesTrans(prog, env, Unwind(true, caps, saved + more), Unwind(true, caps, saved + fewer), Unwind(true, caps, saved));
    }
  }

  /** Code that leads to a match instruction comes back to the saved states: with the
      captures of the first outcome, or with a failure if there is no outcome. */
  lemma Concludes(prog: seq<Cell>, env: Env, p: int, stackP: seq<nat>, x: Spot, q: int, stackQ: seq<nat>, xs: seq<Spot>, saved: seq<Saved>)
    requires Gives(prog, env, p, stackP, x, q, stackQ, xs) && At(prog, q, Enc(Match))
    requires xs != [] ==> xs[0].pos <= |env.units|
    ensures xs == [] ==> Fails(prog, env, Arrived(p, x, stackP, saved), saved)
    ensures xs != [] ==> Reaches(prog, env, Arrived(p, x, stackP, saved), Unwind(true, xs[0].caps, saved))
  {
    GivesMeans(prog, env, p, stackP, x, q, stackQ, xs);
    var s := Arrived(p, x, stackP, saved);
    assert Offers(prog, env, s, q, stackQ, xs, saved);
    if xs != [] {
      var more :| OffersFirst(prog, env, s, q, stackQ, xs[0], saved, more);
      AtOp(prog, q, Match);
      ReachesStep(prog, env, Arrived(q, xs[0], stackQ, saved + more));
      ForgetChoices(prog, env, xs[0].caps, saved, more);
      ReachesTrans(prog, env, Arrived(q, xs[0], stackQ, saved + more), Unwind(true, xs[0].caps, saved + more), Unwind(true, xs[0].caps, saved));
      ReachesTrans(prog, env, s, Arrived(q, xs[0], stackQ, saved + more), Unwind(true, xs[0].caps, saved));
    }
  }

  /** A lookaround: its body runs to its own match. */
  lemma GivesLook(prog: seq<Cell>, env: Env, p: int, stack: seq<nat>, x: Spot, neg: bool, body: int, m: int, q: int, inner: seq<Spot>)
    requires forall saved :: Step(prog, env, Arrived(p, x, stack, saved)) ==
                             Arrived(body, x, stack, saved + [Saved(if neg then NegLookState else LookState, q, x.pos, stack, x.caps)])
    requires Gives(prog, env, body, stack, x, m, stack, inner) && At(prog, m, Enc(Match))
    requires inner != [] ==> inner[0].pos <= |env.units|
    ensures Gives(prog, env, p, stack, x, q, stack, LookOrder(neg, inner, x))
  {
    GivesMeans(prog, env, p, stack, x, q, stack, LookOrder(neg, inner, x));
    var xs := LookOrder(neg, inner, x);
    forall saved ensures Offers(prog, env, Arrived(p, x, stack, saved), q, stack, xs, saved) {
      var saved1 := saved + [Saved(if neg then NegLookState else LookState, q, x.pos, stack, x.caps)];
      assert saved1[..|saved1| - 1] == saved;
      Concludes(prog, env, body, stack, x, m, stack, inner, saved1);
      LookEnds(prog, env, body, stack, x, neg, q, inner, saved, saved1);
      OffersStep(prog, env, Arrived(p, x, stack, saved), q, stack, xs, saved);
    }
  }

  lemma LookEnds(prog: seq<Cell>, env: Env, body: int, stack: seq<nat>, x: Spot, neg: bool, q: int, inner: seq<Spot>, saved: seq<Saved>, saved1: seq<Saved>)
    requires saved1 == saved + [Saved(if neg then NegLookState else LookState, q, x.pos, stack, x.caps)]
    requires inner == [] ==> Fails(prog, env, Arrived(body, x, stack, saved1), saved1)
    requires inner != [] ==> Reaches(prog, env, Arrived(body, x, stack, saved1), Unwind(true, inner[0].caps, saved1))
    ensures Offers(prog, env, Arrived(body, x, stack, saved1), q, stack, LookOrder(neg, inner, x), saved)
  {
    var xs := LookOrder(neg, inner, x);
    assert saved1[..|saved1| - 1] == saved;
    var caps := if inner != [] then inner[0].caps else var c :| Reaches(prog, env, Arrived(body, x, stack, saved1), Unwind(false, c, saved1)); c;
    var u := Unwind(inner != [], caps, saved1);
    if xs == [] {
      assert Step(prog, env, u) == Unwind(false, caps, saved);
      assert Steps(prog, env, 0, Unwind(false, caps, saved)) == Unwind(false, caps, saved);
      assert Fails(prog, env, Step(prog, env, u), saved);
    } else {
      assert Step(prog, env, u) == Arrived(q, xs[0], stack, saved);
      GivesHere(prog, env, q, stack, xs[0]);
      GivesMeans(prog, env, q, stack, xs[0], q, stack, [xs[0]]);
    }
    OffersStep(prog, env, u, q, stack, xs, saved);
    OffersVia(prog, env, Arrived(body, x, stack, saved1), u, q, stack, xs, saved);
  }

  // ----------------------------------------------------- what each instruction gives

  lemma GivesGoto(prog: seq<Cell>, env: Env, p: int, stack: seq<nat>, x: Spot, off: int, q: int, stackQ: seq<nat>, xs: seq<Spot>)
    requires At(prog, p, Enc(Goto(off))) && Inside(env, x)
    requires Gives(prog, env, p + 5 + off, stack, x, q, stackQ, xs)
    ensures Gives(prog, env, p, stack, x, q, stackQ, xs)
  {
    AtOp(prog, p, Goto(off));
    GivesMove(prog, env, p, stack, x, p + 5 + off, stack, x, q, stackQ, xs);
  }

  lemma GivesNextFirst(prog: seq<Cell>, env: Env, p: int, stack: seq<nat>, x: Spot, off: int, q: int, stackQ: seq<nat>, xs: seq<Spot>, ys: seq<Spot>)
    requires At(prog, p, Enc(SplitNextFirst(off))) && Inside(env, x)
    requires Gives(prog, env, p + 5, stack, x, q, stackQ, xs) && Gives(prog, env, p + 5 + off, stack, x, q, stackQ, ys)
    ensures Gives(prog, env, p, stack, x, q, stackQ, xs + ys)
  {
    AtOp(prog, p, SplitNextFirst(off));
    GivesBoth(prog, env, p, stack, x, p + 5, p + 5 + off, q, stackQ, xs, ys);
  }

  lemma GivesGotoFirst(prog: seq<Cell>, env: Env, p: int, stack: seq<nat>, x: Spot, off: int, q: int, stackQ: seq<nat>, xs: seq<Spot>, ys: seq<Spot>)
    requires At(prog, p, Enc(SplitGotoFirst(off))) && Inside(env, x)
    requires Gives(prog, env, p + 5 + off, stack, x, q, stackQ, xs) && Gives(prog, env, p + 5, stack, x, q, stackQ, ys)
    ensures Gives(prog, env, p, stack, x, q, stackQ, xs + ys)
  {
    AtOp(prog, p, SplitGotoFirst(off));
    GivesBoth(prog, env, p, stack, x, p + 5 + off, p + 5, q, stackQ, xs, ys);
  }

  /** The choice between one more round and the exit of a loop. */
  lemma GivesSplit(prog: seq<Cell>, env: Env, p: int, stack: seq<nat>, x: Spot, greedy: bool, off: int, q: int, stackQ: seq<nat>, more: seq<Spot>, exit: seq<Spot>)
    requires At(prog, p, Enc(Split(greedy, off))) && Inside(env, x)
    requires Gives(prog, env, p + 5, stack, x, q, stackQ, more) && Gives(prog, env, p + 5 + off, stack, x, q, stackQ, exit)
    ensures Gives(prog, env, p, stack, x, q, stackQ, if greedy then more + exit else exit + more)
  {
    if greedy {
      GivesNextFirst(prog, env, p, stack, x, off, q, stackQ, more, exit);
    } else {
      GivesGotoFirst(prog, env, p, stack, x, off, q, stackQ, exit, more);
    }
  }

  lemma GivesSave(prog: seq<Cell>, env: Env, p: int, stack: seq<nat>, x: Spot, n: nat, end: bool, q: int, stackQ: seq<nat>, xs: seq<Spot>)
    requires At(prog, p, Enc(if end then SaveEnd(n) else SaveStart(n))) && Inside(env, x)
    requires Gives(prog, env, p + 2, stack, Spot(x.pos, SetCap(x.caps, if end then 2 * n + 1 else 2 * n, Some(x.pos))), q, stackQ, xs)
    ensures Gives(prog, env, p, stack, x, q, stackQ, xs)
  {
    AtOp(prog, p, if end then SaveEnd(n) else SaveStart(n));
    GivesMove(prog, env, p, stack, x, p + 2, stack, Spot(x.pos, SetCap(x.caps, if end then 2 * n + 1 else 2 * n, Some(x.pos))), q, stackQ, xs);
  }

  lemma GivesReset(prog: seq<Cell>, env: Env, p: int, stack: seq<nat>, x: Spot, first: nat, last: int, q: int, stackQ: seq<nat>, xs: seq<Spot>)
    requires At(prog, p, Enc(SaveReset(first, last))) && Inside(env, x)
    requires Gives(prog, env, p + 3, stack, Spot(x.pos, ResetCaps(x.caps, first, last)), q, stackQ, xs)
    ensures Gives(prog, env, p, stack, x, q, stackQ, xs)
  {
    AtOp(prog, p, SaveReset(first, last));
    GivesMove(prog, env, p, stack, x, p + 3, stack, Spot(x.pos, ResetCaps(x.caps, first, last)), q, stackQ, xs);
  }

  lemma GivesPush(prog: seq<Cell>, env: Env, p: int, stack: seq<nat>, x: Spot, n: nat, q: int, stackQ: seq<nat>, xs: seq<Spot>)
    requires At(prog, p, Enc(PushI32(n))) && Inside(env, x)
    requires Gives(prog, env, p + 5, stack + [n], x, q, stackQ, xs)
    ensures Gives(prog, env, p, stack, x, q, stackQ, xs)
  {
    AtOp(prog, p, PushI32(n));
    GivesMove(prog, env, p, stack, x, p + 5, stack + [n], x, q, stackQ, xs);
  }

  lemma GivesDrop(prog: seq<Cell>, env: Env, p: int, stack: seq<nat>, n: nat, x: Spot, q: int, stackQ: seq<nat>, xs: seq<Spot>)
    requires At(prog, p, Enc(Drop)) && Inside(env, x)
    requires Gives(prog, env, p + 1, stack, x, q, stackQ, xs)
    ensures Gives(prog, env, p, stack + [n], x, q, stackQ, xs)
  {
    AtOp(prog, p, Drop);
    assert (stack + [n])[..|stack|] == stack;
    GivesMove(prog, env, p, stack + [n], x, p + 1, stack, x, q, stackQ, xs);
  }

  lemma GivesLoop(prog: seq<Cell>, env: Env, p: int, stack: seq<nat>, n: nat, x: Spot, off: int, q: int, stackQ: seq<nat>, xs: seq<Spot>)
    requires At(prog, p, Enc(Loop(off))) && Inside(env, x) && n >= 1
    requires Gives(prog, env, if n > 1 then p + 5 + off else p + 5, stack + [n - 1], x, q, stackQ, xs)
    ensures Gives(prog, env, p, stack + [n], x, q, stackQ, xs)
  {
    AtOp(prog, p, Loop(off));
    assert (stack + [n])[..|stack|] == stack;
    GivesMove(prog, env, p, stack + [n], x, if n > 1 then p + 5 + off else p + 5, stack + [n - 1], x, q, stackQ, xs);
  }

  lemma GivesPushPos(prog: seq<Cell>, env: Env, p: int, stack: seq<nat>, x: Spot, q: int, stackQ: seq<nat>, xs: seq<Spot>)
    requires At(prog, p, Enc(PushCharPos)) && Inside(env, x)
    requires Gives(prog, env, p + 1, stack + [x.pos], x, q, stackQ, xs)
    ensures Gives(prog, env, p, stack, x, q, stackQ, xs)
  {
    AtOp(prog, p, PushCharPos);
    GivesMove(prog, env, p, stack, x, p + 1, stack + [x.pos], x, q, stackQ, xs);
  }

  lemma GivesBne(prog: seq<Cell>, env: Env, p: int, stack: seq<nat>, n: nat, x: Spot, off: int, q: int, stackQ: seq<nat>, xs: seq<Spot>)
    requires At(prog, p, Enc(BneCharPos(off))) && Inside(env, x)
    requires Gives(prog, env, if n != x.pos then p + 5 + off else p + 5, stack, x, q, stackQ, xs)
    ensures Gives(prog, env, p, stack + [n], x, q, stackQ, xs)
  {
    AtOp(prog, p, BneCharPos(off));
    assert (stack + [n])[..|stack|] == stack;
    GivesMove(prog, env, p, stack + [n], x, if n != x.pos then p + 5 + off else p + 5, stack, x, q, stackQ, xs);
  }

  /** An instruction that moves to at most one position. */
  ghost function Hop(env: Env, i: Instr, x: Spot): (r: Option<nat>)
    requires Inside(env, x) && (IsCharInstr(i) || IsTest(i) || i.BackReference? || i.BackwardBackReference? || i.Prev?)
    ensures r.Some? ==> r.value <= |env.units|
  {
    if i.BackReference? then BackRefStep(env, x.caps, i.n, false, x.pos)
    else if i.BackwardBackReference? then BackRefStep(env, x.caps, i.n, true, x.pos)
    else if i.Prev? then if x.pos == 0 then None else Some(PrevChar(env, x.pos))
    else SimpleStep(env, i, x.pos)
  }

  lemma GivesHop(prog: seq<Cell>, env: Env, p: int, stack: seq<nat>, x: Spot, i: Instr, q: int, stackQ: seq<nat>, xs: seq<Spot>)
    requires At(prog, p, Enc(i)) && Inside(env, x)
    requires IsCharInstr(i) || IsTest(i) || i.BackReference? || i.BackwardBackReference? || i.Prev?
    requires var r := Hop(env, i, x);
             if r.None? then xs == [] else Gives(prog, env, p + Size(i), stack, Spot(r.value, x.caps), q, stackQ, xs)
    ensures Gives(prog, env, p, stack, x, q, stackQ, xs)
  {
    AtOp(prog, p, i);
    var r := Hop(env, i, x);
    if r.None? {
      GivesNothing(prog, env, p, stack, x, q, stackQ);
    } else {
      GivesMove(prog, env, p, stack, x, p + Size(i), stack, Spot(r.value, x.caps), q, stackQ, xs);
    }
  }

  lemma GivesLookaround(prog: seq<Cell>, env: Env, p: int, stack: seq<nat>, x: Spot, neg: bool, off: int, inner: seq<Spot>)
    requires At(prog, p, Enc(if neg then NegativeLookahead(off) else Lookahead(off))) && Inside(env, x) && off >= 1
    requires Gives(prog, env, p + 5, stack, x, p + 4 + off, stack, inner) && At(prog, p + 4 + off, Enc(Match))
    requires inner != [] ==> inner[0].pos <= |env.units|
    ensures Gives(prog, env, p, stack, x, p + 5 + off, stack, LookOrder(neg, inner, x))
  {
    if neg {
      AtOp(prog, p, NegativeLookahead(off));
      GivesLook(prog, env, p, stack, x, true, p + 5, p + 4 + off, p + 5 + off, inner);
    } else {
      AtOp(prog, p, Lookahead(off));
      GivesLook(prog, env, p, stack, x, false, p + 5, p + 4 + off, p + 5 + off, inner);
    }
  }
}
