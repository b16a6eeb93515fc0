/** Compiled patterns do what the patterns say: for every pattern, the emitted code
    offers the outcomes of the pattern in their order. */
module RegexpCorrect {
  import opened Hints
  import opened RegexpInput
  import opened RegexpCode
  import opened RegexpMachine
  import opened RegexpSemantics
  import opened RegexpOrder
  import opened RegexpRuns
  import opened RegexpAnalysis
  import opened RegexpLoops
  import opened RegexpSimple
  import opened RegexpGreedy

  /** Unbounded loops for which no check is emitted, that is lazy ones and those that
      refer to their own captures, have bodies that always advance. The body of a quantifier
      with a maximum of zero leaves no code. */
  ghost predicate Safe(env: Env, r: Re, back: bool, cc: nat)
    requires Valid(r)
  {
    match r
    case Cat(a, b) => Safe(env, a, back, cc) && Safe(env, b, back, cc + Captures(a))
    case Alt(a, b) => Safe(env, a, back, cc) && Safe(env, b, back, cc + Captures(a))
    case Capture(r1) => Safe(env, r1, back, cc + 1)
    case Look(_, behind, r1) => Safe(env, r1, behind, cc)
    case Quant(r1, _, max, greedy) =>
      max == 0 ||
      (Safe(env, r1, back, cc) &&
       (max == INF && (!greedy || CheckAdvance(Emit(r1, back, cc)) < 0) ==> Advancing(env, r1, back, cc)))
    case _ => true
  }

  // --------------------------------------------------------- characters and positions

  lemma HopGives(prog: seq<Cell>, env: Env, p: int, i: Instr, x: Spot, stack: seq<nat>)
    requires At(prog, p, Enc(i)) && Inside(env, x)
    requires IsCharInstr(i) || IsTest(i) || i.BackReference? || i.BackwardBackReference? || i.Prev?
    ensures var r := Hop(env, i, x);
            Gives(prog, env, p, stack, x, p + Size(i), stack, if r.None? then [] else [Spot(r.value, x.caps)])
  {
    var r := Hop(env, i, x);
    if r.Some? {
      GivesHere(prog, env, p + Size(i), stack, Spot(r.value, x.caps));
    }
    GivesHop(prog, env, p, stack, x, i, p + Size(i), stack, if r.None? then [] else [Spot(r.value, x.caps)]);
  }

  lemma TestGives(prog: seq<Cell>, env: Env, p: int, i: Instr, x: Spot, stack: seq<nat>)
    requires At(prog, p, Enc(i)) && Inside(env, x) && IsTest(i)
    ensures Gives(prog, env, p, stack, x, p + |Enc(i)|, stack, If(TestHolds(env, i, x.pos), x))
  {
    HopGives(prog, env, p, i, x, stack);
  }

  lemma CharGives(prog: seq<Cell>, env: Env, p: int, r: Re, x: Spot, stack: seq<nat>)
    requires GoodEnv(env) && Valid(r) && (r.Chr? || r.AnyChar? || r.Class?) && Inside(env, x)
    requires At(prog, p, Enc(InstrOf(r)))
    ensures Gives(prog, env, p, stack, x, p + |Enc(InstrOf(r))|, stack, OneCharOrder(env, r, false, x))
  {
    CharStep(env, r, x);
    HopGives(prog, env, p, InstrOf(r), x, stack);
  }

  /** In a lookbehind: one character back, test it, one character back again. */
  lemma CharBackGives(prog: seq<Cell>, env: Env, p: int, r: Re, x: Spot, stack: seq<nat>)
    requires GoodEnv(env) && Valid(r) && (r.Chr? || r.AnyChar? || r.Class?) && Boundary(env, x.pos)
    requires At(prog, p, CharCode(InstrOf(r), true))
    ensures Gives(prog, env, p, stack, x, p + |CharCode(InstrOf(r), true)|, stack, OneCharOrder(env, r, true, x))
  {
    var i := InstrOf(r);
    var q := p + 2 + Size(i);
    var xs := OneCharOrder(env, r, true, x);
    AtConcat(prog, p, Enc(Prev), Enc(i) + Enc(Prev));
    AtConcat(prog, p + 1, Enc(i), Enc(Prev));
    if x.pos > 0 {
      CharBeforeGives(prog, env, p + 1, r, x, stack);
    }
    GivesHop(prog, env, p, stack, x, Prev, q, stack, xs);
  }

  lemma CharBeforeGives(prog: seq<Cell>, env: Env, p: int, r: Re, x: Spot, stack: seq<nat>)
    requires GoodEnv(env) && Valid(r) && (r.Chr? || r.AnyChar? || r.Class?) && Boundary(env, x.pos) && x.pos > 0
    requires At(prog, p, Enc(InstrOf(r))) && At(prog, p + Size(InstrOf(r)), Enc(Prev))
    ensures Gives(prog, env, p, stack, Spot(PrevChar(env, x.pos), x.caps), p + 1 + Size(InstrOf(r)), stack, OneCharOrder(env, r, true, x))
  {
    var i := InstrOf(r);
    var q := p + 1 + Size(i);
    var y := Spot(PrevChar(env, x.pos), x.caps);
    GetUndoesPrev(env, x.pos);
    CharStep(env, r, y);
    GivesHere(prog, env, q, stack, y);
    GivesHop(prog, env, p + Size(i), stack, x, Prev, q, stack, [y]);
    GivesHop(prog, env, p, stack, y, i, q, stack, OneCharOrder(env, r, true, x));
  }

  lemma CharLeafGives(prog: seq<Cell>, env: Env, p: int, r: Re, back: bool, cc: nat, x: Spot, stack: seq<nat>)
    requires GoodEnv(env) && Valid(r) && (r.Chr? || r.AnyChar? || r.Class?) && Boundary(env, x.pos) && At(prog, p, Code(r, back, cc))
    ensures Gives(prog, env, p, stack, x, p + |Code(r, back, cc)|, stack, Outcomes(env, r, back, cc, x))
  {
    assert Code(r, back, cc) == CharCode(InstrOf(r), back) by { CodeEmit(r, back, cc); }
    assert Outcomes(env, r, back, cc, x) == OneCharOrder(env, r, back, x) by { OutcomesOrder(env, r, back, cc, x); }
    if back {
      CharBackGives(prog, env, p, r, x, stack);
    } else {
      CharGives(prog, env, p, r, x, stack);
    }
  }

  function TestOf(r: Re): Instr
    requires r.Bol? || r.Eol? || r.WordB?
  {
    if r.Bol? then LineStart else if r.Eol? then LineEnd else if r.neg then NotWordBoundary else WordBoundary
  }

  lemma TestLeafGives(prog: seq<Cell>, env: Env, p: int, r: Re, back: bool, cc: nat, x: Spot, stack: seq<nat>)
    requires Valid(r) && (r.Bol? || r.Eol? || r.WordB?) && Boundary(env, x.pos) && At(prog, p, Code(r, back, cc))
    ensures Gives(prog, env, p, stack, x, p + |Code(r, back, cc)|, stack, Outcomes(env, r, back, cc, x))
  {
    assert Code(r, back, cc) == Enc(TestOf(r)) by { CodeEmit(r, back, cc); }
    assert Outcomes(env, r, back, cc, x) == If(TestHolds(env, TestOf(r), x.pos), x) by { OutcomesOrder(env, r, back, cc, x); }
    TestGives(prog, env, p, TestOf(r), x, stack);
  }

  lemma RefGives(prog: seq<Cell>, env: Env, p: int, r: Re, back: bool, cc: nat, x: Spot, stack: seq<nat>)
    requires Valid(r) && r.BackRef? && Boundary(env, x.pos) && At(prog, p, Code(r, back, cc))
    ensures Gives(prog, env, p, stack, x, p + |Code(r, back, cc)|, stack, Outcomes(env, r, back, cc, x))
  {
    var i := if back then BackwardBackReference(r.n) else BackReference(r.n);
    assert Code(r, back, cc) == Enc(i) by { CodeEmit(r, back, cc); }
    assert Outcomes(env, r, back, cc, x) == Ref(env, r.n, back, x) by { OutcomesOrder(env, r, back, cc, x); }
    HopGives(prog, env, p, i, x, stack);
  }

  lemma EmptyGives(prog: seq<Cell>, env: Env, p: int, r: Re, back: bool, cc: nat, x: Spot, stack: seq<nat>)
    requires r.Empty? && Boundary(env, x.pos)
    ensures Gives(prog, env, p, stack, x, p + |Code(r, back, cc)|, stack, Outcomes(env, r, back, cc, x))
  {
    assert Code(r, back, cc) == [] by { CodeEmit(r, back, cc); }
    assert Outcomes(env, r, back, cc, x) == [x] by { OutcomesOrder(env, r, back, cc, x); }
    GivesHere(prog, env, p, stack, x);
  }

  lemma LeafGives(prog: seq<Cell>, env: Env, p: int, r: Re, back: bool, cc: nat, x: Spot, stack: seq<nat>)
    requires GoodEnv(env) && Valid(r) && Leaf(r) && Boundary(env, x.pos) && At(prog, p, Code(r, back, cc))
    ensures Gives(prog, env, p, stack, x, p + |Code(r, back, cc)|, stack, Outcomes(env, r, back, cc, x))
  {
    if r.Empty? {
      EmptyGives(prog, env, p, r, back, cc, x, stack);
    } else if r.BackRef? {
      RefGives(prog, env, p, r, back, cc, x, stack);
    } else if r.Chr? || r.AnyChar? || r.Class? {
      CharLeafGives(prog, env, p, r, back, cc, x, stack);
    } else {
      TestLeafGives(prog, env, p, r, back, cc, x, stack);
    }
  }

  lemma LeafImplements(prog: seq<Cell>, env: Env, r: Re, back: bool, cc: nat)
    requires GoodEnv(env) && Valid(r) && Leaf(r)
    ensures Implements(prog, env, Code(r, back, cc), r, back, cc)
  {
    var code := Code(r, back, cc);
    forall p | At(prog, p, code) ensures Does(prog, env, p, p + |code|, r, back, cc) {
      var q := p + |code|;
      forall x: Spot, stack: seq<nat> | Boundary(env, x.pos)
        ensures Gives(prog, env, p, stack, x, q, stack, Outcomes(env, r, back, cc, x)) {
        LeafGives(prog, env, p, r, back, cc, x, stack);
      }
    }
  }

  // ------------------------------------------------------------------------ combinations

  lemma CatDoes(prog: seq<Cell>, env: Env, p: int, m: int, q: int, r: Re, back: bool, cc: nat)
    requires r.Cat? && Valid(r)
    requires Does(prog, env, p, m, First(r, back), back, FirstCount(r, back, cc))
    requires Does(prog, env, m, q, Second(r, back), back, SecondCount(r, back, cc))
    ensures Does(prog, env, p, q, r, back, cc)
  {
    forall x: Spot, stack: seq<nat> | Boundary(env, x.pos)
      ensures Gives(prog, env, p, stack, x, q, stack, Outcomes(env, r, back, cc, x)) {
      var ys := Outcomes(env, First(r, back), back, FirstCount(r, back, cc), x);
      var ls := CatOutcomes(env, r, back, cc, x);
      forall t | 0 <= t < |ys| ensures Gives(prog, env, m, stack, ys[t], q, stack, ls[t]) {
        assert ls[t] == Outcomes(env, Second(r, back), back, SecondCount(r, back, cc), ys[t]);
      }
      assert Gives(prog, env, p, stack, x, m, stack, ys);
      GivesChain(prog, env, p, stack, x, m, stack, ys, q, stack, ls);
    }
  }

  lemma CatImplements(prog: seq<Cell>, env: Env, c1: seq<Cell>, c2: seq<Cell>, r: Re, back: bool, cc: nat)
    requires r.Cat? && Valid(r)
    requires Implements(prog, env, c1, First(r, back), back, FirstCount(r, back, cc))
    requires Implements(prog, env, c2, Second(r, back), back, SecondCount(r, back, cc))
    ensures Implements(prog, env, c1 + c2, r, back, cc)
  {
    forall p | At(prog, p, c1 + c2) ensures Does(prog, env, p, p + |c1 + c2|, r, back, cc) {
      AtConcat(prog, p, c1, c2);
      CatDoes(prog, env, p, p + |c1|, p + |c1 + c2|, r, back, cc);
    }
  }

  lemma {:induction false} FlattenSingles(xs: seq<Spot>, ls: seq<seq<Spot>>)
    requires |ls| == |xs| && forall t :: 0 <= t < |xs| ==> ls[t] == [xs[t]]
    ensures Flatten(ls) == xs
  {
    if xs != [] {
      FlattenSingles(xs[1..], ls[1..]);
    }
  }

  /** The code from m to q turns each outcome into one outcome. */
  lemma GivesEach(prog: seq<Cell>, env: Env, p: int, stack: seq<nat>, x: Spot, m: int, q: int, xs: seq<Spot>, ys: seq<Spot>)
    requires Gives(prog, env, p, stack, x, m, stack, xs) && |ys| == |xs|
    requires forall t :: 0 <= t < |xs| ==> Gives(prog, env, m, stack, xs[t], q, stack, [ys[t]])
    ensures Gives(prog, env, p, stack, x, q, stack, ys)
  {
    var ls := seq(|ys|, t requires 0 <= t < |ys| => [ys[t]]);
    FlattenSingles(ys, ls);
    GivesChain(prog, env, p, stack, x, m, stack, xs, q, stack, ls);
  }

  lemma AltOutcomes(env: Env, r: Re, back: bool, cc: nat, x: Spot)
    requires r.Alt? && Valid(r) && Inside(env, x)
    ensures Outcomes(env, r, back, cc, x) == Outcomes(env, r.a, back, cc, x) + Outcomes(env, r.b, back, cc + Captures(r.a), x)
  {
    OutcomesOrder(env, r, back, cc, x);
    OutcomesOrder(env, r.a, back, cc, x);
    OutcomesOrder(env, r.b, back, cc + Captures(r.a), x);
  }

  lemma AltGives(prog: seq<Cell>, env: Env, p: int, m: int, q: int, r: Re, back: bool, cc: nat, x: Spot, stack: seq<nat>)
    requires r.Alt? && Valid(r) && Boundary(env, x.pos)
    requires At(prog, p, Enc(SplitNextFirst(m - p))) && At(prog, m, Enc(Goto(q - m - 5)))
    requires Does(prog, env, p + 5, m, r.a, back, cc) && Does(prog, env, m + 5, q, r.b, back, cc + Captures(r.a))
    ensures Gives(prog, env, p, stack, x, q, stack, Outcomes(env, r, back, cc, x))
  {
    var xs, ys := Outcomes(env, r.a, back, cc, x), Outcomes(env, r.b, back, cc + Captures(r.a), x);
    OutcomesBoundary(env, r.a, back, cc, x);
    assert Gives(prog, env, p + 5, stack, x, m, stack, xs);
    JumpGives(prog, env, p + 5, m, q, x, stack, xs);
    assert Gives(prog, env, m + 5, stack, x, q, stack, ys);
    GivesNextFirst(prog, env, p, stack, x, m - p, q, stack, xs, ys);
    AltOutcomes(env, r, back, cc, x);
  }

  lemma JumpGives(prog: seq<Cell>, env: Env, p: int, m: int, q: int, x: Spot, stack: seq<nat>, xs: seq<Spot>)
    requires Gives(prog, env, p, stack, x, m, stack, xs) && At(prog, m, Enc(Goto(q - m - 5))) && AllBoundary(env, xs)
    ensures Gives(prog, env, p, stack, x, q, stack, xs)
  {
    forall t | 0 <= t < |xs| ensures Gives(prog, env, m, stack, xs[t], q, stack, [xs[t]]) {
      GivesHere(prog, env, q, stack, xs[t]);
      GivesGoto(prog, env, m, stack, xs[t], q - m - 5, q, stack, [xs[t]]);
    }
    GivesEach(prog, env, p, stack, x, m, q, xs, xs);
  }

  lemma AltImplements(prog: seq<Cell>, env: Env, ca: seq<Cell>, cb: seq<Cell>, r: Re, back: bool, cc: nat)
    requires r.Alt? && Valid(r)
    requires Implements(prog, env, ca, r.a, back, cc) && Implements(prog, env, cb, r.b, back, cc + Captures(r.a))
    ensures Implements(prog, env, AltCode(ca, cb), r, back, cc)
  {
    var code := AltCode(ca, cb);
    forall p | At(prog, p, code) ensures Does(prog, env, p, p + |code|, r, back, cc) {
      var m, q := p + 5 + |ca|, p + |code|;
      AltLayout(prog, p, ca, cb);
      assert Does(prog, env, p + 5, m, r.a, back, cc) && Does(prog, env, m + 5, q, r.b, back, cc + Captures(r.a));
      forall x: Spot, stack: seq<nat> | Boundary(env, x.pos)
        ensures Gives(prog, env, p, stack, x, q, stack, Outcomes(env, r, back, cc, x)) {
        AltGives(prog, env, p, m, q, r, back, cc, x, stack);
      }
    }
  }

  lemma AltLayout(prog: seq<Cell>, p: int, ca: seq<Cell>, cb: seq<Cell>)
    requires At(prog, p, AltCode(ca, cb))
    ensures At(prog, p, Enc(SplitNextFirst(|ca| + 5))) && At(prog, p + 5, ca)
    ensures At(prog, p + 5 + |ca|, Enc(Goto(|cb|))) && At(prog, p + 10 + |ca|, cb) && |AltCode(ca, cb)| == |ca| + |cb| + 10
  {
    AtConcat(prog, p, Enc(SplitNextFirst(|ca| + 5)), ca + (Enc(Goto(|cb|)) + cb));
    AtConcat(prog, p + 5, ca, Enc(Goto(|cb|)) + cb);
    AtConcat(prog, p + 5 + |ca|, Enc(Goto(|cb|)), cb);
  }

  ghost function LeaveAll(back: bool, n: nat, ys: seq<Spot>): (zs: seq<Spot>)
    ensures |zs| == |ys| && forall t :: 0 <= t < |ys| ==> zs[t] == Leave(back, n, ys[t])
  {
    seq(|ys|, t requires 0 <= t < |ys| => Leave(back, n, ys[t]))
  }

  lemma CaptureOutcomes(env: Env, r: Re, back: bool, cc: nat, x: Spot)
    requires r.Capture? && Valid(r) && Inside(env, x)
    ensures Outcomes(env, r, back, cc, x) == LeaveAll(back, cc, Outcomes(env, r.r, back, cc + 1, Enter(back, cc, x)))
  {
    OutcomesOrder(env, r, back, cc, x);
    OutcomesOrder(env, r.r, back, cc + 1, Enter(back, cc, x));
  }

  lemma CaptureGives(prog: seq<Cell>, env: Env, p: int, m: int, r: Re, back: bool, cc: nat, x: Spot, stack: seq<nat>)
    requires r.Capture? && Valid(r) && Boundary(env, x.pos)
    requires At(prog, p, Enc(if back then SaveEnd(cc) else SaveStart(cc))) && At(prog, m, Enc(if back then SaveStart(cc) else SaveEnd(cc)))
    requires Does(prog, env, p + 2, m, r.r, back, cc + 1)
    ensures Gives(prog, env, p, stack, x, m + 2, stack, Outcomes(env, r, back, cc, x))
  {
    var x1 := Enter(back, cc, x);
    var ys := Outcomes(env, r.r, back, cc + 1, x1);
    var zs := LeaveAll(back, cc, ys);
    OutcomesBoundary(env, r.r, back, cc + 1, x1);
    forall t | 0 <= t < |ys| ensures Gives(prog, env, m, stack, ys[t], m + 2, stack, [zs[t]]) {
      GivesHere(prog, env, m + 2, stack, zs[t]);
      GivesSave(prog, env, m, stack, ys[t], cc, !back, m + 2, stack, [zs[t]]);
    }
    assert Gives(prog, env, p + 2, stack, x1, m, stack, ys);
    GivesEach(prog, env, p + 2, stack, x1, m, m + 2, ys, zs);
    GivesSave(prog, env, p, stack, x, cc, back, m + 2, stack, zs);
    CaptureOutcomes(env, r, back, cc, x);
  }

  lemma CaptureImplements(prog: seq<Cell>, env: Env, c: seq<Cell>, r: Re, back: bool, cc: nat)
    requires r.Capture? && Valid(r) && Implements(prog, env, c, r.r, back, cc + 1)
    ensures Implements(prog, env, CaptureCode(c, back, cc), r, back, cc)
  {
    var code := CaptureCode(c, back, cc);
    var i1, i2 := if back then SaveEnd(cc) else SaveStart(cc), if back then SaveStart(cc) else SaveEnd(cc);
    forall p | At(prog, p, code) ensures Does(prog, env, p, p + |code|, r, back, cc) {
      var q := p + |code|;
      AtConcat(prog, p, Enc(i1), c + Enc(i2));
      AtConcat(prog, p + 2, c, Enc(i2));
      assert Does(prog, env, p + 2, p + 2 + |c|, r.r, back, cc + 1);
      forall x: Spot, stack: seq<nat> | Boundary(env, x.pos)
        ensures Gives(prog, env, p, stack, x, q, stack, Outcomes(env, r, back, cc, x)) {
        CaptureGives(prog, env, p, p + 2 + |c|, r, back, cc, x, stack);
      }
    }
  }

  lemma LookOutcomes(env: Env, r: Re, back: bool, cc: nat, x: Spot)
    requires r.Look? && Valid(r) && Inside(env, x)
    ensures Outcomes(env, r, back, cc, x) == LookOrder(r.neg, Outcomes(env, r.r, r.behind, cc, x), x)
  {
    OutcomesOrder(env, r, back, cc, x);
    OutcomesOrder(env, r.r, r.behind, cc, x);
  }

  lemma LookGives(prog: seq<Cell>, env: Env, p: int, m: int, r: Re, back: bool, cc: nat, x: Spot, stack: seq<nat>)
    requires r.Look? && Valid(r) && Boundary(env, x.pos) && m >= p + 5
    requires At(prog, p, Enc(if r.neg then NegativeLookahead(m - p - 4) else Lookahead(m - p - 4))) && At(prog, m, Enc(Match))
    requires Does(prog, env, p + 5, m, r.r, r.behind, cc)
    ensures Gives(prog, env, p, stack, x, m + 1, stack, Outcomes(env, r, back, cc, x))
  {
    var inner := Outcomes(env, r.r, r.behind, cc, x);
    OutcomesBoundary(env, r.r, r.behind, cc, x);
    assert Gives(prog, env, p + 5, stack, x, m, stack, inner);
    GivesLookaround(prog, env, p, stack, x, r.neg, m - p - 4, inner);
    LookOutcomes(env, r, back, cc, x);
  }

  lemma LookImplements(prog: seq<Cell>, env: Env, c: seq<Cell>, r: Re, back: bool, cc: nat)
    requires r.Look? && Valid(r) && Implements(prog, env, c, r.r, r.behind, cc)
    ensures Implements(prog, env, LookCode(c, r.neg), r, back, cc)
  {
    var code := LookCode(c, r.neg);
    var i := if r.neg then NegativeLookahead(|c| + 1) else Lookahead(|c| + 1);
    forall p | At(prog, p, code) ensures Does(prog, env, p, p + |code|, r, back, cc) {
      var q := p + |code|;
      AtConcat(prog, p, Enc(i), c + Enc(Match));
      AtConcat(prog, p + 5, c, Enc(Match));
      assert Does(prog, env, p + 5, p + 5 + |c|, r.r, r.behind, cc);
      forall x: Spot, stack: seq<nat> | Boundary(env, x.pos)
        ensures Gives(prog, env, p, stack, x, q, stack, Outcomes(env, r, back, cc, x)) {
        LookGives(prog, env, p, p + 5 + |c|, r, back, cc, x, stack);
      }
    }
  }

  // ----------------------------------------------------------------------- quantifiers

  /** A scan that says the code advances is right about the pattern. */
  lemma CheckedAdvancing(env: Env, r: Re, back: bool, cc: nat)
    requires Valid(r) && CheckAdvance(Emit(r, back, cc)) == 1
    ensures Advancing(env, r, back, cc)
  {
    assert Forward(Emit(r, back, cc));
    forall x: Spot | Boundary(env, x.pos) ensures AllMoved(x, Outcomes(env, r, back, cc, x)) {
      OutcomesOrder(env, r, back, cc, x);
      var ys := Order(env, r, back, cc, x);
      forall t | 0 <= t < |ys| ensures ys[t].pos != x.pos {
        AdvanceSound(env, r, back, cc, x, ys[t]);
      }
    }
  }

  /** An unbounded loop has a check or a body that advances. */
  lemma LoopGuarded(env: Env, r: Re, back: bool, cc: nat)
    requires r.Quant? && Valid(r) && Safe(env, r, back, cc) && r.max == INF
    ensures NeedsCheck(Code(r.r, back, cc), r.greedy) || Advancing(env, r.r, back, cc)
  {
    CodeEmit(r.r, back, cc);
    if r.greedy && CheckAdvance(Code(r.r, back, cc)) == 1 {
      CheckedAdvancing(env, r.r, back, cc);
    }
  }

  lemma SimpleDoes(prog: seq<Cell>, env: Env, p: int, r: Re, back: bool, cc: nat)
    requires GoodEnv(env) && r.Quant? && Valid(r)
    requires IsSimple(Code(r.r, back, cc), r.max, r.greedy) && At(prog, p, Code(r, back, cc))
    ensures Does(prog, env, p, p + |Code(r, back, cc)|, r, back, cc)
  {
    var at := Code(r.r, back, cc);
    var i := SimpleGreedyQuant(|at| + 1, r.min, r.max, SimpleLength(at));
    var e, q := p + 17 + |at|, p + 18 + |at|;
    SimpleLayout(prog, p, r, back, cc);
    SimpleLine(prog, env, p + 17, r.r, back, cc);
    assert AskFor(Subject.SimpleLines, 0);
    SimpleNoCaptures(r.r, back, cc);
    forall x: Spot, stack: seq<nat> | Boundary(env, x.pos)
      ensures Gives(prog, env, p, stack, x, q, stack, Outcomes(env, r, back, cc, x)) {
      SimpleGives(prog, env, p, e, i, r.r, back, cc, x, stack);
      QuantOutcomes(env, r, back, cc, x);
    }
  }

  lemma SimpleLayout(prog: seq<Cell>, p: int, r: Re, back: bool, cc: nat)
    requires r.Quant? && Valid(r)
    requires IsSimple(Code(r.r, back, cc), r.max, r.greedy) && At(prog, p, Code(r, back, cc))
    ensures var at := Code(r.r, back, cc);
            At(prog, p, Enc(SimpleGreedyQuant(|at| + 1, r.min, r.max, SimpleLength(at)))) &&
            At(prog, p + 17, at) && At(prog, p + 17 + |at|, Enc(Match)) && |Code(r, back, cc)| == |at| + 18
  {
    CodeQuant(r, back, cc);
    var at := Code(r.r, back, cc);
    var i := SimpleGreedyQuant(|at| + 1, r.min, r.max, SimpleLength(at));
    AtConcat(prog, p, Enc(i), at + Enc(Match));
    AtConcat(prog, p + 17, at, Enc(Match));
  }

  /** The outcomes of a quantifier are rounds, after its captures have been reset if the
      body is optional. */
  lemma RoundsDo(prog: seq<Cell>, env: Env, p: int, q: int, r: Re, back: bool, cc: nat)
    requires r.Quant? && Valid(r) && r.min > 0
    requires DoesRounds(prog, env, p, q, r.r, back, cc, r.min, r.max, r.greedy)
    ensures Does(prog, env, p, q, r, back, cc)
  {
    forall x: Spot, stack: seq<nat> | Boundary(env, x.pos)
      ensures Gives(prog, env, p, stack, x, q, stack, Outcomes(env, r, back, cc, x)) {
      QuantOutcomes(env, r, back, cc, x);
      assert Gives(prog, env, p, stack, x, q, stack, Laps(env, r.r, back, cc, r.min, r.max, r.greedy, x));
    }
  }

  lemma ResetRoundsDo(prog: seq<Cell>, env: Env, p: int, q: int, r: Re, back: bool, cc: nat)
    requires r.Quant? && Valid(r) && r.min == 0
    requires var next := cc + Captures(r.r);
             if cc == next then DoesRounds(prog, env, p, q, r.r, back, cc, 0, r.max, r.greedy)
             else At(prog, p, Enc(SaveReset(cc, next - 1))) && DoesRounds(prog, env, p + 3, q, r.r, back, cc, 0, r.max, r.greedy)
    ensures Does(prog, env, p, q, r, back, cc)
  {
    var next := cc + Captures(r.r);
    forall x: Spot, stack: seq<nat> | Boundary(env, x.pos)
      ensures Gives(prog, env, p, stack, x, q, stack, Outcomes(env, r, back, cc, x)) {
      QuantOutcomes(env, r, back, cc, x);
      var y := Forget(x, cc, next);
      var xs := Laps(env, r.r, back, cc, 0, r.max, r.greedy, y);
      if cc == next {
        assert Gives(prog, env, p, stack, x, q, stack, xs);
      } else {
        assert Gives(prog, env, p + 3, stack, y, q, stack, xs);
        GivesReset(prog, env, p, stack, x, cc, next - 1, q, stack, xs);
      }
    }
  }

  lemma OptionalImplements(prog: seq<Cell>, env: Env, p: int, at: seq<Cell>, check: bool, r: Re, back: bool, cc: nat)
    requires r.Quant? && Valid(r) && r.min == 0 && Implements(prog, env, at, r.r, back, cc)
    requires r.max == INF ==> check || Advancing(env, r.r, back, cc)
    requires At(prog, p, OptionalCode(at, check, r.greedy, r.max, cc, cc + Captures(r.r)))
    ensures Does(prog, env, p, p + |OptionalCode(at, check, r.greedy, r.max, cc, cc + Captures(r.r))|, r, back, cc)
  {
    var next := cc + Captures(r.r);
    var body := OptionalBody(at, check, r.greedy, r.max);
    if cc != next {
      AtConcat(prog, p, Enc(SaveReset(cc, next - 1)), body);
      OptionalDoes(prog, env, p + 3, at, check, r.greedy, r.max, r.r, back, cc);
      ResetRoundsDo(prog, env, p, p + 3 + |body|, r, back, cc);
    } else {
      assert [] + body == body;
      OptionalDoes(prog, env, p, at, check, r.greedy, r.max, r.r, back, cc);
      ResetRoundsDo(prog, env, p, p + |body|, r, back, cc);
    }
  }

  /** The loops in general: the code is one of those of QuantCode. */
  lemma LoopDoes(prog: seq<Cell>, env: Env, p: int, at: seq<Cell>, check: bool, code: seq<Cell>, r: Re, back: bool, cc: nat)
    requires r.Quant? && Valid(r) && Implements(prog, env, at, r.r, back, cc) && At(prog, p, code)
    requires r.max == INF ==> check || Advancing(env, r.r, back, cc)
    requires check == NeedsCheck(at, r.greedy) && !IsSimple(at, r.max, r.greedy) && code == QuantCode(at, r.min, r.max, r.greedy, cc, cc + Captures(r.r))
    ensures Does(prog, env, p, p + |code|, r, back, cc)
  {
    if r.min == 0 {
      OptionalImplements(prog, env, p, at, check, r, back, cc);
    } else if r.min == 1 && r.max == INF && !check {
      PlusDoes(prog, env, p, at, r.greedy, r.r, back, cc);
      RoundsDo(prog, env, p, p + |code|, r, back, cc);
    } else {
      RepeatedDoes(prog, env, p, at, check, r.greedy, r.min, r.max, r.r, back, cc);
      RoundsDo(prog, env, p, p + |code|, r, back, cc);
    }
  }

  /** With a maximum of zero there is no body, only the reset of its captures. */
  lemma DroppedDoes(prog: seq<Cell>, env: Env, p: int, at: seq<Cell>, r: Re, back: bool, cc: nat)
    requires r.Quant? && Valid(r) && r.max == 0 && At(prog, p, Code(r, back, cc)) && at == Code(r.r, back, cc)
    ensures Does(prog, env, p, p + |Code(r, back, cc)|, r, back, cc)
  {
    CodeQuant(r, back, cc);
    var next := cc + Captures(r.r);
    if cc != next {
      AtConcat(prog, p, Enc(SaveReset(cc, next - 1)), []);
      NoneDoes(prog, env, p + 3, r.r, back, cc, r.greedy);
      ResetRoundsDo(prog, env, p, p + 3, r, back, cc);
    } else {
      NoneDoes(prog, env, p, r.r, back, cc, r.greedy);
      ResetRoundsDo(prog, env, p, p, r, back, cc);
    }
  }

  lemma QuantDoes(prog: seq<Cell>, env: Env, p: int, r: Re, back: bool, cc: nat)
    requires GoodEnv(env) && r.Quant? && r.max > 0 && Valid(r) && Safe(env, r, back, cc)
    requires Implements(prog, env, Code(r.r, back, cc), r.r, back, cc) && At(prog, p, Code(r, back, cc))
    ensures Does(prog, env, p, p + |Code(r, back, cc)|, r, back, cc)
  {
    var at := Code(r.r, back, cc);
    if IsSimple(at, r.max, r.greedy) {
      SimpleDoes(prog, env, p, r, back, cc);
    } else {
      if r.max == INF { LoopGuarded(env, r, back, cc); }
      CodeQuant(r, back, cc);
      LoopDoes(prog, env, p, at, NeedsCheck(at, r.greedy), Code(r, back, cc), r, back, cc);
    }
  }

  // ---------------------------------------------------------------------- the theorem

  /** The code emitted for a pattern offers the outcomes of the pattern in their order,
      wherever it is placed. */
  lemma {:induction false} EmitImplements(prog: seq<Cell>, env: Env, r: Re, back: bool, cc: nat)
    requires GoodEnv(env) && Valid(r) && Safe(env, r, back, cc)
    ensures Implements(prog, env, Code(r, back, cc), r, back, cc)
    decreases r
  {
    match r
    case Cat(_, _) =>
      CodeCat(r, back, cc);
      EmitImplements(prog, env, First(r, back), back, FirstCount(r, back, cc));
      EmitImplements(prog, env, Second(r, back), back, SecondCount(r, back, cc));
      CatImplements(prog, env, Code(First(r, back), back, FirstCount(r, back, cc)), Code(Second(r, back), back, SecondCount(r, back, cc)), r, back, cc);
    case Alt(a, b) =>
      CodeAlt(r, back, cc);
      EmitImplements(prog, env, a, back, cc);
      EmitImplements(prog, env, b, back, cc + Captures(a));
      AltImplements(prog, env, Code(a, back, cc), Code(b, back, cc + Captures(a)), r, back, cc);
    case Capture(r1) =>
      CodeCapture(r, back, cc);
      EmitImplements(prog, env, r1, back, cc + 1);
      CaptureImplements(prog, env, Code(r1, back, cc + 1), r, back, cc);
    case Look(neg, behind, r1) =>
      CodeLook(r, back, cc);
      EmitImplements(prog, env, r1, behind, cc);
      LookImplements(prog, env, Code(r1, behind, cc), r, back, cc);
    case Quant(r1, _, max, _) =>
      if max > 0 { EmitImplements(prog, env, r1, back, cc); }
      var code := Code(r, back, cc);
      forall p | At(prog, p, code) ensures Does(prog, env, p, p + |code|, r, back, cc) {
        if max == 0 { DroppedDoes(prog, env, p, Code(r1, back, cc), r, back, cc); } else { QuantDoes(prog, env, p, r, back, cc); }
      }
    case _ => LeafImplements(prog, env, r, back, cc);
  }
}
