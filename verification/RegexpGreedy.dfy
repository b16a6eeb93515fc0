/** The fast loop of simple quantifiers offers the same outcomes in the same order as
    the loop with one saved state for each round (libregexp.c, 2137-2159, 2450-2488). */
module RegexpGreedy {
  import opened RegexpInput
  import opened RegexpCode
  import opened RegexpMachine
  import opened RegexpOrder
  import opened RegexpRuns
  import opened RegexpSimple

  /** Simple code captures nothing. */
  lemma {:induction false} SimpleNoCaptures(r: Re, back: bool, cc: nat)
    requires Valid(r)
    ensures SimpleLength(Code(r, back, cc)) >= 0 ==> Captures(r) == 0
    decreases r
  {
    if r.Cat? {
      CodeCat(r, back, cc);
      SimpleConcat(Code(First(r, back), back, FirstCount(r, back, cc)), Code(Second(r, back), back, SecondCount(r, back, cc)));
      SimpleNoCaptures(First(r, back), back, FirstCount(r, back, cc));
      SimpleNoCaptures(Second(r, back), back, SecondCount(r, back, cc));
    } else if r.Alt? || r.Look? || r.Capture? {
      OtherNotSimple(r, back, cc);
    } else if r.Quant? {
      CodeQuant(r, back, cc);
      SimpleNoCaptures(r.r, back, cc);
      if SimpleLength(Code(r, back, cc)) >= 0 {
        QuantNotSimple(Code(r.r, back, cc), r.min, r.max, r.greedy, cc, cc + Captures(r.r));
      }
    }
  }

  /** A simple body from b to e that holds n characters, followed by a match. */
  ghost predicate Body(prog: seq<Cell>, env: Env, b: int, e: int, n: nat, r: Re, back: bool, cc: nat)
    requires Valid(r)
  {
    n > 0 && Line(prog, env, b, e, n, r, back, cc) && At(prog, e, Enc(Match))
  }

  lemma BodyRun(prog: seq<Cell>, env: Env, b: int, e: int, n: nat, r: Re, back: bool, cc: nat, x: Spot)
    requires Valid(r) && Body(prog, env, b, e, n, r, back, cc) && Boundary(env, x.pos)
    ensures var ys := Outcomes(env, r, back, cc, x);
            |ys| <= 1 && if ys == [] then SimpleRun(prog, env, b, x.pos) == None
                         else SimpleRun(prog, env, b, x.pos) == Some(ys[0].pos) && x.pos < ys[0].pos && Boundary(env, ys[0].pos) &&
                              ys[0].caps == x.caps && Back(env, ys[0].pos, n) == x.pos
  {
    AtOp(prog, e, Match);
    assert LineAt(prog, env, b, e, n, x, Outcomes(env, r, back, cc, x));
  }

  lemma OneRound(env: Env, r: Re, back: bool, cc: nat, max: nat, x: Spot)
    requires Valid(r) && 0 < max <= INF && Boundary(env, x.pos)
    requires var ys := Outcomes(env, r, back, cc, x); |ys| <= 1 && (ys != [] ==> ys[0].pos != x.pos && Inside(env, ys[0]))
    ensures var ys := Outcomes(env, r, back, cc, x);
            Laps(env, r, back, cc, 0, max, true, x) == if ys == [] then [x] else Laps(env, r, back, cc, 0, Less(max), true, ys[0]) + [x]
  {
    var ls := LapsMore(env, r, back, cc, max, true, x);
    if ls != [] {
      assert ls[1..] == [];
      assert Flatten(ls[1..]) == [];
      assert Flatten(ls) == ls[0] + [] == ls[0];
    } else {
      assert Flatten(ls) == [];
    }
  }

  lemma OneMust(env: Env, r: Re, back: bool, cc: nat, min: nat, max: nat, x: Spot)
    requires Valid(r) && 0 < min <= max <= INF && Boundary(env, x.pos)
    requires var ys := Outcomes(env, r, back, cc, x); |ys| <= 1 && (ys != [] ==> Inside(env, ys[0]))
    ensures var ys := Outcomes(env, r, back, cc, x);
            Laps(env, r, back, cc, min, max, true, x) == if ys == [] then [] else Laps(env, r, back, cc, min - 1, Less(max), true, ys[0])
  {
    var ls := LapsMin(env, r, back, cc, min, max, true, x);
    if ls != [] {
      assert ls[1..] == [];
      assert Flatten(ls[1..]) == [];
      assert Flatten(ls) == ls[0] + [] == ls[0];
    } else {
      assert Flatten(ls) == [];
    }
  }

  /** Positions that follow from each other by going back n characters. */
  ghost predicate Descends(env: Env, n: nat, xs: seq<Spot>, caps: Captured)
  {
    (forall t :: 0 <= t < |xs| ==> xs[t].caps == caps && xs[t].pos <= |env.units|) &&
    (forall t :: 0 < t < |xs| ==> Back(env, xs[t - 1].pos, n) == xs[t].pos)
  }

  /** The fast loop ends at the first outcome of the slow one, and the other outcomes are
      found by going back. */
  lemma {:induction false} GreedyChain(prog: seq<Cell>, env: Env, b: int, e: int, n: nat, r: Re, back: bool, cc: nat, q: nat, max: nat, x: Spot)
    requires Valid(r) && Body(prog, env, b, e, n, r, back, cc) && Boundary(env, x.pos) && max <= INF && (max == INF || q <= max)
    ensures var xs := Laps(env, r, back, cc, 0, if max == INF then INF else max - q, true, x);
            |xs| >= 1 && xs[|xs| - 1] == x && Descends(env, n, xs, x.caps) &&
            GreedyRun(prog, env, b, x.pos, q, max) == (q + |xs| - 1, xs[0].pos)
    decreases |env.units| - x.pos
  {
    var left := if max == INF then INF else max - q;
    var ys := Outcomes(env, r, back, cc, x);
    BodyRun(prog, env, b, e, n, r, back, cc, x);
    if left == 0 {
      LapsNone(env, r, back, cc, true, x);
    } else {
      OneRound(env, r, back, cc, left, x);
      if ys != [] {
        GreedyChain(prog, env, b, e, n, r, back, cc, q + 1, max, ys[0]);
        DescendsMore(env, n, Laps(env, r, back, cc, 0, Less(left), true, ys[0]), x);
      }
    }
  }

  lemma DescendsMore(env: Env, n: nat, xs: seq<Spot>, x: Spot)
    requires Descends(env, n, xs, x.caps) && |xs| >= 1 && Inside(env, x) && Back(env, xs[|xs| - 1].pos, n) == x.pos
    ensures Descends(env, n, xs + [x], x.caps)
  {}

  ghost function Cut(xs: seq<Spot>, min: nat): seq<Spot>
  {
    if |xs| <= min then [] else xs[..|xs| - min]
  }

  /** With min rounds required, the last min outcomes are missing. */
  lemma {:induction false} MinCuts(prog: seq<Cell>, env: Env, b: int, e: int, n: nat, r: Re, back: bool, cc: nat, min: nat, max: nat, x: Spot)
    requires Valid(r) && Body(prog, env, b, e, n, r, back, cc) && Boundary(env, x.pos) && min <= max <= INF
    ensures Laps(env, r, back, cc, min, max, true, x) == Cut(Laps(env, r, back, cc, 0, max, true, x), min)
    decreases min
  {
    if min > 0 {
      var ys := Outcomes(env, r, back, cc, x);
      BodyRun(prog, env, b, e, n, r, back, cc, x);
      OneRound(env, r, back, cc, max, x);
      OneMust(env, r, back, cc, min, max, x);
      if ys != [] {
        MinCuts(prog, env, b, e, n, r, back, cc, min - 1, Less(max), ys[0]);
      }
    }
  }

  // ------------------------------------------------------------------- the saved state

  function Pending(count: int, p: int, x: Spot, stack: seq<nat>): seq<Saved>
  {
    if count <= 0 then [] else [Saved(GreedyState(count), p, x.pos, stack, x.caps)]
  }

  /** Each failure takes the saved state one round back. */
  lemma {:induction false} GreedyOffers(prog: seq<Cell>, env: Env, p: int, i: Instr, xs: seq<Spot>, stack: seq<nat>, caps: Captured, caps1: Captured, saved: seq<Saved>)
    requires At(prog, p, Enc(i)) && i.SimpleGreedyQuant? && i.len >= 0 && Descends(env, i.len, xs, caps) && |xs| >= 1
    ensures Offers(prog, env, Unwind(false, caps1, saved + Pending(|xs| - 1, p, xs[0], stack)), p + 17 + i.next, stack, xs[1..], saved)
    decreases |xs|
  {
    var u := Unwind(false, caps1, saved + Pending(|xs| - 1, p, xs[0], stack));
    if |xs| == 1 {
      assert saved + [] == saved;
      assert Steps(prog, env, 0, u) == u;
    } else {
      var ys := xs[1..];
      var more := Pending(|ys| - 1, p, ys[0], stack);
      GreedyBack(prog, env, p, i, xs, stack, caps, caps1, saved);
      DescendsTail(env, i.len, xs, caps);
      forall c ensures Offers(prog, env, Unwind(false, c, saved + more), p + 17 + i.next, stack, ys[1..], saved) {
        GreedyOffers(prog, env, p, i, ys, stack, caps, c, saved);
      }
      OffersNext(prog, env, u, p + 17 + i.next, stack, ys[0], ys[1..], saved, more);
      assert ys == [ys[0]] + ys[1..];
    }
  }

  lemma DescendsTail(env: Env, n: nat, xs: seq<Spot>, caps: Captured)
    requires Descends(env, n, xs, caps) && |xs| >= 2
    ensures Descends(env, n, xs[1..], caps)
  {
    var ys := xs[1..];
    forall t | 0 < t < |ys| ensures Back(env, ys[t - 1].pos, n) == ys[t].pos {
      assert ys[t - 1] == xs[t] && ys[t] == xs[t + 1];
      assert Back(env, xs[t + 1 - 1].pos, n) == xs[t + 1].pos;
    }
  }

  lemma GreedyBack(prog: seq<Cell>, env: Env, p: int, i: Instr, xs: seq<Spot>, stack: seq<nat>, caps: Captured, caps1: Captured, saved: seq<Saved>)
    requires At(prog, p, Enc(i)) && i.SimpleGreedyQuant? && i.len >= 0 && Descends(env, i.len, xs, caps) && |xs| >= 2
    ensures Step(prog, env, Unwind(false, caps1, saved + Pending(|xs| - 1, p, xs[0], stack))) ==
            Arrived(p + 17 + i.next, xs[1], stack, saved + Pending(|xs| - 2, p, xs[1], stack))
  {
    AtOp(prog, p, i);
    var all := saved + Pending(|xs| - 1, p, xs[0], stack);
    assert all[|all| - 1] == Saved(GreedyState(|xs| - 1), p, xs[0].pos, stack, xs[0].caps) && all[..|all| - 1] == saved;
    assert saved + [] == saved;
    assert Back(env, xs[1 - 1].pos, i.len) == xs[1].pos;
  }

  /** The code of a simple quantifier. */
  lemma SimpleGives(prog: seq<Cell>, env: Env, p: int, e: int, i: Instr, r: Re, back: bool, cc: nat, x: Spot, stack: seq<nat>)
    requires Valid(r) && i.SimpleGreedyQuant? && i.len > 0 && i.min <= i.max <= INF && i.max > 0 && i.next == e - p - 16
    requires At(prog, p, Enc(i)) && Body(prog, env, p + 17, e, i.len, r, back, cc) && Boundary(env, x.pos)
    ensures Gives(prog, env, p, stack, x, e + 1, stack, Laps(env, r, back, cc, i.min, i.max, true, x))
  {
    AtOp(prog, p, i);
    var xs := Laps(env, r, back, cc, 0, i.max, true, x);
    GreedyChain(prog, env, p + 17, e, i.len, r, back, cc, 0, i.max, x);
    MinCuts(prog, env, p + 17, e, i.len, r, back, cc, i.min, i.max, x);
    SimpleOffers(prog, env, p, e, i, x, stack, xs);
  }

  lemma SimpleOffers(prog: seq<Cell>, env: Env, p: int, e: int, i: Instr, x: Spot, stack: seq<nat>, xs: seq<Spot>)
    requires i.SimpleGreedyQuant? && i.len > 0 && i.next == e - p - 16 && At(prog, p, Enc(i)) && Inside(env, x)
    requires |xs| >= 1 && Descends(env, i.len, xs, x.caps)
    requires GreedyRun(prog, env, p + 17, x.pos, 0, i.max) == (|xs| - 1, xs[0].pos)
    ensures Gives(prog, env, p, stack, x, e + 1, stack, Cut(xs, i.min))
  {
    GivesMeans(prog, env, p, stack, x, e + 1, stack, Cut(xs, i.min));
    AtOp(prog, p, i);
    if |xs| <= i.min {
      GivesNothing(prog, env, p, stack, x, e + 1, stack);
    } else {
      var cut := xs[..|xs| - i.min];
      var more := Pending(|cut| - 1, p, cut[0], stack);
      assert cut == [cut[0]] + cut[1..];
      forall saved ensures Offers(prog, env, Arrived(p, x, stack, saved), e + 1, stack, cut, saved) {
        assert saved + [] == saved;
        assert Step(prog, env, Arrived(p, x, stack, saved)) == Arrived(e + 1, cut[0], stack, saved + more);
        forall c ensures Offers(prog, env, Unwind(false, c, saved + more), e + 1, stack, cut[1..], saved) {
          GreedyOffers(prog, env, p, i, cut, stack, x.caps, c, saved);
        }
        OffersNext(prog, env, Arrived(p, x, stack, saved), e + 1, stack, cut[0], cut[1..], saved, more);
      }
    }
  }
}
