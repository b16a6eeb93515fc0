/** Lazy loops for which no zero-advance check is emitted (libregexp.c, 1594-1598): exactly
    when they come to an end. */
module RegexpEndless {
  import opened Hints
  import opened RegexpInput
  import opened RegexpCode
  import opened RegexpMachine
  import opened RegexpOrder
  import opened RegexpRuns
  import opened RegexpLoops
  import RegexpMatch

  /** What follows the loop leads to a match from x, whatever is saved. */
  ghost predicate Leads(prog: seq<Cell>, env: Env, q: int, stack: seq<nat>, x: Spot)
  {
    forall saved :: Succeeds(prog, env, Arrived(q, x, stack, saved), saved)
  }

  ghost predicate Succeeds(prog: seq<Cell>, env: Env, s: State, saved: seq<Saved>)
  {
    exists caps :: Reaches(prog, env, s, Unwind(true, caps, saved))
  }

  /** It leads to none. */
  ghost predicate DeadEnd(prog: seq<Cell>, env: Env, q: int, stack: seq<nat>, x: Spot)
  {
    forall saved :: Fails(prog, env, Arrived(q, x, stack, saved), saved)
  }

  /** The machine never stops. */
  ghost predicate Never(prog: seq<Cell>, env: Env, s: State)
  {
    forall n: nat :: !Final(Steps(prog, env, n, s))
  }

  /** What is known of a loop: the outcomes of its body from every place, which stay where
      they started or leave less of the subject; and whether what follows accepts a place. */
  datatype LazyLoop = LazyLoop(p: int, e: int, stack: seq<nat>, body: Spot -> seq<Spot>, accepts: Spot -> bool, left: Spot -> nat)

  ghost predicate LazyAt(prog: seq<Cell>, env: Env, l: LazyLoop, x: Spot)
  {
    Inside(env, x) && Gives(prog, env, l.p + 5, l.stack, x, l.e, l.stack, l.body(x)) && Proper(env, l, x, l.body(x)) &&
    if l.accepts(x) then Leads(prog, env, l.e + 5, l.stack, x) else DeadEnd(prog, env, l.e + 5, l.stack, x)
  }

  ghost predicate Proper(env: Env, l: LazyLoop, x: Spot, ys: seq<Spot>)
  {
    forall t :: 0 <= t < |ys| ==> Inside(env, ys[t]) && (ys[t] == x || l.left(ys[t]) < l.left(x))
  }

  ghost predicate Lazy(prog: seq<Cell>, env: Env, l: LazyLoop, ok: Spot -> bool)
  {
    LoopAt(prog, l.p, l.p + 5, l.e, false, false) && forall x :: ok(x) ==> LazyAt(prog, env, l, x) && AllIn(ok, l.body(x))
  }

  ghost predicate AllIn(ok: Spot -> bool, ys: seq<Spot>)
  {
    forall t :: 0 <= t < |ys| ==> ok(ys[t])
  }

  // ------------------------------------------------------------------ the search

  datatype Fate = Accepted | Refused | Endless

  /** The loop tries what follows it first, and then its body: it ends with the first place
      that is accepted, unless the body offers to stay in place before that. */
  ghost function FateFrom(l: LazyLoop, x: Spot): Fate
    decreases l.left(x), 1, 0
  {
    if l.accepts(x) then Accepted else FateOf(l, x, l.body(x))
  }

  ghost function FateOf(l: LazyLoop, x: Spot, ys: seq<Spot>): Fate
    decreases l.left(x), 0, |ys|
  {
    if ys == [] then Refused
    else if l.left(ys[0]) < l.left(x) then
      var fate := FateFrom(l, ys[0]);
      if fate == Refused then FateOf(l, x, ys[1..]) else fate
    else Endless
  }

  /** All outcomes before the first one that stays in place are refused. */
  ghost predicate ComesBack(l: LazyLoop, x: Spot, ys: seq<Spot>)
    decreases |ys|
  {
    ys != [] && if l.left(ys[0]) < l.left(x) then FateFrom(l, ys[0]) == Refused && ComesBack(l, x, ys[1..]) else true
  }

  // ------------------------------------------------------------------ runs

  lemma NeverVia(prog: seq<Cell>, env: Env, s: State, t: State)
    requires Reaches(prog, env, s, t) && Never(prog, env, t)
    ensures Never(prog, env, s)
  {
    var m: nat :| Steps(prog, env, m, s) == t;
    forall n: nat ensures !Final(Steps(prog, env, n, s)) {
      if n >= m {
        StepsAdd(prog, env, m, n - m, s);
        assert !Final(Steps(prog, env, n - m, t));
      } else {
        StepsAdd(prog, env, n, m - n, s);
        if Final(Steps(prog, env, n, s)) { RegexpMatch.FinalStays(prog, env, m - n, Steps(prog, env, n, s)); }
        assert !Final(Steps(prog, env, 0, t));
      }
    }
  }

  lemma SucceedsVia(prog: seq<Cell>, env: Env, s: State, t: State, saved: seq<Saved>)
    requires Reaches(prog, env, s, t) && Succeeds(prog, env, t, saved)
    ensures Succeeds(prog, env, s, saved)
  {
    var caps :| Reaches(prog, env, t, Unwind(true, caps, saved));
    ReachesTrans(prog, env, s, t, Unwind(true, caps, saved));
  }

  /** A success above some choices. */
  lemma SucceedsAbove(prog: seq<Cell>, env: Env, s: State, saved: seq<Saved>, more: seq<Saved>)
    requires Choices(more) && Succeeds(prog, env, s, saved + more)
    ensures Succeeds(prog, env, s, saved)
  {
    var caps :| Reaches(prog, env, s, Unwind(true, caps, saved + more));
    ForgetChoices(prog, env, caps, saved, more);
    ReachesTrans(prog, env, s, Unwind(true, caps, saved + more), Unwind(true, caps, saved));
  }

  /** The first step of a round. */
  lemma RoundStarts(prog: seq<Cell>, env: Env, l: LazyLoop, x: Spot, saved: seq<Saved>)
    requires LoopAt(prog, l.p, l.p + 5, l.e, false, false) && LazyAt(prog, env, l, x)
    ensures l.accepts(x) ==> Succeeds(prog, env, Arrived(l.p, x, l.stack, saved), saved)
    ensures !l.accepts(x) ==> Reaches(prog, env, Step(prog, env, Arrived(l.p, x, l.stack, saved)), Arrived(l.p + 5, x, l.stack, saved))
  {
    var s := Arrived(l.p, x, l.stack, saved);
    AtOp(prog, l.p, SplitGotoFirst(l.e - l.p));
    var more := [Saved(SplitState, l.p + 5, x.pos, l.stack, x.caps)];
    var s1 := Arrived(l.e + 5, x, l.stack, saved + more);
    assert Step(prog, env, s) == s1;
    ReachesStep(prog, env, s);
    if l.accepts(x) {
      assert Succeeds(prog, env, s1, saved + more);
      SucceedsAbove(prog, env, s1, saved, more);
      SucceedsVia(prog, env, s, s1, saved);
    } else {
      assert Fails(prog, env, s1, saved + more);
      var c :| Reaches(prog, env, s1, Unwind(false, c, saved + more));
      assert (saved + more)[..|saved + more| - 1] == saved;
      assert Step(prog, env, Unwind(false, c, saved + more)) == Arrived(l.p + 5, x, l.stack, saved);
      ReachesStep(prog, env, Unwind(false, c, saved + more));
      ReachesTrans(prog, env, s1, Unwind(false, c, saved + more), Arrived(l.p + 5, x, l.stack, saved));
    }
  }

  /** The machine is back at the start of the loop, with more saved states. */
  ghost predicate Returns(prog: seq<Cell>, env: Env, l: LazyLoop, x: Spot, s: State)
  {
    exists saved :: Reaches(prog, env, s, Arrived(l.p, x, l.stack, saved))
  }

  lemma NextRound(prog: seq<Cell>, env: Env, l: LazyLoop, y: Spot, saved: seq<Saved>)
    requires LoopAt(prog, l.p, l.p + 5, l.e, false, false) && Inside(env, y)
    ensures Reaches(prog, env, Arrived(l.e, y, l.stack, saved), Arrived(l.p, y, l.stack, saved))
  {
    AtOp(prog, l.e, Goto(l.p - l.e - 5));
    assert Step(prog, env, Arrived(l.e, y, l.stack, saved)) == Arrived(l.p, y, l.stack, saved);
    ReachesStep(prog, env, Arrived(l.e, y, l.stack, saved));
  }

  /** The fate of a state that offers ys at the end of the body. */
  ghost predicate Ends(prog: seq<Cell>, env: Env, s: State, saved: seq<Saved>, fate: Fate)
  {
    match fate
    case Accepted => Succeeds(prog, env, s, saved)
    case Refused => Fails(prog, env, s, saved)
    case Endless => Never(prog, env, s)
  }

  lemma EndsVia(prog: seq<Cell>, env: Env, s: State, t: State, saved: seq<Saved>, fate: Fate)
    requires Reaches(prog, env, s, t) && Ends(prog, env, t, saved, fate)
    ensures Ends(prog, env, s, saved, fate)
  {
    match fate
    case Accepted => SucceedsVia(prog, env, s, t, saved);
    case Refused => FailsVia(prog, env, s, t, saved);
    case Endless => NeverVia(prog, env, s, t);
  }

  /** The outcomes of the body, one after the other. */
  lemma {:induction false} Walk(prog: seq<Cell>, env: Env, l: LazyLoop, ok: Spot -> bool, x: Spot, ys: seq<Spot>, t: State, saved: seq<Saved>)
    requires Lazy(prog, env, l, ok) && ok(x) && AllIn(ok, ys) && Proper(env, l, x, ys) && Offers(prog, env, t, l.e, l.stack, ys, saved)
    ensures if ComesBack(l, x, ys) then Returns(prog, env, l, x, t) else Ends(prog, env, t, saved, FateOf(l, x, ys))
    decreases l.left(x), 0, |ys|, 1
  {
    if ys != [] {
      var y := ys[0];
      var more :| OffersFirst(prog, env, t, l.e, l.stack, y, saved, more) &&
                  forall caps :: Offers(prog, env, Unwind(false, caps, saved + more), l.e, l.stack, ys[1..], saved);
      var s := Arrived(l.p, y, l.stack, saved + more);
      NextRound(prog, env, l, y, saved + more);
      ReachesTrans(prog, env, t, Arrived(l.e, y, l.stack, saved + more), s);
      if l.left(y) < l.left(x) {
        LoopFate(prog, env, l, ok, y, saved + more);
        WalkOn(prog, env, l, ok, x, ys, t, s, saved, more);
      }
    }
  }

  lemma {:induction false} WalkOn(prog: seq<Cell>, env: Env, l: LazyLoop, ok: Spot -> bool, x: Spot, ys: seq<Spot>, t: State, s: State, saved: seq<Saved>, more: seq<Saved>)
    requires Lazy(prog, env, l, ok) && ok(x) && ys != [] && AllIn(ok, ys) && Proper(env, l, x, ys) && Choices(more) && l.left(ys[0]) < l.left(x)
    requires Reaches(prog, env, t, s) && Ends(prog, env, s, saved + more, FateFrom(l, ys[0]))
    requires forall caps :: Offers(prog, env, Unwind(false, caps, saved + more), l.e, l.stack, ys[1..], saved)
    ensures if ComesBack(l, x, ys) then Returns(prog, env, l, x, t) else Ends(prog, env, t, saved, FateOf(l, x, ys))
    decreases l.left(x), 0, |ys|, 0
  {
    match FateFrom(l, ys[0])
    case Accepted =>
      SucceedsAbove(prog, env, s, saved, more);
      SucceedsVia(prog, env, t, s, saved);
    case Endless => NeverVia(prog, env, t, s);
    case Refused =>
      var caps :| Reaches(prog, env, s, Unwind(false, caps, saved + more));
      var u := Unwind(false, caps, saved + more);
      ReachesTrans(prog, env, t, s, u);
      Walk(prog, env, l, ok, x, ys[1..], u, saved);
      if ComesBack(l, x, ys) {
        var again :| Reaches(prog, env, u, Arrived(l.p, x, l.stack, again));
        ReachesTrans(prog, env, t, u, Arrived(l.p, x, l.stack, again));
      } else {
        EndsVia(prog, env, t, u, saved, FateOf(l, x, ys[1..]));
      }
  }

  /** A lazy loop without a check ends exactly as its search says, and so it ends if and only
      if the search is not endless. */
  lemma {:induction false} LoopFate(prog: seq<Cell>, env: Env, l: LazyLoop, ok: Spot -> bool, x: Spot, saved: seq<Saved>)
    requires Lazy(prog, env, l, ok) && ok(x)
    ensures Ends(prog, env, Arrived(l.p, x, l.stack, saved), saved, FateFrom(l, x))
    decreases l.left(x), 1, 0
  {
    var s := Arrived(l.p, x, l.stack, saved);
    RoundStarts(prog, env, l, x, saved);
    if !l.accepts(x) {
      if ComesBack(l, x, l.body(x)) {
        BackEndless(l, x, l.body(x));
        forall n: nat ensures !Final(Steps(prog, env, n, s)) {
          RoundAndRound(prog, env, l, ok, x, saved, n);
        }
      } else {
        var t := Arrived(l.p + 5, x, l.stack, saved);
        GivesMeans(prog, env, l.p + 5, l.stack, x, l.e, l.stack, l.body(x));
        Walk(prog, env, l, ok, x, l.body(x), t, saved);
        ReachesStep(prog, env, s);
        ReachesTrans(prog, env, s, Step(prog, env, s), t);
        EndsVia(prog, env, s, t, saved, FateOf(l, x, l.body(x)));
      }
    }
  }

  lemma {:induction false} BackEndless(l: LazyLoop, x: Spot, ys: seq<Spot>)
    requires ComesBack(l, x, ys)
    ensures FateOf(l, x, ys) == Endless
    decreases |ys|
  {
    if l.left(ys[0]) < l.left(x) { BackEndless(l, x, ys[1..]); }
  }

  /** Every round comes back to its start. */
  lemma {:induction false} RoundAndRound(prog: seq<Cell>, env: Env, l: LazyLoop, ok: Spot -> bool, x: Spot, saved: seq<Saved>, n: nat)
    requires Lazy(prog, env, l, ok) && ok(x) && !l.accepts(x) && ComesBack(l, x, l.body(x))
    ensures !Final(Steps(prog, env, n, Arrived(l.p, x, l.stack, saved)))
    decreases l.left(x), 0, |l.body(x)|, 3, n
  {
    var s := Arrived(l.p, x, l.stack, saved);
    if n > 0 {
      var again, k := OneRound(prog, env, l, ok, x, saved);
      if n <= k {
        if Final(Steps(prog, env, n, s)) {
          StepsAdd(prog, env, n, k - n, s);
          RegexpMatch.FinalStays(prog, env, k - n, Steps(prog, env, n, s));
        }
      } else {
        StepsAdd(prog, env, k, n - k, s);
        RoundAndRound(prog, env, l, ok, x, again, n - k);
      }
    }
  }

  lemma {:induction false} OneRound(prog: seq<Cell>, env: Env, l: LazyLoop, ok: Spot -> bool, x: Spot, saved: seq<Saved>) returns (again: seq<Saved>, k: nat)
    requires Lazy(prog, env, l, ok) && ok(x) && !l.accepts(x) && ComesBack(l, x, l.body(x))
    ensures k > 0 && Steps(prog, env, k, Arrived(l.p, x, l.stack, saved)) == Arrived(l.p, x, l.stack, again)
    decreases l.left(x), 0, |l.body(x)|, 2
  {
    var s, t := Arrived(l.p, x, l.stack, saved), Arrived(l.p + 5, x, l.stack, saved);
    RoundStarts(prog, env, l, x, saved);
    GivesMeans(prog, env, l.p + 5, l.stack, x, l.e, l.stack, l.body(x));
    Walk(prog, env, l, ok, x, l.body(x), t, saved);
    var a :| Reaches(prog, env, t, Arrived(l.p, x, l.stack, a));
    again := a;
    ReachesTrans(prog, env, Step(prog, env, s), t, Arrived(l.p, x, l.stack, again));
    var k1: nat :| Steps(prog, env, k1, Step(prog, env, s)) == Arrived(l.p, x, l.stack, again);
    k := k1 + 1;
  }
}
