/** What patterns match, in the order in which the matcher tries it: the sequence of
    all outcomes (end position and captures) from a start position and captures. No
    code is mentioned. The first outcome is the match that is reported. */
module RegexpOrder {
  import opened Hints
  import opened CharRange
  import opened RegexpInput
  import opened RegexpCode
  import opened RegexpSemantics

  /** A position in the subject with the captures made so far. */
  datatype Spot = Spot(pos: nat, caps: Captured)

  ghost predicate Inside(env: Env, x: Spot)
  {
    x.pos <= |env.units|
  }

  /** y is reached from x in the given direction. */
  ghost predicate After(env: Env, back: bool, x: Spot, y: Spot)
  {
    Inside(env, y) && if back then y.pos <= x.pos else x.pos <= y.pos
  }

  ghost predicate AllAfter(env: Env, back: bool, x: Spot, ys: seq<Spot>)
  {
    forall t :: 0 <= t < |ys| ==> After(env, back, x, ys[t])
  }

  ghost function Flatten(ls: seq<seq<Spot>>): (out: seq<Spot>)
  {
    if ls == [] then [] else ls[0] + Flatten(ls[1..])
  }

  lemma {:induction false} FlattenAfter(env: Env, back: bool, x: Spot, ls: seq<seq<Spot>>)
    requires forall t :: 0 <= t < |ls| ==> AllAfter(env, back, x, ls[t])
    ensures AllAfter(env, back, x, Flatten(ls))
  {
    if ls != [] {
      FlattenAfter(env, back, x, ls[1..]);
    }
  }

  ghost function Distance(env: Env, back: bool, x: Spot): nat
    requires Inside(env, x)
  {
    if back then x.pos else |env.units| - x.pos
  }

  /** One upper bound of repetitions less. */
  function Less(max: nat): nat
  {
    if max == INF || max == 0 then max else max - 1
  }

  ghost function OneCharOrder(env: Env, r: Re, back: bool, x: Spot): (out: seq<Spot>)
    requires Inside(env, x) && (r.Chr? || r.AnyChar? || r.Class?)
    ensures AllAfter(env, back, x, out)
  {
    if x.pos == (if back then 0 else |env.units|) then []
    else
      var j := if back then PrevChar(env, x.pos) else GetChar(env, x.pos).1;
      if OneChar(env, r, back, x.pos, j) then [Spot(j, x.caps)] else []
  }

  ghost function If(c: bool, x: Spot): seq<Spot>
  {
    if c then [x] else []
  }

  /** A lookaround keeps the position, and the captures of its first outcome. */
  ghost function LookOrder(neg: bool, inner: seq<Spot>, x: Spot): seq<Spot>
  {
    if neg then If(inner == [], x)
    else if inner == [] then []
    else [Spot(x.pos, inner[0].caps)]
  }

  ghost function Ref(env: Env, n: nat, back: bool, x: Spot): (out: seq<Spot>)
    requires Inside(env, x)
    ensures AllAfter(env, back, x, out)
  {
    var to := BackRefStep(env, x.caps, n, back, x.pos);
    if to.None? then [] else [Spot(to.value, x.caps)]
  }

  /** A group of captures is forgotten before the first round of an optional body. */
  function Forget(x: Spot, first: nat, next: nat): Spot
  {
    if first == next then x else Spot(x.pos, ResetCaps(x.caps, first, next - 1))
  }

  ghost function Order(env: Env, r: Re, back: bool, cc: nat, x: Spot): (out: seq<Spot>)
    requires Valid(r) && Inside(env, x)
    ensures AllAfter(env, back, x, out)
    decreases r, 0
  {
    match r
    case Empty => [x]
    case Chr(_) => OneCharOrder(env, r, back, x)
    case AnyChar(_) => OneCharOrder(env, r, back, x)
    case Class(_) => OneCharOrder(env, r, back, x)
    case Bol => If(AtLineStart(env, x.pos), x)
    case Eol => If(AtLineEnd(env, x.pos), x)
    case WordB(neg) => If(AtWordBoundary(env, x.pos) != neg, x)
    case BackRef(n) => Ref(env, n, back, x)
    case Cat(_, _) =>
      var ys := Order(env, First(r, back), back, FirstCount(r, back, cc), x);
      var ls := seq(|ys|, t requires 0 <= t < |ys| => Order(env, Second(r, back), back, SecondCount(r, back, cc), ys[t]));
      FlattenAfter(env, back, x, ls);
      Flatten(ls)
    case Alt(a, b) => Order(env, a, back, cc, x) + Order(env, b, back, cc + Captures(a), x)
    case Capture(r1) => 
      var ys := Order(env, r1, back, cc + 1, Enter(back, cc, x));
      seq(|ys|, t requires 0 <= t < |ys| => Leave(back, cc, ys[t]))
    case Look(neg, behind, r1) => LookOrder(neg, Order(env, r1, behind, cc, x), x)
    case Quant(r1, min, max, greedy) =>
      Rounds(env, r1, back, cc, min, max, greedy, if min == 0 then Forget(x, cc, cc + Captures(r1)) else x)
  }

  function Enter(back: bool, n: nat, x: Spot): Spot
  {
    Spot(x.pos, SetCap(x.caps, if back then 2 * n + 1 else 2 * n, Some(x.pos)))
  }

  function Leave(back: bool, n: nat, x: Spot): Spot
  {
    Spot(x.pos, SetCap(x.caps, if back then 2 * n else 2 * n + 1, Some(x.pos)))
  }

  /** Between min and max rounds of r. A round of an unbounded loop that does not
      advance is the last one. */
  ghost function Rounds(env: Env, r: Re, back: bool, cc: nat, min: nat, max: nat, greedy: bool, x: Spot): (out: seq<Spot>)
    requires Valid(r) && max <= INF && Inside(env, x)
    ensures AllAfter(env, back, x, out)
    decreases r, 1, min, if max == INF then Distance(env, back, x) else max
  {
    var ys := Order(env, r, back, cc, x);
    if min > 0 then
      var ls := seq(|ys|, t requires 0 <= t < |ys| => Rounds(env, r, back, cc, min - 1, Less(max), greedy, ys[t]));
      FlattenAfter(env, back, x, ls);
      Flatten(ls)
    else if max == 0 then [x]
    else
      var ls := seq(|ys|, t requires 0 <= t < |ys| =>
        if max == INF && ys[t].pos == x.pos then [ys[t]] else Rounds(env, r, back, cc, 0, Less(max), greedy, ys[t]));
      FlattenAfter(env, back, x, ls);
      if greedy then Flatten(ls) + [x] else [x] + Flatten(ls)
  }

  // ------------------------------------------------------------- one level unfolded

  lemma {:induction false} FlattenIn(ls: seq<seq<Spot>>, y: Spot) returns (t: nat)
    requires y in Flatten(ls)
    ensures t < |ls| && y in ls[t]
  {
    if y in ls[0] {
      t := 0;
    } else {
      var t1 := FlattenIn(ls[1..], y);
      t := t1 + 1;
    }
  }

  lemma {:induction false} InFlatten(ls: seq<seq<Spot>>, t: nat, y: Spot)
    requires t < |ls| && y in ls[t]
    ensures y in Flatten(ls)
  {
    if t > 0 {
      assert ls[t] == ls[1..][t - 1];
      InFlatten(ls[1..], t - 1, y);
    }
  }

  lemma CatOrder(env: Env, r: Re, back: bool, cc: nat, x: Spot) returns (ls: seq<seq<Spot>>)
    requires r.Cat? && Valid(r) && Inside(env, x)
    ensures Order(env, r, back, cc, x) == Flatten(ls)
    ensures var ys := Order(env, First(r, back), back, FirstCount(r, back, cc), x);
            |ls| == |ys| && forall t :: 0 <= t < |ls| ==> ls[t] == Order(env, Second(r, back), back, SecondCount(r, back, cc), ys[t])
  {
    var ys := Order(env, First(r, back), back, FirstCount(r, back, cc), x);
    ls := seq(|ys|, t requires 0 <= t < |ys| => Order(env, Second(r, back), back, SecondCount(r, back, cc), ys[t]));
  }

  lemma RoundsMin(env: Env, r: Re, back: bool, cc: nat, min: nat, max: nat, greedy: bool, x: Spot) returns (ls: seq<seq<Spot>>)
    requires Valid(r) && max <= INF && Inside(env, x) && min > 0
    ensures Rounds(env, r, back, cc, min, max, greedy, x) == Flatten(ls)
    ensures var ys := Order(env, r, back, cc, x);
            |ls| == |ys| && forall t :: 0 <= t < |ls| ==> ls[t] == Rounds(env, r, back, cc, min - 1, Less(max), greedy, ys[t])
  {
    var ys := Order(env, r, back, cc, x);
    ls := seq(|ys|, t requires 0 <= t < |ys| => Rounds(env, r, back, cc, min - 1, Less(max), greedy, ys[t]));
  }

  lemma RoundsMore(env: Env, r: Re, back: bool, cc: nat, max: nat, greedy: bool, x: Spot) returns (ls: seq<seq<Spot>>)
    requires Valid(r) && 0 < max <= INF && Inside(env, x)
    ensures Rounds(env, r, back, cc, 0, max, greedy, x) == if greedy then Flatten(ls) + [x] else [x] + Flatten(ls)
    ensures var ys := Order(env, r, back, cc, x);
            |ls| == |ys| && forall t :: 0 <= t < |ls| ==>
              ls[t] == if max == INF && ys[t].pos == x.pos then [ys[t]] else Rounds(env, r, back, cc, 0, Less(max), greedy, ys[t])
  {
    var ys := Order(env, r, back, cc, x);
    ls := seq(|ys|, t requires 0 <= t < |ys| =>
      if max == INF && ys[t].pos == x.pos then [ys[t]] else Rounds(env, r, back, cc, 0, Less(max), greedy, ys[t]));
  }

  // -------------------------------------------------------------- character boundaries

  ghost predicate AllBoundary(env: Env, ys: seq<Spot>)
  {
    forall t :: 0 <= t < |ys| ==> Boundary(env, ys[t].pos)
  }

  lemma {:induction false} FlattenBoundary(env: Env, ls: seq<seq<Spot>>)
    requires forall t :: 0 <= t < |ls| ==> AllBoundary(env, ls[t])
    ensures AllBoundary(env, Flatten(ls))
  {
    if ls != [] {
      FlattenBoundary(env, ls[1..]);
    }
  }

  lemma {:induction false} RepeatBoundary(env: Env, p: nat, end: nat, pos: nat)
    requires end <= |env.units| && Boundary(env, pos)
    ensures RepeatForward(env, p, end, pos).Some? ==> Boundary(env, RepeatForward(env, p, end, pos).value)
    decreases end - p
  {
    if p < end && pos < |env.units| {
      RepeatBoundary(env, GetCharTo(env, p, end).1, end, GetChar(env, pos).1);
    }
  }

  lemma {:induction false} RepeatBackBoundary(env: Env, p: nat, start: nat, pos: nat)
    requires p <= |env.units| && Boundary(env, pos)
    ensures RepeatBackward(env, p, start, pos).Some? ==> Boundary(env, RepeatBackward(env, p, start, pos).value)
    decreases p
  {
    if p > start && pos > 0 {
      assert GetPrevFrom(env, pos, 0).1 == PrevChar(env, pos);
      RepeatBackBoundary(env, GetPrevFrom(env, p, start).1, start, PrevChar(env, pos));
    }
  }

  lemma RefBoundary(env: Env, n: nat, back: bool, x: Spot)
    requires Boundary(env, x.pos)
    ensures AllBoundary(env, Ref(env, n, back, x))
  {
    if 2 * n + 1 < |x.caps| && x.caps[2 * n].Some? && x.caps[2 * n + 1].Some? {
      var start, end := x.caps[2 * n].value, x.caps[2 * n + 1].value;
      if start <= |env.units| && end <= |env.units| {
        RepeatBoundary(env, start, end, x.pos);
        RepeatBackBoundary(env, end, start, x.pos);
      }
    }
  }

  /** A match that starts on a character boundary ends on one. */
  lemma {:induction false} OrderBoundary(env: Env, r: Re, back: bool, cc: nat, x: Spot)
    requires Valid(r) && Boundary(env, x.pos)
    ensures AllBoundary(env, Order(env, r, back, cc, x))
    decreases r, 0, 1
  {
    if r.Cat? {
      CatBoundary(env, r, back, cc, x);
    } else if r.Alt? {
      OrderBoundary(env, r.a, back, cc, x);
      OrderBoundary(env, r.b, back, cc + Captures(r.a), x);
    } else if r.Capture? {
      OrderBoundary(env, r.r, back, cc + 1, Enter(back, cc, x));
    } else if r.Quant? {
      RoundsBoundary(env, r.r, back, cc, r.min, r.max, r.greedy, if r.min == 0 then Forget(x, cc, cc + Captures(r.r)) else x);
    } else {
      LeafBoundary(env, r, back, cc, x);
    }
  }

  lemma LeafBoundary(env: Env, r: Re, back: bool, cc: nat, x: Spot)
    requires Valid(r) && (Leaf(r) || r.Look?) && Boundary(env, x.pos)
    ensures AllBoundary(env, Order(env, r, back, cc, x))
  {
    if r.BackRef? {
      RefBoundary(env, r.n, back, x);
    }
  }

  lemma {:induction false} CatBoundary(env: Env, r: Re, back: bool, cc: nat, x: Spot)
    requires r.Cat? && Valid(r) && Boundary(env, x.pos)
    ensures AllBoundary(env, Order(env, r, back, cc, x))
    decreases r, 0, 0
  {
    var ys := Order(env, First(r, back), back, FirstCount(r, back, cc), x);
    OrderBoundary(env, First(r, back), back, FirstCount(r, back, cc), x);
    var ls := CatOrder(env, r, back, cc, x);
    forall t | 0 <= t < |ls| ensures AllBoundary(env, ls[t]) {
      OrderBoundary(env, Second(r, back), back, SecondCount(r, back, cc), ys[t]);
    }
    FlattenBoundary(env, ls);
  }

  lemma {:induction false} RoundsBoundary(env: Env, r: Re, back: bool, cc: nat, min: nat, max: nat, greedy: bool, x: Spot)
    requires Valid(r) && max <= INF && Boundary(env, x.pos)
    ensures AllBoundary(env, Rounds(env, r, back, cc, min, max, greedy, x))
    decreases r, 1, min, if max == INF then Distance(env, back, x) else max
  {
    var ys := Order(env, r, back, cc, x);
    OrderBoundary(env, r, back, cc, x);
    if min > 0 {
      var ls := RoundsMin(env, r, back, cc, min, max, greedy, x);
      forall t | 0 <= t < |ls| ensures AllBoundary(env, ls[t]) {
        RoundsBoundary(env, r, back, cc, min - 1, Less(max), greedy, ys[t]);
      }
      FlattenBoundary(env, ls);
    } else if max > 0 {
      var ls := RoundsMore(env, r, back, cc, max, greedy, x);
      forall t | 0 <= t < |ls| ensures AllBoundary(env, ls[t]) {
        assert After(env, back, x, ys[t]);
        if max != INF || ys[t].pos != x.pos {
          RoundsBoundary(env, r, back, cc, 0, Less(max), greedy, ys[t]);
        }
      }
      FlattenBoundary(env, ls);
    }
  }

  // ------------------------------------------- the same under names that stay folded

  ghost predicate IsOrder(env: Env, r: Re, back: bool, cc: nat, x: Spot, out: seq<Spot>)
    requires Valid(r) && Inside(env, x)
  {
    forall t :: Ask(t) ==> out == Order(env, r, back, cc, x)
  }

  ghost predicate IsRounds(env: Env, r: Re, back: bool, cc: nat, min: nat, max: nat, greedy: bool, x: Spot, out: seq<Spot>)
    requires Valid(r) && max <= INF && Inside(env, x)
  {
    forall t :: Ask(t) ==> out == Rounds(env, r, back, cc, min, max, greedy, x)
  }

  /** Order. */
  ghost function Outcomes(env: Env, r: Re, back: bool, cc: nat, x: Spot): (out: seq<Spot>)
    requires Valid(r) && Inside(env, x)
    ensures IsOrder(env, r, back, cc, x, out)
  {
    assert IsOrder(env, r, back, cc, x, Order(env, r, back, cc, x));
    var out :| IsOrder(env, r, back, cc, x, out);
    out
  }

  /** Rounds. */
  ghost function Laps(env: Env, r: Re, back: bool, cc: nat, min: nat, max: nat, greedy: bool, x: Spot): (out: seq<Spot>)
    requires Valid(r) && max <= INF && Inside(env, x)
    ensures IsRounds(env, r, back, cc, min, max, greedy, x, out)
  {
    assert IsRounds(env, r, back, cc, min, max, greedy, x, Rounds(env, r, back, cc, min, max, greedy, x));
    var out :| IsRounds(env, r, back, cc, min, max, greedy, x, out);
    out
  }

  lemma OutcomesOrder(env: Env, r: Re, back: bool, cc: nat, x: Spot)
    requires Valid(r) && Inside(env, x)
    ensures Outcomes(env, r, back, cc, x) == Order(env, r, back, cc, x)
  {
    assert Ask(0);
  }

  lemma LapsRounds(env: Env, r: Re, back: bool, cc: nat, min: nat, max: nat, greedy: bool, x: Spot)
    requires Valid(r) && max <= INF && Inside(env, x)
    ensures Laps(env, r, back, cc, min, max, greedy, x) == Rounds(env, r, back, cc, min, max, greedy, x)
  {
    assert Ask(0);
  }

  lemma OutcomesBoundary(env: Env, r: Re, back: bool, cc: nat, x: Spot)
    requires Valid(r) && Boundary(env, x.pos)
    ensures AllAfter(env, back, x, Outcomes(env, r, back, cc, x)) && AllBoundary(env, Outcomes(env, r, back, cc, x))
  {
    OutcomesOrder(env, r, back, cc, x);
    OrderBoundary(env, r, back, cc, x);
  }

  lemma LapsNone(env: Env, r: Re, back: bool, cc: nat, greedy: bool, x: Spot)
    requires Valid(r) && Inside(env, x)
    ensures Laps(env, r, back, cc, 0, 0, greedy, x) == [x]
  {
    LapsRounds(env, r, back, cc, 0, 0, greedy, x);
  }

  /** The outcomes after one of the rounds that are required. */
  lemma LapsMin(env: Env, r: Re, back: bool, cc: nat, min: nat, max: nat, greedy: bool, x: Spot) returns (ls: seq<seq<Spot>>)
    requires Valid(r) && max <= INF && Boundary(env, x.pos) && min > 0
    ensures Laps(env, r, back, cc, min, max, greedy, x) == Flatten(ls)
    ensures var ys := Outcomes(env, r, back, cc, x);
            |ls| == |ys| && AllAfter(env, back, x, ys) && AllBoundary(env, ys) &&
            forall t :: 0 <= t < |ls| ==> ls[t] == Laps(env, r, back, cc, min - 1, Less(max), greedy, ys[t])
  {
    OutcomesBoundary(env, r, back, cc, x);
    OutcomesOrder(env, r, back, cc, x);
    LapsRounds(env, r, back, cc, min, max, greedy, x);
    ls := RoundsMin(env, r, back, cc, min, max, greedy, x);
    var ys := Outcomes(env, r, back, cc, x);
    forall t | 0 <= t < |ls| ensures ls[t] == Laps(env, r, back, cc, min - 1, Less(max), greedy, ys[t]) {
      LapsRounds(env, r, back, cc, min - 1, Less(max), greedy, ys[t]);
    }
  }

  ghost function LoopOr(x: Spot, more: seq<Spot>, greedy: bool): seq<Spot>
  {
    if greedy then more + [x] else [x] + more
  }

  /** The outcomes after one more round, and the one without it. */
  lemma LapsMore(env: Env, r: Re, back: bool, cc: nat, max: nat, greedy: bool, x: Spot) returns (ls: seq<seq<Spot>>)
    requires Valid(r) && 0 < max <= INF && Boundary(env, x.pos)
    ensures Laps(env, r, back, cc, 0, max, greedy, x) == LoopOr(x, Flatten(ls), greedy)
    ensures var ys := Outcomes(env, r, back, cc, x);
            |ls| == |ys| && AllAfter(env, back, x, ys) && AllBoundary(env, ys) &&
            forall t :: 0 <= t < |ls| ==>
              ls[t] == if max == INF && ys[t].pos == x.pos then [ys[t]] else Laps(env, r, back, cc, 0, Less(max), greedy, ys[t])
  {
    OutcomesBoundary(env, r, back, cc, x);
    OutcomesOrder(env, r, back, cc, x);
    LapsRounds(env, r, back, cc, 0, max, greedy, x);
    ls := RoundsMore(env, r, back, cc, max, greedy, x);
    var ys := Outcomes(env, r, back, cc, x);
    forall t | 0 <= t < |ls|
      ensures ls[t] == if max == INF && ys[t].pos == x.pos then [ys[t]] else Laps(env, r, back, cc, 0, Less(max), greedy, ys[t]) {
      LapsRounds(env, r, back, cc, 0, Less(max), greedy, ys[t]);
    }
  }

  lemma CatOutcomes(env: Env, r: Re, back: bool, cc: nat, x: Spot) returns (ls: seq<seq<Spot>>)
    requires r.Cat? && Valid(r) && Boundary(env, x.pos)
    ensures Outcomes(env, r, back, cc, x) == Flatten(ls)
    ensures var ys := Outcomes(env, First(r, back), back, FirstCount(r, back, cc), x);
            |ls| == |ys| && AllAfter(env, back, x, ys) && AllBoundary(env, ys) &&
            forall t :: 0 <= t < |ls| ==> ls[t] == Outcomes(env, Second(r, back), back, SecondCount(r, back, cc), ys[t])
  {
    OutcomesOrder(env, r, back, cc, x);
    ls := CatOrder(env, r, back, cc, x);
    var ys := Outcomes(env, First(r, back), back, FirstCount(r, back, cc), x);
    OutcomesBoundary(env, First(r, back), back, FirstCount(r, back, cc), x);
    OutcomesOrder(env, First(r, back), back, FirstCount(r, back, cc), x);
    forall t | 0 <= t < |ls| ensures ls[t] == Outcomes(env, Second(r, back), back, SecondCount(r, back, cc), ys[t]) {
      OutcomesOrder(env, Second(r, back), back, SecondCount(r, back, cc), ys[t]);
    }
  }

  lemma QuantOutcomes(env: Env, r: Re, back: bool, cc: nat, x: Spot)
    requires r.Quant? && Valid(r) && Inside(env, x)
    ensures Outcomes(env, r, back, cc, x) ==
            Laps(env, r.r, back, cc, r.min, r.max, r.greedy, if r.min == 0 then Forget(x, cc, cc + Captures(r.r)) else x)
  {
    OutcomesOrder(env, r, back, cc, x);
    LapsRounds(env, r.r, back, cc, r.min, r.max, r.greedy, if r.min == 0 then Forget(x, cc, cc + Captures(r.r)) else x);
  }
}
