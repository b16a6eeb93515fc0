/** For patterns without back references the ordered outcomes are, as a set, the plain
    matches; so the program reports a match exactly when there is one. */
module RegexpExists {
  import opened RegexpInput
  import opened RegexpCode
  import opened RegexpMachine
  import opened RegexpSemantics
  import opened RegexpOrder
  import opened RegexpAnalysis
  import opened RegexpLoops
  import opened RegexpSimple
  import opened RegexpCorrect
  import opened RegexpMatch

  // ------------------------------------------------------------ outcomes are matches

  lemma {:induction false} OutcomeMatches(env: Env, r: Re, back: bool, cc: nat, x: Spot, y: Spot)
    requires Valid(r) && NoBackRef(r) && Boundary(env, x.pos) && y in Outcomes(env, r, back, cc, x)
    ensures Matches(env, r, back, x.pos, y.pos)
    decreases r, 0
  {
    match r
    case Cat(_, _) =>
      var ls := CatOutcomes(env, r, back, cc, x);
      var t := FlattenIn(ls, y);
      var m := Outcomes(env, First(r, back), back, FirstCount(r, back, cc), x)[t];
      OutcomeMatches(env, First(r, back), back, FirstCount(r, back, cc), x, m);
      OutcomeMatches(env, Second(r, back), back, SecondCount(r, back, cc), m, y);
    case Alt(a, b) =>
      AltOutcomes(env, r, back, cc, x);
      if y in Outcomes(env, a, back, cc, x) {
        OutcomeMatches(env, a, back, cc, x, y);
      } else {
        OutcomeMatches(env, b, back, cc + Captures(a), x, y);
      }
    case Capture(r1) =>
      CaptureOutcomes(env, r, back, cc, x);
      var ys := Outcomes(env, r1, back, cc + 1, Enter(back, cc, x));
      var t :| 0 <= t < |ys| && y == LeaveAll(back, cc, ys)[t];
      OutcomeMatches(env, r1, back, cc + 1, Enter(back, cc, x), ys[t]);
    case Look(neg, behind, r1) =>
      LookMatches(env, r, back, cc, x);
    case Quant(r1, min, max, greedy) =>
      QuantOutcomes(env, r, back, cc, x);
      var n := LapMatches(env, r1, back, cc, min, max, greedy, if min == 0 then Forget(x, cc, cc + Captures(r1)) else x, y);
    case _ => OutcomesOrder(env, r, back, cc, x);
  }

  lemma {:induction false} LookMatches(env: Env, r: Re, back: bool, cc: nat, x: Spot)
    requires r.Look? && Valid(r) && NoBackRef(r) && Boundary(env, x.pos)
    ensures Outcomes(env, r, back, cc, x) == [] || (|Outcomes(env, r, back, cc, x)| == 1 && Outcomes(env, r, back, cc, x)[0].pos == x.pos)
    ensures Outcomes(env, r, back, cc, x) != [] <==> Matches(env, r, back, x.pos, x.pos)
    decreases r, 0, 0
  {
    var inner := Outcomes(env, r.r, r.behind, cc, x);
    LookOutcomes(env, r, back, cc, x);
    if inner != [] {
      OutcomeMatches(env, r.r, r.behind, cc, x, inner[0]);
    } else {
      forall e: nat ensures !Matches(env, r.r, r.behind, x.pos, e) {
        if Matches(env, r.r, r.behind, x.pos, e) {
          var y := MatchOutcome(env, r.r, r.behind, cc, x, e);
        }
      }
    }
  }

  /** An outcome of rounds is a number of matches in a row. */
  lemma {:induction false} LapMatches(env: Env, r: Re, back: bool, cc: nat, min: nat, max: nat, greedy: bool, x: Spot, y: Spot) returns (n: nat)
    requires Valid(r) && NoBackRef(r) && min <= max <= INF && Boundary(env, x.pos)
    requires y in Laps(env, r, back, cc, min, max, greedy, x)
    ensures min <= n && (max == INF || n <= max) && Iter(env, r, back, n, x.pos, y.pos)
    decreases r, 1, min, if max == INF then Distance(env, back, x) else max
  {
    if min == 0 && y.pos == x.pos {
      n := 0;
    } else if max == 0 {
      LapsNone(env, r, back, cc, greedy, x);
    } else {
      var m := LapFirst(env, r, back, cc, min, max, greedy, x, y);
      OutcomeMatches(env, r, back, cc, x, m);
      var n1 := LapMatches(env, r, back, cc, if min > 0 then min - 1 else 0, Less(max), greedy, m, y);
      n := n1 + 1;
    }
  }

  lemma LapFirst(env: Env, r: Re, back: bool, cc: nat, min: nat, max: nat, greedy: bool, x: Spot, y: Spot) returns (m: Spot)
    requires Valid(r) && min <= max <= INF && max > 0 && Boundary(env, x.pos)
    requires y in Laps(env, r, back, cc, min, max, greedy, x) && (min > 0 || y.pos != x.pos)
    ensures m in Outcomes(env, r, back, cc, x) && Boundary(env, m.pos) && After(env, back, x, m)
    ensures min == 0 && max == INF ==> m.pos != x.pos
    ensures y in Laps(env, r, back, cc, if min > 0 then min - 1 else 0, Less(max), greedy, m)
  {
    var ys := Outcomes(env, r, back, cc, x);
    if min > 0 {
      var ls := LapsMin(env, r, back, cc, min, max, greedy, x);
      var t := FlattenIn(ls, y);
      m := ys[t];
    } else {
      var ls := LapsMore(env, r, back, cc, max, greedy, x);
      var t := FlattenIn(ls, y);
      m := ys[t];
    }
  }

  // ------------------------------------------------------------ matches are outcomes

  lemma {:induction false} MatchOutcome(env: Env, r: Re, back: bool, cc: nat, x: Spot, j: nat) returns (y: Spot)
    requires Valid(r) && NoBackRef(r) && Boundary(env, x.pos) && Matches(env, r, back, x.pos, j)
    ensures y in Outcomes(env, r, back, cc, x) && y.pos == j
    decreases r, 0
  {
    if Leaf(r) {
      y := LeafOutcome(env, r, back, cc, x, j);
    } else if r.Cat? {
      var i: nat :| Matches(env, First(r, back), back, x.pos, i) && Matches(env, Second(r, back), back, i, j);
      var ls := CatOutcomes(env, r, back, cc, x);
      var m := MatchOutcome(env, First(r, back), back, FirstCount(r, back, cc), x, i);
      var t :| 0 <= t < |ls| && Outcomes(env, First(r, back), back, FirstCount(r, back, cc), x)[t] == m;
      y := MatchOutcome(env, Second(r, back), back, SecondCount(r, back, cc), m, j);
      InFlatten(ls, t, y);
    } else if r.Alt? {
      AltOutcomes(env, r, back, cc, x);
      if Matches(env, r.a, back, x.pos, j) {
        y := MatchOutcome(env, r.a, back, cc, x, j);
      } else {
        y := MatchOutcome(env, r.b, back, cc + Captures(r.a), x, j);
      }
    } else if r.Capture? {
      CaptureOutcomes(env, r, back, cc, x);
      var ys := Outcomes(env, r.r, back, cc + 1, Enter(back, cc, x));
      var y1 := MatchOutcome(env, r.r, back, cc + 1, Enter(back, cc, x), j);
      var t :| 0 <= t < |ys| && ys[t] == y1;
      y := LeaveAll(back, cc, ys)[t];
    } else if r.Look? {
      LookMatches(env, r, back, cc, x);
      y := Outcomes(env, r, back, cc, x)[0];
    } else {
      QuantOutcomes(env, r, back, cc, x);
      var n: nat :| r.min <= n && (r.max == INF || n <= r.max) && Iter(env, r.r, back, n, x.pos, j);
      y := MatchLap(env, r.r, back, cc, r.min, r.max, r.greedy, if r.min == 0 then Forget(x, cc, cc + Captures(r.r)) else x, n, j);
    }
  }

  lemma LeafOutcome(env: Env, r: Re, back: bool, cc: nat, x: Spot, j: nat) returns (y: Spot)
    requires Valid(r) && Leaf(r) && Boundary(env, x.pos) && Matches(env, r, back, x.pos, j)
    ensures y in Outcomes(env, r, back, cc, x) && y.pos == j
  {
    OutcomesOrder(env, r, back, cc, x);
    y := Spot(j, x.caps);
  }

  lemma {:induction false} MatchLap(env: Env, r: Re, back: bool, cc: nat, min: nat, max: nat, greedy: bool, x: Spot, n: nat, j: nat) returns (y: Spot)
    requires Valid(r) && NoBackRef(r) && min <= max <= INF && Boundary(env, x.pos)
    requires min <= n && (max == INF || n <= max) && Iter(env, r, back, n, x.pos, j)
    ensures y in Laps(env, r, back, cc, min, max, greedy, x) && y.pos == j
    decreases r, 1, min, if max == INF then Distance(env, back, x) else max, n
  {
    var ys := Outcomes(env, r, back, cc, x);
    if n == 0 {
      if max == 0 {
        LapsNone(env, r, back, cc, greedy, x);
      } else {
        var ls := LapsMore(env, r, back, cc, max, greedy, x);
      }
      y := x;
    } else {
      var i := IterFirst(env, r, back, n, x.pos, j);
      var m := MatchOutcome(env, r, back, cc, x, i);
      var t :| 0 <= t < |ys| && ys[t] == m;
      if min > 0 {
        var ls := LapsMin(env, r, back, cc, min, max, greedy, x);
        y := MatchLap(env, r, back, cc, min - 1, Less(max), greedy, m, n - 1, j);
        InFlatten(ls, t, y);
      } else if max == INF && i == x.pos {
        y := MatchLap(env, r, back, cc, 0, max, greedy, x, n - 1, j);
      } else {
        var ls := LapsMore(env, r, back, cc, max, greedy, x);
        y := MatchLap(env, r, back, cc, 0, Less(max), greedy, m, n - 1, j);
        InFlatten(ls, t, y);
      }
    }
  }

  // ---------------------------------------------------------- when the code terminates

  /** Bodies of lazy unbounded loops never match the empty string. */
  ghost predicate LazyAdvances(env: Env, r: Re, back: bool)
  {
    match r
    case Cat(a, b) => LazyAdvances(env, a, back) && LazyAdvances(env, b, back)
    case Alt(a, b) => LazyAdvances(env, a, back) && LazyAdvances(env, b, back)
    case Capture(r1) => LazyAdvances(env, r1, back)
    case Look(_, behind, r1) => LazyAdvances(env, r1, behind)
    case Quant(r1, _, max, greedy) =>
      max == 0 || (LazyAdvances(env, r1, back) && (max == INF && !greedy ==> NeverEmpty(env, r1, back)))
    case _ => true
  }

  ghost predicate NeverEmpty(env: Env, r: Re, back: bool)
  {
    forall i: nat :: Boundary(env, i) ==> !Matches(env, r, back, i, i)
  }

  /** No back reference in the code. */
  ghost predicate NoRef(s: seq<Cell>)
  {
    Refs(s) == {}
  }

  lemma {:induction false} NoRefJoin(a: seq<Cell>, b: seq<Cell>)
    requires NoRef(a) && NoRef(b)
    ensures NoRef(a + b)
  {
    if a == [] {
      assert a + b == b;
    } else {
      assert (a + b)[1..] == a[1..] + b;
      NoRefJoin(a[1..], b);
    }
  }

  lemma NoRefFirst(i: Instr, rest: seq<Cell>)
    requires ReferredBy(i) == {} && NoRef(rest)
    ensures NoRef(Enc(i) + rest)
  {
    FirstEffectEnc(i);
    NoRefJoin(Enc(i), rest);
  }

  lemma NoRefLast(rest: seq<Cell>, i: Instr)
    requires ReferredBy(i) == {} && NoRef(rest)
    ensures NoRef(Enc(i)) && NoRef(rest + Enc(i))
  {
    FirstEffectEnc(i);
    NoRefJoin(rest, Enc(i));
  }

  lemma StarNoRef(at: seq<Cell>, check: bool, greedy: bool)
    requires NoRef(at)
    ensures NoRef(Star(at, check, greedy))
  {
    if check {
      var tail := at + Enc(BneCharPos(-(|at| + 11)));
      NoRefLast(at, BneCharPos(-(|at| + 11)));
      NoRefFirst(PushCharPos, tail);
      NoRefFirst(Split(greedy, |at| + 6), Enc(PushCharPos) + tail);
    } else {
      NoRefLast(at, Goto(-(|at| + 10)));
      NoRefFirst(Split(greedy, |at| + 5), at + Enc(Goto(-(|at| + 10))));
    }
  }

  lemma UpToNoRef(at: seq<Cell>, greedy: bool, n: nat)
    requires NoRef(at)
    ensures NoRef(UpTo(at, greedy, n)) && NoRef(Times(at, n))
  {
    NoRefLast([], Drop);
    NoRefFirst(Loop(-(|at| + 10)), Enc(Drop));
    NoRefFirst(Loop(-(|at| + 5)), Enc(Drop));
    NoRefJoin(at, Enc(Loop(-(|at| + 10))) + Enc(Drop));
    NoRefJoin(at, Enc(Loop(-(|at| + 5))) + Enc(Drop));
    NoRefFirst(Split(greedy, |at| + 5), at + (Enc(Loop(-(|at| + 10))) + Enc(Drop)));
    NoRefFirst(PushI32(n), Enc(Split(greedy, |at| + 5)) + (at + (Enc(Loop(-(|at| + 10))) + Enc(Drop))));
    NoRefFirst(PushI32(n), at + (Enc(Loop(-(|at| + 5))) + Enc(Drop)));
  }

  lemma OptionalNoRef(at: seq<Cell>, check: bool, greedy: bool, max: nat, first: nat, next: nat)
    requires NoRef(at)
    ensures NoRef(OptionalCode(at, check, greedy, max, first, next))
  {
    var body := OptionalBody(at, check, greedy, max);
    StarNoRef(at, check, greedy);
    UpToNoRef(at, greedy, max);
    NoRefFirst(Split(greedy, |at|), at);
    if first != next {
      NoRefFirst(SaveReset(first, next - 1), body);
    } else {
      assert [] + body == body;
    }
  }

  lemma RepeatedNoRef(at: seq<Cell>, check: bool, greedy: bool, min: nat, max: nat)
    requires NoRef(at)
    ensures NoRef(RepeatedCode(at, check, greedy, min, max))
  {
    StarNoRef(at, check, greedy);
    UpToNoRef(at, greedy, min);
    if max > min { UpToNoRef(at, greedy, max - min); }
    NoRefJoin(if min == 1 then at else Times(at, min), RepeatedTail(at, check, greedy, min, max));
  }

  lemma QuantNoRef(at: seq<Cell>, min: nat, max: nat, greedy: bool, first: nat, next: nat)
    requires NoRef(at)
    ensures NoRef(QuantCode(at, min, max, greedy, first, next))
  {
    var check := NeedsCheck(at, greedy);
    if IsSimple(at, max, greedy) {
      NoRefLast(at, Match);
      NoRefFirst(SimpleGreedyQuant(|at| + 1, min, max, SimpleLength(at)), at + Enc(Match));
    } else if min == 0 {
      OptionalNoRef(at, check, greedy, max, first, next);
    } else if min == 1 && max == INF && !check {
      NoRefLast(at, if greedy then SplitGotoFirst(-(|at| + 5)) else SplitNextFirst(-(|at| + 5)));
    } else {
      RepeatedNoRef(at, check, greedy, min, max);
    }
  }

  lemma AltNoRef(ca: seq<Cell>, cb: seq<Cell>)
    requires NoRef(ca) && NoRef(cb)
    ensures NoRef(AltCode(ca, cb))
  {
    NoRefFirst(Goto(|cb|), cb);
    NoRefJoin(ca, Enc(Goto(|cb|)) + cb);
    NoRefFirst(SplitNextFirst(|ca| + 5), ca + (Enc(Goto(|cb|)) + cb));
  }

  lemma CaptureNoRef(c: seq<Cell>, back: bool, n: nat)
    requires NoRef(c)
    ensures NoRef(CaptureCode(c, back, n))
  {
    var i1, i2 := if back then SaveEnd(n) else SaveStart(n), if back then SaveStart(n) else SaveEnd(n);
    NoRefLast(c, i2);
    NoRefFirst(i1, c + Enc(i2));
  }

  lemma LookNoRef(c: seq<Cell>, neg: bool)
    requires NoRef(c)
    ensures NoRef(LookCode(c, neg))
  {
    NoRefLast(c, Match);
    NoRefFirst(if neg then NegativeLookahead(|c| + 1) else Lookahead(|c| + 1), c + Enc(Match));
  }

  lemma LeafNoRef(r: Re, back: bool, cc: nat)
    requires Valid(r) && Leaf(r) && NoBackRef(r)
    ensures NoRef(Code(r, back, cc))
  {
    CodeEmit(r, back, cc);
    if r.Bol? || r.Eol? || r.WordB? {
      NoRefLast([], TestOf(r));
    } else if !r.Empty? {
      NoRefLast([], InstrOf(r));
      NoRefLast(Enc(InstrOf(r)), Prev);
      NoRefFirst(Prev, Enc(InstrOf(r)) + Enc(Prev));
    }
  }

  lemma {:induction false} CodeNoRef(r: Re, back: bool, cc: nat)
    requires Valid(r) && NoBackRef(r)
    ensures NoRef(Code(r, back, cc))
    decreases r
  {
    match r
    case Cat(_, _) =>
      CodeCat(r, back, cc);
      CodeNoRef(First(r, back), back, FirstCount(r, back, cc));
      CodeNoRef(Second(r, back), back, SecondCount(r, back, cc));
      NoRefJoin(Code(First(r, back), back, FirstCount(r, back, cc)), Code(Second(r, back), back, SecondCount(r, back, cc)));
    case Alt(a, b) =>
      CodeAlt(r, back, cc);
      CodeNoRef(a, back, cc);
      CodeNoRef(b, back, cc + Captures(a));
      AltNoRef(Code(a, back, cc), Code(b, back, cc + Captures(a)));
    case Capture(r1) =>
      CodeCapture(r, back, cc);
      CodeNoRef(r1, back, cc + 1);
      CaptureNoRef(Code(r1, back, cc + 1), back, cc);
    case Look(neg, behind, r1) =>
      CodeLook(r, back, cc);
      CodeNoRef(r1, behind, cc);
      LookNoRef(Code(r1, behind, cc), neg);
    case Quant(r1, min, max, greedy) =>
      CodeQuant(r, back, cc);
      CodeNoRef(r1, back, cc);
      QuantNoRef(Code(r1, back, cc), min, max, greedy, cc, cc + Captures(r1));
    case _ => LeafNoRef(r, back, cc);
  }

  lemma NeverEmptyAdvancing(env: Env, r: Re, back: bool, cc: nat)
    requires Valid(r) && NoBackRef(r) && NeverEmpty(env, r, back)
    ensures Advancing(env, r, back, cc)
  {
    forall x: Spot | Boundary(env, x.pos) ensures AllMoved(x, Outcomes(env, r, back, cc, x)) {
      var ys := Outcomes(env, r, back, cc, x);
      forall t | 0 <= t < |ys| ensures ys[t].pos != x.pos {
        OutcomeMatches(env, r, back, cc, x, ys[t]);
      }
    }
  }

  lemma {:induction false} LazySafe(env: Env, r: Re, back: bool, cc: nat)
    requires Valid(r) && NoBackRef(r) && LazyAdvances(env, r, back)
    ensures Safe(env, r, back, cc)
    decreases r
  {
    match r
    case Cat(a, b) =>
      LazySafe(env, a, back, cc);
      LazySafe(env, b, back, cc + Captures(a));
    case Alt(a, b) =>
      LazySafe(env, a, back, cc);
      LazySafe(env, b, back, cc + Captures(a));
    case Capture(r1) => LazySafe(env, r1, back, cc + 1);
    case Look(_, behind, r1) => LazySafe(env, r1, behind, cc);
    case Quant(r1, _, max, greedy) =>
      if max > 0 { LazySafe(env, r1, back, cc); }
      CodeNoRef(r1, back, cc);
      CodeEmit(r1, back, cc);
      if max == INF && !greedy { NeverEmptyAdvancing(env, r1, back, cc); }
    case _ =>
  }

  // -------------------------------------------------------------------- the decision

  /** Where a match may start. */
  ghost predicate MayStart(env: Env, sticky: bool, start: nat, i: nat)
  {
    if sticky then i == start else start <= i && Boundary(env, i)
  }

  ghost predicate SomeMatch(env: Env, r: Re, sticky: bool, start: nat)
  {
    exists i: nat, j: nat :: i <= |env.units| && MayStart(env, sticky, start, i) && Matches(env, r, false, i, j)
  }

  ghost predicate MatchesFrom(env: Env, r: Re, i: nat)
    requires i <= |env.units|
  {
    exists j: nat :: Matches(env, r, false, i, j)
  }

  lemma HereMatches(env: Env, r: Re, x: Spot)
    requires Valid(r) && NoBackRef(r) && Boundary(env, x.pos)
    ensures Outcomes(env, Capture(r), false, 0, x) != [] <==> MatchesFrom(env, r, x.pos)
  {
    var ys := Outcomes(env, Capture(r), false, 0, x);
    if ys != [] {
      OutcomeMatches(env, Capture(r), false, 0, x, ys[0]);
      assert Matches(env, r, false, x.pos, ys[0].pos);
    }
    if MatchesFrom(env, r, x.pos) {
      var j: nat :| Matches(env, r, false, x.pos, j);
      assert Matches(env, Capture(r), false, x.pos, j);
      var y := MatchOutcome(env, Capture(r), false, 0, x, j);
    }
  }

  lemma {:induction false} FindDecides(env: Env, r: Re, sticky: bool, x: Spot)
    requires Valid(r) && NoBackRef(r) && Boundary(env, x.pos)
    ensures Find(env, r, sticky, x).Some? <==> SomeMatch(env, r, sticky, x.pos)
    decreases |env.units| - x.pos
  {
    HereMatches(env, r, x);
    if MatchesFrom(env, r, x.pos) {
      var j: nat :| Matches(env, r, false, x.pos, j);
      assert MayStart(env, sticky, x.pos, x.pos);
      assert SomeMatch(env, r, sticky, x.pos);
      assert Find(env, r, sticky, x).Some?;
    } else if !sticky && x.pos < |env.units| {
      var next := GetChar(env, x.pos).1;
      GetCharBoundary(env, x.pos);
      FindDecides(env, r, sticky, Spot(next, x.caps));
      LaterMatch(env, r, x.pos);
      assert Find(env, r, sticky, x) == Find(env, r, sticky, Spot(next, x.caps));
    } else {
      assert !SomeMatch(env, r, sticky, x.pos);
      assert Find(env, r, sticky, x).None?;
    }
  }

  lemma LaterMatch(env: Env, r: Re, i: nat)
    requires i < |env.units| && Boundary(env, i) && !MatchesFrom(env, r, i)
    ensures SomeMatch(env, r, false, i) <==> SomeMatch(env, r, false, GetChar(env, i).1)
  {
    var next := GetChar(env, i).1;
    if SomeMatch(env, r, false, i) {
      var i1: nat, j: nat :| i1 <= |env.units| && MayStart(env, false, i, i1) && Matches(env, r, false, i1, j);
      assert MayStart(env, false, next, i1);
    }
    if SomeMatch(env, r, false, next) {
      var i1: nat, j: nat :| i1 <= |env.units| && MayStart(env, false, next, i1) && Matches(env, r, false, i1, j);
      assert MayStart(env, false, i, i1);
    }
  }

  /** The compiled program terminates, and succeeds exactly when the pattern matches
      somewhere; for all patterns without back references whose lazy loops advance. */
  lemma ProgramDecides(env: Env, r: Re, sticky: bool, start: nat, captures: nat) returns (n: nat)
    requires GoodEnv(env) && Valid(r) && NoBackRef(r) && LazyAdvances(env, r, false) && Boundary(env, start)
    ensures var end := Steps(Program(r, sticky), env, n, Start(start, captures));
            Final(end) && end.Unwind? && (end.ok <==> SomeMatch(env, r, sticky, start))
  {
    LazySafe(env, r, false, 1);
    var m, caps := ProgramFinds(env, r, sticky, start, captures);
    FindDecides(env, r, sticky, Spot(start, seq(2 * captures, _ => None)));
    n := m;
  }
}
