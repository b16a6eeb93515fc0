/** What the two scans of the byte code guarantee (libregexp.c, 947-1071). */
module RegexpAnalysis {
  import opened Hints
  import opened CharRange
  import opened RegexpInput
  import opened RegexpCode
  import opened RegexpSemantics
  import opened RegexpOrder

  // ------------------------------------------------------------ re_check_advance

  lemma {:induction false} FirstEffectConcat(a: seq<Cell>, b: seq<Cell>)
    ensures FirstEffect(a + b) == if FirstEffect(a) == Neutral then FirstEffect(b) else FirstEffect(a)
  {
    if a == [] {
      assert a + b == b;
    } else {
      FirstEffectConcat(a[1..], b);
      assert (a + b)[1..] == a[1..] + b;
    }
  }

  lemma {:induction false} FirstEffectArgs(n: nat)
    ensures FirstEffect(Args(n)) == Neutral && Refs(Args(n)) == {}
  {
    if n > 0 {
      FirstEffectArgs(n - 1);
      assert Args(n)[1..] == Args(n - 1);
    }
  }

  lemma FirstEffectEnc(i: Instr)
    ensures FirstEffect(Enc(i)) == EffectOf(i) && Refs(Enc(i)) == ReferredBy(i)
  {
    FirstEffectArgs(Size(i) - 1);
    assert Enc(i)[1..] == Args(Size(i) - 1);
  }

  lemma EncFirst(i: Instr, rest: seq<Cell>)
    ensures FirstEffect(Enc(i) + rest) == if EffectOf(i) == Neutral then FirstEffect(rest) else EffectOf(i)
  {
    FirstEffectEnc(i);
    FirstEffectConcat(Enc(i), rest);
  }

  /** Loops that may be left at once start with a split. */
  lemma StarFirst(at: seq<Cell>, check: bool, greedy: bool)
    ensures FirstEffect(Star(at, check, greedy)) == Unknown
  {
    var z := if check then 6 else 5;
    var tail := if check then Enc(PushCharPos) + (at + Enc(BneCharPos(-(|at| + 11)))) else at + Enc(Goto(-(|at| + 10)));
    EncFirst(Split(greedy, |at| + z), tail);
  }

  lemma UpToFirst(at: seq<Cell>, greedy: bool, n: nat)
    ensures FirstEffect(UpTo(at, greedy, n)) == Unknown
  {
    var tail := at + (Enc(Loop(-(|at| + 10))) + Enc(Drop));
    EncFirst(Split(greedy, |at| + 5), tail);
    EncFirst(PushI32(n), Enc(Split(greedy, |at| + 5)) + tail);
  }

  lemma OptionalFirst(at: seq<Cell>, check: bool, greedy: bool, max: nat, first: nat, next: nat)
    ensures FirstEffect(OptionalCode(at, check, greedy, max, first, next)) != Advances
  {
    var body := OptionalBody(at, check, greedy, max);
    assert FirstEffect(body) != Advances by {
      if max == 1 { EncFirst(Split(greedy, |at|), at); }
      StarFirst(at, check, greedy);
      UpToFirst(at, greedy, max);
    }
    if first != next {
      EncFirst(SaveReset(first, next - 1), body);
    } else {
      assert [] + body == body;
    }
  }

  lemma PlusFirst(at: seq<Cell>, greedy: bool)
    ensures FirstEffect(Plus(at, greedy)) == Advances ==> FirstEffect(at) == Advances
  {
    var i := if greedy then SplitGotoFirst(-(|at| + 5)) else SplitNextFirst(-(|at| + 5));
    FirstEffectEnc(i);
    FirstEffectConcat(at, Enc(i));
  }

  lemma RepeatedFirst(at: seq<Cell>, check: bool, greedy: bool, min: nat, max: nat)
    requires FirstEffect(RepeatedCode(at, check, greedy, min, max)) == Advances
    ensures FirstEffect(at) == Advances
  {
    var head, tail := if min == 1 then at else Times(at, min), RepeatedTail(at, check, greedy, min, max);
    FirstEffectConcat(head, tail);
    assert FirstEffect(tail) != Advances by {
      StarFirst(at, check, greedy);
      if max > min { UpToFirst(at, greedy, max - min); }
    }
    TimesFirst(at, min);
  }

  /** Code of a quantifier advances only if its body does and is not optional. */
  lemma QuantAdvances(at: seq<Cell>, min: nat, max: nat, greedy: bool, first: nat, next: nat)
    requires FirstEffect(QuantCode(at, min, max, greedy, first, next)) == Advances
    ensures min >= 1 && FirstEffect(at) == Advances
  {
    if IsSimple(at, max, greedy) {
      var i := SimpleGreedyQuant(|at| + 1, min, max, SimpleLength(at));
      EncFirst(i, at + Enc(Match));
    } else if min == 0 {
      OptionalFirst(at, NeedsCheck(at, greedy), greedy, max, first, next);
    } else if min == 1 && max == INF && !NeedsCheck(at, greedy) {
      PlusFirst(at, greedy);
    } else {
      RepeatedFirst(at, NeedsCheck(at, greedy), greedy, min, max);
    }
  }

  lemma TimesFirst(at: seq<Cell>, n: nat)
    ensures FirstEffect(Times(at, n)) == Advances ==> FirstEffect(at) == Advances
    ensures FirstEffect(Times(at, n)) == Neutral ==> FirstEffect(at) == Neutral
    ensures FirstEffect(Times(at, n)) != Neutral
  {
    var loop := Enc(Loop(-(|at| + 5))) + Enc(Drop);
    EncFirst(Loop(-(|at| + 5)), Enc(Drop));
    FirstEffectConcat(at, loop);
    EncFirst(PushI32(n), at + loop);
  }

  lemma AltFirst(ca: seq<Cell>, cb: seq<Cell>)
    ensures FirstEffect(AltCode(ca, cb)) == Unknown
  {
    EncFirst(SplitNextFirst(|ca| + 5), ca + (Enc(Goto(|cb|)) + cb));
  }

  lemma LookFirst(c: seq<Cell>, neg: bool)
    ensures FirstEffect(LookCode(c, neg)) == Unknown
  {
    EncFirst(if neg then NegativeLookahead(|c| + 1) else Lookahead(|c| + 1), c + Enc(Match));
  }

  lemma CaptureFirst(c: seq<Cell>, back: bool, n: nat)
    ensures FirstEffect(CaptureCode(c, back, n)) == FirstEffect(c)
  {
    var i1, i2 := if back then SaveEnd(n) else SaveStart(n), if back then SaveStart(n) else SaveEnd(n);
    EncFirst(i1, c + Enc(i2));
    FirstEffectConcat(c, Enc(i2));
    FirstEffectEnc(i2);
  }

  /** The scan finds a character first. */
  ghost predicate Forward(s: seq<Cell>)
  {
    forall t :: Ask(t) ==> FirstEffect(s) == Advances
  }

  lemma LeafAdvances(env: Env, r: Re, back: bool, cc: nat, x: Spot, y: Spot)
    requires Leaf(r) && Valid(r) && Inside(env, x) && y in Order(env, r, back, cc, x)
    requires Forward(Emit(r, back, cc))
    ensures y.pos != x.pos
  {
    assert Ask(0);
    match r
    case Bol => FirstEffectEnc(LineStart);
    case Eol => FirstEffectEnc(LineEnd);
    case WordB(neg) => FirstEffectEnc(if neg then NotWordBoundary else WordBoundary);
    case BackRef(n) => FirstEffectEnc(if back then BackwardBackReference(n) else BackReference(n));
    case _ =>
  }

  /** If the scan says that code advances, its pattern has no empty outcome. */
  lemma {:induction false} AdvanceSound(env: Env, r: Re, back: bool, cc: nat, x: Spot, y: Spot)
    requires Valid(r) && Inside(env, x) && y in Order(env, r, back, cc, x)
    requires Forward(Emit(r, back, cc))
    ensures y.pos != x.pos
    decreases Nodes(r), 2
  {
    if r.Cat? {
      CatAdvances(env, r, back, cc, x, y);
    } else if r.Alt? || r.Look? {
      NoChoice(r, back, cc);
    } else if r.Capture? {
      CaptureAdvances(env, r, back, cc, x, y);
    } else if r.Quant? {
      RoundAdvances(env, r, back, cc, x, y);
    } else {
      LeafAdvances(env, r, back, cc, x, y);
    }
  }

  lemma NoChoice(r: Re, back: bool, cc: nat)
    requires Valid(r) && (r.Alt? || r.Look?)
    ensures !Forward(Emit(r, back, cc))
  {
    assert Ask(0);
    match r
    case Alt(a, b) => AltFirst(Emit(a, back, cc), Emit(b, back, cc + Captures(a)));
    case Look(neg, behind, r1) => LookFirst(Emit(r1, behind, cc), neg);
  }

  lemma {:induction false} CaptureAdvances(env: Env, r: Re, back: bool, cc: nat, x: Spot, y: Spot)
    requires r.Capture? && Valid(r) && Inside(env, x) && y in Order(env, r, back, cc, x)
    requires Forward(Emit(r, back, cc))
    ensures y.pos != x.pos
    decreases Nodes(r), 1
  {
    assert Ask(0);
    CaptureFirst(Emit(r.r, back, cc + 1), back, cc);
    var ys := Order(env, r.r, back, cc + 1, Enter(back, cc, x));
    var t :| 0 <= t < |ys| && y == Leave(back, cc, ys[t]);
    AdvanceSound(env, r.r, back, cc + 1, Enter(back, cc, x), ys[t]);
  }

  lemma {:induction false} RoundAdvances(env: Env, r: Re, back: bool, cc: nat, x: Spot, y: Spot)
    requires r.Quant? && Valid(r) && Inside(env, x) && y in Order(env, r, back, cc, x)
    requires Forward(Emit(r, back, cc))
    ensures y.pos != x.pos
    decreases Nodes(r), 1
  {
    BodyForward(r, back, cc);
    var m := FirstRound(env, r, back, cc, x, y);
    AdvanceSound(env, r.r, back, cc, x, m);
  }

  lemma BodyForward(r: Re, back: bool, cc: nat)
    requires r.Quant? && Valid(r) && Forward(Emit(r, back, cc))
    ensures r.min >= 1 && Forward(Emit(r.r, back, cc))
  {
    assert Ask(0);
    QuantAdvances(Emit(r.r, back, cc), r.min, r.max, r.greedy, cc, cc + Captures(r.r));
  }

  lemma FirstRound(env: Env, r: Re, back: bool, cc: nat, x: Spot, y: Spot) returns (m: Spot)
    requires r.Quant? && Valid(r) && Inside(env, x) && r.min >= 1 && y in Order(env, r, back, cc, x)
    ensures m in Order(env, r.r, back, cc, x) && After(env, back, x, m) && After(env, back, m, y)
  {
    var ls := RoundsMin(env, r.r, back, cc, r.min, r.max, r.greedy, x);
    var t := FlattenIn(ls, y);
    m := Order(env, r.r, back, cc, x)[t];
  }

  lemma {:induction false} CatAdvances(env: Env, r: Re, back: bool, cc: nat, x: Spot, y: Spot)
    requires r.Cat? && Valid(r) && Inside(env, x) && y in Order(env, r, back, cc, x)
    requires Forward(Emit(r, back, cc))
    ensures y.pos != x.pos
    decreases Nodes(r), 1
  {
    assert Emit(r, back, cc) == Emit(First(r, back), back, FirstCount(r, back, cc)) + Emit(Second(r, back), back, SecondCount(r, back, cc));
    assert Nodes(r) == 1 + Nodes(r.a) + Nodes(r.b);
    var m := CatMiddle(env, r, back, cc, x, y);
    PairAdvances(env, First(r, back), Second(r, back), back, FirstCount(r, back, cc), SecondCount(r, back, cc), x, m, y);
  }

  lemma {:induction false} PairAdvances(env: Env, r1: Re, r2: Re, back: bool, c1: nat, c2: nat, x: Spot, m: Spot, y: Spot)
    requires Valid(r1) && Valid(r2) && Inside(env, x) && Inside(env, m)
    requires m in Order(env, r1, back, c1, x) && y in Order(env, r2, back, c2, m)
    requires After(env, back, x, m) && After(env, back, m, y)
    requires Forward(Emit(r1, back, c1) + Emit(r2, back, c2))
    ensures y.pos != x.pos
    decreases 1 + Nodes(r1) + Nodes(r2), 0
  {
    assert Ask(0);
    FirstEffectConcat(Emit(r1, back, c1), Emit(r2, back, c2));
    if FirstEffect(Emit(r1, back, c1)) == Advances {
      AdvanceSound(env, r1, back, c1, x, m);
    } else {
      AdvanceSound(env, r2, back, c2, m, y);
    }
  }

  lemma CatMiddle(env: Env, r: Re, back: bool, cc: nat, x: Spot, y: Spot) returns (m: Spot)
    requires r.Cat? && Valid(r) && Inside(env, x) && y in Order(env, r, back, cc, x)
    ensures m in Order(env, First(r, back), back, FirstCount(r, back, cc), x) && After(env, back, x, m) && After(env, back, m, y)
    ensures y in Order(env, Second(r, back), back, SecondCount(r, back, cc), m)
  {
    var ls := CatOrder(env, r, back, cc, x);
    var t := FlattenIn(ls, y);
    m := Order(env, First(r, back), back, FirstCount(r, back, cc), x)[t];
  }
}
