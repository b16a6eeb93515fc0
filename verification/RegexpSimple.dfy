/** Simple quantifiers (libregexp.c, 1032-1071, 1566-1590, 2450-2488): code without
    choices, which the machine repeats without saving a state for each round. */
module RegexpSimple {
  import opened Hints
  import opened CharRange
  import opened RegexpInput
  import opened RegexpCode
  import opened RegexpSemantics
  import opened RegexpMachine
  import opened RegexpOrder
  import opened RegexpRuns

  // ----------------------------------------------------------- re_is_simple_quantifier

  lemma {:induction false} SimpleConcat(a: seq<Cell>, b: seq<Cell>)
    ensures SimpleLength(a + b) == if SimpleLength(a) < 0 || SimpleLength(b) < 0 then -1 else SimpleLength(a) + SimpleLength(b)
  {
    if a == [] {
      assert a + b == b;
    } else {
      SimpleConcat(a[1..], b);
      assert (a + b)[1..] == a[1..] + b;
    }
  }

  lemma {:induction false} SimpleArgs(n: nat)
    ensures SimpleLength(Args(n)) == 0
  {
    if n > 0 {
      SimpleArgs(n - 1);
      assert Args(n)[1..] == Args(n - 1);
    }
  }

  lemma SimpleEnc(i: Instr)
    ensures SimpleLength(Enc(i)) == if IsCharInstr(i) then 1 else if IsTest(i) then 0 else -1
  {
    SimpleArgs(Size(i) - 1);
    assert Enc(i)[1..] == Args(Size(i) - 1);
  }

  /** Code that contains any other instruction is not simple. */
  lemma NotSimple(i: Instr, rest: seq<Cell>)
    requires !IsCharInstr(i) && !IsTest(i)
    ensures SimpleLength(Enc(i) + rest) < 0
  {
    SimpleEnc(i);
    SimpleConcat(Enc(i), rest);
  }

  lemma StarNotSimple(at: seq<Cell>, check: bool, greedy: bool)
    ensures SimpleLength(Star(at, check, greedy)) < 0
  {
    var z := if check then 6 else 5;
    var tail := if check then Enc(PushCharPos) + (at + Enc(BneCharPos(-(|at| + 11)))) else at + Enc(Goto(-(|at| + 10)));
    NotSimple(Split(greedy, |at| + z), tail);
  }

  lemma UpToNotSimple(at: seq<Cell>, greedy: bool, n: nat)
    ensures SimpleLength(UpTo(at, greedy, n)) < 0
  {
    NotSimple(PushI32(n), Enc(Split(greedy, |at| + 5)) + (at + (Enc(Loop(-(|at| + 10))) + Enc(Drop))));
  }

  lemma OptionalNotSimple(at: seq<Cell>, check: bool, greedy: bool, max: nat, first: nat, next: nat)
    requires SimpleLength(OptionalCode(at, check, greedy, max, first, next)) >= 0
    ensures max == 0 && first == next && OptionalCode(at, check, greedy, max, first, next) == []
  {
    var body := OptionalBody(at, check, greedy, max);
    if first != next {
      NotSimple(SaveReset(first, next - 1), body);
    } else {
      assert [] + body == body;
      StarNotSimple(at, check, greedy);
      UpToNotSimple(at, greedy, max);
      NotSimple(Split(greedy, |at|), at);
    }
  }

  lemma RepeatedNotSimple(at: seq<Cell>, check: bool, greedy: bool, min: nat, max: nat)
    requires SimpleLength(RepeatedCode(at, check, greedy, min, max)) >= 0 && 1 <= min <= max
    ensures min == 1 && max == 1 && RepeatedCode(at, check, greedy, min, max) == at
  {
    var head, tail := if min == 1 then at else Times(at, min), RepeatedTail(at, check, greedy, min, max);
    SimpleConcat(head, tail);
    StarNotSimple(at, check, greedy);
    if max > min { UpToNotSimple(at, greedy, max - min); }
    NotSimple(PushI32(min), at + (Enc(Loop(-(|at| + 5))) + Enc(Drop)));
    assert at + [] == at;
  }

  /** Of the quantifiers only {0} and {1} have simple code. */
  lemma QuantNotSimple(at: seq<Cell>, min: nat, max: nat, greedy: bool, first: nat, next: nat)
    requires SimpleLength(QuantCode(at, min, max, greedy, first, next)) >= 0 && min <= max
    ensures (min == 0 && max == 0 && first == next && QuantCode(at, min, max, greedy, first, next) == []) ||
            (min == 1 && max == 1 && QuantCode(at, min, max, greedy, first, next) == at)
  {
    var check := NeedsCheck(at, greedy);
    if IsSimple(at, max, greedy) {
      NotSimple(SimpleGreedyQuant(|at| + 1, min, max, SimpleLength(at)), at + Enc(Match));
    } else if min == 0 {
      OptionalNotSimple(at, check, greedy, max, first, next);
    } else if min == 1 && max == INF && !check {
      var i := if greedy then SplitGotoFirst(-(|at| + 5)) else SplitNextFirst(-(|at| + 5));
      SimpleConcat(at, Enc(i));
      SimpleEnc(i);
    } else {
      RepeatedNotSimple(at, check, greedy, min, max);
    }
  }

  // ------------------------------------------------------------------ single characters

  /** The subject holds 16-bit units, and folding keeps characters below 2^32 - 1. */
  ghost predicate GoodEnv(env: Env)
  {
    (forall i :: 0 <= i < |env.units| ==> env.units[i] <= 0xffff) &&
    (forall c: nat :: c <= 0x10ffff ==> env.canon(c) < UINT32_MAX)
  }

  function InstrOf(r: Re): Instr
    requires Valid(r) && (r.Chr? || r.AnyChar? || r.Class?)
  {
    match r
    case Chr(c) => Char(c)
    case AnyChar(all) => if all then Any else Dot
    case Class(points) => ClassInstr(points)
  }

  lemma CharAgrees(env: Env, r: Re, c: nat)
    requires GoodEnv(env) && c <= 0x10ffff
    requires Valid(r) && (r.Chr? || r.AnyChar? || r.Class?)
    ensures IsCharInstr(InstrOf(r)) && (CharTest(env, InstrOf(r), c) <==> CharIs(r, Folded(env, r, c)))
  {
    if r.Class? {
      EmittedRange(r.points, env.canon(c));
    }
  }

  lemma CharBound(env: Env, i: nat)
    requires GoodEnv(env) && i < |env.units|
    ensures GetChar(env, i).0 <= 0x10ffff
  {}

  /** A character instruction gives what a character pattern asks for. */
  lemma CharStep(env: Env, r: Re, x: Spot)
    requires GoodEnv(env) && Valid(r) && (r.Chr? || r.AnyChar? || r.Class?) && Inside(env, x)
    ensures IsCharInstr(InstrOf(r))
    ensures var j := SimpleStep(env, InstrOf(r), x.pos);
            OneCharOrder(env, r, false, x) == if j.None? then [] else [Spot(j.value, x.caps)]
  {
    if x.pos < |env.units| {
      CharBound(env, x.pos);
      CharAgrees(env, r, GetChar(env, x.pos).0);
    } else {
      CharAgrees(env, r, 0);
    }
  }

  // ------------------------------------------------------------- code without choices

  lemma {:induction false} BackAdd(env: Env, pos: nat, m: nat, n: nat)
    requires pos <= |env.units|
    ensures Back(env, pos, m + n) == Back(env, Back(env, pos, m), n)
    decreases m
  {
    if m > 0 && pos > 0 {
      BackAdd(env, PrevChar(env, pos), m - 1, n);
    }
  }

  /** From x at p the inner run goes on at q with the outcome, if there is one; going
      back n characters from there leads to x again. */
  ghost predicate LineAt(prog: seq<Cell>, env: Env, p: int, q: int, n: int, x: Spot, ys: seq<Spot>)
    requires Inside(env, x)
  {
    |ys| <= 1 && n >= 0 &&
    if ys == [] then SimpleRun(prog, env, p, x.pos) == None
    else LineTo(prog, env, p, q, n, x, ys[0])
  }

  ghost predicate LineTo(prog: seq<Cell>, env: Env, p: int, q: int, n: int, x: Spot, y: Spot)
    requires Inside(env, x)
  {
    Boundary(env, y.pos) && y.caps == x.caps && x.pos <= y.pos && (n > 0 ==> x.pos < y.pos) &&
    Back(env, y.pos, n) == x.pos && SimpleRun(prog, env, p, x.pos) == SimpleRun(prog, env, q, y.pos)
  }

  ghost predicate Line(prog: seq<Cell>, env: Env, p: int, q: int, n: int, r: Re, back: bool, cc: nat)
    requires Valid(r)
  {
    forall x: Spot {:trigger Outcomes(env, r, back, cc, x)} :: Boundary(env, x.pos) ==> LineAt(prog, env, p, q, n, x, Outcomes(env, r, back, cc, x))
  }

  lemma TestLine(prog: seq<Cell>, env: Env, p: int, i: Instr, x: Spot)
    requires IsTest(i) && At(prog, p, Enc(i)) && Boundary(env, x.pos)
    ensures LineAt(prog, env, p, p + |Enc(i)|, SimpleLength(Enc(i)), x, If(TestHolds(env, i, x.pos), x))
  {
    AtOp(prog, p, i);
    SimpleEnc(i);
  }

  lemma CharLine(prog: seq<Cell>, env: Env, p: int, r: Re, x: Spot)
    requires GoodEnv(env) && Valid(r) && (r.Chr? || r.AnyChar? || r.Class?) && Boundary(env, x.pos)
    requires At(prog, p, Enc(InstrOf(r)))
    ensures LineAt(prog, env, p, p + |Enc(InstrOf(r))|, SimpleLength(Enc(InstrOf(r))), x, OneCharOrder(env, r, false, x))
  {
    var i := InstrOf(r);
    AtOp(prog, p, i);
    SimpleEnc(i);
    CharStep(env, r, x);
    if x.pos < |env.units| {
      var j := GetChar(env, x.pos).1;
      PrevUndoesGet(env, x.pos);
      GetCharBoundary(env, x.pos);
      assert Back(env, j, 1) == Back(env, PrevChar(env, j), 0);
    }
  }

  lemma PairLine(prog: seq<Cell>, env: Env, p: int, m: int, q: int, n1: int, n2: int, x: Spot, y: Spot, zs: seq<Spot>)
    requires Boundary(env, x.pos) && n1 >= 0
    requires LineTo(prog, env, p, m, n1, x, y) && LineAt(prog, env, m, q, n2, y, zs)
    ensures LineAt(prog, env, p, q, n1 + n2, x, zs)
  {
    if zs != [] {
      BackAdd(env, zs[0].pos, n2, n1);
    }
  }

  lemma CatLine(prog: seq<Cell>, env: Env, p: int, m: int, q: int, n1: int, n2: int, r: Re, back: bool, cc: nat, x: Spot)
    requires r.Cat? && Valid(r) && Boundary(env, x.pos)
    requires Line(prog, env, p, m, n1, First(r, back), back, FirstCount(r, back, cc))
    requires Line(prog, env, m, q, n2, Second(r, back), back, SecondCount(r, back, cc)) && n2 >= 0
    ensures LineAt(prog, env, p, q, n1 + n2, x, Outcomes(env, r, back, cc, x))
  {
    var ls := CatOutcomes(env, r, back, cc, x);
    var ys := Outcomes(env, First(r, back), back, FirstCount(r, back, cc), x);
    assert LineAt(prog, env, p, m, n1, x, ys);
    if ys == [] {
      assert ls == [];
    } else {
      assert ls == [ls[0]];
      assert ls[1..] == [];
      assert Flatten(ls[1..]) == [];
      assert Flatten(ls) == ls[0] + [] == ls[0];
      PairLine(prog, env, p, m, q, n1, n2, x, ys[0], ls[0]);
    }
  }

  lemma CatLines(prog: seq<Cell>, env: Env, p: int, m: int, q: int, n1: nat, n2: nat, r: Re, back: bool, cc: nat)
    requires r.Cat? && Valid(r)
    requires Line(prog, env, p, m, n1, First(r, back), back, FirstCount(r, back, cc))
    requires Line(prog, env, m, q, n2, Second(r, back), back, SecondCount(r, back, cc))
    ensures Line(prog, env, p, q, n1 + n2, r, back, cc)
  {
    var n := n1 + n2;
    forall x: Spot | Boundary(env, x.pos) ensures LineAt(prog, env, p, q, n, x, Outcomes(env, r, back, cc, x)) {
      CatLine(prog, env, p, m, q, n1, n2, r, back, cc, x);
    }
  }

  lemma LeafLine(prog: seq<Cell>, env: Env, p: int, r: Re, back: bool, cc: nat, x: Spot)
    requires GoodEnv(env) && Valid(r) && Leaf(r) && Boundary(env, x.pos) && At(prog, p, Code(r, back, cc))
    ensures var code := Code(r, back, cc);
            SimpleLength(code) >= 0 ==> LineAt(prog, env, p, p + |code|, SimpleLength(code), x, Outcomes(env, r, back, cc, x))
  {
    if r.Bol? || r.Eol? || r.WordB? {
      PlaceLine(prog, env, p, r, back, cc, x);
    } else if r.BackRef? {
      CodeEmit(r, back, cc);
      SimpleEnc(if back then BackwardBackReference(r.n) else BackReference(r.n));
    } else {
      CodeEmit(r, back, cc);
      OutcomesOrder(env, r, back, cc, x);
      if r.Empty? {
      } else if back {
        NotSimple(Prev, Enc(InstrOf(r)) + Enc(Prev));
      } else {
        CharLine(prog, env, p, r, x);
      }
    }
  }

  lemma PlaceLine(prog: seq<Cell>, env: Env, p: int, r: Re, back: bool, cc: nat, x: Spot)
    requires Valid(r) && (r.Bol? || r.Eol? || r.WordB?) && Boundary(env, x.pos) && At(prog, p, Code(r, back, cc))
    ensures var code := Code(r, back, cc);
            SimpleLength(code) >= 0 ==> LineAt(prog, env, p, p + |code|, SimpleLength(code), x, Outcomes(env, r, back, cc, x))
  {
    CodeEmit(r, back, cc);
    OutcomesOrder(env, r, back, cc, x);
    if r.Bol? {
      TestLine(prog, env, p, LineStart, x);
    } else if r.Eol? {
      TestLine(prog, env, p, LineEnd, x);
    } else {
      TestLine(prog, env, p, if r.neg then NotWordBoundary else WordBoundary, x);
    }
  }

  lemma OnceOrder(env: Env, r: Re, back: bool, cc: nat, greedy: bool, x: Spot)
    requires Valid(r) && Boundary(env, x.pos) && |Outcomes(env, r, back, cc, x)| <= 1
    ensures Laps(env, r, back, cc, 1, 1, greedy, x) == Outcomes(env, r, back, cc, x)
  {
    var ys := Outcomes(env, r, back, cc, x);
    var ls := LapsMin(env, r, back, cc, 1, 1, greedy, x);
    if ys != [] {
      LapsNone(env, r, back, cc, greedy, ys[0]);
      assert ls[1..] == [];
      assert Flatten(ls[1..]) == [];
      assert Flatten(ls) == ls[0] + [] == ys;
    }
  }

  lemma QuantLine(prog: seq<Cell>, env: Env, p: int, r: Re, back: bool, cc: nat, x: Spot)
    requires r.Quant? && Valid(r) && Boundary(env, x.pos)
    requires var at := Code(r.r, back, cc);
             SimpleLength(at) >= 0 && At(prog, p, at) ==> Line(prog, env, p, p + |at|, SimpleLength(at), r.r, back, cc)
    requires At(prog, p, Code(r, back, cc)) && SimpleLength(Code(r, back, cc)) >= 0
    ensures LineAt(prog, env, p, p + |Code(r, back, cc)|, SimpleLength(Code(r, back, cc)), x, Outcomes(env, r, back, cc, x))
  {
    CodeQuant(r, back, cc);
    var at := Code(r.r, back, cc);
    QuantNotSimple(at, r.min, r.max, r.greedy, cc, cc + Captures(r.r));
    QuantOutcomes(env, r, back, cc, x);
    if r.min == 0 {
      LapsNone(env, r.r, back, cc, r.greedy, x);
    } else {
      assert LineAt(prog, env, p, p + |at|, SimpleLength(at), x, Outcomes(env, r.r, back, cc, x));
      OnceOrder(env, r.r, back, cc, r.greedy, x);
    }
  }

  lemma OtherNotSimple(r: Re, back: bool, cc: nat)
    requires Valid(r) && (r.Alt? || r.Look? || r.Capture?)
    ensures SimpleLength(Code(r, back, cc)) < 0
  {
    match r
    case Alt(a, b) =>
      CodeAlt(r, back, cc);
      var ca, cb := Code(a, back, cc), Code(b, back, cc + Captures(a));
      NotSimple(SplitNextFirst(|ca| + 5), ca + (Enc(Goto(|cb|)) + cb));
    case Look(neg, behind, r1) =>
      CodeLook(r, back, cc);
      var c := Code(r1, behind, cc);
      NotSimple(if neg then NegativeLookahead(|c| + 1) else Lookahead(|c| + 1), c + Enc(Match));
    case Capture(r1) =>
      CodeCapture(r, back, cc);
      var c := Code(r1, back, cc + 1);
      NotSimple(if back then SaveEnd(cc) else SaveStart(cc), c + Enc(if back then SaveStart(cc) else SaveEnd(cc)));
  }

  /** If the scan calls the code simple, it is a line. */
  ghost predicate Linear(prog: seq<Cell>, env: Env, p: int, code: seq<Cell>, r: Re, back: bool, cc: nat)
    requires Valid(r)
  {
    forall t :: AskFor(Subject.SimpleLines, t) ==> SimpleLength(code) >= 0 ==> Line(prog, env, p, p + |code|, SimpleLength(code), r, back, cc)
  }

  /** Code that the scan calls simple has at most one outcome, which lies exactly the
      computed number of characters ahead. */
  lemma {:induction false} SimpleLine(prog: seq<Cell>, env: Env, p: int, r: Re, back: bool, cc: nat)
    requires GoodEnv(env) && Valid(r) && At(prog, p, Code(r, back, cc))
    ensures Linear(prog, env, p, Code(r, back, cc), r, back, cc)
    decreases r, 1
  {
    if r.Cat? {
      CatSimple(prog, env, p, r, back, cc);
    } else if r.Alt? || r.Look? || r.Capture? {
      OtherNotSimple(r, back, cc);
    } else if r.Quant? {
      if At(prog, p, Code(r.r, back, cc)) { SimpleLine(prog, env, p, r.r, back, cc); }
      QuantSimple(prog, env, p, r, back, cc);
    } else {
      LeafSimple(prog, env, p, r, back, cc);
    }
  }

  lemma LeafSimple(prog: seq<Cell>, env: Env, p: int, r: Re, back: bool, cc: nat)
    requires GoodEnv(env) && Valid(r) && Leaf(r) && At(prog, p, Code(r, back, cc))
    ensures Linear(prog, env, p, Code(r, back, cc), r, back, cc)
  {
    var code := Code(r, back, cc);
    forall x: Spot | Boundary(env, x.pos) && SimpleLength(code) >= 0
      ensures LineAt(prog, env, p, p + |code|, SimpleLength(code), x, Outcomes(env, r, back, cc, x)) {
      LeafLine(prog, env, p, r, back, cc, x);
    }
  }

  lemma QuantSimple(prog: seq<Cell>, env: Env, p: int, r: Re, back: bool, cc: nat)
    requires Valid(r) && r.Quant? && At(prog, p, Code(r, back, cc))
    requires At(prog, p, Code(r.r, back, cc)) ==> Linear(prog, env, p, Code(r.r, back, cc), r.r, back, cc)
    ensures Linear(prog, env, p, Code(r, back, cc), r, back, cc)
  {
    assert AskFor(Subject.SimpleLines, 0);
    var code := Code(r, back, cc);
    forall x: Spot | Boundary(env, x.pos) && SimpleLength(code) >= 0
      ensures LineAt(prog, env, p, p + |code|, SimpleLength(code), x, Outcomes(env, r, back, cc, x)) {
      QuantLine(prog, env, p, r, back, cc, x);
    }
  }

  lemma {:induction false} CatSimple(prog: seq<Cell>, env: Env, p: int, r: Re, back: bool, cc: nat)
    requires GoodEnv(env) && Valid(r) && r.Cat? && At(prog, p, Code(r, back, cc))
    ensures Linear(prog, env, p, Code(r, back, cc), r, back, cc)
    decreases r, 0
  {
    CodeCat(r, back, cc);
    var c1, c2 := Code(First(r, back), back, FirstCount(r, back, cc)), Code(Second(r, back), back, SecondCount(r, back, cc));
    AtConcat(prog, p, c1, c2);
    SimpleLine(prog, env, p, First(r, back), back, FirstCount(r, back, cc));
    SimpleLine(prog, env, p + |c1|, Second(r, back), back, SecondCount(r, back, cc));
    CatLinear(prog, env, p, c1, c2, r, back, cc);
  }

  lemma CatLinear(prog: seq<Cell>, env: Env, p: int, c1: seq<Cell>, c2: seq<Cell>, r: Re, back: bool, cc: nat)
    requires Valid(r) && r.Cat?
    requires Linear(prog, env, p, c1, First(r, back), back, FirstCount(r, back, cc))
    requires Linear(prog, env, p + |c1|, c2, Second(r, back), back, SecondCount(r, back, cc))
    ensures Linear(prog, env, p, c1 + c2, r, back, cc)
  {
    assert AskFor(Subject.SimpleLines, 0);
    SimpleConcat(c1, c2);
    var n1, n2 := SimpleLength(c1), SimpleLength(c2);
    if n1 >= 0 && n2 >= 0 {
      CatLines(prog, env, p, p + |c1|, p + |c1| + |c2|, n1, n2, r, back, cc);
    }
  }
}
