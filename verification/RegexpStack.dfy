/** The depth of the machine's stack is known in advance (libregexp.c, 1772-1815): at
    every instruction it is what a linear scan of the code counts. */
module RegexpStack {
  import opened Hints
  import opened RegexpCode
  import opened RegexpRuns
  import opened RegexpLoops
  import RegexpSimple
  import RegexpCorrect
  import RegexpMatch

  /** How a cell changes the depth, as the scan counts it. */
  function Delta(c: Cell): int
  {
    if c.Arg? then 0
    else if c.i.PushI32? || c.i.PushCharPos? then 1
    else if c.i.Drop? || c.i.BneCharPos? then -1
    else 0
  }

  /** The depth that the scan has reached before cell k. */
  ghost function DepthTo(s: seq<Cell>, k: nat): int
    requires k <= |s|
  {
    if k == 0 then 0 else DepthTo(s, k - 1) + Delta(s[k - 1])
  }

  ghost predicate IsDepth(s: seq<Cell>, k: nat, d: int)
    requires k <= |s|
  {
    forall t :: AskFor(Subject.StackDepths, t) ==> d == DepthTo(s, k)
  }

  /** DepthTo under a name that stays folded. */
  ghost function Depth(s: seq<Cell>, k: nat): (d: int)
    requires k <= |s|
    ensures IsDepth(s, k, d)
  {
    assert IsDepth(s, k, DepthTo(s, k));
    var d :| IsDepth(s, k, d);
    d
  }

  lemma DepthMeans(s: seq<Cell>, k: nat)
    requires k <= |s|
    ensures Depth(s, k) == DepthTo(s, k)
  {
    assert AskFor(Subject.StackDepths, 0);
  }

  function Jumps(i: Instr): bool
  {
    i.Goto? || i.SplitGotoFirst? || i.SplitNextFirst? || i.Loop? || i.BneCharPos? ||
    i.Lookahead? || i.NegativeLookahead? || i.SimpleGreedyQuant?
  }

  function Offset(i: Instr): int
    requires Jumps(i)
  {
    match i
    case Goto(off) => off
    case SplitGotoFirst(off) => off
    case SplitNextFirst(off) => off
    case Loop(off) => off
    case BneCharPos(off) => off
    case Lookahead(off) => off
    case NegativeLookahead(off) => off
    case SimpleGreedyQuant(next, _, _, _) => next
  }

  /** The number of stack entries that an instruction reads. */
  function Needs(i: Instr): nat
  {
    if i.Drop? || i.BneCharPos? || i.Loop? then 1 else 0
  }

  /** An instruction starts at t. */
  ghost predicate Edge(s: seq<Cell>, t: int)
  {
    0 <= t < |s| && s[t].Op?
  }

  /** After k an instruction starts, unless k holds the last match. */
  ghost predicate Next(s: seq<Cell>, k: int)
    requires Edge(s, k)
  {
    var n := k + Size(s[k].i);
    Edge(s, n) || (n == |s| && s[k].i.Match?)
  }

  /** The jump at k leads to an instruction at the depth that k leaves behind. */
  ghost predicate JumpOk(s: seq<Cell>, k: int)
    requires Edge(s, k)
  {
    var n := k + Size(s[k].i);
    n <= |s| && (Jumps(s[k].i) ==> Edge(s, n + Offset(s[k].i)) && Depth(s, n + Offset(s[k].i)) == Depth(s, n))
  }

  /** Between an instruction and the next there are only its operands. */
  ghost predicate OperandsOnly(s: seq<Cell>, k: int, n: int)
  {
    forall j :: 0 <= j < |s| && k < j < n ==> s[j].Arg?
  }

  ghost predicate OkAt(s: seq<Cell>, k: int)
    requires Edge(s, k)
  {
    OperandsOnly(s, k, k + Size(s[k].i)) && Next(s, k) && JumpOk(s, k) && Depth(s, k) >= Needs(s[k].i) &&
    Depth(s, k + Size(s[k].i)) == Depth(s, k) + Delta(s[k])
  }

  /** All instructions from p to q are in order. */
  ghost predicate EachOk(s: seq<Cell>, p: int, q: int)
  {
    forall k :: p <= k < q && Edge(s, k) ==> OkAt(s, k)
  }

  ghost predicate IsAllOk(s: seq<Cell>, p: int, q: int, b: bool)
  {
    forall t :: AskFor(Subject.SoundCode, t) ==> (b <==> EachOk(s, p, q))
  }

  /** EachOk under a name that stays folded. */
  ghost predicate AllOk(s: seq<Cell>, p: int, q: int)
    ensures IsAllOk(s, p, q, AllOk(s, p, q))
  {
    assert IsAllOk(s, p, q, EachOk(s, p, q));
    var b :| IsAllOk(s, p, q, b);
    b
  }

  lemma AllOkMeans(s: seq<Cell>, p: int, q: int)
    ensures AllOk(s, p, q) <==> EachOk(s, p, q)
  {
    assert AskFor(Subject.SoundCode, 0);
  }

  /** Code from p to q that leaves the depth as it was. */
  ghost predicate Level(s: seq<Cell>, p: int, q: int)
  {
    0 <= p <= q < |s| && Edge(s, p) && AllOk(s, p, q) && Depth(s, q) == Depth(s, p)
  }

  // ------------------------------------------------------------------ one instruction

  lemma {:induction false} ArgsFlat(s: seq<Cell>, k: nat, n: nat)
    requires k + n <= |s| && forall j :: k <= j < k + n ==> s[j].Arg?
    ensures DepthTo(s, k + n) == DepthTo(s, k)
    decreases n
  {
    if n > 0 { ArgsFlat(s, k, n - 1); }
  }

  lemma InstrCells(s: seq<Cell>, p: int, i: Instr)
    requires At(s, p, Enc(i))
    ensures Edge(s, p) && s[p].i == i && p + Size(i) <= |s|
    ensures forall j :: p < j < p + Size(i) ==> s[j].Arg?
    ensures Depth(s, p + Size(i)) == Depth(s, p) + Delta(Op(i))
  {
    var w := s[p..p + |Enc(i)|];
    forall j | p <= j < p + Size(i) ensures s[j] == Enc(i)[j - p] {
      assert s[j] == w[j - p];
    }
    ArgsFlat(s, p + 1, Size(i) - 1);
    DepthMeans(s, p);
    DepthMeans(s, p + Size(i));
  }

  /** An instruction with its successor and, if it jumps, its target. */
  lemma InstrOk(s: seq<Cell>, p: int, i: Instr)
    requires At(s, p, Enc(i)) && Edge(s, p + Size(i)) && Depth(s, p) >= Needs(i)
    requires Jumps(i) ==> Edge(s, p + Size(i) + Offset(i)) && Depth(s, p + Size(i) + Offset(i)) == Depth(s, p) + Delta(Op(i))
    ensures AllOk(s, p, p + Size(i)) && Depth(s, p + Size(i)) == Depth(s, p) + Delta(Op(i))
  {
    InstrCells(s, p, i);
    AllOkMeans(s, p, p + Size(i));
  }

  lemma AllOkJoin(s: seq<Cell>, p: int, m: int, q: int)
    requires AllOk(s, p, m) && AllOk(s, m, q)
    ensures AllOk(s, p, q)
  {
    AllOkMeans(s, p, m);
    AllOkMeans(s, m, q);
    AllOkMeans(s, p, q);
  }

  lemma LevelJoin(s: seq<Cell>, p: int, m: int, q: int)
    requires Level(s, p, m) && Level(s, m, q)
    ensures Level(s, p, q)
  {
    AllOkJoin(s, p, m, q);
  }

  // ----------------------------------------------------------------- pieces of code

  ghost predicate Starts(code: seq<Cell>)
  {
    code != [] ==> code[0].Op?
  }

  /** At p, with an instruction behind it and at a proper depth, the code is level. */
  ghost predicate StaysAt(s: seq<Cell>, p: int, n: nat)
  {
    0 <= p && Edge(s, p + n) && Depth(s, p) >= 0 ==> Level(s, p, p + n)
  }

  ghost predicate StaysEverywhere(s: seq<Cell>, code: seq<Cell>)
  {
    Starts(code) && forall p :: At(s, p, code) ==> StaysAt(s, p, |code|)
  }

  ghost predicate IsStays(s: seq<Cell>, code: seq<Cell>, b: bool)
  {
    forall t :: AskFor(Subject.LevelCode, t) ==> (b <==> StaysEverywhere(s, code))
  }

  /** StaysEverywhere under a name that stays folded. */
  ghost predicate Stays(s: seq<Cell>, code: seq<Cell>)
    ensures IsStays(s, code, Stays(s, code))
  {
    assert IsStays(s, code, StaysEverywhere(s, code));
    var b :| IsStays(s, code, b);
    b
  }

  lemma StaysMeans(s: seq<Cell>, code: seq<Cell>)
    ensures Stays(s, code) <==> StaysEverywhere(s, code)
  {
    assert AskFor(Subject.LevelCode, 0);
  }

  lemma StartEdge(s: seq<Cell>, p: int, code: seq<Cell>)
    requires At(s, p, code) && Starts(code) && Edge(s, p + |code|)
    ensures Edge(s, p)
  {
    if code != [] { assert s[p] == s[p..p + |code|][0]; }
  }

  /** An instruction that neither jumps nor touches the stack. */
  predicate Plain(i: Instr)
  {
    !Jumps(i) && Delta(Op(i)) == 0 && Needs(i) == 0
  }

  lemma PlainStays(s: seq<Cell>, i: Instr)
    requires Plain(i)
    ensures Stays(s, Enc(i))
  {
    StaysMeans(s, Enc(i));
    forall p | At(s, p, Enc(i)) ensures StaysAt(s, p, |Enc(i)|) {
      InstrCells(s, p, i);
      if Edge(s, p + |Enc(i)|) && Depth(s, p) >= 0 {
        InstrOk(s, p, i);
      }
    }
  }

  lemma EmptyStays(s: seq<Cell>)
    ensures Stays(s, [])
  {
    StaysMeans(s, []);
    forall p | At(s, p, []) ensures StaysAt(s, p, 0) {
      AllOkMeans(s, p, p);
    }
  }

  lemma JoinStays(s: seq<Cell>, a: seq<Cell>, b: seq<Cell>)
    requires Stays(s, a) && Stays(s, b)
    ensures Stays(s, a + b)
  {
    StaysMeans(s, a);
    StaysMeans(s, b);
    StaysMeans(s, a + b);
    forall p | At(s, p, a + b) ensures StaysAt(s, p, |a + b|) {
      AtConcat(s, p, a, b);
      if Edge(s, p + |a + b|) && Depth(s, p) >= 0 {
        StartEdge(s, p + |a|, b);
        assert StaysAt(s, p, |a|) && StaysAt(s, p + |a|, |b|);
        LevelJoin(s, p, p + |a|, p + |a| + |b|);
      }
    }
  }

  // ------------------------------------------------------------------ loops and choices

  /** A body between two jumps: a split in front and a jump back behind. */
  lemma StarLevel(s: seq<Cell>, p: int, at: seq<Cell>, check: bool, greedy: bool)
    requires At(s, p, Star(at, check, greedy)) && Stays(s, at)
    ensures StaysAt(s, p, |Star(at, check, greedy)|)
  {
    var b := if check then p + 6 else p + 5;
    StarLayout(s, p, at, check, greedy);
    if Edge(s, b + |at| + 5) && Depth(s, p) >= 0 {
      LoopLevel(s, p, b, at, check, greedy);
    }
  }

  lemma LoopLevel(s: seq<Cell>, p: int, b: int, at: seq<Cell>, check: bool, greedy: bool)
    requires LoopAt(s, p, b, b + |at|, check, greedy) && At(s, b, at) && Stays(s, at)
    requires Edge(s, b + |at| + 5) && Depth(s, p) >= 0
    ensures Level(s, p, b + |at| + 5)
  {
    var e := b + |at|;
    StaysMeans(s, at);
    InstrCells(s, p, Split(greedy, e - p));
    if check {
      InstrCells(s, p + 5, PushCharPos);
      InstrCells(s, e, BneCharPos(p - e - 5));
    } else {
      InstrCells(s, e, Goto(p - e - 5));
    }
    StartEdge(s, b, at);
    assert StaysAt(s, b, |at|);
    StarOk(s, p, b, e, check, greedy);
  }

  lemma StarOk(s: seq<Cell>, p: int, b: int, e: int, check: bool, greedy: bool)
    requires LoopAt(s, p, b, e, check, greedy) && Edge(s, p) && Edge(s, b) && Edge(s, e) && Edge(s, e + 5) && (check ==> Edge(s, p + 5)) && b <= e
    requires Depth(s, p) >= 0 && Depth(s, e) == Depth(s, b) && AllOk(s, b, e)
    requires Depth(s, p + 5) == Depth(s, p) && Depth(s, b) == Depth(s, p) + (if check then 1 else 0)
    requires Depth(s, e + 5) == Depth(s, e) - (if check then 1 else 0)
    ensures Level(s, p, e + 5)
  {
    InstrOk(s, p, Split(greedy, e - p));
    if check {
      InstrOk(s, p + 5, PushCharPos);
      AllOkJoin(s, p, p + 5, b);
      InstrOk(s, e, BneCharPos(p - e - 5));
    } else {
      InstrOk(s, e, Goto(p - e - 5));
    }
    AllOkJoin(s, p, b, e);
    AllOkJoin(s, p, e, e + 5);
  }

  lemma StarStays(s: seq<Cell>, at: seq<Cell>, check: bool, greedy: bool)
    requires Stays(s, at)
    ensures Stays(s, Star(at, check, greedy))
  {
    StaysMeans(s, Star(at, check, greedy));
    forall p | At(s, p, Star(at, check, greedy)) ensures StaysAt(s, p, |Star(at, check, greedy)|) {
      StarLevel(s, p, at, check, greedy);
    }
  }

  lemma UpToStays(s: seq<Cell>, at: seq<Cell>, greedy: bool, n: nat)
    requires Stays(s, at)
    ensures Stays(s, UpTo(at, greedy, n))
  {
    StaysMeans(s, UpTo(at, greedy, n));
    forall p | At(s, p, UpTo(at, greedy, n)) ensures StaysAt(s, p, |UpTo(at, greedy, n)|) {
      UpToLayout(s, p, at, greedy, n);
      if Edge(s, p + |UpTo(at, greedy, n)|) && Depth(s, p) >= 0 {
        UpToLevel(s, p, at, greedy, n);
      }
    }
  }

  lemma UpToLevel(s: seq<Cell>, p: int, at: seq<Cell>, greedy: bool, n: nat)
    requires At(s, p, Enc(PushI32(n))) && CountAt(s, p + 5, p + 10 + |at|, greedy) && At(s, p + 10, at) && Stays(s, at)
    requires Edge(s, p + |at| + 16) && Depth(s, p) >= 0
    ensures Level(s, p, p + |at| + 16)
  {
    var e := p + 10 + |at|;
    InstrCells(s, p, PushI32(n));
    InstrCells(s, p + 5, Split(greedy, e - p - 5));
    InstrOk(s, p, PushI32(n));
    CountLevel(s, p + 5, at, greedy);
    InstrOk(s, e + 5, Drop);
    AllOkJoin(s, p, p + 5, e + 5);
    AllOkJoin(s, p, e + 5, e + 6);
  }

  /** The loop between the instructions that push and drop its counter. */
  lemma CountLevel(s: seq<Cell>, p: int, at: seq<Cell>, greedy: bool)
    requires CountAt(s, p, p + 5 + |at|, greedy) && At(s, p + 5, at) && Stays(s, at) && Depth(s, p) >= 1
    ensures Level(s, p, p + |at| + 10) && At(s, p + |at| + 10, Enc(Drop))
  {
    StaysMeans(s, at);
    var e := p + 5 + |at|;
    InstrCells(s, p, Split(greedy, e - p));
    InstrCells(s, e, Loop(p - e - 5));
    InstrCells(s, e + 5, Drop);
    StartEdge(s, p + 5, at);
    assert StaysAt(s, p + 5, |at|);
    InstrOk(s, p, Split(greedy, e - p));
    InstrOk(s, e, Loop(p - e - 5));
    AllOkJoin(s, p, p + 5, e);
    AllOkJoin(s, p, e, e + 5);
  }

  lemma TimesStays(s: seq<Cell>, at: seq<Cell>, n: nat)
    requires Stays(s, at)
    ensures Stays(s, Times(at, n))
  {
    StaysMeans(s, Times(at, n));
    forall p | At(s, p, Times(at, n)) ensures StaysAt(s, p, |Times(at, n)|) {
      TimesLayout(s, p, at, n);
      if Edge(s, p + |Times(at, n)|) && Depth(s, p) >= 0 {
        TimesLevel(s, p, at, n);
      }
    }
  }

  lemma TimesLevel(s: seq<Cell>, p: int, at: seq<Cell>, n: nat)
    requires At(s, p, Enc(PushI32(n))) && At(s, p + 5, at) && Stays(s, at)
    requires At(s, p + 5 + |at|, Enc(Loop(-(|at| + 5)))) && At(s, p + 10 + |at|, Enc(Drop))
    requires Edge(s, p + |at| + 11) && Depth(s, p) >= 0
    ensures Level(s, p, p + |at| + 11)
  {
    StaysMeans(s, at);
    var e := p + 5 + |at|;
    InstrCells(s, p, PushI32(n));
    InstrCells(s, e, Loop(-(|at| + 5)));
    InstrCells(s, e + 5, Drop);
    StartEdge(s, p + 5, at);
    assert StaysAt(s, p + 5, |at|);
    InstrOk(s, p, PushI32(n));
    InstrOk(s, e, Loop(-(|at| + 5)));
    InstrOk(s, e + 5, Drop);
    AllOkJoin(s, p, p + 5, e);
    AllOkJoin(s, p, e, e + 5);
    AllOkJoin(s, p, e + 5, e + 6);
  }

  lemma PlusStays(s: seq<Cell>, at: seq<Cell>, greedy: bool)
    requires Stays(s, at)
    ensures Stays(s, Plus(at, greedy))
  {
    StaysMeans(s, at);
    StaysMeans(s, Plus(at, greedy));
    var i := if greedy then SplitGotoFirst(-(|at| + 5)) else SplitNextFirst(-(|at| + 5));
    forall p | At(s, p, Plus(at, greedy)) ensures StaysAt(s, p, |Plus(at, greedy)|) {
      AtConcat(s, p, at, Enc(i));
      if Edge(s, p + |at| + 5) && Depth(s, p) >= 0 {
        PlusLevel(s, p, at, i);
      }
    }
  }

  lemma PlusLevel(s: seq<Cell>, p: int, at: seq<Cell>, i: Instr)
    requires i == SplitGotoFirst(-(|at| + 5)) || i == SplitNextFirst(-(|at| + 5))
    requires At(s, p, at) && Stays(s, at) && At(s, p + |at|, Enc(i)) && Edge(s, p + |at| + 5) && Depth(s, p) >= 0
    ensures Level(s, p, p + |at| + 5)
  {
    StaysMeans(s, at);
    var e := p + |at|;
    InstrCells(s, e, i);
    assert StaysAt(s, p, |at|);
    InstrOk(s, e, i);
    AllOkJoin(s, p, e, e + 5);
  }

  /** An instruction in front of a body that it may skip. */
  lemma SkipLevel(s: seq<Cell>, p: int, i: Instr, at: seq<Cell>)
    requires Jumps(i) && Delta(Op(i)) == 0 && Needs(i) == 0 && Offset(i) == |at|
    requires At(s, p, Enc(i)) && At(s, p + Size(i), at) && Stays(s, at) && Edge(s, p + Size(i) + |at|) && Depth(s, p) >= 0
    ensures Level(s, p, p + Size(i) + |at|)
  {
    StaysMeans(s, at);
    var b := p + Size(i);
    InstrCells(s, p, i);
    StartEdge(s, b, at);
    assert StaysAt(s, b, |at|);
    InstrOk(s, p, i);
    AllOkJoin(s, p, b, b + |at|);
  }

  lemma SkipStays(s: seq<Cell>, i: Instr, at: seq<Cell>)
    requires Jumps(i) && Delta(Op(i)) == 0 && Needs(i) == 0 && Offset(i) == |at| && Stays(s, at)
    ensures Stays(s, Enc(i) + at)
  {
    StaysMeans(s, Enc(i) + at);
    var code := Enc(i) + at;
    forall p | At(s, p, code) ensures StaysAt(s, p, |code|) {
      AtConcat(s, p, Enc(i), at);
      if Edge(s, p + |code|) && Depth(s, p) >= 0 {
        SkipLevel(s, p, i, at);
      }
    }
  }

  lemma AltStays(s: seq<Cell>, ca: seq<Cell>, cb: seq<Cell>)
    requires Stays(s, ca) && Stays(s, cb)
    ensures Stays(s, AltCode(ca, cb))
  {
    StaysMeans(s, AltCode(ca, cb));
    var code := AltCode(ca, cb);
    forall p | At(s, p, code) ensures StaysAt(s, p, |code|) {
      RegexpCorrect.AltLayout(s, p, ca, cb);
      if Edge(s, p + |code|) && Depth(s, p) >= 0 {
        AltLevel(s, p, ca, cb);
      }
    }
  }

  lemma AltLevel(s: seq<Cell>, p: int, ca: seq<Cell>, cb: seq<Cell>)
    requires At(s, p, Enc(SplitNextFirst(|ca| + 5))) && At(s, p + 5, ca) && Stays(s, ca) && Stays(s, cb)
    requires At(s, p + 5 + |ca|, Enc(Goto(|cb|))) && At(s, p + 10 + |ca|, cb)
    requires Edge(s, p + |ca| + |cb| + 10) && Depth(s, p) >= 0
    ensures Level(s, p, p + |ca| + |cb| + 10)
  {
    StaysMeans(s, ca);
    StaysMeans(s, cb);
    var m := p + 5 + |ca|;
    InstrCells(s, p, SplitNextFirst(|ca| + 5));
    InstrCells(s, m, Goto(|cb|));
    StartEdge(s, m + 5, cb);
    StartEdge(s, p + 5, ca);
    assert StaysAt(s, p + 5, |ca|);
    assert StaysAt(s, m + 5, |cb|);
    InstrOk(s, p, SplitNextFirst(|ca| + 5));
    InstrOk(s, m, Goto(|cb|));
    AllOkJoin(s, p, p + 5, m);
    AllOkJoin(s, p, m, m + 5);
    AllOkJoin(s, p, m + 5, m + 5 + |cb|);
  }

  // -------------------------------------------------------------------- whole patterns

  lemma OptionalStays(s: seq<Cell>, at: seq<Cell>, check: bool, greedy: bool, max: nat, first: nat, next: nat)
    requires Stays(s, at)
    ensures Stays(s, OptionalCode(at, check, greedy, max, first, next))
  {
    var body := OptionalBody(at, check, greedy, max);
    assert Stays(s, body) by {
      EmptyStays(s);
      SkipStays(s, Split(greedy, |at|), at);
      StarStays(s, at, check, greedy);
      UpToStays(s, at, greedy, max);
    }
    if first != next {
      PlainStays(s, SaveReset(first, next - 1));
      JoinStays(s, Enc(SaveReset(first, next - 1)), body);
    } else {
      assert [] + body == body;
    }
  }

  lemma TailStays(s: seq<Cell>, at: seq<Cell>, check: bool, greedy: bool, min: nat, max: nat)
    requires Stays(s, at)
    ensures Stays(s, RepeatedTail(at, check, greedy, min, max))
  {
    EmptyStays(s);
    StarStays(s, at, check, greedy);
    if max > min { UpToStays(s, at, greedy, max - min); }
  }

  lemma RepeatedStays(s: seq<Cell>, at: seq<Cell>, check: bool, greedy: bool, min: nat, max: nat)
    requires Stays(s, at)
    ensures Stays(s, RepeatedCode(at, check, greedy, min, max))
  {
    TailStays(s, at, check, greedy, min, max);
    if min == 1 {
      JoinStays(s, at, RepeatedTail(at, check, greedy, min, max));
    } else {
      TimesStays(s, at, min);
      JoinStays(s, Times(at, min), RepeatedTail(at, check, greedy, min, max));
    }
  }

  lemma QuantStays(s: seq<Cell>, at: seq<Cell>, min: nat, max: nat, greedy: bool, first: nat, next: nat)
    requires Stays(s, at)
    ensures Stays(s, QuantCode(at, min, max, greedy, first, next))
  {
    var check := NeedsCheck(at, greedy);
    if IsSimple(at, max, greedy) {
      PlainStays(s, Match);
      JoinStays(s, at, Enc(Match));
      SkipStays(s, SimpleGreedyQuant(|at| + 1, min, max, SimpleLength(at)), at + Enc(Match));
    } else if min == 0 {
      OptionalStays(s, at, check, greedy, max, first, next);
    } else if min == 1 && max == INF && !check {
      PlusStays(s, at, greedy);
    } else {
      RepeatedStays(s, at, check, greedy, min, max);
    }
  }

  lemma LeafStays(s: seq<Cell>, r: Re, back: bool, cc: nat)
    requires Valid(r) && Leaf(r)
    ensures Stays(s, Code(r, back, cc))
  {
    CodeEmit(r, back, cc);
    if r.Empty? {
      EmptyStays(s);
    } else if r.BackRef? {
      PlainStays(s, if back then BackwardBackReference(r.n) else BackReference(r.n));
    } else if r.Bol? || r.Eol? || r.WordB? {
      PlainStays(s, RegexpCorrect.TestOf(r));
    } else {
      var i := RegexpSimple.InstrOf(r);
      PlainStays(s, Prev);
      PlainStays(s, i);
      JoinStays(s, Enc(i), Enc(Prev));
      JoinStays(s, Enc(Prev), Enc(i) + Enc(Prev));
    }
  }

  lemma CaptureStays(s: seq<Cell>, c: seq<Cell>, back: bool, n: nat)
    requires Stays(s, c)
    ensures Stays(s, CaptureCode(c, back, n))
  {
    var i1, i2 := if back then SaveEnd(n) else SaveStart(n), if back then SaveStart(n) else SaveEnd(n);
    PlainStays(s, i1);
    PlainStays(s, i2);
    JoinStays(s, c, Enc(i2));
    JoinStays(s, Enc(i1), c + Enc(i2));
  }

  lemma LookStays(s: seq<Cell>, c: seq<Cell>, neg: bool)
    requires Stays(s, c)
    ensures Stays(s, LookCode(c, neg))
  {
    PlainStays(s, Match);
    JoinStays(s, c, Enc(Match));
    SkipStays(s, if neg then NegativeLookahead(|c| + 1) else Lookahead(|c| + 1), c + Enc(Match));
  }

  /** The code of every pattern is level, wherever insertion, copying and reversal have
      put it. */
  lemma {:induction false} EmitStays(s: seq<Cell>, r: Re, back: bool, cc: nat)
    requires Valid(r)
    ensures Stays(s, Code(r, back, cc))
    decreases r
  {
    match r
    case Cat(_, _) =>
      CodeCat(r, back, cc);
      EmitStays(s, First(r, back), back, FirstCount(r, back, cc));
      EmitStays(s, Second(r, back), back, SecondCount(r, back, cc));
      JoinStays(s, Code(First(r, back), back, FirstCount(r, back, cc)), Code(Second(r, back), back, SecondCount(r, back, cc)));
    case Alt(a, b) =>
      CodeAlt(r, back, cc);
      EmitStays(s, a, back, cc);
      EmitStays(s, b, back, cc + Captures(a));
      AltStays(s, Code(a, back, cc), Code(b, back, cc + Captures(a)));
    case Capture(r1) =>
      CodeCapture(r, back, cc);
      EmitStays(s, r1, back, cc + 1);
      CaptureStays(s, Code(r1, back, cc + 1), back, cc);
    case Look(neg, behind, r1) =>
      CodeLook(r, back, cc);
      EmitStays(s, r1, behind, cc);
      LookStays(s, Code(r1, behind, cc), neg);
    case Quant(r1, min, max, greedy) =>
      CodeQuant(r, back, cc);
      EmitStays(s, r1, back, cc);
      QuantStays(s, Code(r1, back, cc), min, max, greedy, cc, cc + Captures(r1));
    case _ => LeafStays(s, r, back, cc);
  }

  /** In a compiled program every instruction is in order. */
  lemma ProgramOk(r: Re, sticky: bool)
    requires Valid(r)
    ensures var prog := Program(r, sticky); Edge(prog, 0) && AllOk(prog, 0, |prog|)
  {
    var whole := RegexpMatch.Whole(r, sticky);
    RegexpMatch.ProgramCode(r, sticky);
    CodeEmit(whole, false, 0);
    EmitStays(Program(r, sticky), whole, false, 0);
    LastMatch(Program(r, sticky), Code(whole, false, 0));
  }

  lemma LastMatch(prog: seq<Cell>, code: seq<Cell>)
    requires prog == code + Enc(Match) && Stays(prog, code)
    ensures Edge(prog, 0) && AllOk(prog, 0, |prog|) && Depth(prog, 0) == 0
  {
    StaysMeans(prog, code);
    assert prog[0..|prog|] == prog;
    AtConcat(prog, 0, code, Enc(Match));
    InstrCells(prog, |code|, Match);
    DepthMeans(prog, 0);
    assert StaysAt(prog, 0, |code|);
    AllOkMeans(prog, 0, |code|);
    MatchLast(prog);
    AllOkMeans(prog, 0, |prog|);
  }

  lemma MatchLast(s: seq<Cell>)
    requires |s| > 0 && s[|s| - 1] == Op(Match) && EachOk(s, 0, |s| - 1) && Depth(s, |s|) == Depth(s, |s| - 1) && Depth(s, |s| - 1) >= 0
    ensures EachOk(s, 0, |s|)
  {}
}
