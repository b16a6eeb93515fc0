/** The matcher as it runs (libregexp.c, 2050-2494, and lre_exec, 2496-2535): a loop that
    updates its position, its stack, the captures and the saved states in place. */
module RegexpExec {
  import opened CharRange
  import opened RegexpInput
  import opened RegexpCode
  import opened RegexpOrder
  import opened RegexpMachine
  import opened RegexpSimple
  import opened RegexpCorrect
  import opened RegexpMatch
  import opened RegexpSemantics
  import opened RegexpExists
  import opened RegexpCaptures

  // ------------------------------------------------ what the matcher relies on

  /** Ranges are sorted for the binary search, and simple quantifiers may run once. */
  ghost predicate Prepared(i: Instr)
  {
    (i.InRange? ==> !i.range.Never? && |i.range.pairs| >= 1 && Ordered(i.range.pairs)) &&
    (i.SimpleGreedyQuant? ==> i.max >= 1)
  }

  ghost predicate AllPrepared(s: seq<Cell>)
  {
    s == [] || ((s[0].Op? ==> Prepared(s[0].i)) && AllPrepared(s[1..]))
  }

  lemma {:induction false} PreparedAt(s: seq<Cell>, k: int)
    requires AllPrepared(s) && IsOp(s, k)
    ensures Prepared(s[k].i)
    decreases k
  {
    if k > 0 { PreparedAt(s[1..], k - 1); }
  }

  lemma {:induction false} PreparedJoin(a: seq<Cell>, b: seq<Cell>)
    requires AllPrepared(a) && AllPrepared(b)
    ensures AllPrepared(a + b)
  {
    if a == [] {
      assert a + b == b;
    } else {
      assert (a + b)[1..] == a[1..] + b;
      PreparedJoin(a[1..], b);
    }
  }

  lemma {:induction false} PreparedArgs(n: nat)
    ensures AllPrepared(Args(n))
  {
    if n > 0 {
      assert Args(n)[1..] == Args(n - 1);
      PreparedArgs(n - 1);
    }
  }

  lemma PreparedOne(i: Instr)
    requires Prepared(i)
    ensures AllPrepared([]) && AllPrepared(Enc(i))
  {
    PreparedArgs(Size(i) - 1);
    assert Enc(i)[1..] == Args(Size(i) - 1);
  }

  lemma PreparedFirst(i: Instr, rest: seq<Cell>)
    requires Prepared(i) && AllPrepared(rest)
    ensures AllPrepared(Enc(i) + rest)
  {
    PreparedOne(i);
    PreparedJoin(Enc(i), rest);
  }

  lemma PreparedLast(rest: seq<Cell>, i: Instr)
    requires Prepared(i) && AllPrepared(rest)
    ensures AllPrepared(Enc(i)) && AllPrepared(rest + Enc(i))
  {
    PreparedOne(i);
    PreparedJoin(rest, Enc(i));
  }

  lemma ClassPrepared(points: seq<nat>)
    requires Canonical(points)
    ensures Prepared(ClassInstr(points))
  {
    if |points| >= 2 && Fits16(points) { Ordered16(points); } else { Ordered32(points); }
  }

  lemma StarPrepared(at: seq<Cell>, check: bool, greedy: bool)
    requires AllPrepared(at)
    ensures AllPrepared(Star(at, check, greedy))
  {
    if check {
      var tail := at + Enc(BneCharPos(-(|at| + 11)));
      PreparedLast(at, BneCharPos(-(|at| + 11)));
      PreparedFirst(PushCharPos, tail);
      PreparedFirst(Split(greedy, |at| + 6), Enc(PushCharPos) + tail);
    } else {
      PreparedLast(at, Goto(-(|at| + 10)));
      PreparedFirst(Split(greedy, |at| + 5), at + Enc(Goto(-(|at| + 10))));
    }
  }

  lemma CountPrepared(at: seq<Cell>, greedy: bool, n: nat)
    requires AllPrepared(at)
    ensures AllPrepared(UpTo(at, greedy, n)) && AllPrepared(Times(at, n))
  {
    PreparedOne(Drop);
    PreparedFirst(Loop(-(|at| + 10)), Enc(Drop));
    PreparedFirst(Loop(-(|at| + 5)), Enc(Drop));
    PreparedJoin(at, Enc(Loop(-(|at| + 10))) + Enc(Drop));
    PreparedJoin(at, Enc(Loop(-(|at| + 5))) + Enc(Drop));
    PreparedFirst(Split(greedy, |at| + 5), at + (Enc(Loop(-(|at| + 10))) + Enc(Drop)));
    PreparedFirst(PushI32(n), Enc(Split(greedy, |at| + 5)) + (at + (Enc(Loop(-(|at| + 10))) + Enc(Drop))));
    PreparedFirst(PushI32(n), at + (Enc(Loop(-(|at| + 5))) + Enc(Drop)));
  }

  lemma OptionalPrepared(at: seq<Cell>, check: bool, greedy: bool, max: nat, first: nat, next: nat)
    requires AllPrepared(at)
    ensures AllPrepared(OptionalCode(at, check, greedy, max, first, next))
  {
    var body := OptionalBody(at, check, greedy, max);
    PreparedOne(Match);
    StarPrepared(at, check, greedy);
    CountPrepared(at, greedy, max);
    PreparedFirst(Split(greedy, |at|), at);
    if first != next {
      PreparedFirst(SaveReset(first, next - 1), body);
    } else {
      assert [] + body == body;
    }
  }

  lemma TailPrepared(at: seq<Cell>, check: bool, greedy: bool, min: nat, max: nat)
    requires AllPrepared(at)
    ensures AllPrepared(RepeatedTail(at, check, greedy, min, max))
  {
    PreparedOne(Match);
    if max == INF {
      StarPrepared(at, check, greedy);
    } else if max > min {
      CountPrepared(at, greedy, max - min);
    }
  }

  lemma RepeatedPrepared(at: seq<Cell>, check: bool, greedy: bool, min: nat, max: nat)
    requires AllPrepared(at)
    ensures AllPrepared(RepeatedCode(at, check, greedy, min, max))
  {
    TailPrepared(at, check, greedy, min, max);
    CountPrepared(at, greedy, min);
    PreparedJoin(if min == 1 then at else Times(at, min), RepeatedTail(at, check, greedy, min, max));
  }

  lemma QuantPrepared(at: seq<Cell>, min: nat, max: nat, greedy: bool, first: nat, next: nat)
    requires AllPrepared(at)
    ensures AllPrepared(QuantCode(at, min, max, greedy, first, next))
  {
    var check := NeedsCheck(at, greedy);
    if IsSimple(at, max, greedy) {
      PreparedLast(at, Match);
      PreparedFirst(SimpleGreedyQuant(|at| + 1, min, max, SimpleLength(at)), at + Enc(Match));
    } else if min == 0 {
      OptionalPrepared(at, check, greedy, max, first, next);
    } else if min == 1 && max == INF && !check {
      PreparedLast(at, if greedy then SplitGotoFirst(-(|at| + 5)) else SplitNextFirst(-(|at| + 5)));
    } else {
      RepeatedPrepared(at, check, greedy, min, max);
    }
  }

  lemma LeafPrepared(r: Re, back: bool, cc: nat)
    requires Valid(r) && Leaf(r)
    ensures AllPrepared(Code(r, back, cc))
  {
    CodeEmit(r, back, cc);
    PreparedOne(Match);
    PreparedOne(Prev);
    if r.Bol? || r.Eol? || r.WordB? {
      PreparedOne(TestOf(r));
    } else if r.BackRef? {
      PreparedOne(if back then BackwardBackReference(r.n) else BackReference(r.n));
    } else if !r.Empty? {
      if r.Class? { ClassPrepared(r.points); }
      PreparedLast(Enc(InstrOf(r)), Prev) by { PreparedOne(InstrOf(r)); }
      PreparedOne(InstrOf(r));
      PreparedFirst(Prev, Enc(InstrOf(r)) + Enc(Prev));
    }
  }

  lemma CatPrepared(r: Re, back: bool, cc: nat)
    requires r.Cat? && Valid(r)
    requires AllPrepared(Code(First(r, back), back, FirstCount(r, back, cc))) && AllPrepared(Code(Second(r, back), back, SecondCount(r, back, cc)))
    ensures AllPrepared(Code(r, back, cc))
  {
    CodeCat(r, back, cc);
    PreparedJoin(Code(First(r, back), back, FirstCount(r, back, cc)), Code(Second(r, back), back, SecondCount(r, back, cc)));
  }

  lemma InnerPrepared(r: Re, back: bool, cc: nat)
    requires (r.Capture? || r.Look? || r.Quant?) && Valid(r)
    requires AllPrepared(Code(r.r, if r.Look? then r.behind else back, if r.Capture? then cc + 1 else cc))
    ensures AllPrepared(Code(r, back, cc))
  {
    if r.Capture? {
      CodeCapture(r, back, cc);
      CapturePrepared(Code(r.r, back, cc + 1), back, cc);
    } else if r.Look? {
      CodeLook(r, back, cc);
      LookPrepared(Code(r.r, r.behind, cc), r.neg);
    } else {
      CodeQuant(r, back, cc);
      QuantPrepared(Code(r.r, back, cc), r.min, r.max, r.greedy, cc, cc + Captures(r.r));
    }
  }

  lemma {:induction false} CodePrepared(r: Re, back: bool, cc: nat)
    requires Valid(r)
    ensures AllPrepared(Code(r, back, cc))
    decreases r
  {
    if Leaf(r) {
      LeafPrepared(r, back, cc);
    } else if r.Cat? {
      CodePrepared(First(r, back), back, FirstCount(r, back, cc));
      CodePrepared(Second(r, back), back, SecondCount(r, back, cc));
      CatPrepared(r, back, cc);
    } else if r.Alt? {
      CodeAlt(r, back, cc);
      CodePrepared(r.a, back, cc);
      CodePrepared(r.b, back, cc + Captures(r.a));
      AltPrepared(Code(r.a, back, cc), Code(r.b, back, cc + Captures(r.a)));
    } else {
      CodePrepared(r.r, if r.Look? then r.behind else back, if r.Capture? then cc + 1 else cc);
      InnerPrepared(r, back, cc);
    }
  }

  lemma AltPrepared(ca: seq<Cell>, cb: seq<Cell>)
    requires AllPrepared(ca) && AllPrepared(cb)
    ensures AllPrepared(AltCode(ca, cb))
  {
    PreparedFirst(Goto(|cb|), cb);
    PreparedJoin(ca, Enc(Goto(|cb|)) + cb);
    PreparedFirst(SplitNextFirst(|ca| + 5), ca + (Enc(Goto(|cb|)) + cb));
  }

  lemma LookPrepared(c: seq<Cell>, neg: bool)
    requires AllPrepared(c)
    ensures AllPrepared(LookCode(c, neg))
  {
    PreparedLast(c, Match);
    PreparedFirst(if neg then NegativeLookahead(|c| + 1) else Lookahead(|c| + 1), c + Enc(Match));
  }

  lemma CapturePrepared(c: seq<Cell>, back: bool, n: nat)
    requires AllPrepared(c)
    ensures AllPrepared(CaptureCode(c, back, n))
  {
    var i1, i2 := if back then SaveEnd(n) else SaveStart(n), if back then SaveStart(n) else SaveEnd(n);
    PreparedLast(c, i2);
    PreparedFirst(i1, c + Enc(i2));
  }

  lemma ProgramPrepared(r: Re, sticky: bool)
    requires Valid(r)
    ensures AllPrepared(Program(r, sticky))
  {
    CodePrepared(Whole(r, sticky), false, 0);
    CodeEmit(Whole(r, sticky), false, 0);
    ProgramCode(r, sticky);
    PreparedLast(Code(Whole(r, sticky), false, 0), Match);
  }

  // ------------------------------------------------------------------ runs

  lemma {:induction false} BrokenStays(prog: seq<Cell>, env: Env, n: nat)
    ensures Steps(prog, env, n, Broken).Broken?
  {
    if n > 0 { BrokenStays(prog, env, n - 1); }
  }

  /** A run that ends well takes another step from a state that is not final. */
  lemma OneStep(prog: seq<Cell>, env: Env, n: nat, st: State)
    requires !Final(st) && Final(Steps(prog, env, n, st)) && Steps(prog, env, n, st).Unwind?
    ensures n > 0 && Steps(prog, env, n, st) == Steps(prog, env, n - 1, Step(prog, env, st)) && !Step(prog, env, st).Broken?
  {
    if n > 0 { BrokenStays(prog, env, n - 1); }
  }

  /** After an instruction: go on, or consult the saved states. */
  datatype Flow = Next | Matched | NoMatch

  class Machine {
    const prog: seq<Cell>
    const env: Env
    var pc: int
    var pos: nat
    var stack: seq<nat>
    var caps: Captured
    var saved: seq<Saved>

    constructor (prog: seq<Cell>, env: Env, start: nat, captures: nat)
      ensures this.prog == prog && this.env == env && Now() == Start(start, captures)
    {
      this.prog, this.env := prog, env;
      pc, pos, stack, caps, saved := 0, start, [], seq(2 * captures, _ => None), [];
    }

    function Now(): State
      reads this
    {
      Run(pc, pos, stack, caps, saved)
    }

    /** Where an instruction has led from a state. */
    ghost predicate Led(flow: Flow, to: State)
      reads this
    {
      match flow
      case Next => to == Now()
      case Matched => to == Unwind(true, caps, saved)
      case NoMatch => to == Unwind(false, caps, saved)
    }

    /** push_state */
    method PushState(kind: Kind, at: int)
      modifies this`saved
      ensures saved == old(saved) + [Saved(kind, at, pos, stack, caps)]
    {
      saved := saved + [Saved(kind, at, pos, stack, caps)];
    }

    // ---------------------------------------------------------- characters

    /** The characters and tests. */
    method Try(i: Instr, x: nat) returns (r: Option<nat>)
      requires x <= |env.units| && (IsCharInstr(i) || IsTest(i)) && Prepared(i)
      ensures r == SimpleStep(env, i, x)
    {
      if IsTest(i) {
        return if TestHolds(env, i, x) then Some(x) else None;
      }
      if x >= |env.units| { return None; }
      var (c, y) := GetChar(env, x);
      var ok := true;
      match i {
        case Char(val) => ok := env.canon(c) == val;
        case Dot => ok := !IsLineTerminator(c);
        case InRange(range) => ok := CharRange.Test(range, env.canon(c));
        case Any =>
      }
      r := if ok then Some(y) else None;
    }

    /** The run of the body of a simple quantifier, without saved states. */
    method SimpleMatch(from: int, x0: nat) returns (r: Option<nat>)
      requires x0 <= |env.units| && AllPrepared(prog)
      ensures r == SimpleRun(prog, env, from, x0)
    {
      var p, x: nat := from, x0;
      while IsOp(prog, p) && !prog[p].i.Match? && (IsCharInstr(prog[p].i) || IsTest(prog[p].i))
        invariant x <= |env.units| && SimpleRun(prog, env, p, x) == SimpleRun(prog, env, from, x0)
        decreases |prog| - p
      {
        PreparedAt(prog, p);
        r := Try(prog[p].i, x);
        if r.None? { return; }
        p, x := p + Size(prog[p].i), r.value;
      }
      r := if IsOp(prog, p) && prog[p].i.Match? then Some(x) else None;
    }

    /** The loop of REOP_simple_greedy_quant. */
    method GreedyLoop(from: int, max: nat) returns (q: nat)
      requires pos <= |env.units| && AllPrepared(prog) && max >= 1
      modifies this`pos
      ensures (q, pos) == GreedyRun(prog, env, from, old(pos), 0, max)
    {
      q := 0;
      while true
        invariant pos <= |env.units| && (q < max || max == INF)
        invariant GreedyRun(prog, env, from, pos, q, max) == GreedyRun(prog, env, from, old(pos), 0, max)
        decreases |env.units| - pos
      {
        var r := SimpleMatch(from, pos);
        if r.None? || r.value == pos { return; }
        pos, q := r.value, q + 1;
        if q >= max && max != INF { return; }
      }
    }

    /** Going back over n characters. */
    method GoBack(n: int)
      requires pos <= |env.units|
      modifies this`pos
      ensures pos == Back(env, old(pos), n)
    {
      var left := n;
      while left > 0 && pos > 0
        invariant pos <= |env.units| && Back(env, pos, left) == Back(env, old(pos), n)
        decreases left
      {
        pos, left := PrevChar(env, pos), left - 1;
      }
    }

    // ------------------------------------------------------ back references

    method RepeatAhead(from: nat, end: nat) returns (ok: bool)
      requires end <= |env.units| && pos <= |env.units|
      modifies this`pos
      ensures var r := RepeatForward(env, from, end, old(pos)); ok == r.Some? && (ok ==> pos == r.value)
    {
      var p: nat := from;
      while p < end
        invariant pos <= |env.units| && RepeatForward(env, p, end, pos) == RepeatForward(env, from, end, old(pos))
        decreases end - p
      {
        if pos >= |env.units| { return false; }
        var (c1, p1) := GetCharTo(env, p, end);
        var (c2, pos1) := GetChar(env, pos);
        if env.canon(c1) != env.canon(c2) { return false; }
        p, pos := p1, pos1;
      }
      ok := true;
    }

    method RepeatBehind(from: nat, start: nat) returns (ok: bool)
      requires from <= |env.units| && pos <= |env.units|
      modifies this`pos
      ensures var r := RepeatBackward(env, from, start, old(pos)); ok == r.Some? && (ok ==> pos == r.value)
    {
      var p: nat := from;
      while p > start
        invariant p <= |env.units| && pos <= |env.units|
        invariant RepeatBackward(env, p, start, pos) == RepeatBackward(env, from, start, old(pos))
        decreases p
      {
        if pos == 0 { return false; }
        var (c1, p1) := GetPrevFrom(env, p, start);
        var (c2, pos1) := GetPrevFrom(env, pos, 0);
        if env.canon(c1) != env.canon(c2) { return false; }
        p, pos := p1, pos1;
      }
      ok := true;
    }

    method Refer(k: nat, back: bool) returns (ok: bool)
      requires pos <= |env.units|
      modifies this`pos
      ensures var r := BackRefStep(env, caps, k, back, old(pos)); ok == r.Some? && (ok ==> pos == r.value)
    {
      if 2 * k + 1 >= |caps| { return false; }
      if caps[2 * k].None? || caps[2 * k + 1].None? { return true; }
      var start, end := caps[2 * k].value, caps[2 * k + 1].value;
      if start > |env.units| || end > |env.units| { return false; }
      if back {
        ok := RepeatBehind(end, start);
      } else {
        ok := RepeatAhead(start, end);
      }
    }

    // ------------------------------------------------------------ captures

    method ResetCaptures(first: nat, last: int)
      modifies this`caps
      ensures caps == ResetCaps(old(caps), first, last)
    {
      var val := first;
      while val <= last
        invariant ResetCaps(caps, val, last) == ResetCaps(old(caps), first, last)
        decreases last - val
      {
        caps := SetCap(caps, 2 * val, None);
        caps := SetCap(caps, 2 * val + 1, None);
        val := val + 1;
      }
    }

    // -------------------------------------------------------- instructions

    /** Jumps, and what is saved for later. */
    method Branch(i: Instr, next: int)
      requires i.Goto? || i.SplitGotoFirst? || i.SplitNextFirst? || i.Lookahead? || i.NegativeLookahead?
      requires pos <= |env.units|
      modifies this`pc, this`saved
      ensures Now() == Execute(env, i, next, old(Now()), prog)
    {
      match i {
        case Goto(off) => pc := next + off;
        case SplitGotoFirst(off) => PushState(SplitState, next); pc := next + off;
        case SplitNextFirst(off) => PushState(SplitState, next + off); pc := next;
        case Lookahead(off) => PushState(LookState, next + off); pc := next;
        case NegativeLookahead(off) => PushState(NegLookState, next + off); pc := next;
      }
    }

    predicate OnStack(i: Instr)
    {
      i.Loop? || i.PushI32? || i.Drop? || i.PushCharPos? || i.BneCharPos?
    }

    /** Counters and positions on the stack. */
    method UseStack(i: Instr, next: int)
      requires OnStack(i) && pos <= |env.units| && !Execute(env, i, next, Now(), prog).Broken?
      modifies this`pc, this`stack
      ensures Now() == Execute(env, i, next, old(Now()), prog)
    {
      pc := next;
      var n := |stack|;
      match i {
        case PushI32(k) => stack := stack + [k];
        case PushCharPos => stack := stack + [pos];
        case Drop => stack := stack[..n - 1];
        case Loop(off) =>
          var top := if stack[n - 1] == 0 then 0xffff_ffff_ffff_ffff else stack[n - 1] - 1;
          stack := stack[..n - 1] + [top];
          if top != 0 { pc := next + off; }
        case BneCharPos(off) =>
          var top := stack[n - 1];
          stack := stack[..n - 1];
          if top != pos { pc := next + off; }
      }
    }

    /** Captures are set. */
    method Record(i: Instr, next: int)
      requires (i.SaveStart? || i.SaveEnd? || i.SaveReset?) && pos <= |env.units|
      modifies this`pc, this`caps
      ensures Now() == Execute(env, i, next, old(Now()), prog)
    {
      pc := next;
      match i {
        case SaveStart(k) => caps := SetCap(caps, 2 * k, Some(pos));
        case SaveEnd(k) => caps := SetCap(caps, 2 * k + 1, Some(pos));
        case SaveReset(first, last) => ResetCaptures(first, last);
      }
    }

    /** A character is read or a place tested. */
    method MatchHere(i: Instr, next: int) returns (flow: Flow)
      requires (IsCharInstr(i) || IsTest(i)) && pos <= |env.units| && Prepared(i)
      modifies this`pc, this`pos
      ensures Led(flow, Execute(env, i, next, old(Now()), prog))
    {
      var r := Try(i, pos);
      if r.None? { return NoMatch; }
      pc, pos := next, r.value;
      flow := Next;
    }

    /** Back references, and going back over one character. */
    method Move(i: Instr, next: int) returns (flow: Flow)
      requires (i.BackReference? || i.BackwardBackReference? || i.Prev?) && pos <= |env.units|
      modifies this`pc, this`pos
      ensures Led(flow, Execute(env, i, next, old(Now()), prog))
    {
      pc := next;
      var ok := pos > 0;
      if !i.Prev? {
        ok := Refer(i.n, i.BackwardBackReference?);
      } else if ok {
        pos := PrevChar(env, pos);
      }
      flow := if ok then Next else NoMatch;
    }

    /** REOP_simple_greedy_quant */
    method RunGreedy(i: Instr, next: int) returns (flow: Flow)
      requires i.SimpleGreedyQuant? && Prepared(i) && AllPrepared(prog) && pos <= |env.units|
      modifies this`pc, this`pos, this`saved
      ensures Led(flow, Execute(env, i, next, old(Now()), prog))
    {
      pc := next + i.next;
      var q := GreedyLoop(next, i.max);
      if q < i.min { return NoMatch; }
      if q > i.min { PushState(GreedyState(q - i.min), next - 17); }
      flow := Next;
    }

    /** One instruction. */
    method Advance() returns (flow: Flow)
      requires AllPrepared(prog) && !Step(prog, env, Now()).Broken?
      modifies this
      ensures Led(flow, Step(prog, env, old(Now())))
    {
      PreparedAt(prog, pc);
      var i := prog[pc].i;
      var next := pc + Size(i);
      if i.Match? {
        flow := Matched;
      } else if OnStack(i) {
        UseStack(i, next);
        flow := Next;
      } else if i.SaveStart? || i.SaveEnd? || i.SaveReset? {
        Record(i, next);
        flow := Next;
      } else if i.SimpleGreedyQuant? {
        flow := RunGreedy(i, next);
      } else if IsCharInstr(i) || IsTest(i) {
        flow := MatchHere(i, next);
      } else if i.BackReference? || i.BackwardBackReference? || i.Prev? {
        flow := Move(i, next);
      } else {
        Branch(i, next);
        flow := Next;
      }
    }

    // -------------------------------------------------------- saved states

    /** One round less of a simple quantifier. */
    method TakeBack()
      requires saved != [] && saved[|saved| - 1].kind.GreedyState? && !Resume(env, prog, false, caps, saved).Broken?
      modifies this
      ensures Now() == Resume(env, prog, false, old(caps), old(saved))
    {
      var top, rest := saved[|saved| - 1], saved[..|saved| - 1];
      var i := prog[top.pc].i;
      pos, stack, caps := top.pos, top.stack, top.caps;
      GoBack(i.len);
      pc := top.pc + 17 + i.next;
      saved := rest;
      if top.kind.count > 1 {
        saved := rest + [top.(kind := GreedyState(top.kind.count - 1), pos := pos)];
      }
    }

    /** The topmost saved state is used, or dropped. */
    method Consult(ok0: bool) returns (used: bool, ok: bool)
      requires saved != [] && !Resume(env, prog, ok0, caps, saved).Broken?
      modifies this
      ensures Resume(env, prog, ok0, old(caps), old(saved)) == if used then Now() else Unwind(ok, caps, saved)
    {
      var top := saved[|saved| - 1];
      ok := ok0;
      if top.kind.GreedyState? && !ok {
        TakeBack();
        return true, ok;
      }
      saved := saved[..|saved| - 1];
      if top.kind.LookState? || top.kind.NegLookState? { ok := top.kind.LookState? == ok; }
      used := if top.kind.SplitState? then !ok else ok && !top.kind.GreedyState?;
      if used {
        if !top.kind.LookState? { caps := top.caps; }
        pc, pos, stack := top.pc, top.pos, top.stack;
      }
    }

    /** Saved states are consulted until one is used; n is the number of steps that are
        left. */
    method Recurse(ok0: bool, ghost n: nat) returns (used: bool, ok: bool, ghost left: nat)
      requires var end := Steps(prog, env, n, Unwind(ok0, caps, saved)); Final(end) && end.Unwind?
      modifies this
      ensures left <= n
      ensures old(Steps(prog, env, n, Unwind(ok0, caps, saved))) == if used then Steps(prog, env, left, Now()) else Unwind(ok, caps, [])
    {
      ghost var end := Steps(prog, env, n, Unwind(ok0, caps, saved));
      used, ok, left := false, ok0, n;
      while saved != []
        invariant left <= n && Steps(prog, env, left, Unwind(ok, caps, saved)) == end
        decreases left
      {
        OneStep(prog, env, left, Unwind(ok, caps, saved));
        used, ok := Consult(ok);
        left := left - 1;
        if used { return; }
      }
      FinalStays(prog, env, left, Unwind(ok, caps, []));
    }

    /** lre_exec_backtrack: the machine runs to its end, which takes at most n steps. */
    method Backtrack(ghost n: nat) returns (ok: bool)
      requires AllPrepared(prog)
      requires var end := Steps(prog, env, n, Now()); Final(end) && end.Unwind?
      modifies this
      ensures Unwind(ok, caps, []) == Steps(prog, env, n, old(Now()))
    {
      ghost var end, left := Steps(prog, env, n, Now()), n;
      while true
        invariant Steps(prog, env, left, Now()) == end
        decreases left
      {
        OneStep(prog, env, left, Now());
        var flow := Advance();
        left := left - 1;
        if flow != Next {
          var used;
          used, ok, left := Recurse(flow == Matched, left);
          if !used { return; }
        }
      }
    }
  }

  /** lre_exec: the first match of a compiled pattern, with its captures. They hold what they
      should, and for a pattern without back references nothing is found only if there is
      nothing. */
  method LreExec(env: Env, r: Re, sticky: bool, start: nat, captures: nat) returns (ok: bool, caps: Captured)
    requires GoodEnv(env) && Valid(r) && Safe(env, r, false, 1) && Boundary(env, start)
    ensures var found := Find(env, r, sticky, Spot(start, seq(2 * captures, _ => None)));
            ok == found.Some? && (ok ==> caps == found.value.caps)
    ensures ok && captures >= 1 ==> |caps| == 2 * captures && Reports(env, r, sticky, start, caps)
    ensures NoBackRef(r) ==> (ok <==> SomeMatch(env, r, sticky, start))
  {
    ghost var n, lost := ProgramFinds(env, r, sticky, start, captures);
    ProgramPrepared(r, sticky);
    var m := new Machine(Program(r, sticky), env, start, captures);
    ok := m.Backtrack(n);
    caps := m.caps;
    AnswerMeans(env, r, sticky, start, captures, ok, caps);
  }

  lemma AnswerMeans(env: Env, r: Re, sticky: bool, start: nat, captures: nat, ok: bool, caps: Captured)
    requires Valid(r) && Boundary(env, start)
    requires var found := Find(env, r, sticky, Spot(start, seq(2 * captures, _ => None)));
             ok == found.Some? && (ok ==> caps == found.value.caps)
    ensures ok && captures >= 1 ==> |caps| == 2 * captures && Reports(env, r, sticky, start, caps)
    ensures NoBackRef(r) ==> (ok <==> SomeMatch(env, r, sticky, start))
  {
    if captures >= 1 { FindReports(env, r, sticky, start, captures); }
    if NoBackRef(r) { FindDecides(env, r, sticky, Spot(start, seq(2 * captures, _ => None))); }
  }
}
