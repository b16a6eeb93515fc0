/** Every run of a compiled program: the machine is always at an instruction, and its
    stack is as deep as the scan of the code says (libregexp.c, 1772-1815, 2089-2494). */
module RegexpDepth {
  import opened RegexpInput
  import opened RegexpCode
  import opened RegexpMachine
  import opened RegexpRuns
  import opened RegexpStack

  /** A place in the program with a stack of the depth that the scan finds there. */
  ghost predicate Proper(prog: seq<Cell>, env: Env, pc: int, pos: nat, stack: seq<nat>)
  {
    Edge(prog, pc) && pos <= |env.units| && |stack| == Depth(prog, pc)
  }

  ghost predicate ProperSaved(prog: seq<Cell>, env: Env, sv: Saved)
  {
    Proper(prog, env, sv.pc, sv.pos, sv.stack) &&
    (sv.kind.GreedyState? ==> sv.kind.count >= 1 && prog[sv.pc].i.SimpleGreedyQuant?)
  }

  ghost predicate AllProper(prog: seq<Cell>, env: Env, saved: seq<Saved>)
  {
    forall t :: 0 <= t < |saved| ==> ProperSaved(prog, env, saved[t])
  }

  /** The invariant of the machine. */
  ghost predicate InOrder(prog: seq<Cell>, env: Env, st: State)
  {
    match st
    case Broken => false
    case Unwind(_, _, saved) => AllProper(prog, env, saved)
    case Run(pc, pos, stack, _, saved) => Proper(prog, env, pc, pos, stack) && AllProper(prog, env, saved)
  }

  lemma AllProperPush(prog: seq<Cell>, env: Env, saved: seq<Saved>, sv: Saved)
    requires AllProper(prog, env, saved) && ProperSaved(prog, env, sv)
    ensures AllProper(prog, env, saved + [sv])
  {}

  /** What the scan guarantees at an instruction. */
  lemma Successors(prog: seq<Cell>, k: int)
    requires AllOk(prog, 0, |prog|) && Edge(prog, k)
    ensures var i := prog[k].i; var n := k + Size(i);
            (i.Match? || (Edge(prog, n) && Depth(prog, n) == Depth(prog, k) + Delta(Op(i)))) &&
            Depth(prog, k) >= Needs(i) &&
            (Jumps(i) ==> Edge(prog, n + Offset(i)) && Depth(prog, n + Offset(i)) == Depth(prog, k) + Delta(Op(i)))
  {
    AllOkMeans(prog, 0, |prog|);
    assert OkAt(prog, k);
  }

  /** Instructions that move on, touch the captures, or use the stack. */
  lemma MoveKeeps(prog: seq<Cell>, env: Env, st: State)
    requires AllOk(prog, 0, |prog|) && st.Run? && InOrder(prog, env, st) && !Jumps(prog[st.pc].i)
    ensures InOrder(prog, env, Step(prog, env, st))
  {
    Successors(prog, st.pc);
  }

  lemma JumpKeeps(prog: seq<Cell>, env: Env, st: State)
    requires AllOk(prog, 0, |prog|) && st.Run? && InOrder(prog, env, st)
    requires prog[st.pc].i.Goto? || prog[st.pc].i.Loop? || prog[st.pc].i.BneCharPos?
    ensures InOrder(prog, env, Step(prog, env, st))
  {
    Successors(prog, st.pc);
  }

  lemma ChoiceKeeps(prog: seq<Cell>, env: Env, st: State)
    requires AllOk(prog, 0, |prog|) && st.Run? && InOrder(prog, env, st)
    requires var i := prog[st.pc].i; i.SplitGotoFirst? || i.SplitNextFirst? || i.Lookahead? || i.NegativeLookahead?
    ensures InOrder(prog, env, Step(prog, env, st))
  {
    var i := prog[st.pc].i;
    Successors(prog, st.pc);
    var n := st.pc + 5;
    var kind := if i.Lookahead? then LookState else if i.NegativeLookahead? then NegLookState else SplitState;
    AllProperPush(prog, env, st.saved, Saved(kind, if i.SplitGotoFirst? then n else n + Offset(i), st.pos, st.stack, st.caps));
  }

  lemma GreedyKeeps(prog: seq<Cell>, env: Env, st: State)
    requires AllOk(prog, 0, |prog|) && st.Run? && InOrder(prog, env, st) && prog[st.pc].i.SimpleGreedyQuant?
    ensures InOrder(prog, env, Step(prog, env, st))
  {
    var i := prog[st.pc].i;
    Successors(prog, st.pc);
    var (q, pos) := GreedyRun(prog, env, st.pc + 17, st.pos, 0, i.max);
    if q > i.min {
      AllProperPush(prog, env, st.saved, Saved(GreedyState(q - i.min), st.pc, pos, st.stack, st.caps));
    } else {
      assert st.saved + [] == st.saved;
    }
  }

  lemma ResumeKeeps(prog: seq<Cell>, env: Env, st: State)
    requires AllOk(prog, 0, |prog|) && st.Unwind? && InOrder(prog, env, st) && st.saved != []
    ensures InOrder(prog, env, Step(prog, env, st))
  {
    var top, rest := st.saved[|st.saved| - 1], st.saved[..|st.saved| - 1];
    assert AllProper(prog, env, rest) && ProperSaved(prog, env, top);
    if top.kind.GreedyState? && !st.ok {
      var i := prog[top.pc].i;
      Successors(prog, top.pc);
      var pos := Back(env, top.pos, i.len);
      if top.kind.count > 1 {
        AllProperPush(prog, env, rest, Saved(GreedyState(top.kind.count - 1), top.pc, pos, top.stack, top.caps));
      }
    }
  }

  lemma StepKeeps(prog: seq<Cell>, env: Env, st: State)
    requires AllOk(prog, 0, |prog|) && InOrder(prog, env, st)
    ensures InOrder(prog, env, Step(prog, env, st))
  {
    if st.Unwind? {
      if st.saved != [] { ResumeKeeps(prog, env, st); }
    } else {
      var i := prog[st.pc].i;
      if !Jumps(i) {
        MoveKeeps(prog, env, st);
      } else if i.Goto? || i.Loop? || i.BneCharPos? {
        JumpKeeps(prog, env, st);
      } else if i.SimpleGreedyQuant? {
        GreedyKeeps(prog, env, st);
      } else {
        ChoiceKeeps(prog, env, st);
      }
    }
  }

  lemma {:induction false} StepsKeep(prog: seq<Cell>, env: Env, n: nat, st: State)
    requires AllOk(prog, 0, |prog|) && InOrder(prog, env, st)
    ensures InOrder(prog, env, Steps(prog, env, n, st))
  {
    if n > 0 {
      StepKeeps(prog, env, st);
      StepsKeep(prog, env, n - 1, Step(prog, env, st));
    }
  }

  // ----------------------------------------------------------------- compute_stack_size

  /** The largest depth before any of the first k cells, or after them. */
  ghost function MaxDepth(s: seq<Cell>, k: nat): (m: int)
    requires k <= |s|
    ensures m >= DepthTo(s, k)
  {
    if k == 0 then 0
    else if MaxDepth(s, k - 1) >= DepthTo(s, k) then MaxDepth(s, k - 1)
    else DepthTo(s, k)
  }

  lemma {:induction false} MaxDepthBound(s: seq<Cell>, j: nat, k: nat)
    requires j <= k <= |s|
    ensures DepthTo(s, j) <= MaxDepth(s, k) && MaxDepth(s, k) >= 0
    decreases k
  {
    if k > 0 && j < k {
      MaxDepthBound(s, j, k - 1);
    } else if k > 0 {
      MaxDepthBound(s, j - 1, k - 1);
    }
  }

  /** The largest depth is the depth at some cell, so no smaller size is enough for the scan. */
  lemma {:induction false} MaxDepthReached(s: seq<Cell>, k: nat) returns (j: nat)
    requires k <= |s|
    ensures j <= k && DepthTo(s, j) == MaxDepth(s, k)
  {
    if k == 0 || MaxDepth(s, k) == DepthTo(s, k) {
      j := k;
    } else {
      j := MaxDepthReached(s, k - 1);
    }
  }

  /** For every pattern, subject, start and number of steps. */
  lemma EveryRunInOrder(r: Re, sticky: bool, env: Env, start: nat, captures: nat, n: nat)
    requires Valid(r) && start <= |env.units|
    ensures InOrder(Program(r, sticky), env, Steps(Program(r, sticky), env, n, Start(start, captures)))
  {
    var prog := Program(r, sticky);
    ProgramOk(r, sticky);
    DepthMeans(prog, 0);
    StepsKeep(prog, env, n, Start(start, captures));
  }

  /** The stack never grows beyond the size that the scan computes. */
  lemma StackFits(r: Re, sticky: bool, env: Env, start: nat, captures: nat, n: nat)
    requires Valid(r) && start <= |env.units|
    ensures var prog := Program(r, sticky);
            var st := Steps(prog, env, n, Start(start, captures));
            st.Run? ==> |st.stack| <= MaxDepth(prog, |prog|)
  {
    var prog := Program(r, sticky);
    EveryRunInOrder(r, sticky, env, start, captures, n);
    var st := Steps(prog, env, n, Start(start, captures));
    if st.Run? {
      DepthMeans(prog, st.pc);
      MaxDepthBound(prog, st.pc, |prog|);
    }
  }
}
