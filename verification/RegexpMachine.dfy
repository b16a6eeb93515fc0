/** The backtracking machine (libregexp.c, 2014-2494): an explicit stack of saved
    states instead of recursion. */
module RegexpMachine {
  import opened CharRange
  import opened RegexpInput
  import opened RegexpCode

  /** A state to which the machine may return. */
  datatype Kind = SplitState | LookState | NegLookState | GreedyState(count: nat)

  datatype Saved = Saved(kind: Kind, pc: int, pos: nat, stack: seq<nat>, caps: Captured)

  /** Run: about to execute the instruction at pc. Unwind: a match (or its failure) was
      found and the saved states are consulted. Broken: the code is not well formed. */
  datatype State =
    | Run(pc: int, pos: nat, stack: seq<nat>, caps: Captured, saved: seq<Saved>)
    | Unwind(ok: bool, caps: Captured, saved: seq<Saved>)
    | Broken

  predicate Final(st: State)
  {
    st.Broken? || (st.Unwind? && st.saved == [])
  }

  predicate IsOp(prog: seq<Cell>, pc: int)
  {
    0 <= pc < |prog| && prog[pc].Op?
  }

  // --------------------------------------------------------- single characters

  /** Whether a character instruction accepts the character c. */
  predicate CharTest(env: Env, i: Instr, c: nat)
    requires i.Char? || i.Dot? || i.Any? || i.InRange?
  {
    match i
    case Char(x) => env.canon(c) == x
    case Dot => !IsLineTerminator(c)
    case Any => true
    case InRange(r) => Accepts(r, env.canon(c))
  }

  predicate IsCharInstr(i: Instr)
  {
    i.Char? || i.Dot? || i.Any? || i.InRange?
  }

  predicate IsTest(i: Instr)
  {
    i.LineStart? || i.LineEnd? || i.WordBoundary? || i.NotWordBoundary?
  }

  predicate TestHolds(env: Env, i: Instr, pos: nat)
    requires IsTest(i) && pos <= |env.units|
  {
    match i
    case LineStart => AtLineStart(env, pos)
    case LineEnd => AtLineEnd(env, pos)
    case WordBoundary => AtWordBoundary(env, pos)
    case NotWordBoundary => !AtWordBoundary(env, pos)
  }

  /** Where a character or test instruction leads; None is no match. */
  function SimpleStep(env: Env, i: Instr, pos: nat): (r: Option<nat>)
    requires pos <= |env.units| && (IsCharInstr(i) || IsTest(i))
    ensures r.Some? ==> pos <= r.value <= |env.units|
    ensures r.Some? && IsCharInstr(i) ==> pos < r.value
  {
    if IsTest(i) then
      if TestHolds(env, i, pos) then Some(pos) else None
    else if pos < |env.units| && CharTest(env, i, GetChar(env, pos).0) then Some(GetChar(env, pos).1)
    else None
  }

  /** The inner run of a simple quantifier: characters and tests up to a match. */
  function SimpleRun(prog: seq<Cell>, env: Env, pc: int, pos: nat): (r: Option<nat>)
    requires pos <= |env.units|
    ensures r.Some? ==> pos <= r.value <= |env.units|
    decreases |prog| - pc
  {
    if !IsOp(prog, pc) then None
    else
      var i := prog[pc].i;
      if i.Match? then Some(pos)
      else if IsCharInstr(i) || IsTest(i) then
        var r := SimpleStep(env, i, pos);
        if r.None? then None else SimpleRun(prog, env, pc + Size(i), r.value)
      else None
  }

  /** The loop of REOP_simple_greedy_quant: as many runs as possible, at most max. A
      run that does not advance would repeat for ever in the source; it does not occur,
      as the code of a simple quantifier contains a character. */
  function GreedyRun(prog: seq<Cell>, env: Env, pc: int, pos: nat, q: nat, max: nat): (r: (nat, nat))
    requires pos <= |env.units|
    ensures pos <= r.1 <= |env.units| && q <= r.0
    decreases |env.units| - pos
  {
    if q >= max && max != INF then (q, pos)
    else
      var r := SimpleRun(prog, env, pc, pos);
      if r.None? || r.value == pos then (q, pos) else GreedyRun(prog, env, pc, r.value, q + 1, max)
  }

  /** PREV_CHAR, n times. */
  function Back(env: Env, pos: nat, n: int): (r: nat)
    requires pos <= |env.units|
    ensures r <= pos
  {
    if n <= 0 || pos == 0 then pos else Back(env, PrevChar(env, pos), n - 1)
  }

  // ------------------------------------------------------------------ the step

  function Fail(st: State): State
    requires st.Run?
  {
    Unwind(false, st.caps, st.saved)
  }

  function Save(st: State, kind: Kind, pc: int): seq<Saved>
    requires st.Run?
  {
    st.saved + [Saved(kind, pc, st.pos, st.stack, st.caps)]
  }

  /** One instruction. */
  function Execute(env: Env, i: Instr, next: int, st: State, prog: seq<Cell>): State
    requires st.Run? && st.pos <= |env.units|
  {
    var n := |st.stack|;
    match i
    case Char(_) | Dot | Any | InRange(_) | LineStart | LineEnd | WordBoundary | NotWordBoundary =>
      var r := SimpleStep(env, i, st.pos);
      if r.None? then Fail(st) else st.(pc := next, pos := r.value)
    case Goto(off) => st.(pc := next + off)
    case SplitGotoFirst(off) => st.(pc := next + off, saved := Save(st, SplitState, next))
    case SplitNextFirst(off) => st.(pc := next, saved := Save(st, SplitState, next + off))
    case Match => Unwind(true, st.caps, st.saved)
    case SaveStart(k) => st.(pc := next, caps := SetCap(st.caps, 2 * k, Some(st.pos)))
    case SaveEnd(k) => st.(pc := next, caps := SetCap(st.caps, 2 * k + 1, Some(st.pos)))
    case SaveReset(first, last) => st.(pc := next, caps := ResetCaps(st.caps, first, last))
    case Loop(off) =>
      if n == 0 then Broken
      else
        var top := if st.stack[n - 1] == 0 then 0xffff_ffff_ffff_ffff else st.stack[n - 1] - 1;
        st.(pc := if top != 0 then next + off else next, stack := st.stack[..n - 1] + [top])
    case PushI32(k) => st.(pc := next, stack := st.stack + [k])
    case Drop => if n == 0 then Broken else st.(pc := next, stack := st.stack[..n - 1])
    case BackReference(k) =>
      var r := BackRefStep(env, st.caps, k, false, st.pos);
      if r.None? then Fail(st) else st.(pc := next, pos := r.value)
    case BackwardBackReference(k) =>
      var r := BackRefStep(env, st.caps, k, true, st.pos);
      if r.None? then Fail(st) else st.(pc := next, pos := r.value)
    case Lookahead(off) => st.(pc := next, saved := Save(st, LookState, next + off))
    case NegativeLookahead(off) => st.(pc := next, saved := Save(st, NegLookState, next + off))
    case PushCharPos => st.(pc := next, stack := st.stack + [st.pos])
    case BneCharPos(off) =>
      if n == 0 then Broken
      else st.(pc := if st.stack[n - 1] != st.pos then next + off else next, stack := st.stack[..n - 1])
    case Prev => if st.pos == 0 then Fail(st) else st.(pc := next, pos := PrevChar(env, st.pos))
    case SimpleGreedyQuant(skip, min, max, _) =>
      var (q, pos) := GreedyRun(prog, env, next, st.pos, 0, max);
      if q < min then Fail(st)
      else
        var more := if q > min then [Saved(GreedyState(q - min), next - 17, pos, st.stack, st.caps)] else [];
        Run(next + skip, pos, st.stack, st.caps, st.saved + more)
  }

  /** Consulting the topmost saved state. */
  function Resume(env: Env, prog: seq<Cell>, ok: bool, caps: Captured, saved: seq<Saved>): State
    requires saved != []
  {
    var top, rest := saved[|saved| - 1], saved[..|saved| - 1];
    match top.kind
    case SplitState =>
      if !ok then Run(top.pc, top.pos, top.stack, top.caps, rest) else Unwind(ok, caps, rest)
    case LookState =>
      if ok then Run(top.pc, top.pos, top.stack, caps, rest) else Unwind(false, caps, rest)
    case NegLookState =>
      if !ok then Run(top.pc, top.pos, top.stack, top.caps, rest) else Unwind(false, caps, rest)
    case GreedyState(count) =>
      if ok then Unwind(ok, caps, rest)
      else if !IsOp(prog, top.pc) || !prog[top.pc].i.SimpleGreedyQuant? || count == 0 || top.pos > |env.units| then Broken
      else
        var i := prog[top.pc].i;
        var pos := Back(env, top.pos, i.len);
        var again := if count == 1 then rest else rest + [top.(kind := GreedyState(count - 1), pos := pos)];
        Run(top.pc + 17 + i.next, pos, top.stack, top.caps, again)
  }

  function Step(prog: seq<Cell>, env: Env, st: State): State
  {
    match st
    case Broken => st
    case Unwind(ok, caps, saved) => if saved == [] then st else Resume(env, prog, ok, caps, saved)
    case Run(pc, pos, _, _, _) =>
      if !IsOp(prog, pc) || pos > |env.units| then Broken
      else Execute(env, prog[pc].i, pc + Size(prog[pc].i), st, prog)
  }

  ghost function Steps(prog: seq<Cell>, env: Env, n: nat, st: State): State
  {
    if n == 0 then st else Steps(prog, env, n - 1, Step(prog, env, st))
  }

  /** The start of lre_exec. */
  function Start(pos: nat, captures: nat): State
  {
    Run(0, pos, [], seq(2 * captures, _ => None), [])
  }
}
