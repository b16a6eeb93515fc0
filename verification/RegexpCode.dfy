/** The bytecode of regular expressions (libregexp-opcode.h, libregexp.c 950-1071,
    1502-1770) and the code emitted for each construct.

    Code is a sequence of cells, one per byte: the first cell of an instruction holds
    the instruction with its operands, the others are fillers. Positions, sizes and
    jump offsets are those of the byte code. */
module RegexpCode {
  import opened Hints
  import opened CharRange

  /** A repetition count without bound (INT32_MAX). */
  const INF := 0x7fff_ffff

  datatype Instr =
    | Char(c: nat)
    | Dot
    | Any
    | LineStart
    | LineEnd
    | Goto(off: int)
    | SplitGotoFirst(off: int)
    | SplitNextFirst(off: int)
    | Match
    | SaveStart(n: nat)
    | SaveEnd(n: nat)
    | SaveReset(first: nat, last: int)
    | Loop(off: int)
    | PushI32(n: nat)
    | Drop
    | WordBoundary
    | NotWordBoundary
    | BackReference(n: nat)
    | BackwardBackReference(n: nat)
    | InRange(range: RangeCode)
    | Lookahead(off: int)
    | NegativeLookahead(off: int)
    | PushCharPos
    | BneCharPos(off: int)
    | Prev
    | SimpleGreedyQuant(next: int, min: nat, max: nat, len: int)

  datatype Cell = Op(i: Instr) | Arg

  /** The size of an instruction in bytes. */
  function Size(i: Instr): (n: nat)
    ensures n >= 1
  {
    match i
    case Char(c) => if c <= 0xffff then 3 else 5
    case Dot | Any | LineStart | LineEnd | Match | Drop | WordBoundary | NotWordBoundary | PushCharPos | Prev => 1
    case Goto(_) | SplitGotoFirst(_) | SplitNextFirst(_) | Loop(_) | PushI32(_) => 5
    case Lookahead(_) | NegativeLookahead(_) | BneCharPos(_) => 5
    case SaveStart(_) | SaveEnd(_) | BackReference(_) | BackwardBackReference(_) => 2
    case SaveReset(_, _) => 3
    case InRange(r) => if r.Range16? then 3 + 4 * |r.pairs| else if r.Range32? then 3 + 8 * |r.pairs| else 5
    case SimpleGreedyQuant(_, _, _, _) => 17
  }

  function Args(n: nat): (s: seq<Cell>)
    ensures |s| == n && forall k :: 0 <= k < n ==> s[k] == Arg
  {
    seq(n, _ => Arg)
  }

  /** One instruction in the buffer. */
  function Enc(i: Instr): (s: seq<Cell>)
    ensures |s| == Size(i) && s[0] == Op(i)
  {
    [Op(i)] + Args(Size(i) - 1)
  }

  // ------------------------------------------------------------ the patterns

  /** Patterns after parsing; groups that do not capture leave no trace. */
  datatype Re =
    | Empty
    | Chr(c: nat)
    | AnyChar(all: bool)
    | Class(points: seq<nat>)
    | Bol
    | Eol
    | WordB(neg: bool)
    | BackRef(n: nat)
    | Cat(a: Re, b: Re)
    | Alt(a: Re, b: Re)
    | Capture(r: Re)
    | Look(neg: bool, behind: bool, r: Re)
    | Quant(r: Re, min: nat, max: nat, greedy: bool)

  /** What the parser guarantees: canonical ranges, ordered repetition counts. */
  predicate Valid(r: Re)
  {
    match r
    case Class(points) => Canonical(points)
    case Cat(a, b) => Valid(a) && Valid(b)
    case Alt(a, b) => Valid(a) && Valid(b)
    case Capture(r1) => Valid(r1)
    case Look(_, _, r1) => Valid(r1)
    case Quant(r1, min, max, _) => Valid(r1) && min <= max <= INF
    case _ => true
  }

  function Captures(r: Re): nat
  {
    match r
    case Cat(a, b) => Captures(a) + Captures(b)
    case Alt(a, b) => Captures(a) + Captures(b)
    case Capture(r1) => 1 + Captures(r1)
    case Look(_, _, r1) => Captures(r1)
    case Quant(r1, _, _, _) => Captures(r1)
    case _ => 0
  }

  predicate Leaf(r: Re)
  {
    r.Empty? || r.Chr? || r.AnyChar? || r.Class? || r.Bol? || r.Eol? || r.WordB? || r.BackRef?
  }

  /** The number of nodes of a pattern. */
  ghost function Nodes(r: Re): (n: nat)
    ensures n >= 1
  {
    match r
    case Cat(a, b) => 1 + Nodes(a) + Nodes(b)
    case Alt(a, b) => 1 + Nodes(a) + Nodes(b)
    case Capture(r1) => 1 + Nodes(r1)
    case Look(_, _, r1) => 1 + Nodes(r1)
    case Quant(r1, _, _, _) => 1 + Nodes(r1)
    case _ => 1
  }

  // -------------------------------------------------- the two static analyses

  /** What an instruction tells about whether the code advances. */
  datatype Effect = Advances | Neutral | Unknown

  function EffectOf(i: Instr): Effect
  {
    match i
    case Char(_) | Dot | Any | InRange(_) => Advances
    case LineStart | LineEnd | PushI32(_) | PushCharPos | Drop | WordBoundary | NotWordBoundary | Prev => Neutral
    case SaveStart(_) | SaveEnd(_) | SaveReset(_, _) | BackReference(_) | BackwardBackReference(_) => Neutral
    case _ => Unknown
  }

  /** The first effect that is not neutral. */
  function FirstEffect(s: seq<Cell>): Effect
  {
    if s == [] then Neutral
    else if s[0].Op? && EffectOf(s[0].i) != Neutral then EffectOf(s[0].i)
    else FirstEffect(s[1..])
  }

  function Span(first: nat, last: int): set<nat>
    decreases last - first
  {
    if first >= last then {} else {first} + Span(first + 1, last)
  }

  function SavedBy(i: Instr): set<nat>
  {
    match i
    case SaveStart(n) => {n}
    case SaveEnd(n) => {n}
    case SaveReset(first, last) => Span(first, last)
    case _ => {}
  }

  function ReferredBy(i: Instr): set<nat>
  {
    match i
    case BackReference(n) => {n}
    case BackwardBackReference(n) => {n}
    case _ => {}
  }

  function Saves(s: seq<Cell>): set<nat>
  {
    if s == [] then {} else (if s[0].Op? then SavedBy(s[0].i) else {}) + Saves(s[1..])
  }

  function Refs(s: seq<Cell>): set<nat>
  {
    if s == [] then {} else (if s[0].Op? then ReferredBy(s[0].i) else {}) + Refs(s[1..])
  }

  /** re_check_advance: 1 if the code always advances, -1 if it refers to a capture it
      makes itself, 0 if nothing is known. */
  function CheckAdvance(s: seq<Cell>): int
  {
    if Saves(s) * Refs(s) != {} then -1
    else if FirstEffect(s) == Advances then 1
    else 0
  }

  /** re_is_simple_quantifier: the number of characters of code without choices, -1 for
      other code. */
  function SimpleLength(s: seq<Cell>): (n: int)
    ensures n >= -1
  {
    if s == [] then 0
    else
      var rest := SimpleLength(s[1..]);
      if rest < 0 then -1
      else if s[0].Arg? then rest
      else match s[0].i
        case Char(_) | Dot | Any | InRange(_) => rest + 1
        case LineStart | LineEnd | WordBoundary | NotWordBoundary => rest
        case _ => -1
  }

  // ---------------------------------------------------------------- emission

  function Split(greedy: bool, off: int): Instr
  {
    if greedy then SplitNextFirst(off) else SplitGotoFirst(off)
  }

  /** An unbounded loop: split, body, jump back; with a check that stops it when the
      body did not advance. */
  function Star(at: seq<Cell>, check: bool, greedy: bool): seq<Cell>
  {
    if check then
      Enc(Split(greedy, |at| + 6)) + (Enc(PushCharPos) + (at + Enc(BneCharPos(-(|at| + 11)))))
    else
      Enc(Split(greedy, |at| + 5)) + (at + Enc(Goto(-(|at| + 10))))
  }

  /** At most n times. */
  function UpTo(at: seq<Cell>, greedy: bool, n: nat): seq<Cell>
  {
    Enc(PushI32(n)) + (Enc(Split(greedy, |at| + 5)) + (at + (Enc(Loop(-(|at| + 10))) + Enc(Drop))))
  }

  /** Exactly n times. */
  function Times(at: seq<Cell>, n: nat): seq<Cell>
  {
    Enc(PushI32(n)) + (at + (Enc(Loop(-(|at| + 5))) + Enc(Drop)))
  }

  /** One time and more, when the body always advances or the loop is lazy. */
  function Plus(at: seq<Cell>, greedy: bool): seq<Cell>
  {
    at + Enc(if greedy then SplitGotoFirst(-(|at| + 5)) else SplitNextFirst(-(|at| + 5)))
  }

  predicate IsSimple(at: seq<Cell>, max: nat, greedy: bool)
  {
    greedy && max > 0 && SimpleLength(at) > 0
  }

  predicate NeedsCheck(at: seq<Cell>, greedy: bool)
  {
    greedy && CheckAdvance(at) == 0
  }

  /** From zero times: the captures of the body, first..next, are reset first. */
  function OptionalBody(at: seq<Cell>, check: bool, greedy: bool, max: nat): seq<Cell>
  {
    if max == 0 then []
    else if max == 1 then Enc(Split(greedy, |at|)) + at
    else if max == INF then Star(at, check, greedy)
    else UpTo(at, greedy, max)
  }

  function OptionalCode(at: seq<Cell>, check: bool, greedy: bool, max: nat, first: nat, next: nat): seq<Cell>
  {
    (if first != next then Enc(SaveReset(first, next - 1)) else []) + OptionalBody(at, check, greedy, max)
  }

  /** From min times, min at least one. */
  function RepeatedTail(at: seq<Cell>, check: bool, greedy: bool, min: nat, max: nat): seq<Cell>
  {
    if max == INF then Star(at, check, greedy)
    else if max > min then UpTo(at, greedy, max - min)
    else []
  }

  function RepeatedCode(at: seq<Cell>, check: bool, greedy: bool, min: nat, max: nat): seq<Cell>
  {
    (if min == 1 then at else Times(at, min)) + RepeatedTail(at, check, greedy, min, max)
  }

  /** The quantifier part of re_parse_term. */
  function QuantCode(at: seq<Cell>, min: nat, max: nat, greedy: bool, first: nat, next: nat): seq<Cell>
  {
    if IsSimple(at, max, greedy) then
      Enc(SimpleGreedyQuant(|at| + 1, min, max, SimpleLength(at))) + (at + Enc(Match))
    else if min == 0 then
      OptionalCode(at, NeedsCheck(at, greedy), greedy, max, first, next)
    else if min == 1 && max == INF && !NeedsCheck(at, greedy) then
      Plus(at, greedy)
    else
      RepeatedCode(at, NeedsCheck(at, greedy), greedy, min, max)
  }

  function CharCode(i: Instr, back: bool): seq<Cell>
  {
    if back then Enc(Prev) + (Enc(i) + Enc(Prev)) else Enc(i)
  }

  function ClassInstr(points: seq<nat>): Instr
    requires Canonical(points)
  {
    var r := RangeOf(points);
    if r.Never? then Char(UINT32_MAX) else InRange(r)
  }

  /** The part of a concatenation that comes first, and the number of its captures. */
  function First(r: Re, back: bool): Re
    requires r.Cat?
  {
    if back then r.b else r.a
  }

  function Second(r: Re, back: bool): Re
    requires r.Cat?
  {
    if back then r.a else r.b
  }

  function FirstCount(r: Re, back: bool, cc: nat): nat
    requires r.Cat?
  {
    if back then cc + Captures(r.a) else cc
  }

  function SecondCount(r: Re, back: bool, cc: nat): nat
    requires r.Cat?
  {
    if back then cc else cc + Captures(r.a)
  }

  function AltCode(ca: seq<Cell>, cb: seq<Cell>): seq<Cell>
  {
    Enc(SplitNextFirst(|ca| + 5)) + (ca + (Enc(Goto(|cb|)) + cb))
  }

  function CaptureCode(c: seq<Cell>, back: bool, n: nat): seq<Cell>
  {
    Enc(if back then SaveEnd(n) else SaveStart(n)) + (c + Enc(if back then SaveStart(n) else SaveEnd(n)))
  }

  function LookCode(c: seq<Cell>, neg: bool): seq<Cell>
  {
    Enc(if neg then NegativeLookahead(|c| + 1) else Lookahead(|c| + 1)) + (c + Enc(Match))
  }

  /** The code of a pattern, read backwards inside a lookbehind; cc is the number of the
      next capture. */
  function Emit(r: Re, back: bool, cc: nat): seq<Cell>
    requires Valid(r)
  {
    match r
    case Empty => []
    case Chr(c) => CharCode(Char(c), back)
    case AnyChar(all) => CharCode(if all then Any else Dot, back)
    case Class(points) => CharCode(ClassInstr(points), back)
    case Bol => Enc(LineStart)
    case Eol => Enc(LineEnd)
    case WordB(neg) => Enc(if neg then NotWordBoundary else WordBoundary)
    case BackRef(n) => Enc(if back then BackwardBackReference(n) else BackReference(n))
    case Cat(_, _) =>
      Emit(First(r, back), back, FirstCount(r, back, cc)) + Emit(Second(r, back), back, SecondCount(r, back, cc))
    case Alt(a, b) => AltCode(Emit(a, back, cc), Emit(b, back, cc + Captures(a)))
    case Capture(r1) => CaptureCode(Emit(r1, back, cc + 1), back, cc)
    case Look(neg, behind, r1) => LookCode(Emit(r1, behind, cc), neg)
    case Quant(r1, min, max, greedy) =>
      QuantCode(Emit(r1, back, cc), min, max, greedy, cc, cc + Captures(r1))
  }

  /** lre_compile without the header: unless the match is sticky, a lazy loop first tries
      all starting positions. */
  function Program(r: Re, sticky: bool): seq<Cell>
    requires Valid(r)
  {
    (if sticky then [] else Enc(SplitGotoFirst(6)) + (Enc(Any) + Enc(Goto(-11)))) +
    (Enc(SaveStart(0)) + (Emit(r, false, 1) + (Enc(SaveEnd(0)) + Enc(Match))))
  }

  // --------------------------------------- the emitted code under a name that stays folded

  ghost predicate IsCode(r: Re, back: bool, cc: nat, code: seq<Cell>)
    requires Valid(r)
  {
    forall t :: Ask(t) ==> code == Emit(r, back, cc)
  }

  /** Emit. */
  ghost function Code(r: Re, back: bool, cc: nat): (code: seq<Cell>)
    requires Valid(r)
    ensures IsCode(r, back, cc, code)
  {
    assert IsCode(r, back, cc, Emit(r, back, cc));
    var code :| IsCode(r, back, cc, code);
    code
  }

  lemma CodeEmit(r: Re, back: bool, cc: nat)
    requires Valid(r)
    ensures Code(r, back, cc) == Emit(r, back, cc)
  {
    assert Ask(0);
  }

  lemma CodeCat(r: Re, back: bool, cc: nat)
    requires Valid(r) && r.Cat?
    ensures Code(r, back, cc) == Code(First(r, back), back, FirstCount(r, back, cc)) + Code(Second(r, back), back, SecondCount(r, back, cc))
  {
    assert Ask(0);
  }

  lemma CodeAlt(r: Re, back: bool, cc: nat)
    requires Valid(r) && r.Alt?
    ensures Code(r, back, cc) == AltCode(Code(r.a, back, cc), Code(r.b, back, cc + Captures(r.a)))
  {
    assert Ask(0);
  }

  lemma CodeCapture(r: Re, back: bool, cc: nat)
    requires Valid(r) && r.Capture?
    ensures Code(r, back, cc) == CaptureCode(Code(r.r, back, cc + 1), back, cc)
  {
    assert Ask(0);
  }

  lemma CodeLook(r: Re, back: bool, cc: nat)
    requires Valid(r) && r.Look?
    ensures Code(r, back, cc) == LookCode(Code(r.r, r.behind, cc), r.neg)
  {
    assert Ask(0);
  }

  lemma CodeQuant(r: Re, back: bool, cc: nat)
    requires Valid(r) && r.Quant?
    ensures Code(r, back, cc) == QuantCode(Code(r.r, back, cc), r.min, r.max, r.greedy, cc, cc + Captures(r.r))
  {
    assert Ask(0);
  }
}
