/** The compiler (libregexp.c, 1502-1770, 1820-1909): it appends to a byte buffer,
    inserts into it, copies from it, patches jumps and swaps parts. */
module RegexpCompiler {
  import opened CharRange
  import opened RegexpCode
  import opened RegexpScan
  import RegexpStack
  import RegexpDepth

  const CAPTURE_COUNT_MAX := 255

  /** No class has more ranges than re_emit_range can write. */
  predicate RangesFit(r: Re)
  {
    match r
    case Class(points) => |points| / 2 < 65535
    case Cat(a, b) => RangesFit(a) && RangesFit(b)
    case Alt(a, b) => RangesFit(a) && RangesFit(b)
    case Capture(r1) => RangesFit(r1)
    case Look(_, _, r1) => RangesFit(r1)
    case Quant(r1, _, _, _) => RangesFit(r1)
    case _ => true
  }

  /** What the compiler can express: a limited number of captures, counted from cc, and of
      ranges. */
  predicate Fits(r: Re, cc: nat)
  {
    cc + Captures(r) <= CAPTURE_COUNT_MAX && RangesFit(r)
  }

  /** The memmove of dbuf_insert: the cells from pos on go up by len, from the top down, as
      the two places overlap. */
  method MakeRoom(buf: array<Cell>, size: nat, pos: nat, len: nat)
    requires pos <= size && size + len <= buf.Length
    modifies buf
    ensures buf[..pos] == old(buf[..pos]) && buf[pos + len..size + len] == old(buf[pos..size])
  {
    ghost var s := buf[..];
    var k := size;
    while k > pos
      invariant pos <= k <= size && buf[..k] == s[..k] && buf[k + len..size + len] == s[k..size]
    {
      k := k - 1;
      ghost var above := buf[k + 1 + len..size + len];
      var c := buf[k];
      buf[k + len] := c;
      assert buf[k + 1 + len..size + len] == above;
      assert buf[k + len..size + len] == [c] + above;
      assert s[k..size] == [s[k]] + s[k + 1..size];
    }
  }

  /** dbuf_realloc */
  method Grown(s: seq<Cell>, n: nat) returns (buf: array<Cell>)
    ensures fresh(buf) && buf.Length == |s| + n && buf[..|s|] == s
  {
    buf := new Cell[|s| + n](k requires 0 <= k => if k < |s| then s[k] else Arg);
  }

  /** The cells of an instruction are written. */
  method Write(buf: array<Cell>, pos: nat, cells: seq<Cell>)
    requires pos + |cells| <= buf.Length
    modifies buf
    ensures buf[..] == old(buf[..pos]) + (cells + old(buf[pos + |cells|..]))
  {
    ghost var n, lo, hi := |cells|, buf[..pos], buf[pos + |cells|..];
    var k := 0;
    while k < |cells|
      invariant 0 <= k <= n && buf[..pos] == lo && buf[pos + n..] == hi && buf[pos..pos + k] == cells[..k]
    {
      ghost var done := buf[pos..pos + k];
      buf[pos + k] := cells[k];
      assert buf[pos..pos + k] == done;
      assert buf[pos..pos + (k + 1)] == done + [cells[k]];
      k := k + 1;
    }
    Joined(buf[..], pos, n);
  }

  lemma Joined(s: seq<Cell>, pos: nat, n: nat)
    requires pos + n <= |s|
    ensures s == s[..pos] + (s[pos..pos + n] + s[pos + n..])
  {}

  class Compiler {
    var code: seq<Cell>
    var captures: nat

    constructor ()
      ensures code == [] && captures == 1
    {
      code, captures := [], 1;
    }

    /** re_emit_op and its variants. */
    method Put(i: Instr)
      modifies this`code
      ensures code == old(code) + Enc(i)
    {
      code := code + Enc(i);
    }

    /** dbuf_insert, and the instruction written into the gap. */
    method Insert(pos: nat, i: Instr)
      requires pos <= |code|
      modifies this`code
      ensures code == old(code)[..pos] + (Enc(i) + old(code)[pos..])
    {
      ghost var s := code;
      var buf := Grown(code, Size(i));
      assert buf[..pos] == s[..pos] && buf[pos..|s|] == s[pos..];
      MakeRoom(buf, |code|, pos, Size(i));
      assert buf[pos + Size(i)..] == s[pos..];
      Write(buf, pos, Enc(i));
      code := buf[..];
    }

    /** dbuf_put_self: a copy of a part of the buffer at its end. */
    method PutSelf(pos: nat, len: nat)
      requires pos + len <= |code|
      modifies this`code
      ensures code == old(code) + old(code)[pos..pos + len]
    {
      code := code + code[pos..pos + len];
    }

    /** The distance for re_emit_goto: to target, from behind the jump to be written. */
    function Distance(target: int): int
      reads this
    {
      target - (|code| + 5)
    }

    /** A jump whose operand was unknown gets it. */
    method Patch(pos: nat, i: Instr)
      requires pos < |code|
      modifies this`code
      ensures code == old(code)[pos := Op(i)]
    {
      code := code[pos := Op(i)];
    }

    // ------------------------------------------------------------------ quantifiers

    /** Unbounded from zero rounds. */
    method Loop(ghost pre: seq<Cell>, ghost at: seq<Cell>, start: nat, check: bool, greedy: bool)
      requires code == pre + at && |pre| == start
      modifies this`code
      ensures code == pre + Star(at, check, greedy)
    {
      var len := |code| - start;
      Cut(pre, at);
      if check {
        Insert(start, PushCharPos);
        Cut(pre, Enc(PushCharPos) + at);
        Insert(start, Split(greedy, len + 6));
        Put(BneCharPos(Distance(start)));
        Assoc(pre, Enc(Split(greedy, len + 6)) + (Enc(PushCharPos) + at), Enc(BneCharPos(-(len + 11))));
        Assoc(Enc(Split(greedy, len + 6)), Enc(PushCharPos) + at, Enc(BneCharPos(-(len + 11))));
        Assoc(Enc(PushCharPos), at, Enc(BneCharPos(-(len + 11))));
      } else {
        Insert(start, Split(greedy, len + 5));
        Put(Goto(Distance(start)));
        Assoc(pre, Enc(Split(greedy, len + 5)) + at, Enc(Goto(-(len + 10))));
        Assoc(Enc(Split(greedy, len + 5)), at, Enc(Goto(-(len + 10))));
      }
    }

    /** At most n rounds. */
    method CountedLoop(ghost pre: seq<Cell>, ghost at: seq<Cell>, start: nat, greedy: bool, n: nat)
      requires code == pre + at && |pre| == start
      modifies this`code
      ensures code == pre + UpTo(at, greedy, n)
    {
      var len := |code| - start;
      var split := Enc(Split(greedy, len + 5));
      Cut(pre, at);
      Insert(start, Split(greedy, len + 5));
      Cut(pre, split + at);
      Insert(start, PushI32(n));
      Put(Instr.Loop(Distance(start + 5)));
      Put(Drop);
      Tail2(pre, Enc(PushI32(n)), split, at, Enc(Instr.Loop(-(len + 10))), Enc(Drop));
    }

    /** Exactly n rounds. */
    method FixedLoop(ghost pre: seq<Cell>, ghost at: seq<Cell>, start: nat, n: nat)
      requires code == pre + at && |pre| == start
      modifies this`code
      ensures code == pre + Times(at, n)
    {
      var len := |code| - start;
      Cut(pre, at);
      Insert(start, PushI32(n));
      Put(Instr.Loop(Distance(start + 5)));
      Put(Drop);
      Tail1(pre, Enc(PushI32(n)), at, Enc(Instr.Loop(-(len + 5))), Enc(Drop));
    }

    /** An instruction and behind it a copy of the body, which lies at pos. */
    method PutCopy(ghost at: seq<Cell>, pos: nat, len: nat, i: Instr)
      requires pos + len <= |code| && code[pos..pos + len] == at
      modifies this`code
      ensures code == old(code) + (Enc(i) + at)
      ensures code[pos..pos + len] == at
    {
      ghost var pre := code;
      Put(i);
      Inside(pre, Enc(i), pos, len);
      PutSelf(pos, len);
      Assoc(pre, Enc(i), at);
      Inside(pre, Enc(i) + at, pos, len);
    }

    /** A copy of the body in an unbounded loop. */
    method CopyLoop(ghost at: seq<Cell>, pos: nat, len: nat, check: bool, greedy: bool)
      requires pos + len <= |code| && code[pos..pos + len] == at
      modifies this`code
      ensures code == old(code) + Star(at, check, greedy)
    {
      if check {
        CopyChecked(at, pos, len, greedy);
      } else {
        ghost var pre := code;
        var start := |code|;
        PutCopy(at, pos, len, Split(greedy, len + 5));
        Put(Goto(Distance(start)));
        Assoc(pre, Enc(Split(greedy, len + 5)) + at, Enc(Goto(-(len + 10))));
        Assoc(Enc(Split(greedy, len + 5)), at, Enc(Goto(-(len + 10))));
      }
    }

    method CopyChecked(ghost at: seq<Cell>, pos: nat, len: nat, greedy: bool)
      requires pos + len <= |code| && code[pos..pos + len] == at
      modifies this`code
      ensures code == old(code) + Star(at, true, greedy)
    {
      ghost var pre := code;
      var start := |code|;
      var split := Split(greedy, len + 6);
      Put(split);
      Inside(pre, Enc(split), pos, len);
      PutCopy(at, pos, len, PushCharPos);
      Put(BneCharPos(Distance(start)));
      Tail4(pre, Enc(split), Enc(PushCharPos), at, Enc(BneCharPos(-(len + 11))));
    }

    /** A copy of the body in a counted loop. */
    method CopyCounted(ghost at: seq<Cell>, pos: nat, len: nat, greedy: bool, n: nat)
      requires pos + len <= |code| && code[pos..pos + len] == at
      modifies this`code
      ensures code == old(code) + UpTo(at, greedy, n)
    {
      ghost var pre := code;
      Put(PushI32(n));
      Inside(pre, Enc(PushI32(n)), pos, len);
      var start := |code|;
      PutCopy(at, pos, len, Split(greedy, len + 5));
      Put(Instr.Loop(Distance(start)));
      Put(Drop);
      Tail3(pre, Enc(PushI32(n)), Enc(Split(greedy, len + 5)), at, Enc(Instr.Loop(-(len + 10))), Enc(Drop));
    }

    /** From zero rounds. */
    method Optional(ghost pre: seq<Cell>, ghost at: seq<Cell>, start: nat, check: bool, greedy: bool, max: nat)
      requires code == pre + at && |pre| == start
      modifies this`code
      ensures code == pre + OptionalBody(at, check, greedy, max)
    {
      if max == 0 {
        code := code[..start];
        Cut(pre, at);
        assert code == pre + [];
      } else if max == 1 {
        Cut(pre, at);
        Insert(start, Split(greedy, |code| - start));
      } else if max == INF {
        Loop(pre, at, start, check, greedy);
      } else {
        CountedLoop(pre, at, start, greedy, max);
      }
    }

    /** From one round or more: the body itself, then copies of it. */
    method Repeated(ghost pre: seq<Cell>, ghost at: seq<Cell>, start: nat, check: bool, greedy: bool, min: nat, max: nat)
      requires code == pre + at && |pre| == start
      modifies this`code
      ensures code == pre + RepeatedCode(at, check, greedy, min, max)
    {
      var len := |code| - start;
      var pos := start;
      ghost var head := at;
      Cut(pre, at);
      if min != 1 {
        FixedLoop(pre, at, start, min);
        head := Times(at, min);
        pos := pos + 5;
        BodyIn(pre, at, min);
      }
      RepeatTail(at, pos, len, check, greedy, min, max);
      Assoc(pre, head, RepeatedTail(at, check, greedy, min, max));
    }

    /** The rounds beyond the minimum. */
    method RepeatTail(ghost at: seq<Cell>, pos: nat, len: nat, check: bool, greedy: bool, min: nat, max: nat)
      requires pos + len <= |code| && code[pos..pos + len] == at
      modifies this`code
      ensures code == old(code) + RepeatedTail(at, check, greedy, min, max)
    {
      if max == INF {
        CopyLoop(at, pos, len, check, greedy);
      } else if max > min {
        CopyCounted(at, pos, len, greedy, max - min);
      }
    }

    /** The quantifier part of re_parse_term: the body lies from start on, and first is
        the number of captures before it. */
    method Quantify(start: nat, min: nat, max: nat, greedy: bool, first: nat)
      requires start <= |code| && min <= max && Tiled(code[start..]) && captures >= 1
      modifies this`code
      ensures code == old(code)[..start] + QuantCode(old(code)[start..], min, max, greedy, first, captures)
    {
      ghost var pre := code[..start];
      var at := code[start..];
      assert code == pre + at;
      var check := false;
      if greedy {
        if max > 0 {
          var len := IsSimpleScan(at);
          if len > 0 {
            SimpleQuant(pre, at, start, min, max, len);
            return;
          }
        }
        var advance := CheckAdvanceScan(at);
        check := advance == 0;
      }
      if min == 0 {
        Zero(pre, at, start, check, greedy, max, first);
      } else if min == 1 && max == INF && !check {
        Again(pre, at, start, greedy);
      } else {
        Repeated(pre, at, start, check, greedy, min, max);
      }
    }

    /** One round or more, with a jump back behind the body. */
    method Again(ghost pre: seq<Cell>, ghost at: seq<Cell>, start: nat, greedy: bool)
      requires code == pre + at && |pre| == start
      modifies this`code
      ensures code == pre + Plus(at, greedy)
    {
      var len := |code| - start;
      Put(if greedy then SplitGotoFirst(Distance(start)) else SplitNextFirst(Distance(start)));
      Assoc(pre, at, Enc(if greedy then SplitGotoFirst(-(len + 5)) else SplitNextFirst(-(len + 5))));
    }

    method SimpleQuant(ghost pre: seq<Cell>, ghost at: seq<Cell>, start: nat, min: nat, max: nat, len: nat)
      requires code == pre + at && |pre| == start
      modifies this`code
      ensures code == pre + (Enc(SimpleGreedyQuant(|at| + 1, min, max, len)) + (at + Enc(Match)))
    {
      Put(Match);
      Assoc(pre, at, Enc(Match));
      Cut(pre, at + Enc(Match));
      Insert(start, SimpleGreedyQuant(|code| - start, min, max, len));
    }

    method Zero(ghost pre: seq<Cell>, ghost at: seq<Cell>, start: nat, check: bool, greedy: bool, max: nat, first: nat)
      requires code == pre + at && |pre| == start && captures >= 1
      modifies this`code
      ensures code == pre + OptionalCode(at, check, greedy, max, first, captures)
    {
      if first != captures {
        ResetFirst(pre, at, start, check, greedy, max, SaveReset(first, captures - 1));
      } else {
        Optional(pre, at, start, check, greedy, max);
        assert [] + OptionalBody(at, check, greedy, max) == OptionalBody(at, check, greedy, max);
      }
    }

    method ResetFirst(ghost pre: seq<Cell>, ghost at: seq<Cell>, start: nat, check: bool, greedy: bool, max: nat, reset: Instr)
      requires code == pre + at && |pre| == start && Size(reset) == 3
      modifies this`code
      ensures code == pre + (Enc(reset) + OptionalBody(at, check, greedy, max))
    {
      Cut(pre, at);
      Insert(start, reset);
      Assoc(pre, Enc(reset), at);
      Optional(pre + Enc(reset), at, start + 3, check, greedy, max);
      Assoc(pre, Enc(reset), OptionalBody(at, check, greedy, max));
    }

    // -------------------------------------------------------------------- patterns

    /** re_parse_term, re_parse_alternative and re_parse_disjunction. It fails exactly
        when there are too many captures. */
    method Pattern(r: Re, back: bool) returns (ok: bool)
      requires Valid(r) && 1 <= captures <= CAPTURE_COUNT_MAX
      modifies this
      ensures ok == Fits(r, old(captures))
      ensures 1 <= captures <= CAPTURE_COUNT_MAX
      ensures ok ==> code == old(code) + Code(r, back, old(captures)) && captures == old(captures) + Captures(r)
      decreases r, 1
    {
      if r.Cat? {
        ok := Concatenation(r, back);
      } else if r.Alt? {
        ok := Disjunction(r, back);
      } else if r.Capture? {
        ok := Group(r, back);
      } else if r.Look? {
        ok := Lookaround(r, back);
      } else if r.Quant? {
        var start, first := |code|, captures;
        ghost var pre := code;
        ok := Pattern(r.r, back);
        if ok {
          ghost var at := Code(r.r, back, first);
          Cut(pre, at);
          CodeTiled(r.r, back, first);
          CodeQuant(r, back, first);
          Quantify(start, r.min, r.max, r.greedy, first);
        }
      } else {
        ok := Character(r, back);
      }
    }

    /** Characters, classes, assertions and back references. */
    method Character(r: Re, back: bool) returns (ok: bool)
      requires Valid(r) && Leaf(r)
      modifies this`code
      ensures ok == RangesFit(r) && (ok ==> code == old(code) + Code(r, back, captures))
    {
      ghost var pre := code;
      ok := true;
      CodeEmit(r, back, captures);
      if r.Empty? {
        assert pre + [] == pre;
      } else if r.Bol? {
        Put(LineStart);
      } else if r.Eol? {
        Put(LineEnd);
      } else if r.WordB? {
        Put(if r.neg then NotWordBoundary else WordBoundary);
      } else if r.BackRef? {
        Put(if back then BackwardBackReference(r.n) else BackReference(r.n));
      } else if r.Class? {
        var range;
        ok, range := EmitRange(r.points);
        if ok { PutChar(if range.Never? then Char(UINT32_MAX) else InRange(range), back); }
      } else {
        PutChar(if r.Chr? then Char(r.c) else if r.all then Any else Dot, back);
      }
    }

    method PutChar(i: Instr, back: bool)
      modifies this`code
      ensures code == old(code) + CharCode(i, back)
    {
      ghost var pre := code;
      if back { Put(Prev); }
      Put(i);
      if back {
        Put(Prev);
        Assoc(pre + Enc(Prev), Enc(i), Enc(Prev));
        Assoc(pre, Enc(Prev), Enc(i) + Enc(Prev));
      }
    }

    /** In a lookbehind each new term is moved in front of the terms before it. */
    method Concatenation(r: Re, back: bool) returns (ok: bool)
      requires Valid(r) && r.Cat? && 1 <= captures <= CAPTURE_COUNT_MAX
      modifies this
      ensures ok == Fits(r, old(captures))
      ensures 1 <= captures <= CAPTURE_COUNT_MAX
      ensures ok ==> code == old(code) + Code(r, back, old(captures)) && captures == old(captures) + Captures(r)
      decreases r, 0
    {
      ghost var pre, cc := code, captures;
      var start := |code|;
      ok := Pattern(r.a, back);
      if !ok { return; }
      var term := |code|;
      ok := Pattern(r.b, back);
      if !ok { return; }
      CodeCat(r, back, cc);
      ghost var ca, cb := Code(r.a, back, cc), Code(r.b, back, cc + Captures(r.a));
      Assoc(pre, ca, cb);
      if back {
        Cut(pre + ca, cb);
        Cut(pre, ca + cb);
        Cut(ca, cb);
        assert code[start..term] == ca;
        code := code[..start] + (code[term..] + code[start..term]);
      }
    }

    /** A split goes in front of what is already there, and the jump over the second
        alternative is patched when that is written. */
    method Disjunction(r: Re, back: bool) returns (ok: bool)
      requires Valid(r) && r.Alt? && 1 <= captures <= CAPTURE_COUNT_MAX
      modifies this
      ensures ok == Fits(r, old(captures))
      ensures 1 <= captures <= CAPTURE_COUNT_MAX
      ensures ok ==> code == old(code) + Code(r, back, old(captures)) && captures == old(captures) + Captures(r)
      decreases r, 0
    {
      ghost var pre, cc := code, captures;
      var start := |code|;
      ok := Pattern(r.a, back);
      if !ok { return; }
      var len := |code| - start;
      Cut(pre, Code(r.a, back, cc));
      Insert(start, SplitNextFirst(len + 5));
      var pos := |code|;
      Put(Goto(0));
      ok := Pattern(r.b, back);
      if !ok { return; }
      Patch(pos, Goto(|code| - pos - 5));
      CodeAlt(r, back, cc);
      Patched(pre, Enc(SplitNextFirst(len + 5)), Code(r.a, back, cc), Code(r.b, back, cc + Captures(r.a)));
    }

    method Group(r: Re, back: bool) returns (ok: bool)
      requires Valid(r) && r.Capture? && 1 <= captures <= CAPTURE_COUNT_MAX
      modifies this
      ensures ok == Fits(r, old(captures))
      ensures 1 <= captures <= CAPTURE_COUNT_MAX
      ensures ok ==> code == old(code) + Code(r, back, old(captures)) && captures == old(captures) + Captures(r)
      decreases r, 0
    {
      ghost var pre, cc := code, captures;
      if captures >= CAPTURE_COUNT_MAX { return false; }
      var n := captures;
      captures := captures + 1;
      Put(if back then SaveEnd(n) else SaveStart(n));
      ok := Pattern(r.r, back);
      if !ok { return; }
      Put(if back then SaveStart(n) else SaveEnd(n));
      CodeCapture(r, back, cc);
      ghost var i1, i2 := Enc(if back then SaveEnd(n) else SaveStart(n)), Enc(if back then SaveStart(n) else SaveEnd(n));
      Assoc(pre + i1, Code(r.r, back, cc + 1), i2);
      Assoc(pre, i1, Code(r.r, back, cc + 1) + i2);
    }

    method Lookaround(r: Re, back: bool) returns (ok: bool)
      requires Valid(r) && r.Look? && 1 <= captures <= CAPTURE_COUNT_MAX
      modifies this
      ensures ok == Fits(r, old(captures))
      ensures 1 <= captures <= CAPTURE_COUNT_MAX
      ensures ok ==> code == old(code) + Code(r, back, old(captures)) && captures == old(captures) + Captures(r)
      decreases r, 0
    {
      ghost var pre, cc := code, captures;
      var pos := |code|;
      Put(if r.neg then NegativeLookahead(0) else Lookahead(0));
      ok := Pattern(r.r, r.behind);
      if !ok { return; }
      Put(Match);
      var off := |code| - pos - 5;
      Patch(pos, if r.neg then NegativeLookahead(off) else Lookahead(off));
      CodeLook(r, back, cc);
      PatchedLook(pre, r.neg, Code(r.r, r.behind, cc));
    }

    /** lre_compile: fails when there are too many captures or ranges or the stack would be
        too deep, and otherwise gives the program and the size of the stack. */
    method Compile(r: Re, sticky: bool) returns (ok: bool, size: int)
      requires Valid(r) && code == [] && captures == 1
      modifies this
      ensures ok == (1 + Captures(r) <= 255 && RangesFit(r) &&
                     RegexpDepth.MaxDepth(Program(r, sticky), |Program(r, sticky)|) <= 255)
      ensures ok ==> code == Program(r, sticky) && captures == 1 + Captures(r) &&
                     size == RegexpDepth.MaxDepth(Program(r, sticky), |Program(r, sticky)|)
    {
      size := 0;
      if !sticky {
        Put(SplitGotoFirst(6));
        Put(Any);
        Put(Goto(-11));
      }
      ghost var pre := code;
      Put(SaveStart(0));
      ok := Pattern(r, false);
      if !ok { return; }
      Put(SaveEnd(0));
      Put(Match);
      Assembled(r, sticky, pre, code);
      ProgramTiled(r, sticky);
      RegexpStack.ProgramOk(r, sticky);
      RegexpDepth.MaxDepthBound(code, 0, |code|);
      size := ComputeStackSize(code);
      ok := size >= 0;
    }
  }

  lemma Patched(pre: seq<Cell>, split: seq<Cell>, ca: seq<Cell>, cb: seq<Cell>)
    ensures var s := ((pre + (split + ca)) + Enc(Goto(0))) + cb;
            s[|pre| + |split| + |ca| := Op(Goto(|cb|))] == pre + (split + (ca + (Enc(Goto(|cb|)) + cb)))
  {
    var g0, g1 := Enc(Goto(0)), Enc(Goto(|cb|));
    var head := pre + (split + ca);
    var s := (head + g0) + cb;
    assert g0[0 := Op(Goto(|cb|))] == g1;
    assert s[|head| := Op(Goto(|cb|))] == (head + g1) + cb;
    Tail1(pre, split, ca, g1, cb);
  }

  lemma PatchedLook(pre: seq<Cell>, neg: bool, c: seq<Cell>)
    ensures var s := ((pre + Enc(if neg then NegativeLookahead(0) else Lookahead(0))) + c) + Enc(Match);
            s[|pre| := Op(if neg then NegativeLookahead(|c| + 1) else Lookahead(|c| + 1))] == pre + LookCode(c, neg)
  {
    var i0, i1 := if neg then NegativeLookahead(0) else Lookahead(0), if neg then NegativeLookahead(|c| + 1) else Lookahead(|c| + 1);
    assert Enc(i0)[0 := Op(i1)] == Enc(i1);
    var s := ((pre + Enc(i0)) + c) + Enc(Match);
    assert s[|pre| := Op(i1)] == ((pre + Enc(i1)) + c) + Enc(Match);
    Assoc(pre + Enc(i1), c, Enc(Match));
    Assoc(pre, Enc(i1), c + Enc(Match));
  }

  lemma Assembled(r: Re, sticky: bool, pre: seq<Cell>, s: seq<Cell>)
    requires Valid(r)
    requires pre == if sticky then [] else (([] + Enc(SplitGotoFirst(6))) + Enc(Any)) + Enc(Goto(-11))
    requires s == (((pre + Enc(SaveStart(0))) + Code(r, false, 1)) + Enc(SaveEnd(0))) + Enc(Match)
    ensures s == Program(r, sticky)
  {
    CodeEmit(r, false, 1);
    var c := Code(r, false, 1);
    Assoc((pre + Enc(SaveStart(0))) + c, Enc(SaveEnd(0)), Enc(Match));
    Assoc(pre + Enc(SaveStart(0)), c, Enc(SaveEnd(0)) + Enc(Match));
    Assoc(pre, Enc(SaveStart(0)), c + (Enc(SaveEnd(0)) + Enc(Match)));
    if !sticky {
      assert [] + Enc(SplitGotoFirst(6)) == Enc(SplitGotoFirst(6));
      Assoc(Enc(SplitGotoFirst(6)), Enc(Any), Enc(Goto(-11)));
    }
  }

  lemma BodyIn(pre: seq<Cell>, at: seq<Cell>, n: nat)
    ensures |pre + Times(at, n)| >= |pre| + 5 + |at| && (pre + Times(at, n))[|pre| + 5..|pre| + 5 + |at|] == at
  {
    var tail := Enc(Instr.Loop(-(|at| + 5))) + Enc(Drop);
    var all := pre + Times(at, n);
    assert all == (pre + Enc(PushI32(n))) + (at + tail);
    assert all[|pre| + 5..] == at + tail;
  }

  // ------------------------------------------------------------------ parts of a buffer

  lemma Cut(a: seq<Cell>, b: seq<Cell>)
    ensures (a + b)[..|a|] == a && (a + b)[|a|..] == b
  {}

  lemma Assoc(a: seq<Cell>, b: seq<Cell>, c: seq<Cell>)
    ensures (a + b) + c == a + (b + c)
  {}

  lemma Inside(a: seq<Cell>, b: seq<Cell>, pos: nat, len: nat)
    requires pos + len <= |a|
    ensures (a + b)[pos..pos + len] == a[pos..pos + len]
  {}

  lemma Tail1(p: seq<Cell>, a: seq<Cell>, b: seq<Cell>, c: seq<Cell>, d: seq<Cell>)
    ensures ((p + (a + b)) + c) + d == p + (a + (b + (c + d)))
  {
    Assoc(p + (a + b), c, d);
    Assoc(p, a + b, c + d);
    Assoc(a, b, c + d);
  }

  lemma Tail2(p: seq<Cell>, a: seq<Cell>, b: seq<Cell>, c: seq<Cell>, d: seq<Cell>, e: seq<Cell>)
    ensures ((p + (a + (b + c))) + d) + e == p + (a + (b + (c + (d + e))))
  {
    Tail1(p, a, b + c, d, e);
    Assoc(b, c, d + e);
  }

  lemma Tail3(p: seq<Cell>, a: seq<Cell>, b: seq<Cell>, c: seq<Cell>, d: seq<Cell>, e: seq<Cell>)
    ensures (((p + a) + (b + c)) + d) + e == p + (a + (b + (c + (d + e))))
  {
    Assoc((p + a) + (b + c), d, e);
    Assoc(p + a, b + c, d + e);
    Assoc(b, c, d + e);
    Assoc(p, a, b + (c + (d + e)));
  }

  lemma Tail4(p: seq<Cell>, a: seq<Cell>, b: seq<Cell>, c: seq<Cell>, d: seq<Cell>)
    ensures ((p + a) + (b + c)) + d == p + (a + (b + (c + d)))
  {
    Assoc(p + a, b + c, d);
    Assoc(b, c, d);
    Assoc(p, a, b + (c + d));
  }
}
