/** The three scans over byte code (libregexp.c, 947-1071, 1772-1815), which go from
    instruction to instruction. */
module RegexpScan {
  import opened Hints
  import opened RegexpCode
  import opened RegexpMachine
  import opened RegexpRuns
  import opened RegexpAnalysis
  import opened RegexpSimple
  import opened RegexpStack
  import opened RegexpDepth

  /** From k on the code is made of whole instructions. */
  ghost predicate TiledFrom(s: seq<Cell>, k: nat)
    decreases |s| - k
  {
    k == |s| || (TileAt(s, k) && TiledFrom(s, k + Size(s[k].i)))
  }

  /** One whole instruction. */
  ghost predicate TileAt(s: seq<Cell>, k: nat)
  {
    k < |s| && s[k].Op? && k + Size(s[k].i) <= |s| && OperandsOnly(s, k, k + Size(s[k].i))
  }

  ghost predicate Tiled(s: seq<Cell>)
  {
    TiledFrom(s, 0)
  }

  lemma CodeTiled(r: Re, back: bool, cc: nat)
    requires Valid(r)
    ensures Tiled(Code(r, back, cc))
  {
    var code := Code(r, back, cc);
    var s := code + Enc(Match);
    EmitStays(s, r, back, cc);
    LastMatch(s, code);
    AllOkTiled(s, 0);
    TiledFront(code, s, 0);
  }

  lemma ProgramTiled(r: Re, sticky: bool)
    requires Valid(r)
    ensures Tiled(Program(r, sticky))
  {
    ProgramOk(r, sticky);
    AllOkTiled(Program(r, sticky), 0);
  }

  lemma {:induction false} AllOkTiled(s: seq<Cell>, k: nat)
    requires Edge(s, k) && AllOk(s, 0, |s|)
    ensures TiledFrom(s, k)
    decreases |s| - k
  {
    var n := k + Size(s[k].i);
    WholeInstr(s, k);
    if n < |s| { AllOkTiled(s, n); }
  }

  lemma WholeInstr(s: seq<Cell>, k: nat)
    requires Edge(s, k) && AllOk(s, 0, |s|)
    ensures TileAt(s, k) && (k + Size(s[k].i) < |s| ==> Edge(s, k + Size(s[k].i)))
  {
    AllOkMeans(s, 0, |s|);
    assert OkAt(s, k);
  }

  lemma {:induction false} TiledFront(code: seq<Cell>, s: seq<Cell>, k: nat)
    requires s == code + Enc(Match) && k <= |code| && TiledFrom(s, k)
    ensures TiledFrom(code, k)
    decreases |code| - k
  {
    if k < |code| {
      assert s[k] == code[k] && s[|code|].Op?;
      var n := k + Size(code[k].i);
      assert n <= |code|;
      forall j | 0 <= j < |code| && k < j < n ensures code[j].Arg? { assert s[j] == code[j]; }
      TiledFront(code, s, n);
    }
  }

  lemma {:induction false} SavesConcat(a: seq<Cell>, b: seq<Cell>)
    ensures Saves(a + b) == Saves(a) + Saves(b) && Refs(a + b) == Refs(a) + Refs(b)
  {
    if a == [] {
      assert a + b == b;
    } else {
      SavesConcat(a[1..], b);
      assert (a + b)[1..] == a[1..] + b;
    }
  }

  lemma {:induction false} SavesArgs(n: nat)
    ensures Saves(Args(n)) == {}
  {
    if n > 0 {
      SavesArgs(n - 1);
      assert Args(n)[1..] == Args(n - 1);
    }
  }

  /** The code from an instruction on is that instruction and the rest. */
  lemma SplitInstr(s: seq<Cell>, k: nat)
    requires TileAt(s, k)
    ensures s[k..] == Enc(s[k].i) + s[k + Size(s[k].i)..]
  {
    var i := s[k].i;
    var n := k + Size(i);
    assert s[k..n] == Enc(i) by {
      forall j | 0 <= j < Size(i) ensures s[k..n][j] == Enc(i)[j] {
        if j > 0 { assert s[k + j].Arg?; }
      }
    }
    assert s[k..] == s[k..n] + s[n..];
  }

  /** The state of re_check_advance before pos. */
  ghost predicate Scanned(s: seq<Cell>, pos: nat, effect: Effect, saved: set<nat>, referred: set<nat>)
  {
    pos <= |s| && forall t :: AskFor(Subject.AdvanceScans, t) ==>
      FirstEffect(s) == (if effect == Neutral then FirstEffect(s[pos..]) else effect) &&
      Saves(s) == saved + Saves(s[pos..]) && Refs(s) == referred + Refs(s[pos..])
  }

  lemma ScanStart(s: seq<Cell>)
    ensures Scanned(s, 0, Neutral, {}, {})
  {
    assert s[0..] == s;
  }

  lemma ScanStep(s: seq<Cell>, k: nat, effect: Effect, saved: set<nat>, referred: set<nat>)
    requires TileAt(s, k) && Scanned(s, k, effect, saved, referred)
    ensures var i := s[k].i;
            Scanned(s, k + Size(i), if effect == Neutral then EffectOf(i) else effect, saved + SavedBy(i), referred + ReferredBy(i))
  {
    assert AskFor(Subject.AdvanceScans, 0);
    var i, rest := s[k].i, s[k + Size(s[k].i)..];
    SplitInstr(s, k);
    EncFirst(i, rest);
    FirstEffectEnc(i);
    SavesEnc(i);
    SavesConcat(Enc(i), rest);
  }

  lemma SavesEnc(i: Instr)
    ensures Saves(Enc(i)) == SavedBy(i)
  {
    SavesArgs(Size(i) - 1);
    assert Enc(i)[1..] == Args(Size(i) - 1);
  }

  lemma ScanEnd(s: seq<Cell>, effect: Effect, saved: set<nat>, referred: set<nat>)
    requires Scanned(s, |s|, effect, saved, referred)
    ensures CheckAdvance(s) == if saved * referred != {} then -1 else if effect == Advances then 1 else 0
  {
    assert AskFor(Subject.AdvanceScans, 0);
    assert s[|s|..] == [];
  }

  /** re_check_advance; the bit map is a pair of sets. */
  method CheckAdvanceScan(s: seq<Cell>) returns (ret: int)
    requires Tiled(s)
    ensures ret == CheckAdvance(s)
  {
    var effect := Neutral;
    var saved: set<nat>, referred: set<nat> := {}, {};
    var pos := 0;
    ScanStart(s);
    while pos < |s|
      invariant 0 <= pos <= |s| && TiledFrom(s, pos)
      invariant Scanned(s, pos, effect, saved, referred)
    {
      var i := s[pos].i;
      ScanStep(s, pos, effect, saved, referred);
      if effect == Neutral { effect := EffectOf(i); }
      saved, referred := saved + SavedBy(i), referred + ReferredBy(i);
      pos := pos + Size(i);
    }
    ScanEnd(s, effect, saved, referred);
    if saved * referred != {} { return -1; }
    ret := if effect == Advances then 1 else 0;
  }

  /** The number of characters counted before pos and those after it. */
  ghost predicate Counted(s: seq<Cell>, pos: nat, count: int)
  {
    pos <= |s| && forall t :: AskFor(Subject.SimpleScans, t) ==>
      SimpleLength(s) == if SimpleLength(s[pos..]) < 0 then -1 else count + SimpleLength(s[pos..])
  }

  lemma CountStep(s: seq<Cell>, k: nat, count: int)
    requires TileAt(s, k) && Counted(s, k, count)
    ensures var i := s[k].i;
            if IsCharInstr(i) || IsTest(i) then Counted(s, k + Size(i), if IsCharInstr(i) then count + 1 else count)
            else SimpleLength(s) == -1
  {
    assert AskFor(Subject.SimpleScans, 0);
    SplitInstr(s, k);
    SimpleEnc(s[k].i);
    SimpleConcat(Enc(s[k].i), s[k + Size(s[k].i)..]);
  }

  lemma CountStart(s: seq<Cell>)
    ensures Counted(s, 0, 0)
  {
    assert s[0..] == s;
  }

  lemma CountEnd(s: seq<Cell>, count: int)
    requires Counted(s, |s|, count)
    ensures SimpleLength(s) == count
  {
    assert AskFor(Subject.SimpleScans, 0);
    assert s[|s|..] == [];
  }

  /** re_is_simple_quantifier */
  method IsSimpleScan(s: seq<Cell>) returns (count: int)
    requires Tiled(s)
    ensures count == SimpleLength(s)
  {
    count := 0;
    var pos := 0;
    CountStart(s);
    while pos < |s|
      invariant 0 <= pos <= |s| && TiledFrom(s, pos) && Counted(s, pos, count)
    {
      var i := s[pos].i;
      CountStep(s, pos, count);
      if IsCharInstr(i) {
        count := count + 1;
      } else if !IsTest(i) {
        return -1;
      }
      pos := pos + Size(i);
    }
    CountEnd(s, count);
  }

  const STACK_SIZE_MAX := 255

  /** compute_stack_size; the assertion in the source, that nothing is dropped from an
      empty stack, holds for every program. */
  method ComputeStackSize(s: seq<Cell>) returns (size: int)
    requires Tiled(s) && AllOk(s, 0, |s|)
    ensures size == if MaxDepth(s, |s|) > 255 then -1 else MaxDepth(s, |s|)
  {
    var depth := 0;
    size := 0;
    var pos := 0;
    while pos < |s|
      invariant 0 <= pos <= |s| && TiledFrom(s, pos)
      invariant depth == DepthTo(s, pos) && size == MaxDepth(s, pos) && 0 <= size <= STACK_SIZE_MAX
    {
      var i := s[pos].i;
      ScanDepth(s, pos);
      if i.PushI32? || i.PushCharPos? {
        depth := depth + 1;
        if depth > size {
          if depth > STACK_SIZE_MAX {
            MaxDepthBound(s, pos + Size(i), |s|);
            return -1;
          }
          size := depth;
        }
      } else if i.Drop? || i.BneCharPos? {
        DropsSafely(s, pos);
        assert depth > 0;
        depth := depth - 1;
      }
      pos := pos + Size(i);
    }
  }

  lemma DropsSafely(s: seq<Cell>, k: nat)
    requires AllOk(s, 0, |s|) && k < |s| && s[k].Op? && (s[k].i.Drop? || s[k].i.BneCharPos?)
    ensures DepthTo(s, k) > 0
  {
    AllOkMeans(s, 0, |s|);
    assert Edge(s, k);
    assert OkAt(s, k);
    DepthMeans(s, k);
  }

  lemma ScanDepth(s: seq<Cell>, k: nat)
    requires TileAt(s, k)
    ensures var n := k + Size(s[k].i);
            DepthTo(s, n) == DepthTo(s, k) + Delta(s[k]) &&
            MaxDepth(s, n) == if MaxDepth(s, k) >= DepthTo(s, n) then MaxDepth(s, k) else DepthTo(s, n)
  {
    var n := k + Size(s[k].i);
    MaxDepthBound(s, k, k);
    ArgsMax(s, k + 1, n - k - 1);
  }

  lemma {:induction false} ArgsMax(s: seq<Cell>, k: nat, n: nat)
    requires k + n <= |s| && forall j :: k <= j < k + n ==> s[j].Arg?
    ensures DepthTo(s, k + n) == DepthTo(s, k) && MaxDepth(s, k + n) == MaxDepth(s, k)
    decreases n
  {
    if n > 0 { ArgsMax(s, k, n - 1); }
  }
}
