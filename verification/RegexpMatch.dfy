/** Matching a whole pattern (libregexp.c, 1851-1873): the
    program terminates and reports the first match, searched from left to right. */
module RegexpMatch {
  import opened RegexpInput
  import opened RegexpCode
  import opened RegexpMachine
  import opened RegexpOrder
  import opened RegexpRuns
  import opened RegexpLoops
  import opened RegexpSimple
  import opened RegexpCorrect

  /** The first start position, from x on and in steps of one character, at which r has
      an outcome; its captures, with capture 0 for the whole match. */
  ghost function Find(env: Env, r: Re, sticky: bool, x: Spot): (found: Option<Spot>)
    requires Valid(r) && Inside(env, x)
    decreases |env.units| - x.pos
  {
    var ys := Outcomes(env, Capture(r), false, 0, x);
    if ys != [] then Some(ys[0])
    else if sticky || x.pos == |env.units| then None
    else Find(env, r, sticky, Spot(GetChar(env, x.pos).1, x.caps))
  }

  /** The search as a pattern: any characters, as few as possible. */
  function Skip(): Re
  {
    Quant(AnyChar(true), 0, INF, false)
  }

  function Whole(r: Re, sticky: bool): (w: Re)
    ensures Valid(r) ==> Valid(w)
  {
    if sticky then Capture(r) else Cat(Skip(), Capture(r))
  }

  lemma SkipCode()
    ensures Emit(Skip(), false, 0) == Enc(SplitGotoFirst(6)) + (Enc(Any) + Enc(Goto(-11)))
  {
    var at := Enc(Any);
    assert Emit(AnyChar(true), false, 0) == at;
    assert !NeedsCheck(at, false) && !IsSimple(at, INF, false);
    assert Emit(Skip(), false, 0) == OptionalCode(at, false, false, INF, 0, 0);
    assert OptionalCode(at, false, false, INF, 0, 0) == [] + Star(at, false, false) == Star(at, false, false);
  }

  /** The program is the code of that pattern, followed by a match. */
  lemma ProgramCode(r: Re, sticky: bool)
    requires Valid(r)
    ensures Program(r, sticky) == Emit(Whole(r, sticky), false, 0) + Enc(Match)
  {
    var tail := Enc(SaveStart(0)) + (Emit(r, false, 1) + (Enc(SaveEnd(0)) + Enc(Match)));
    CaptureTail(r);
    if sticky {
      assert [] + tail == tail;
    } else {
      SkipCode();
      SearchCode(r);
    }
  }

  lemma CaptureTail(r: Re)
    requires Valid(r)
    ensures Emit(Capture(r), false, 0) + Enc(Match) == Enc(SaveStart(0)) + (Emit(r, false, 1) + (Enc(SaveEnd(0)) + Enc(Match)))
  {
    var i1, body, i2, i3 := Enc(SaveStart(0)), Emit(r, false, 1), Enc(SaveEnd(0)), Enc(Match);
    assert Emit(Capture(r), false, 0) == i1 + (body + i2);
    assert (i1 + (body + i2)) + i3 == i1 + (body + (i2 + i3));
  }

  lemma SearchCode(r: Re)
    requires Valid(r)
    ensures Emit(Whole(r, false), false, 0) == Emit(Skip(), false, 0) + Emit(Capture(r), false, 0)
  {
    assert Captures(Skip()) == 0;
  }

  lemma SkipAdvances(env: Env)
    ensures Advancing(env, AnyChar(true), false, 0)
  {
    forall x: Spot | Boundary(env, x.pos) ensures AllMoved(x, Outcomes(env, AnyChar(true), false, 0, x)) {
      OutcomesOrder(env, AnyChar(true), false, 0, x);
    }
  }

  lemma WholeSafe(env: Env, r: Re, sticky: bool)
    requires Valid(r) && Safe(env, r, false, 1)
    ensures Valid(Whole(r, sticky)) && Safe(env, Whole(r, sticky), false, 0)
  {
    SkipAdvances(env);
    assert Safe(env, Capture(r), false, 0);
    assert Captures(Skip()) == 0;
  }

  // ---------------------------------------------------------------- the search in order

  /** The starts that the search tries. */
  lemma SkipOutcomes(env: Env, x: Spot)
    requires Boundary(env, x.pos)
    ensures Outcomes(env, Skip(), false, 0, x) ==
            if x.pos == |env.units| then [x] else [x] + Outcomes(env, Skip(), false, 0, Spot(GetChar(env, x.pos).1, x.caps))
  {
    var any := AnyChar(true);
    QuantOutcomes(env, Skip(), false, 0, x);
    OutcomesOrder(env, any, false, 0, x);
    var ls := LapsMore(env, any, false, 0, INF, false, x);
    if x.pos < |env.units| {
      var y := Spot(GetChar(env, x.pos).1, x.caps);
      assert Outcomes(env, any, false, 0, x) == [y];
      QuantOutcomes(env, Skip(), false, 0, y);
      assert ls[1..] == [];
      assert Flatten(ls[1..]) == [];
      assert Flatten(ls) == ls[0] + [];
    } else {
      assert Outcomes(env, any, false, 0, x) == [];
      assert Flatten(ls) == [];
    }
  }

  lemma SearchOutcomes(env: Env, r: Re, x: Spot)
    requires Valid(r) && Boundary(env, x.pos)
    ensures Outcomes(env, Whole(r, false), false, 0, x) ==
            Outcomes(env, Capture(r), false, 0, x) +
            if x.pos == |env.units| then [] else Outcomes(env, Whole(r, false), false, 0, Spot(GetChar(env, x.pos).1, x.caps))
  {
    var whole := Whole(r, false);
    var ls := CatOutcomes(env, whole, false, 0, x);
    SkipOutcomes(env, x);
    if x.pos < |env.units| {
      var y := Spot(GetChar(env, x.pos).1, x.caps);
      GetCharBoundary(env, x.pos);
      var ms := CatOutcomes(env, whole, false, 0, y);
      assert ls[1..] == ms;
    } else {
      assert ls[1..] == [];
    }
  }

  lemma {:induction false} FindFirst(env: Env, r: Re, sticky: bool, x: Spot)
    requires Valid(r) && Boundary(env, x.pos)
    ensures var ys := Outcomes(env, Whole(r, sticky), false, 0, x);
            Find(env, r, sticky, x) == if ys == [] then None else Some(ys[0])
    decreases |env.units| - x.pos
  {
    if !sticky {
      SearchOutcomes(env, r, x);
      if x.pos < |env.units| {
        GetCharBoundary(env, x.pos);
        FindFirst(env, r, sticky, Spot(GetChar(env, x.pos).1, x.caps));
      }
    }
  }

  // ------------------------------------------------------------------- running it

  function Result(found: Option<Spot>, caps: Captured): State
  {
    if found.Some? then Unwind(true, found.value.caps, []) else Unwind(false, caps, [])
  }

  /** From the start state the machine stops after finitely many steps, with the first
      match or with a failure. */
  lemma ProgramFinds(env: Env, r: Re, sticky: bool, start: nat, captures: nat) returns (n: nat, caps: Captured)
    requires GoodEnv(env) && Valid(r) && Safe(env, r, false, 1) && Boundary(env, start)
    ensures var none := seq(2 * captures, _ => None);
            Steps(Program(r, sticky), env, n, Start(start, captures)) == Result(Find(env, r, sticky, Spot(start, none)), caps)
  {
    var s := Start(start, captures);
    var x := Spot(start, s.caps);
    var ys := WholeRuns(env, r, sticky, x);
    Concludes(Program(r, sticky), env, 0, [], x, |Code(Whole(r, sticky), false, 0)|, [], ys, []);
    FindFirst(env, r, sticky, x);
    if ys == [] {
      var c :| Reaches(Program(r, sticky), env, s, Unwind(false, c, []));
      caps := c;
    } else {
      caps := [];
    }
    var m: nat :| Steps(Program(r, sticky), env, m, s) == Result(Find(env, r, sticky, x), caps);
    n := m;
  }

  /** The program offers the outcomes of the search, followed by a match. */
  lemma WholeRuns(env: Env, r: Re, sticky: bool, x: Spot) returns (ys: seq<Spot>)
    requires GoodEnv(env) && Valid(r) && Safe(env, r, false, 1) && Boundary(env, x.pos)
    ensures ys == Outcomes(env, Whole(r, sticky), false, 0, x) && forall t :: 0 <= t < |ys| ==> Boundary(env, ys[t].pos)
    ensures Gives(Program(r, sticky), env, 0, [], x, |Code(Whole(r, sticky), false, 0)|, [], ys)
    ensures At(Program(r, sticky), |Code(Whole(r, sticky), false, 0)|, Enc(Match))
  {
    var prog, code := ProgramAt(r, sticky);
    WholeSafe(env, r, sticky);
    EmitImplements(prog, env, Whole(r, sticky), false, 0);
    assert Does(prog, env, 0, |code|, Whole(r, sticky), false, 0);
    ys := Outcomes(env, Whole(r, sticky), false, 0, x);
    OutcomesBoundary(env, Whole(r, sticky), false, 0, x);
  }

  lemma ProgramAt(r: Re, sticky: bool) returns (prog: seq<Cell>, code: seq<Cell>)
    requires Valid(r)
    ensures prog == Program(r, sticky) && code == Code(Whole(r, sticky), false, 0) && At(prog, 0, code) && At(prog, |code|, Enc(Match))
  {
    ProgramCode(r, sticky);
    CodeEmit(Whole(r, sticky), false, 0);
    prog, code := Program(r, sticky), Code(Whole(r, sticky), false, 0);
    assert prog[0..|prog|] == prog;
    AtConcat(prog, 0, code, Enc(Match));
  }

  lemma {:induction false} FinalStays(prog: seq<Cell>, env: Env, n: nat, st: State)
    requires Final(st)
    ensures Steps(prog, env, n, st) == st
  {
    if n > 0 { FinalStays(prog, env, n - 1, st); }
  }
}
