/** What patterns match: the set of end positions from a start position, without any
    mention of code. Inside a lookbehind the direction is backwards. Captures do not
    take part, so back references are not given a meaning here. */
module RegexpSemantics {
  import opened CharRange
  import opened RegexpInput
  import opened RegexpCode

  /** Patterns without back references. */
  predicate NoBackRef(r: Re)
  {
    match r
    case BackRef(_) => false
    case Cat(a, b) => NoBackRef(a) && NoBackRef(b)
    case Alt(a, b) => NoBackRef(a) && NoBackRef(b)
    case Capture(r1) => NoBackRef(r1)
    case Look(_, _, r1) => NoBackRef(r1)
    case Quant(r1, _, _, _) => NoBackRef(r1)
    case _ => true
  }

  /** One character c, or rather its case-folded form. */
  predicate CharIs(r: Re, c: nat)
    requires r.Chr? || r.AnyChar? || r.Class?
  {
    match r
    case Chr(x) => c == x
    case AnyChar(all) => all || !IsLineTerminator(c)
    case Class(points) => In(points, c)
  }

  /** The character test of the matcher folds case, except for the dot. */
  function Folded(env: Env, r: Re, c: nat): nat
  {
    if r.AnyChar? then c else env.canon(c)
  }

  ghost predicate OneChar(env: Env, r: Re, back: bool, i: nat, j: nat)
    requires r.Chr? || r.AnyChar? || r.Class?
    requires i <= |env.units|
  {
    if back then i > 0 && j == PrevChar(env, i) && CharIs(r, Folded(env, r, PeekChar(env, j)))
    else i < |env.units| && j == GetChar(env, i).1 && CharIs(r, Folded(env, r, GetChar(env, i).0))
  }

  /** r matches from i to j. The largest 32-bit integer as the maximum means no maximum. */
  ghost predicate Matches(env: Env, r: Re, back: bool, i: nat, j: nat)
    requires i <= |env.units|
    ensures Matches(env, r, back, i, j) ==> j <= |env.units| && (if back then j <= i else i <= j)
    decreases r, 0
  {
    match r
    case Empty => i == j
    case Chr(_) => OneChar(env, r, back, i, j)
    case AnyChar(_) => OneChar(env, r, back, i, j)
    case Class(_) => OneChar(env, r, back, i, j)
    case Bol => i == j && AtLineStart(env, i)
    case Eol => i == j && AtLineEnd(env, i)
    case WordB(neg) => i == j && AtWordBoundary(env, i) != neg
    case BackRef(_) => false
    case Cat(a, b) =>
      if back then exists m: nat :: Matches(env, b, back, i, m) && Matches(env, a, back, m, j)
      else exists m: nat :: Matches(env, a, back, i, m) && Matches(env, b, back, m, j)
    case Alt(a, b) => Matches(env, a, back, i, j) || Matches(env, b, back, i, j)
    case Capture(r1) => Matches(env, r1, back, i, j)
    case Look(neg, behind, r1) => i == j && (exists e: nat :: Matches(env, r1, behind, i, e)) != neg
    case Quant(r1, min, max, _) => exists n: nat :: min <= n && (max == 0x7fff_ffff || n <= max) && Iter(env, r1, back, n, i, j)
  }

  /** r matches n times in a row from i to j. */
  ghost predicate Iter(env: Env, r: Re, back: bool, n: nat, i: nat, j: nat)
    requires i <= |env.units|
    ensures Iter(env, r, back, n, i, j) ==> j <= |env.units| && (if back then j <= i else i <= j)
    decreases r, 1, n
  {
    if n == 0 then i == j
    else exists m: nat :: Matches(env, r, back, i, m) && Iter(env, r, back, n - 1, m, j)
  }

  lemma IterFirst(env: Env, r: Re, back: bool, n: nat, i: nat, j: nat) returns (m: nat)
    requires i <= |env.units| && n > 0 && Iter(env, r, back, n, i, j)
    ensures Matches(env, r, back, i, m) && Iter(env, r, back, n - 1, m, j)
  {
    var x: nat :| Matches(env, r, back, i, x) && Iter(env, r, back, n - 1, x, j);
    m := x;
  }

  /** Matches end on character boundaries when they start on one. */
  lemma {:induction false} MatchesBoundary(env: Env, r: Re, back: bool, i: nat, j: nat)
    requires i <= |env.units| && Boundary(env, i) && Matches(env, r, back, i, j)
    ensures Boundary(env, j)
    decreases r, 0
  {
    match r
    case Cat(a, b) =>
      var r1, r2 := if back then b else a, if back then a else b;
      var m: nat :| Matches(env, r1, back, i, m) && Matches(env, r2, back, m, j);
      MatchesBoundary(env, r1, back, i, m);
      MatchesBoundary(env, r2, back, m, j);
    case Alt(a, b) =>
      if Matches(env, a, back, i, j) { MatchesBoundary(env, a, back, i, j); } else { MatchesBoundary(env, b, back, i, j); }
    case Capture(r1) => MatchesBoundary(env, r1, back, i, j);
    case Quant(r1, min, max, _) =>
      var n: nat :| min <= n && (max == INF || n <= max) && Iter(env, r1, back, n, i, j);
      IterBoundary(env, r1, back, n, i, j);
    case _ =>
  }

  lemma {:induction false} IterBoundary(env: Env, r: Re, back: bool, n: nat, i: nat, j: nat)
    requires i <= |env.units| && Boundary(env, i) && Iter(env, r, back, n, i, j)
    ensures Boundary(env, j)
    decreases r, 1, n
  {
    if n > 0 {
      var m: nat :| Matches(env, r, back, i, m) && Iter(env, r, back, n - 1, m, j);
      MatchesBoundary(env, r, back, i, m);
      IterBoundary(env, r, back, n - 1, m, j);
    }
  }
}
