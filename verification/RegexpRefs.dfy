/** What back references match (libregexp.c, 2323-2367): the characters of the capture,
    compared under case folding, in either direction. */
module RegexpRefs {
  import opened RegexpInput
  import opened RegexpCode
  import opened RegexpOrder

  /** Equal up to case folding. */
  ghost predicate SameFolded(env: Env, v: seq<nat>, w: seq<nat>)
  {
    |v| == |w| && forall k :: 0 <= k < |v| ==> env.canon(v[k]) == env.canon(w[k])
  }

  lemma FoldedCons(env: Env, a: nat, v: seq<nat>, b: nat, w: seq<nat>)
    ensures SameFolded(env, [a] + v, [b] + w) <==> env.canon(a) == env.canon(b) && SameFolded(env, v, w)
  {
    if SameFolded(env, [a] + v, [b] + w) {
      assert ([a] + v)[0] == a && ([b] + w)[0] == b;
      forall k | 0 <= k < |v| ensures env.canon(v[k]) == env.canon(w[k]) {
        assert v[k] == ([a] + v)[k + 1] && w[k] == ([b] + w)[k + 1];
      }
    }
  }

  lemma FoldedSnoc(env: Env, v: seq<nat>, a: nat, w: seq<nat>, b: nat)
    ensures SameFolded(env, v + [a], w + [b]) <==> env.canon(a) == env.canon(b) && SameFolded(env, v, w)
  {
    if SameFolded(env, v + [a], w + [b]) {
      assert (v + [a])[|v|] == a && (w + [b])[|v|] == b;
      forall k | 0 <= k < |v| ensures env.canon(v[k]) == env.canon(w[k]) {
        assert v[k] == (v + [a])[k] && w[k] == (w + [b])[k];
      }
    }
  }

  /** Forwards, the reference leads from pos to j exactly if the characters between them are
      the captured ones. */
  lemma {:induction false} ForwardRepeats(env: Env, p: nat, end: nat, pos: nat, j: nat)
    requires p <= end <= |env.units| && Boundary(env, pos)
    ensures RepeatForward(env, p, end, pos) == Some(j) <==>
            pos <= j && Boundary(env, j) && SameFolded(env, Word(env, p, end), Word(env, pos, j))
    decreases end - p
  {
    if p < end && pos < |env.units| {
      var (c1, p1) := GetCharTo(env, p, end);
      var (c2, pos1) := GetChar(env, pos);
      GetCharBoundary(env, pos);
      ForwardRepeats(env, p1, end, pos1, j);
      if pos < j && Boundary(env, j) {
        InsideBuffer(env, pos, j);
        FoldedCons(env, c1, Word(env, p1, end), c2, Word(env, pos1, j));
      }
    }
  }

  /** Backwards likewise. */
  lemma {:induction false} BackwardRepeats(env: Env, p: nat, start: nat, pos: nat, j: nat)
    requires start <= p && Boundary(env, start) && Boundary(env, p) && Boundary(env, pos)
    ensures RepeatBackward(env, p, start, pos) == Some(j) <==>
            j <= pos && Boundary(env, j) && SameFolded(env, Word(env, start, p), Word(env, j, pos))
    decreases p
  {
    if start < p && pos > 0 {
      var (c1, p1) := GetPrevFrom(env, p, start);
      var (c2, pos1) := GetPrevFrom(env, pos, 0);
      WordLast(env, start, p);
      assert Boundary(env, pos1);
      BackwardRepeats(env, p1, start, pos1, j);
      if j < pos && Boundary(env, j) {
        WordLast(env, j, pos);
        assert GetPrevFrom(env, pos, j) == (c2, pos1);
        FoldedSnoc(env, Word(env, start, p1), c1, Word(env, j, pos1), c2);
      }
    }
  }

  ghost predicate OnBoundaries(env: Env, caps: Captured)
  {
    forall k :: 0 <= k < |caps| && caps[k].Some? ==> Boundary(env, caps[k].value)
  }

  /** The characters between two places, in either order. */
  ghost function Between(env: Env, back: bool, i: nat, j: nat): seq<nat>
    requires i <= |env.units| && j <= |env.units| && if back then j <= i else i <= j
  {
    if back then Word(env, j, i) else Word(env, i, j)
  }

  /** What a reference leads to: to nothing if there is no such capture; to the same place
      if the capture is not set, or not yet finished in this round; else to the one place
      between which and the start stand the captured characters. */
  lemma ReferenceOutcomes(env: Env, n: nat, back: bool, cc: nat, x: Spot)
    requires Boundary(env, x.pos) && OnBoundaries(env, x.caps)
    ensures 2 * n + 1 >= |x.caps| ==> Outcomes(env, BackRef(n), back, cc, x) == []
    ensures 2 * n + 1 < |x.caps| && (x.caps[2 * n].None? || x.caps[2 * n + 1].None?) ==> Outcomes(env, BackRef(n), back, cc, x) == [x]
    ensures 2 * n + 1 < |x.caps| && x.caps[2 * n].Some? && x.caps[2 * n + 1].Some? ==>
              var start, end := x.caps[2 * n].value, x.caps[2 * n + 1].value;
              if start > end then Outcomes(env, BackRef(n), back, cc, x) == [x]
              else forall j: nat :: Outcomes(env, BackRef(n), back, cc, x) == [Spot(j, x.caps)] <==>
                     Boundary(env, j) && (if back then j <= x.pos else x.pos <= j) &&
                     SameFolded(env, Word(env, start, end), Between(env, back, x.pos, j))
    ensures |Outcomes(env, BackRef(n), back, cc, x)| <= 1
  {
    OutcomesOrder(env, BackRef(n), back, cc, x);
    if 2 * n + 1 < |x.caps| && x.caps[2 * n].Some? && x.caps[2 * n + 1].Some? {
      var start, end := x.caps[2 * n].value, x.caps[2 * n + 1].value;
      if start <= end {
        forall j: nat
          ensures BackRefStep(env, x.caps, n, back, x.pos) == Some(j) <==>
                  Boundary(env, j) && (if back then j <= x.pos else x.pos <= j) &&
                  SameFolded(env, Word(env, start, end), Between(env, back, x.pos, j))
        {
          if back { BackwardRepeats(env, end, start, x.pos, j); } else { ForwardRepeats(env, start, end, x.pos, j); }
        }
      }
    }
  }
}
