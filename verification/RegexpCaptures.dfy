/** What the captures of an outcome hold (libregexp.c, 1601-1612, 2257-2276): for every
    group that took part, the two ends of a match of that group, and nothing for a group
    whose quantifier started afresh without it. */
module RegexpCaptures {
  import opened RegexpInput
  import opened RegexpCode
  import opened RegexpSemantics
  import opened RegexpOrder
  import opened RegexpCorrect
  import opened RegexpMatch
  import opened RegexpRefs
  import opened RegexpExists

  // ------------------------------------------------------------ what is not touched

  /** Entry k does not belong to the n captures from cc on. */
  predicate Outside(k: int, cc: nat, n: nat)
  {
    k < 2 * cc || k >= 2 * (cc + n)
  }

  /** Only the n captures from cc on may differ, and all positions are on character
      boundaries if they were. */
  ghost predicate Kept(env: Env, cc: nat, n: nat, a: Captured, b: Captured)
  {
    |b| == |a| &&
    (forall k :: 0 <= k < |a| && Outside(k, cc, n) ==> b[k] == a[k]) &&
    (OnBoundaries(env, a) ==> OnBoundaries(env, b))
  }

  lemma KeptWider(env: Env, cc: nat, n: nat, cc1: nat, n1: nat, a: Captured, b: Captured)
    requires Kept(env, cc1, n1, a, b) && cc <= cc1 && cc1 + n1 <= cc + n
    ensures Kept(env, cc, n, a, b)
  {}

  lemma KeptBoth(env: Env, cc: nat, n: nat, a: Captured, b: Captured, c: Captured)
    requires Kept(env, cc, n, a, b) && Kept(env, cc, n, b, c)
    ensures Kept(env, cc, n, a, c)
  {}

  /** A reset clears the captures from first to last and no others. */
  lemma {:induction false} ResetMeans(caps: Captured, first: nat, last: int)
    ensures forall k :: 0 <= k < |caps| ==>
              ResetCaps(caps, first, last)[k] == if 2 * first <= k < 2 * (last + 1) then None else caps[k]
    decreases last - first
  {
    if first <= last {
      ResetMeans(SetCap(SetCap(caps, 2 * first, None), 2 * first + 1, None), first + 1, last);
    }
  }

  lemma ForgetKeeps(env: Env, x: Spot, cc: nat, n: nat)
    ensures Kept(env, cc, n, x.caps, Forget(x, cc, cc + n).caps)
    ensures forall k :: 0 <= k < |x.caps| && !Outside(k, cc, n) ==> Forget(x, cc, cc + n).caps[k] == None
  {
    ResetMeans(x.caps, cc, cc + n - 1);
  }

  /** One round of a loop, and the rest. */
  lemma LapStep(env: Env, r: Re, back: bool, cc: nat, min: nat, max: nat, greedy: bool, x: Spot, y: Spot) returns (m: Spot, stop: bool)
    requires Valid(r) && max <= INF && Boundary(env, x.pos) && y in Laps(env, r, back, cc, min, max, greedy, x)
    requires !(min == 0 && y == x) && (min > 0 || max > 0)
    ensures m in Outcomes(env, r, back, cc, x) && Boundary(env, m.pos) && After(env, back, x, m)
    ensures stop ==> y == m
    ensures !stop ==> y in Laps(env, r, back, cc, if min > 0 then min - 1 else 0, Less(max), greedy, m)
    ensures !stop && min == 0 && max == INF ==> m.pos != x.pos
  {
    var ys := Outcomes(env, r, back, cc, x);
    if min > 0 {
      var ls := LapsMin(env, r, back, cc, min, max, greedy, x);
      var t := FlattenIn(ls, y);
      m, stop := ys[t], false;
    } else {
      var ls := LapsMore(env, r, back, cc, max, greedy, x);
      var t := FlattenIn(ls, y);
      m, stop := ys[t], max == INF && ys[t].pos == x.pos;
    }
  }

  /** An outcome of r differs from its start in the captures of r only. */
  lemma {:induction false} OutcomeKept(env: Env, r: Re, back: bool, cc: nat, x: Spot, y: Spot)
    requires Valid(r) && Boundary(env, x.pos) && y in Outcomes(env, r, back, cc, x)
    ensures Kept(env, cc, Captures(r), x.caps, y.caps)
    decreases r, 0
  {
    if Leaf(r) {
      OutcomesOrder(env, r, back, cc, x);
    } else if r.Cat? {
      var m := CatStep(env, r, back, cc, x, y);
      OutcomeKept(env, First(r, back), back, FirstCount(r, back, cc), x, m);
      OutcomeKept(env, Second(r, back), back, SecondCount(r, back, cc), m, y);
      KeptWider(env, cc, Captures(r), FirstCount(r, back, cc), Captures(First(r, back)), x.caps, m.caps);
      KeptWider(env, cc, Captures(r), SecondCount(r, back, cc), Captures(Second(r, back)), m.caps, y.caps);
      KeptBoth(env, cc, Captures(r), x.caps, m.caps, y.caps);
    } else if r.Alt? {
      AltOutcomes(env, r, back, cc, x);
      if y in Outcomes(env, r.a, back, cc, x) {
        OutcomeKept(env, r.a, back, cc, x, y);
      } else {
        OutcomeKept(env, r.b, back, cc + Captures(r.a), x, y);
      }
    } else if r.Capture? {
      var z := CaptureStep(env, r, back, cc, x, y);
      OutcomeKept(env, r.r, back, cc + 1, Enter(back, cc, x), z);
      EnterLeave(env, r.r, back, cc, x, z);
    } else if r.Look? {
      LookOutcomes(env, r, back, cc, x);
      if !r.neg { OutcomeKept(env, r.r, r.behind, cc, x, Outcomes(env, r.r, r.behind, cc, x)[0]); }
    } else {
      QuantOutcomes(env, r, back, cc, x);
      ForgetKeeps(env, x, cc, Captures(r.r));
      var x1 := if r.min == 0 then Forget(x, cc, cc + Captures(r.r)) else x;
      LapKept(env, r.r, back, cc, r.min, r.max, r.greedy, x1, y);
      KeptBoth(env, cc, Captures(r), x.caps, x1.caps, y.caps);
    }
  }

  lemma CatStep(env: Env, r: Re, back: bool, cc: nat, x: Spot, y: Spot) returns (m: Spot)
    requires r.Cat? && Valid(r) && Boundary(env, x.pos) && y in Outcomes(env, r, back, cc, x)
    ensures m in Outcomes(env, First(r, back), back, FirstCount(r, back, cc), x) && Boundary(env, m.pos)
    ensures y in Outcomes(env, Second(r, back), back, SecondCount(r, back, cc), m)
  {
    var ls := CatOutcomes(env, r, back, cc, x);
    var t := FlattenIn(ls, y);
    m := Outcomes(env, First(r, back), back, FirstCount(r, back, cc), x)[t];
  }

  lemma CaptureStep(env: Env, r: Re, back: bool, cc: nat, x: Spot, y: Spot) returns (z: Spot)
    requires r.Capture? && Valid(r) && Boundary(env, x.pos) && y in Outcomes(env, r, back, cc, x)
    ensures z in Outcomes(env, r.r, back, cc + 1, Enter(back, cc, x)) && y == Leave(back, cc, z)
    ensures Boundary(env, z.pos) && After(env, back, x, z)
  {
    CaptureOutcomes(env, r, back, cc, x);
    OutcomesBoundary(env, r.r, back, cc + 1, Enter(back, cc, x));
    var zs := Outcomes(env, r.r, back, cc + 1, Enter(back, cc, x));
    var t :| 0 <= t < |zs| && y == LeaveAll(back, cc, zs)[t];
    z := zs[t];
  }

  /** Inside a group only its own two entries and those of its subgroups change. */
  lemma EnterLeave(env: Env, r: Re, back: bool, cc: nat, x: Spot, z: Spot)
    requires Boundary(env, x.pos) && Boundary(env, z.pos) && Kept(env, cc + 1, Captures(r), Enter(back, cc, x).caps, z.caps)
    ensures Kept(env, cc, 1 + Captures(r), x.caps, Leave(back, cc, z).caps)
    ensures 2 * cc + 1 < |x.caps| ==>
              Leave(back, cc, z).caps[2 * cc] == Some(if back then z.pos else x.pos) &&
              Leave(back, cc, z).caps[2 * cc + 1] == Some(if back then x.pos else z.pos)
    ensures Kept(env, cc, 1, z.caps, Leave(back, cc, z).caps) && Kept(env, cc, 1, x.caps, Enter(back, cc, x).caps)
  {}

  lemma {:induction false} LapKept(env: Env, r: Re, back: bool, cc: nat, min: nat, max: nat, greedy: bool, x: Spot, y: Spot)
    requires Valid(r) && min <= max <= INF && Boundary(env, x.pos) && y in Laps(env, r, back, cc, min, max, greedy, x)
    ensures Kept(env, cc, Captures(r), x.caps, y.caps)
    decreases r, 1, min, if max == INF then Distance(env, back, x) else max
  {
    if max == 0 {
      LapsNone(env, r, back, cc, greedy, x);
    } else if !(min == 0 && y == x) {
      var m, stop := LapStep(env, r, back, cc, min, max, greedy, x, y);
      OutcomeKept(env, r, back, cc, x, m);
      if !stop {
        LapKept(env, r, back, cc, if min > 0 then min - 1 else 0, Less(max), greedy, m, y);
        KeptBoth(env, cc, Captures(r), x.caps, m.caps, y.caps);
      }
    }
  }

  // ------------------------------------------------------------- what a group holds

  /** A capture holds the start and the end of a stretch that the group has matched. */
  lemma CaptureSpan(env: Env, r: Re, back: bool, cc: nat, x: Spot, y: Spot)
    requires Valid(r) && Boundary(env, x.pos) && y in Outcomes(env, Capture(r), back, cc, x)
    ensures |y.caps| == |x.caps| && forall k :: 0 <= k < |x.caps| && Outside(k, cc, 1 + Captures(r)) ==> y.caps[k] == x.caps[k]
    ensures 2 * cc + 1 < |x.caps| ==>
              y.caps[2 * cc] == Some(if back then y.pos else x.pos) && y.caps[2 * cc + 1] == Some(if back then x.pos else y.pos)
  {
    var z := CaptureStep(env, Capture(r), back, cc, x, y);
    OutcomeKept(env, r, back, cc + 1, Enter(back, cc, x), z);
    EnterLeave(env, r, back, cc, x, z);
  }

  /** From s to e the group r has matched. */
  ghost predicate Stretch(env: Env, r: Re, back: bool, s: nat, e: nat)
  {
    s <= e && Boundary(env, s) && Boundary(env, e) &&
    (NoBackRef(r) ==> if back then Matches(env, r, true, e, s) else Matches(env, r, false, s, e))
  }

  /** Capture n is not set, or holds a match of the group r. */
  ghost predicate PairHolds(env: Env, r: Re, back: bool, n: nat, caps: Captured)
  {
    2 * n + 1 < |caps| ==>
      (caps[2 * n].None? && caps[2 * n + 1].None?) ||
      (caps[2 * n].Some? && caps[2 * n + 1].Some? && Stretch(env, r, back, caps[2 * n].value, caps[2 * n + 1].value))
  }

  /** So do all captures of r, which are numbered from cc on by their opening parentheses. */
  ghost predicate GroupsHold(env: Env, r: Re, back: bool, cc: nat, caps: Captured)
  {
    match r
    case Cat(a, b) => GroupsHold(env, a, back, cc, caps) && GroupsHold(env, b, back, cc + Captures(a), caps)
    case Alt(a, b) => GroupsHold(env, a, back, cc, caps) && GroupsHold(env, b, back, cc + Captures(a), caps)
    case Capture(r1) => PairHolds(env, r1, back, cc, caps) && GroupsHold(env, r1, back, cc + 1, caps)
    case Look(_, behind, r1) => GroupsHold(env, r1, behind, cc, caps)
    case Quant(r1, _, _, _) => GroupsHold(env, r1, back, cc, caps)
    case _ => true
  }

  /** Equal entries hold equally. */
  lemma {:induction false} GroupsStable(env: Env, r: Re, back: bool, cc: nat, a: Captured, b: Captured)
    requires |a| == |b| && (forall k :: 0 <= k < |a| && !Outside(k, cc, Captures(r)) ==> b[k] == a[k])
    requires GroupsHold(env, r, back, cc, a)
    ensures GroupsHold(env, r, back, cc, b)
    decreases r
  {
    if r.Cat? || r.Alt? {
      GroupsStable(env, r.a, back, cc, a, b);
      GroupsStable(env, r.b, back, cc + Captures(r.a), a, b);
    } else if r.Capture? {
      GroupsStable(env, r.r, back, cc + 1, a, b);
    } else if r.Look? {
      GroupsStable(env, r.r, r.behind, cc, a, b);
    } else if r.Quant? {
      GroupsStable(env, r.r, back, cc, a, b);
    }
  }

  /** So does a change elsewhere. */
  lemma GroupsElsewhere(env: Env, r: Re, back: bool, cc: nat, cc1: nat, n1: nat, a: Captured, b: Captured)
    requires Kept(env, cc1, n1, a, b) && (cc + Captures(r) <= cc1 || cc1 + n1 <= cc) && GroupsHold(env, r, back, cc, a)
    ensures GroupsHold(env, r, back, cc, b)
  {
    GroupsStable(env, r, back, cc, a, b);
  }

  /** Captures that are not set hold. */
  lemma {:induction false} NothingHolds(env: Env, r: Re, back: bool, cc: nat, caps: Captured)
    requires forall k :: 0 <= k < |caps| && !Outside(k, cc, Captures(r)) ==> caps[k].None?
    ensures GroupsHold(env, r, back, cc, caps)
    decreases r
  {
    if r.Cat? || r.Alt? {
      NothingHolds(env, r.a, back, cc, caps);
      NothingHolds(env, r.b, back, cc + Captures(r.a), caps);
    } else if r.Capture? {
      NothingHolds(env, r.r, back, cc + 1, caps);
    } else if r.Look? {
      NothingHolds(env, r.r, r.behind, cc, caps);
    } else if r.Quant? {
      NothingHolds(env, r.r, back, cc, caps);
    }
  }

  /** Every outcome keeps it: whatever was tried and given up, and in whatever round, each
      capture that is set holds a match of its own group. */
  lemma {:induction false} OutcomeGroups(env: Env, r: Re, back: bool, cc: nat, x: Spot, y: Spot)
    requires Valid(r) && Boundary(env, x.pos) && y in Outcomes(env, r, back, cc, x) && GroupsHold(env, r, back, cc, x.caps)
    ensures GroupsHold(env, r, back, cc, y.caps)
    decreases r, 0
  {
    if r.Cat? {
      CatGroups(env, r, back, cc, x, y);
    } else if r.Alt? {
      AltGroups(env, r, back, cc, x, y);
    } else if r.Capture? {
      var z := CaptureStep(env, r, back, cc, x, y);
      var x1 := Enter(back, cc, x);
      GroupsStable(env, r.r, back, cc + 1, x.caps, x1.caps);
      OutcomeGroups(env, r.r, back, cc + 1, x1, z);
      GroupsStable(env, r.r, back, cc + 1, z.caps, y.caps);
      CaptureSpan(env, r.r, back, cc, x, y);
      if NoBackRef(r.r) { OutcomeMatches(env, r.r, back, cc + 1, x1, z); }
    } else if r.Look? {
      LookOutcomes(env, r, back, cc, x);
      if !r.neg { OutcomeGroups(env, r.r, r.behind, cc, x, Outcomes(env, r.r, r.behind, cc, x)[0]); }
    } else if r.Quant? {
      QuantOutcomes(env, r, back, cc, x);
      var x1 := if r.min == 0 then Forget(x, cc, cc + Captures(r.r)) else x;
      ForgetKeeps(env, x, cc, Captures(r.r));
      if r.min == 0 { NothingHolds(env, r.r, back, cc, x1.caps); }
      LapGroups(env, r.r, back, cc, r.min, r.max, r.greedy, x1, y);
    }
  }

  lemma {:induction false} CatGroups(env: Env, r: Re, back: bool, cc: nat, x: Spot, y: Spot)
    requires r.Cat? && Valid(r) && Boundary(env, x.pos) && y in Outcomes(env, r, back, cc, x) && GroupsHold(env, r, back, cc, x.caps)
    ensures GroupsHold(env, r, back, cc, y.caps)
    decreases r, 0, 0
  {
    var r1, r2, c1, c2 := First(r, back), Second(r, back), FirstCount(r, back, cc), SecondCount(r, back, cc);
    var m := CatStep(env, r, back, cc, x, y);
    OutcomeGroups(env, r1, back, c1, x, m);
    OutcomeKept(env, r1, back, c1, x, m);
    GroupsElsewhere(env, r2, back, c2, c1, Captures(r1), x.caps, m.caps);
    OutcomeGroups(env, r2, back, c2, m, y);
    OutcomeKept(env, r2, back, c2, m, y);
    GroupsElsewhere(env, r1, back, c1, c2, Captures(r2), m.caps, y.caps);
  }

  lemma {:induction false} AltGroups(env: Env, r: Re, back: bool, cc: nat, x: Spot, y: Spot)
    requires r.Alt? && Valid(r) && Boundary(env, x.pos) && y in Outcomes(env, r, back, cc, x) && GroupsHold(env, r, back, cc, x.caps)
    ensures GroupsHold(env, r, back, cc, y.caps)
    decreases r, 0, 0
  {
    var c2 := cc + Captures(r.a);
    AltOutcomes(env, r, back, cc, x);
    if y in Outcomes(env, r.a, back, cc, x) {
      OutcomeGroups(env, r.a, back, cc, x, y);
      OutcomeKept(env, r.a, back, cc, x, y);
      GroupsElsewhere(env, r.b, back, c2, cc, Captures(r.a), x.caps, y.caps);
    } else {
      OutcomeGroups(env, r.b, back, c2, x, y);
      OutcomeKept(env, r.b, back, c2, x, y);
      GroupsElsewhere(env, r.a, back, cc, c2, Captures(r.b), x.caps, y.caps);
    }
  }

  lemma {:induction false} LapGroups(env: Env, r: Re, back: bool, cc: nat, min: nat, max: nat, greedy: bool, x: Spot, y: Spot)
    requires Valid(r) && min <= max <= INF && Boundary(env, x.pos) && y in Laps(env, r, back, cc, min, max, greedy, x)
    requires GroupsHold(env, r, back, cc, x.caps)
    ensures GroupsHold(env, r, back, cc, y.caps)
    decreases r, 1, min, if max == INF then Distance(env, back, x) else max
  {
    if max == 0 {
      LapsNone(env, r, back, cc, greedy, x);
    } else if !(min == 0 && y == x) {
      var m, stop := LapStep(env, r, back, cc, min, max, greedy, x, y);
      OutcomeGroups(env, r, back, cc, x, m);
      if !stop {
        LapGroups(env, r, back, cc, if min > 0 then min - 1 else 0, Less(max), greedy, m, y);
      }
    }
  }

  /** An optional group that is left out holds nothing afterwards, whatever it held before;
      it is the last choice of a greedy quantifier and the first of a lazy one. */
  lemma LeftOut(env: Env, r: Re, back: bool, cc: nat, x: Spot) returns (y: Spot)
    requires r.Quant? && r.min == 0 && Valid(r) && Boundary(env, x.pos)
    ensures var ys := Outcomes(env, r, back, cc, x); ys != [] && y == ys[if r.greedy then |ys| - 1 else 0]
    ensures y.pos == x.pos && |y.caps| == |x.caps|
    ensures forall k :: 0 <= k < |x.caps| ==> y.caps[k] == if Outside(k, cc, Captures(r.r)) then x.caps[k] else None
  {
    QuantOutcomes(env, r, back, cc, x);
    y := Forget(x, cc, cc + Captures(r.r));
    ForgetKeeps(env, x, cc, Captures(r.r));
    if r.max == 0 {
      LapsNone(env, r.r, back, cc, r.greedy, y);
    } else {
      var ls := LapsMore(env, r.r, back, cc, r.max, r.greedy, y);
    }
  }

  // --------------------------------------------------------------- what is reported

  /** i is the first place, in the order of the search, from which r has an outcome; y is
      the first of those. */
  ghost predicate FirstFound(env: Env, r: Re, sticky: bool, x: Spot, i: nat, y: Spot)
    requires Valid(r)
  {
    i <= |env.units| && MayStart(env, sticky, x.pos, i) &&
    Outcomes(env, Capture(r), false, 0, Spot(i, x.caps)) != [] && y == Outcomes(env, Capture(r), false, 0, Spot(i, x.caps))[0] &&
    forall h: nat :: h < i && MayStart(env, sticky, x.pos, h) ==> Outcomes(env, Capture(r), false, 0, Spot(h, x.caps)) == []
  }

  lemma {:induction false} FindMeans(env: Env, r: Re, sticky: bool, x: Spot) returns (i: nat)
    requires Valid(r) && Boundary(env, x.pos) && Find(env, r, sticky, x).Some?
    ensures FirstFound(env, r, sticky, x, i, Find(env, r, sticky, x).value)
    decreases |env.units| - x.pos
  {
    if Outcomes(env, Capture(r), false, 0, x) != [] {
      i := x.pos;
    } else {
      var next := Spot(GetChar(env, x.pos).1, x.caps);
      GetCharBoundary(env, x.pos);
      i := FindMeans(env, r, sticky, next);
    }
  }

  /** The captures of a match: capture 0 reaches from the first place where the pattern
      matches to the end of a match from there, and every capture that is set holds a match
      of its group. */
  ghost predicate Reports(env: Env, r: Re, sticky: bool, start: nat, caps: Captured)
    requires Valid(r)
  {
    |caps| >= 2 && caps[0].Some? && caps[1].Some? &&
    caps[0].value <= |env.units| && MayStart(env, sticky, start, caps[0].value) && caps[0].value <= caps[1].value <= |env.units| &&
    (NoBackRef(r) ==>
       Matches(env, r, false, caps[0].value, caps[1].value) &&
       forall h: nat :: h < caps[0].value && MayStart(env, sticky, start, h) ==> !MatchesFrom(env, r, h)) &&
    GroupsHold(env, r, false, 1, caps)
  }

  lemma FindReports(env: Env, r: Re, sticky: bool, start: nat, captures: nat)
    requires Valid(r) && Boundary(env, start) && captures >= 1
    ensures var found := Find(env, r, sticky, Spot(start, seq(2 * captures, _ => None)));
            found.Some? ==> |found.value.caps| == 2 * captures && found.value.caps[1] == Some(found.value.pos) &&
                            Reports(env, r, sticky, start, found.value.caps)
  {
    var x := Spot(start, seq(2 * captures, _ => None));
    if Find(env, r, sticky, x).Some? {
      var i := FindMeans(env, r, sticky, x);
      FirstReports(env, r, sticky, x, i, Find(env, r, sticky, x).value);
    }
  }

  lemma FirstReports(env: Env, r: Re, sticky: bool, x: Spot, i: nat, y: Spot)
    requires Valid(r) && Boundary(env, x.pos) && FirstFound(env, r, sticky, x, i, y)
    requires |x.caps| >= 2 && forall k :: 0 <= k < |x.caps| ==> x.caps[k] == None
    ensures |y.caps| == |x.caps| && y.caps[1] == Some(y.pos) && Reports(env, r, sticky, x.pos, y.caps)
  {
    var x1 := Spot(i, x.caps);
    CaptureSpan(env, r, false, 0, x1, y);
    NothingHolds(env, Capture(r), false, 0, x.caps);
    OutcomeGroups(env, Capture(r), false, 0, x1, y);
    if NoBackRef(r) { NoneBefore(env, r, sticky, x, i, y); }
  }

  lemma NoneBefore(env: Env, r: Re, sticky: bool, x: Spot, i: nat, y: Spot)
    requires Valid(r) && NoBackRef(r) && Boundary(env, x.pos) && FirstFound(env, r, sticky, x, i, y)
    ensures forall h: nat :: h < i && MayStart(env, sticky, x.pos, h) ==> !MatchesFrom(env, r, h)
  {
    forall h: nat | h < i && MayStart(env, sticky, x.pos, h) ensures !MatchesFrom(env, r, h) {
      HereMatches(env, r, Spot(h, x.caps));
    }
  }
}
