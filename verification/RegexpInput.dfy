/** The subject of a match (libregexp.c, 1911-2012): code units, and how the
    matcher steps over characters in both directions. */
module RegexpInput {

  /** One run of the matcher: the subject, whether surrogate pairs count as one
      character (cbuf_type 2), the multi-line flag, and the case folding applied to
      characters (the identity without the ignore-case flag). */
  datatype Env = Env(units: seq<nat>, utf16: bool, multiLine: bool, canon: nat -> nat)

  predicate High(c: nat) { 0xd800 <= c < 0xdc00 }

  predicate Low(c: nat) { 0xdc00 <= c < 0xe000 }

  function Pair(hi: nat, lo: nat): nat
  {
    (hi % 0x400) * 0x400 + lo % 0x400 + 0x10000
  }

  /** GET_CHAR: the character at i and the position after it. */
  function GetChar(env: Env, i: nat): (r: (nat, nat))
    requires i < |env.units|
    ensures i < r.1 <= i + 2 && r.1 <= |env.units|
  {
    var c := env.units[i];
    if env.utf16 && High(c) && i + 1 < |env.units| && Low(env.units[i + 1])
    then (Pair(c, env.units[i + 1]), i + 2)
    else (c, i + 1)
  }

  /** PEEK_CHAR */
  function PeekChar(env: Env, i: nat): nat
    requires i < |env.units|
  {
    GetChar(env, i).0
  }

  /** PREV_CHAR: the position before the character that ends at i. */
  function PrevChar(env: Env, i: nat): (j: nat)
    requires 0 < i <= |env.units|
    ensures j < i <= j + 2
  {
    if env.utf16 && Low(env.units[i - 1]) && i > 1 && High(env.units[i - 2]) then i - 2 else i - 1
  }

  /** PEEK_PREV_CHAR */
  function PeekPrevChar(env: Env, i: nat): nat
    requires 0 < i <= |env.units|
  {
    var c := env.units[i - 1];
    if env.utf16 && Low(c) && i > 1 && High(env.units[i - 2]) then Pair(env.units[i - 2], c) else c
  }

  /** i does not cut a surrogate pair in two. */
  predicate Boundary(env: Env, i: nat)
  {
    i <= |env.units| &&
    !(env.utf16 && 0 < i < |env.units| && High(env.units[i - 1]) && Low(env.units[i]))
  }

  /** Stepping forward always ends on a character boundary. */
  lemma GetCharBoundary(env: Env, i: nat)
    requires i < |env.units|
    ensures Boundary(env, GetChar(env, i).1)
  {}

  /** Going back undoes going forward exactly from the character boundaries. */
  lemma PrevUndoesGet(env: Env, i: nat)
    requires i < |env.units|
    ensures PrevChar(env, GetChar(env, i).1) == i <==> Boundary(env, i)
  {}

  /** Going forward undoes going back from every character boundary. */
  lemma GetUndoesPrev(env: Env, i: nat)
    requires 0 < i <= |env.units| && Boundary(env, i)
    ensures GetChar(env, PrevChar(env, i)).1 == i
    ensures GetChar(env, PrevChar(env, i)).0 == PeekPrevChar(env, i)
  {}

  // ------------------------------------------------------- what the readers return

  predicate HighUnit(u: nat) { 0xd800 <= u <= 0xdbff }

  predicate LowUnit(u: nat) { 0xdc00 <= u <= 0xdfff }

  /** The units at i and i + 1 are a surrogate pair that counts as one character. */
  predicate PairAt(env: Env, i: nat)
  {
    env.utf16 && i + 1 < |env.units| && HighUnit(env.units[i]) && LowUnit(env.units[i + 1])
  }

  /** All readers take a surrogate pair as the code point that it encodes in UTF-16. */
  lemma PairRead(env: Env, i: nat, cp: nat)
    requires PairAt(env, i) && 0x10000 <= cp <= 0x10ffff
    ensures env.units[i] == 0xd800 + (cp - 0x10000) / 0x400 && env.units[i + 1] == 0xdc00 + (cp - 0x10000) % 0x400 <==>
            GetChar(env, i) == (cp, i + 2)
    ensures GetChar(env, i).1 == i + 2 && PrevChar(env, i + 2) == i && PeekPrevChar(env, i + 2) == GetChar(env, i).0
    ensures forall end :: i + 2 <= end <= |env.units| ==> GetCharTo(env, i, end) == GetChar(env, i)
    ensures forall start, j :: 0 <= start <= i && j == i + 2 ==> GetPrevFrom(env, j, start) == (GetChar(env, i).0, i)
  {
    var h, l := env.units[i] - 0xd800, env.units[i + 1] - 0xdc00;
    assert env.units[i] % 0x400 == h && env.units[i + 1] % 0x400 == l;
    assert (cp - 0x10000) == (cp - 0x10000) / 0x400 * 0x400 + (cp - 0x10000) % 0x400;
  }

  /** Any other unit is a character by itself, in both directions. */
  lemma UnitRead(env: Env, i: nat)
    requires i < |env.units|
    ensures !PairAt(env, i) ==> GetChar(env, i) == (env.units[i], i + 1)
    ensures !PairAt(env, i) ==> forall end :: i < end <= |env.units| ==> GetCharTo(env, i, end) == (env.units[i], i + 1)
    ensures GetCharTo(env, i, i + 1) == (env.units[i], i + 1) && GetPrevFrom(env, i + 1, i) == (env.units[i], i)
    ensures i == 0 || !PairAt(env, i - 1) ==> PeekPrevChar(env, i + 1) == env.units[i] && PrevChar(env, i + 1) == i
    ensures i == 0 || !PairAt(env, i - 1) ==> forall start, j :: 0 <= start <= i && j == i + 1 ==> GetPrevFrom(env, j, start) == (env.units[i], i)
  {}

  /** The characters from i up to j. */
  ghost function Word(env: Env, i: nat, j: nat): (w: seq<nat>)
    requires i <= j <= |env.units|
    ensures w == [] <==> i == j
    decreases j - i
  {
    if i == j then [] else [GetCharTo(env, i, j).0] + Word(env, GetCharTo(env, i, j).1, j)
  }

  predicate Scalar(c: nat)
  {
    c < 0xd800 || 0xe000 <= c <= 0x10ffff
  }

  /** UTF-16 (section 3.9 of the Unicode standard). */
  function Utf16(s: seq<nat>): seq<nat>
    requires forall c :: c in s ==> Scalar(c)
  {
    if s == [] then []
    else if s[0] < 0x10000 then [s[0]] + Utf16(s[1..])
    else [0xd800 + (s[0] - 0x10000) / 0x400, 0xdc00 + (s[0] - 0x10000) % 0x400] + Utf16(s[1..])
  }

  /** Reading is the inverse of the encoding, wherever the encoded characters stand. */
  lemma {:induction false} ReadsEncoded(env: Env, i: nat, s: seq<nat>)
    requires env.utf16 && (forall c :: c in s ==> Scalar(c))
    requires i + |Utf16(s)| <= |env.units| && env.units[i..i + |Utf16(s)|] == Utf16(s)
    ensures Word(env, i, i + |Utf16(s)|) == s
    decreases |s|
  {
    if s != [] {
      var n := FirstEncoded(env, i, s);
      ReadsEncoded(env, i + n, s[1..]);
    }
  }

  lemma FirstEncoded(env: Env, i: nat, s: seq<nat>) returns (n: nat)
    requires env.utf16 && s != [] && (forall c :: c in s ==> Scalar(c))
    requires i + |Utf16(s)| <= |env.units| && env.units[i..i + |Utf16(s)|] == Utf16(s)
    ensures 1 <= n && |Utf16(s)| == n + |Utf16(s[1..])| && GetCharTo(env, i, i + |Utf16(s)|) == (s[0], i + n)
    ensures env.units[i + n..i + |Utf16(s)|] == Utf16(s[1..])
  {
    var us, j := Utf16(s), i + |Utf16(s)|;
    n := if s[0] < 0x10000 then 1 else 2;
    assert us[n..] == Utf16(s[1..]);
    assert env.units[i + n..j] == env.units[i..j][n..];
    assert env.units[i] == env.units[i..j][0] == us[0];
    assert Scalar(s[0]) by { assert s[0] in s; }
    if n == 2 {
      assert env.units[i + 1] == env.units[i..j][1] == us[1];
      PairRead(env, i, s[0]);
    } else {
      UnitRead(env, i);
    }
  }

  /** Without pairs the characters are the units. */
  lemma {:induction false} ReadsUnits(env: Env, i: nat, j: nat)
    requires i <= j <= |env.units| && forall k: nat :: i <= k && k + 1 < j ==> !PairAt(env, k)
    ensures Word(env, i, j) == env.units[i..j]
    decreases j - i
  {
    if i < j {
      ReadsUnits(env, i + 1, j);
      assert env.units[i..j] == [env.units[i]] + env.units[i + 1..j];
      assert i + 1 < j ==> !PairAt(env, i);
      UnitRead(env, i);
    }
  }

  /** On character boundaries the buffer need not end where the word ends. */
  lemma InsideBuffer(env: Env, i: nat, j: nat)
    requires i < j && Boundary(env, j)
    ensures GetCharTo(env, i, j) == GetChar(env, i)
  {}

  /** A word ends with the character that going back reads. */
  lemma {:induction false} WordLast(env: Env, i: nat, j: nat)
    requires i < j && Boundary(env, i) && Boundary(env, j)
    ensures var (c, k) := GetPrevFrom(env, j, i); Boundary(env, k) && Word(env, i, j) == Word(env, i, k) + [c]
    decreases j - i
  {
    var (c, k) := GetPrevFrom(env, j, i);
    var (c0, i1) := GetCharTo(env, i, j);
    InsideBuffer(env, i, j);
    GetCharBoundary(env, i);
    if i1 < j {
      WordLast(env, i1, j);
      assert GetPrevFrom(env, j, i1) == (c, k);
      InsideBuffer(env, i, k);
    } else {
      PrevUndoesGet(env, i);
      assert Word(env, i1, j) == [] && Word(env, i, i) == [];
    }
  }

  // ------------------------------------------------------------- places in the subject

  predicate IsLineTerminator(c: nat)
  {
    c == 0x0a || c == 0x0d || c == 0x2028 || c == 0x2029
  }

  predicate IsWordChar(c: nat)
  {
    0x30 <= c <= 0x39 || 0x61 <= c <= 0x7a || 0x41 <= c <= 0x5a || c == 0x5f
  }

  /** Where ^, $ and the word boundary hold. */
  predicate AtLineStart(env: Env, i: nat)
    requires i <= |env.units|
  {
    i == 0 || (env.multiLine && IsLineTerminator(PeekPrevChar(env, i)))
  }

  predicate AtLineEnd(env: Env, i: nat)
    requires i <= |env.units|
  {
    i == |env.units| || (env.multiLine && IsLineTerminator(PeekChar(env, i)))
  }

  predicate AtWordBoundary(env: Env, i: nat)
    requires i <= |env.units|
  {
    (i > 0 && IsWordChar(PeekPrevChar(env, i))) != (i < |env.units| && IsWordChar(PeekChar(env, i)))
  }

  /** The characters that are called word characters. */
  predicate InAlphabet(c: char)
  {
    c in "abcdefghijklm" || c in "nopqrstuvwxyz" || c in "ABCDEFGHIJKLM" || c in "NOPQRSTUVWXYZ" || c in "0123456789" || c == '_'
  }

  lemma WordCharacters(c: nat)
    requires c < 128
    ensures IsWordChar(c) <==> InAlphabet(c as char)
  {
    LowerCase(c as char);
    UpperCase(c as char);
    assert c as char in "0123456789" <==> '0' <= c as char <= '9';
  }

  lemma LowerCase(c: char)
    ensures c in "abcdefghijklm" || c in "nopqrstuvwxyz" <==> 'a' <= c <= 'z'
  {
    assert c in "abcdefghijklm" <==> 'a' <= c <= 'm';
    assert c in "nopqrstuvwxyz" <==> 'n' <= c <= 'z';
  }

  lemma UpperCase(c: char)
    ensures c in "ABCDEFGHIJKLM" || c in "NOPQRSTUVWXYZ" <==> 'A' <= c <= 'Z'
  {
    assert c in "ABCDEFGHIJKLM" <==> 'A' <= c <= 'M';
    assert c in "NOPQRSTUVWXYZ" <==> 'N' <= c <= 'Z';
  }

  /** The line terminators (section 11.3 of ECMA-262) among the code units. */
  predicate BreakAt(env: Env, i: int)
  {
    0 <= i < |env.units| && env.units[i] in {0x0a, 0x0d, 0x2028, 0x2029}
  }

  predicate WordAt(env: Env, i: int)
  {
    0 <= i < |env.units| && env.units[i] < 128 && InAlphabet(env.units[i] as char)
  }

  /** Where the three tests hold, by code units alone: no half of a surrogate pair matters,
      and the ends of the subject count as line ends and as outside of words (sections
      21.2.2.6 of ECMA-262). */
  lemma Places(env: Env, i: nat)
    requires i <= |env.units|
    ensures AtLineStart(env, i) <==> i == 0 || (env.multiLine && BreakAt(env, i - 1))
    ensures AtLineEnd(env, i) <==> i == |env.units| || (env.multiLine && BreakAt(env, i))
    ensures AtWordBoundary(env, i) <==> (WordAt(env, i - 1) != WordAt(env, i))
  {
    if i > 0 { UnitIsWord(env, i - 1); }
    if i < |env.units| { UnitIsWord(env, i); }
  }

  lemma UnitIsWord(env: Env, i: nat)
    requires i < |env.units|
    ensures WordAt(env, i) <==> IsWordChar(env.units[i])
  {
    if env.units[i] < 128 { WordCharacters(env.units[i]); }
  }

  // -------------------------------------------------- captures and back references

  datatype Option<T> = None | Some(value: T)

  /** Two entries per capture, its start and its end. */
  type Captured = seq<Option<nat>>

  function SetCap(caps: Captured, k: nat, v: Option<nat>): (r: Captured)
    ensures |r| == |caps|
  {
    if k < |caps| then caps[k := v] else caps
  }

  function ResetCaps(caps: Captured, first: nat, last: int): (r: Captured)
    ensures |r| == |caps|
    decreases last - first
  {
    if first > last then caps
    else ResetCaps(SetCap(SetCap(caps, 2 * first, None), 2 * first + 1, None), first + 1, last)
  }

  /** GET_CHAR with the end of the buffer given. */
  function GetCharTo(env: Env, i: nat, end: nat): (r: (nat, nat))
    requires i < end <= |env.units|
    ensures i < r.1 <= end
  {
    var c := env.units[i];
    if env.utf16 && High(c) && i + 1 < end && Low(env.units[i + 1]) then (Pair(c, env.units[i + 1]), i + 2) else (c, i + 1)
  }

  /** GET_PREV_CHAR with the start of the buffer given. */
  function GetPrevFrom(env: Env, i: nat, start: nat): (r: (nat, nat))
    requires start < i <= |env.units|
    ensures start <= r.1 < i
  {
    var c := env.units[i - 1];
    if env.utf16 && Low(c) && i - 1 > start && High(env.units[i - 2]) then (Pair(env.units[i - 2], c), i - 2) else (c, i - 1)
  }

  function RepeatForward(env: Env, p: nat, end: nat, pos: nat): (r: Option<nat>)
    requires end <= |env.units| && pos <= |env.units|
    ensures r.Some? ==> pos <= r.value <= |env.units|
    decreases end - p
  {
    if p >= end then Some(pos)
    else if pos >= |env.units| then None
    else
      var (c1, p1) := GetCharTo(env, p, end);
      var (c2, pos1) := GetChar(env, pos);
      if env.canon(c1) != env.canon(c2) then None else RepeatForward(env, p1, end, pos1)
  }

  function RepeatBackward(env: Env, p: nat, start: nat, pos: nat): (r: Option<nat>)
    requires p <= |env.units| && pos <= |env.units|
    ensures r.Some? ==> r.value <= pos
    decreases p
  {
    if p <= start then Some(pos)
    else if pos == 0 then None
    else
      var (c1, p1) := GetPrevFrom(env, p, start);
      var (c2, pos1) := GetPrevFrom(env, pos, 0);
      if env.canon(c1) != env.canon(c2) then None else RepeatBackward(env, p1, start, pos1)
  }

  /** A reference to a capture that is not set matches the empty string. */
  function BackRefStep(env: Env, caps: Captured, n: nat, back: bool, pos: nat): (r: Option<nat>)
    requires pos <= |env.units|
    ensures r.Some? ==> r.value <= |env.units| && if back then r.value <= pos else pos <= r.value
  {
    if 2 * n + 1 >= |caps| then None
    else if caps[2 * n].None? || caps[2 * n + 1].None? then Some(pos)
    else
      var start, end := caps[2 * n].value, caps[2 * n + 1].value;
      if start > |env.units| || end > |env.units| then None
      else if back then RepeatBackward(env, end, start, pos)
      else RepeatForward(env, start, end, pos)
  }
}
