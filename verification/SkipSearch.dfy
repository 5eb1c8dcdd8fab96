/** Substring search with the Sunday skip table, with and without regard to case. */
module SkipSearch {
  import opened Prelude
  import opened ByteText

  function Upper(c: Byte): Byte {
    if 97 <= c <= 122 then c - 32 else c
  }

  predicate Letter(c: Byte) {
    97 <= c <= 122
  }

  /** A pattern that a search without regard to case is given has no upper-case letter. */
  predicate Lowered(pat: Text) {
    forall i :: 0 <= i < |pat| ==> Lower(pat[i]) == pat[i]
  }

  function Folded(c: Byte, fold: bool): Byte {
    if fold then Lower(c) else c
  }

  // ---------------------------------------------------------------- the table

  /** A value stored in a char, which is signed. */
  function AsChar(v: int): int {
    (v + 128) % 256 - 128
  }

  /** Where a byte occurs last in the pattern, or -1. */
  function LastIndex(pat: Text, c: Byte): (i: int)
    ensures -1 <= i < |pat|
    ensures i >= 0 ==> pat[i] == c
    ensures forall k :: i < k < |pat| ==> pat[k] != c
  {
    if pat == [] then -1
    else if pat[|pat| - 1] == c then |pat| - 1
    else LastIndex(pat[..|pat| - 1], c)
  }

  /** How far the window may move when c is the byte after it. */
  function Skip(pat: Text, c: Byte): (n: int)
    ensures 1 <= n <= |pat| + 1
  {
    |pat| - LastIndex(pat, c)
  }

  /** The part of TextMatch.set that fills the table. */
  method FillSkip(pat: Text, skip: array<int>)
    requires skip.Length == UCHAR_MAX + 1
    modifies skip
    ensures forall c: Byte :: skip[c] == AsChar(Skip(pat, c))
  {
    var len := |pat|;
    for i := 0 to UCHAR_MAX + 1
      invariant forall c :: 0 <= c < i ==> skip[c] == AsChar(len + 1)
    {
      skip[i] := AsChar(len + 1);
    }
    for i := 0 to len
      invariant forall c: Byte :: skip[c] == AsChar(len - LastIndex(pat[..i], c))
    {
      assert pat[..i + 1][..i] == pat[..i];
      skip[pat[i]] := AsChar(len - i);
    }
    assert pat[..len] == pat;
  }

  lemma CharAtMost(v: int)
    requires v >= 0
    ensures AsChar(v) <= v && (v <= 127 ==> AsChar(v) == v) && (128 <= v <= 256 ==> AsChar(v) <= 0)
  {
  }

  /** The skip of a byte is its distance from behind the pattern, and one more than the length if it is not there. */
  lemma SkipIs(pat: Text, c: Byte)
    ensures c !in pat ==> Skip(pat, c) == |pat| + 1
    ensures c in pat ==>
      1 <= Skip(pat, c) <= |pat| && pat[|pat| - Skip(pat, c)] == c
      && forall k :: |pat| - Skip(pat, c) < k < |pat| ==> pat[k] != c
  {
    hide LastIndex;
  }

  /** A char holds what is left of a number in eight bits, from -128 to 127. */
  lemma CharIs(v: int)
    ensures -128 <= AsChar(v) < 128 && (AsChar(v) - v) % 256 == 0
  {
  }

  // ---------------------------------------------------------------- occurrences

  predicate MatchesAt(text: Text, pat: Text, t: int, fold: bool) {
    0 <= t && t + |pat| <= |text| && forall k :: 0 <= k < |pat| ==> Folded(text[t + k], fold) == pat[k]
  }

  /** r is the first occurrence, or -1 and there is none. */
  ghost predicate IsFirst(text: Text, pat: Text, r: int, fold: bool) {
    (r == -1 || MatchesAt(text, pat, r, fold))
    && forall s :: (if r == -1 then true else s < r) ==> !MatchesAt(text, pat, s, fold)
  }

  /** The byte at a place of the text, or the byte that follows the text. */
  function ByteAt(text: Text, beyond: Byte, i: nat): Byte {
    if i < |text| then text[i] else beyond
  }

  /**
   An occurrence to the right of a window that fails is at least as far away as the skip of the byte after the window.
   */
  lemma NoneSkipped(text: Text, beyond: Byte, pat: Text, t: nat, s: int, fold: bool)
    requires t + |pat| <= |text| && t < s < t + Skip(pat, Folded(ByteAt(text, beyond, t + |pat|), fold))
    ensures !MatchesAt(text, pat, s, fold)
  {
    var c := Folded(ByteAt(text, beyond, t + |pat|), fold);
    var k := t + |pat| - s;
    assert LastIndex(pat, c) < k;
    if s + |pat| <= |text| {
      assert 0 <= k < |pat| && Folded(text[s + k], fold) == c;
      assert pat[k] != c;
    }
  }

  // ---------------------------------------------------------------- the run of a search

  /** How far the window at t moves when the pattern is not there; without regard to case there are two ways. */
  function Move(text: Text, beyond: Byte, pat: Text, t: nat, fold: bool): int
    requires |pat| >= 1 && t + |pat| <= |text|
  {
    var c := ByteAt(text, beyond, t + |pat|);
    if !fold then AsChar(Skip(pat, c))
    else if Lower(text[t]) == pat[0] then AsChar(Skip(pat, c))
    else Max(1, AsChar(Skip(pat, Lower(c))))
  }

  /** Where a search is after some windows: at an occurrence, past the end, in front of the text, or still going. */
  datatype Outcome = Found(at: int) | Absent | Astray(before: int) | Unfinished

  function RunSearch(text: Text, beyond: Byte, pat: Text, t: int, steps: nat, fold: bool): Outcome
    requires |pat| >= 1
    decreases steps
  {
    if t < 0 then Astray(t)
    else if t + |pat| > |text| then Absent
    else if MatchesAt(text, pat, t, fold) then Found(t)
    else if steps == 0 then Unfinished
    else RunSearch(text, beyond, pat, t + Move(text, beyond, pat, t, fold), steps - 1, fold)
  }

  ghost predicate IsRight(text: Text, pat: Text, o: Outcome, fold: bool) {
    (o.Found? && IsFirst(text, pat, o.at, fold)) || (o.Absent? && IsFirst(text, pat, -1, fold))
  }

  /** The search of this text ends with the first occurrence, or past the end when there is none. */
  ghost predicate Finds(text: Text, beyond: Byte, pat: Text, fold: bool)
    requires |pat| >= 1
  {
    exists steps: nat :: IsRight(text, pat, RunSearch(text, beyond, pat, 0, steps, fold), fold)
  }

  /** A failed window moves on, and over no occurrence. */
  ghost predicate SafeMove(text: Text, beyond: Byte, pat: Text, t: nat, fold: bool)
    requires |pat| >= 1
  {
    t + |pat| <= |text| && !MatchesAt(text, pat, t, fold) ==>
      var t' := t + Move(text, beyond, pat, t, fold);
      t' > t && forall s :: t < s < t' ==> !MatchesAt(text, pat, s, fold)
  }

  lemma {:induction false} SafeMovesFind(text: Text, beyond: Byte, pat: Text, t: nat, fold: bool) returns (steps: nat)
    requires |pat| >= 1 && forall t: nat :: SafeMove(text, beyond, pat, t, fold)
    requires forall s :: 0 <= s < t ==> !MatchesAt(text, pat, s, fold)
    ensures IsRight(text, pat, RunSearch(text, beyond, pat, t, steps, fold), fold)
    decreases |text| - t
  {
    steps := 0;
    if t + |pat| <= |text| && !MatchesAt(text, pat, t, fold) {
      assert SafeMove(text, beyond, pat, t, fold);
      hide Move, MatchesAt;
      steps := SafeMovesFind(text, beyond, pat, t + Move(text, beyond, pat, t, fold), fold);
      steps := steps + 1;
    }
  }

  /** A window at the start that does not move forward is never left, or left towards the front. */
  lemma {:induction false} Stuck(text: Text, beyond: Byte, pat: Text, steps: nat, fold: bool)
    requires 1 <= |pat| <= |text| && !MatchesAt(text, pat, 0, fold) && Move(text, beyond, pat, 0, fold) <= 0
    ensures var o := RunSearch(text, beyond, pat, 0, steps, fold); o.Unfinished? || o.Astray?
    decreases steps
  {
    hide Move;
    if steps > 0 && Move(text, beyond, pat, 0, fold) == 0 {
      Stuck(text, beyond, pat, steps - 1, fold);
    }
  }

  // ---------------------------------------------------------------- with regard to case

  /** Every entry of the table moves the window forward. */
  predicate GoesForward(pat: Text) {
    forall c: Byte :: AsChar(Skip(pat, c)) >= 1
  }

  lemma ForwardIsSafe(text: Text, beyond: Byte, pat: Text, t: nat)
    requires |pat| >= 1 && GoesForward(pat)
    ensures SafeMove(text, beyond, pat, t, false)
  {
    if t + |pat| <= |text| {
      var c := ByteAt(text, beyond, t + |pat|);
      CharAtMost(Skip(pat, c));
      forall s | t < s < t + Move(text, beyond, pat, t, false) ensures !MatchesAt(text, pat, s, false) {
        NoneSkipped(text, beyond, pat, t, s, false);
      }
    }
  }

  /** A text on which the first window does not move forward: something else than the pattern, then the byte c. */
  function StuckText(pat: Text, c: Byte): Text
    requires |pat| >= 1
  {
    seq(|pat|, _ => if pat[0] == 0 then 1 else 0) + [c]
  }

  lemma BackwardGetsStuck(pat: Text, c: Byte, beyond: Byte)
    requires |pat| >= 1 && AsChar(Skip(pat, c)) <= 0
    ensures !Finds(StuckText(pat, c), beyond, pat, false)
  {
    var text := StuckText(pat, c);
    assert !MatchesAt(text, pat, 0, false) by {
      assert Folded(text[0 + 0], false) != pat[0];
    }
    assert ByteAt(text, beyond, 0 + |pat|) == c;
    forall steps: nat ensures !IsRight(text, pat, RunSearch(text, beyond, pat, 0, steps, false), false) {
      Stuck(text, beyond, pat, steps, false);
    }
  }

  /** The search finds the first occurrence in every text exactly when every entry of the table is positive. */
  lemma FindsExactlyWhen(pat: Text)
    requires |pat| >= 1
    ensures (forall text, beyond :: Finds(text, beyond, pat, false)) <==> GoesForward(pat)
  {
    if GoesForward(pat) {
      forall text, beyond ensures Finds(text, beyond, pat, false) {
        forall t: nat ensures SafeMove(text, beyond, pat, t, false) { ForwardIsSafe(text, beyond, pat, t); }
        var steps := SafeMovesFind(text, beyond, pat, 0, false);
      }
    } else {
      var c: Byte :| AsChar(Skip(pat, c)) <= 0;
      BackwardGetsStuck(pat, c, 0);
    }
  }

  /** Patterns of up to 126 bytes go forward, patterns of 127 to 255 bytes never do, longer ones may. */
  lemma ForwardByLength(pat: Text)
    requires |pat| <= 255
    ensures GoesForward(pat) <==> |pat| <= 126
  {
    if |pat| <= 126 {
      forall c: Byte ensures AsChar(Skip(pat, c)) >= 1 { CharAtMost(Skip(pat, c)); }
    } else {
      var c := AbsentByte(pat);
      assert Skip(pat, c) == |pat| + 1;
      CharAtMost(|pat| + 1);
    }
  }

  /** Some byte does not occur in fewer than 256 bytes. */
  lemma AbsentByte(s: Text) returns (c: Byte)
    requires |s| <= 255
    ensures c !in s
  {
    hide Below, Used;
    var all, used := Below(UCHAR_MAX + 1), Used(s);
    if all <= used {
      SubsetSize(all, used);
      assert false;
    }
    var b :| b in all && b !in used;
    c := b;
  }

  ghost function Below(n: nat): (r: set<int>)
    ensures |r| == n && forall b :: b in r <==> 0 <= b < n
  {
    if n == 0 then {} else Below(n - 1) + {n - 1}
  }

  ghost function Used(s: Text): (r: set<int>)
    ensures |r| <= |s| && forall b: Byte :: b in r <==> b in s
  {
    if s == [] then {} else Used(s[1..]) + {s[0] as int}
  }

  lemma SubsetSize(a: set<int>, b: set<int>)
    requires a <= b
    ensures |a| <= |b|
  {
    assert b == a + (b - a);
  }

  /** The table is sound for 300 equal bytes, and sends a pattern of 127 of them 128 places in front of the text. */
  lemma LongPatterns()
    ensures GoesForward(seq(300, _ => 97))
    ensures var pat := seq(127, _ => 97);
      RunSearch(StuckText(pat, 98), 0, pat, 0, 1, false) == Astray(-128)
  {
    var long, pat: Text := seq(300, _ => 97), seq(127, _ => 97);
    forall c: Byte ensures AsChar(Skip(long, c)) >= 1 {
      assert long[299] == 97;
    }
    var text := StuckText(pat, 98);
    assert Folded(text[0 + 0], false) != pat[0];
    assert Skip(pat, 98) == 128;
  }

  /** bmhs_search: the first occurrence, whatever byte follows the text. */
  method Search(text: Text, beyond: Byte, pat: Text, skip: array<int>) returns (r: int)
    requires 1 <= |pat| && GoesForward(pat) && skip.Length == UCHAR_MAX + 1
    requires forall c: Byte :: skip[c] == AsChar(Skip(pat, c))
    ensures IsFirst(text, pat, r, false)
  {
    hide LastIndex, Skip;
    var first := pat[0];
    var t := 0;
    var textEnd := |text| - |pat| + 1;
    while true
      invariant 0 <= t && forall s :: 0 <= s < t ==> !MatchesAt(text, pat, s, false)
      decreases textEnd - t
    {
      while t < textEnd && text[t] != first
        invariant 0 <= t && forall s :: 0 <= s < t ==> !MatchesAt(text, pat, s, false)
        decreases textEnd - t
      {
        assert !MatchesAt(text, pat, t, false);
        ForwardIsSafe(text, beyond, pat, t);
        t := t + skip[ByteAt(text, beyond, t + |pat|)];
      }
      if t >= textEnd { break; }
      var same := Compare(text, pat, t, false);
      if same { return t; }
      ForwardIsSafe(text, beyond, pat, t);
      t := t + skip[ByteAt(text, beyond, t + |pat|)];
    }
    return -1;
  }

  /** The match loop: the first byte is known to match. */
  method Compare(text: Text, pat: Text, t: nat, fold: bool) returns (same: bool)
    requires |pat| >= 1 && t + |pat| <= |text| && Folded(text[t], fold) == pat[0]
    ensures same == MatchesAt(text, pat, t, fold)
  {
    var p := 1;
    while p < |pat| && pat[p] == Folded(text[t + p], fold)
      invariant 1 <= p <= |pat| && forall k :: 0 <= k < p ==> Folded(text[t + k], fold) == pat[k]
    {
      p := p + 1;
    }
    same := p == |pat|;
  }

  // ---------------------------------------------------------------- without regard to case

  /**
   bmhs_isearch: looks up the skip of the byte as it stands after a failed match, and in lower case otherwise. It is the
   run of the search; a position it returns is an occurrence, and for a safe pattern the first.
   */
  method SearchNoCase(text: Text, beyond: Byte, pat: Text, skip: array<int>) returns (r: int)
    requires 1 <= |pat| && Lowered(pat) && GoesForward(pat) && skip.Length == UCHAR_MAX + 1
    requires forall c: Byte :: skip[c] == AsChar(Skip(pat, c))
    ensures exists steps: nat ::
      RunSearch(text, beyond, pat, 0, steps, true) == if r == -1 then Absent else Found(r)
    ensures r == -1 || MatchesAt(text, pat, r, true)
    ensures IsSafe(pat) ==> IsFirst(text, pat, r, true)
  {
    hide LastIndex, Skip, RunSearch, MatchesAt, AsChar, IsSafe, IsFirst;
    var firstUc, firstLc := Upper(pat[0]), Lower(pat[0]);
    assert forall c: Byte :: Lower(c) == pat[0] <==> c == firstUc || c == firstLc;
    hide Lower, Upper;
    var t := 0;
    ghost var steps: nat := 0;
    var textEnd := |text| - |pat| + 1;
    while true
      invariant 0 <= t && Reaches(text, beyond, pat, steps, t)
      decreases textEnd - t
    {
      while t < textEnd && text[t] != firstUc && text[t] != firstLc
        invariant 0 <= t && Reaches(text, beyond, pat, steps, t)
        decreases textEnd - t
      {
        FirstDiffers(text, pat, t);
        ReachesNext(text, beyond, pat, steps, t);
        var c := Lower(ByteAt(text, beyond, t + |pat|));
        t := t + Max(1, skip[c]);
        steps := steps + 1;
      }
      if t >= textEnd { break; }
      var same := Compare(text, pat, t, true);
      if same {
        RunEnds(text, beyond, pat, steps, t);
        return t;
      }
      ReachesNext(text, beyond, pat, steps, t);
      t := t + skip[ByteAt(text, beyond, t + |pat|)];
      steps := steps + 1;
    }
    RunEnds(text, beyond, pat, steps, t);
    return -1;
  }

  /** After some windows the search is at t. */
  ghost predicate Reaches(text: Text, beyond: Byte, pat: Text, steps: nat, t: int)
    requires |pat| >= 1
  {
    forall more: nat ::
      RunSearch(text, beyond, pat, t, more, true) == RunSearch(text, beyond, pat, 0, steps + more, true)
  }

  lemma FirstDiffers(text: Text, pat: Text, t: nat)
    requires |pat| >= 1 && t + |pat| <= |text| && Lower(text[t]) != pat[0]
    ensures !MatchesAt(text, pat, t, true)
  {
    assert Folded(text[t + 0], true) == Lower(text[t]);
  }

  lemma ReachesNext(text: Text, beyond: Byte, pat: Text, steps: nat, t: nat)
    requires |pat| >= 1 && t + |pat| <= |text| && !MatchesAt(text, pat, t, true) && Reaches(text, beyond, pat, steps, t)
    ensures Reaches(text, beyond, pat, steps + 1, t + Move(text, beyond, pat, t, true))
  {
    hide Move, MatchesAt;
    var t' := t + Move(text, beyond, pat, t, true);
    forall more: nat
      ensures RunSearch(text, beyond, pat, t', more, true) == RunSearch(text, beyond, pat, 0, steps + 1 + more, true)
    {
      assert RunSearch(text, beyond, pat, t, more + 1, true)
          == RunSearch(text, beyond, pat, 0, steps + (more + 1), true);
    }
  }

  /** At the end of the run the result is known, and right if the pattern is safe. */
  lemma RunEnds(text: Text, beyond: Byte, pat: Text, steps: nat, t: nat)
    requires |pat| >= 1 && Lowered(pat) && Reaches(text, beyond, pat, steps, t)
    requires t + |pat| > |text| || MatchesAt(text, pat, t, true)
    ensures var r := if t + |pat| > |text| then -1 else t;
      RunSearch(text, beyond, pat, 0, steps, true) == (if r == -1 then Absent else Found(r))
      && (IsSafe(pat) ==> IsFirst(text, pat, r, true))
  {
    assert RunSearch(text, beyond, pat, t, 0, true) == RunSearch(text, beyond, pat, 0, steps + 0, true);
    hide MatchesAt, IsSafe, Move;
    if IsSafe(pat) {
      forall t: nat ensures SafeMove(text, beyond, pat, t, true) { SafeIsSafe(text, beyond, pat, t); }
      var k := SafeMovesFind(text, beyond, pat, 0, true);
      SameEnd(text, beyond, pat, k, steps, true);
    }
  }

  /** Runs that have ended agree. */
  lemma {:induction false} SameEndFrom(text: Text, beyond: Byte, pat: Text, t: int, k: nat, more: nat, fold: bool)
    requires |pat| >= 1 && !RunSearch(text, beyond, pat, t, k, fold).Unfinished?
    ensures RunSearch(text, beyond, pat, t, k + more, fold) == RunSearch(text, beyond, pat, t, k, fold)
    decreases k
  {
    hide Move, MatchesAt;
    if k > 0 && 0 <= t && t + |pat| <= |text| && !MatchesAt(text, pat, t, fold) {
      SameEndFrom(text, beyond, pat, t + Move(text, beyond, pat, t, fold), k - 1, more, fold);
    }
  }

  lemma SameEnd(text: Text, beyond: Byte, pat: Text, k: nat, m: nat, fold: bool)
    requires |pat| >= 1
    requires !RunSearch(text, beyond, pat, 0, k, fold).Unfinished?
    requires !RunSearch(text, beyond, pat, 0, m, fold).Unfinished?
    ensures RunSearch(text, beyond, pat, 0, k, fold) == RunSearch(text, beyond, pat, 0, m, fold)
  {
    if k <= m {
      SameEndFrom(text, beyond, pat, 0, k, m - k, fold);
    } else {
      SameEndFrom(text, beyond, pat, 0, m, k - m, fold);
    }
  }

  predicate Uniform(pat: Text) {
    forall i :: 0 <= i < |pat| ==> pat[i] == pat[0]
  }

  /**
   How far the window may move after a failed match when c follows it. For equal bytes two places are always safe: the
   first byte matched, so an occurrence one further on would have been one here.
   */
  function Reach(pat: Text, c: Byte): int {
    if Uniform(pat) then Max(2, Skip(pat, Lower(c))) else Skip(pat, Lower(c))
  }

  /** A single byte, or no byte moves the window back or past its reach. */
  predicate IsSafe(pat: Text) {
    |pat| == 1 || forall c: Byte :: 1 <= AsChar(Skip(pat, c)) <= Reach(pat, c)
  }

  lemma SafeIsSafe(text: Text, beyond: Byte, pat: Text, t: nat)
    requires |pat| >= 1 && Lowered(pat) && IsSafe(pat)
    ensures SafeMove(text, beyond, pat, t, true)
  {
    if t + |pat| <= |text| && !MatchesAt(text, pat, t, true) {
      hide IsSafe, Move, Reach, Skip, Lowered, MatchesAt, Uniform, ByteAt, Lower;
      OneByteDiffers(text, pat, t);
      SafeMoveReach(text, beyond, pat, t);
      forall s | t < s < t + Move(text, beyond, pat, t, true) ensures !MatchesAt(text, pat, s, true) {
        NoneMovedOver(text, beyond, pat, t, s);
      }
    }
  }

  lemma NoneMovedOver(text: Text, beyond: Byte, pat: Text, t: nat, s: nat)
    requires |pat| >= 1 && Lowered(pat) && t + |pat| <= |text| && !MatchesAt(text, pat, t, true)
    requires t < s
    requires s < t + Skip(pat, Lower(ByteAt(text, beyond, t + |pat|)))
             || (s == t + 1 && Uniform(pat) && Lower(text[t]) == pat[0])
    ensures !MatchesAt(text, pat, s, true)
  {
    hide MatchesAt, Lowered, Skip, Uniform;
    if s < t + Skip(pat, Lower(ByteAt(text, beyond, t + |pat|))) {
      NoneSkipped(text, beyond, pat, t, s, true);
    } else {
      NotOneFurther(text, pat, t);
    }
  }

  lemma OneByteDiffers(text: Text, pat: Text, t: nat)
    requires |pat| >= 1 && t + |pat| <= |text| && !MatchesAt(text, pat, t, true)
    ensures |pat| == 1 ==> Lower(text[t]) != pat[0]
  {
    if |pat| == 1 { assert Folded(text[t + 0], true) != pat[0]; }
  }

  lemma SafeMoveReach(text: Text, beyond: Byte, pat: Text, t: nat)
    requires |pat| >= 1 && IsSafe(pat) && t + |pat| <= |text|
    requires |pat| >= 2 || Lower(text[t]) != pat[0]
    ensures var m, skip := Move(text, beyond, pat, t, true), Skip(pat, Lower(ByteAt(text, beyond, t + |pat|)));
      m >= 1 && (m <= skip || (m <= 2 && Uniform(pat) && Lower(text[t]) == pat[0] && skip == 1))
  {
    CharAtMost(Skip(pat, Lower(ByteAt(text, beyond, t + |pat|))));
  }

  lemma NotOneFurther(text: Text, pat: Text, t: nat)
    requires |pat| >= 1 && Uniform(pat) && t + |pat| <= |text| && Lower(text[t]) == pat[0]
    requires !MatchesAt(text, pat, t, true)
    ensures !MatchesAt(text, pat, t + 1, true)
  {
    var k :| 0 <= k < |pat| && Folded(text[t + k], true) != pat[k];
    assert k > 0;
    assert t + 1 + |pat| <= |text| ==> Folded(text[t + 1 + (k - 1)], true) != pat[k - 1];
  }

  /** The pattern is passed over: one window after the start the search is past the end, but there is an occurrence. */
  lemma PassedOver(text: Text, beyond: Byte, pat: Text, s: nat)
    requires |pat| >= 1 && |text| == s + |pat| && MatchesAt(text, pat, s, true) && !MatchesAt(text, pat, 0, true)
    requires Move(text, beyond, pat, 0, true) > s
    ensures !Finds(text, beyond, pat, true)
  {
    hide Move, MatchesAt;
    forall steps: nat ensures !IsRight(text, pat, RunSearch(text, beyond, pat, 0, steps, true), true) {
      assert MatchesAt(text, pat, s, true);
    }
  }

  /** A text that starts like the pattern, fails, and has an occurrence with c where the skip is looked up. */
  function Trap(pat: Text, j: nat, c: Byte): Text
    requires |pat| >= 2 && j < |pat|
  {
    [pat[0]] + seq(|pat| - j - 1, _ => if pat[1] == 0 then 1 else 0) + pat[j := c]
  }

  lemma TrapShape(pat: Text, j: nat, c: Byte)
    requires |pat| >= 2 && Lowered(pat) && j < |pat| && Lower(c) == pat[j]
    ensures var text, s := Trap(pat, j, c), |pat| - j;
      |text| == s + |pat| && text[|pat|] == c && Lower(text[0]) == pat[0] && MatchesAt(text, pat, s, true)
  {
    var text, s := Trap(pat, j, c), |pat| - j;
    forall k | 0 <= k < |pat| ensures Lower(text[s + k]) == pat[k] {
      assert text[s + k] == if k == j then c else pat[k];
    }
  }

  lemma TrapFails(pat: Text, j: nat, c: Byte)
    requires |pat| >= 2 && Lowered(pat) && j < |pat| && Lower(c) == pat[j]
    requires j < |pat| - 1 || !Uniform(pat)
    ensures !MatchesAt(Trap(pat, j, c), pat, 0, true)
  {
    var text := Trap(pat, j, c);
    if j < |pat| - 1 {
      assert Folded(text[0 + 1], true) != pat[1];
    } else {
      var k := FirstChange(pat);
      assert text[0 + k] == if k - 1 == j then c else pat[k - 1];
      assert Folded(text[0 + k], true) != pat[k];
    }
  }

  lemma FirstChange(pat: Text) returns (k: nat)
    requires !Uniform(pat)
    ensures 1 <= k < |pat| && pat[k - 1] != pat[k]
  {
    var i :| 0 <= i < |pat| && pat[i] != pat[0];
    k := i;
    while pat[k - 1] == pat[k]
      invariant 1 <= k < |pat| && pat[k] != pat[0]
      decreases k
    {
      k := k - 1;
    }
  }

  lemma TrapWorks(pat: Text, c: Byte)
    requires |pat| >= 2 && Lowered(pat) && AsChar(Skip(pat, c)) > Reach(pat, c)
    ensures exists text, beyond :: !Finds(text, beyond, pat, true)
  {
    hide Trap, Skip, AsChar, Uniform, MatchesAt, Lowered, Reach;
    var j := OverReach(pat, c);
    TrapShape(pat, j, c);
    TrapFails(pat, j, c);
    PassedOver(Trap(pat, j, c), 0, pat, |pat| - j);
  }

  lemma OverReach(pat: Text, c: Byte) returns (j: nat)
    requires |pat| >= 2 && AsChar(Skip(pat, c)) > Reach(pat, c)
    ensures j < |pat| && pat[j] == Lower(c) && AsChar(Skip(pat, c)) > |pat| - j
    ensures j < |pat| - 1 || !Uniform(pat)
  {
    CharAtMost(Skip(pat, c));
    var last := LastIndex(pat, Lower(c));
    assert last >= 0;
    j := if Uniform(pat) then |pat| - 2 else last;
  }

  lemma BackwardGetsStuckNoCase(pat: Text, c: Byte)
    requires |pat| >= 2 && Lowered(pat) && AsChar(Skip(pat, c)) <= 0
    ensures exists text, beyond :: !Finds(text, beyond, pat, true)
  {
    var text := [pat[0]] + seq(|pat| - 1, _ => if pat[1] == 0 then 1 else 0) + [c];
    assert !MatchesAt(text, pat, 0, true) by {
      assert Folded(text[0 + 1], true) != pat[1];
    }
    assert ByteAt(text, 0, 0 + |pat|) == c;
    forall steps: nat ensures !IsRight(text, pat, RunSearch(text, 0, pat, 0, steps, true), true) {
      Stuck(text, 0, pat, steps, true);
    }
    assert !Finds(text, 0, pat, true);
  }

  /**
   The search without regard to case finds the first occurrence in every text exactly when the pattern is a single byte
   or its table sends no failed window back or past its reach.
   */
  lemma FoldedExactlyWhen(pat: Text)
    requires |pat| >= 1 && Lowered(pat)
    ensures (forall text, beyond :: Finds(text, beyond, pat, true)) <==> IsSafe(pat)
  {
    if IsSafe(pat) {
      forall text, beyond ensures Finds(text, beyond, pat, true) {
        forall t: nat ensures SafeMove(text, beyond, pat, t, true) { SafeIsSafe(text, beyond, pat, t); }
        var steps := SafeMovesFind(text, beyond, pat, 0, true);
      }
    } else {
      var c: Byte :| !(1 <= AsChar(Skip(pat, c)) <= Reach(pat, c));
      if AsChar(Skip(pat, c)) <= 0 {
        BackwardGetsStuckNoCase(pat, c);
      } else {
        TrapWorks(pat, c);
      }
    }
  }

  /** Up to 126 bytes that means: a single byte, or no letters. */
  lemma SafeByLetters(pat: Text)
    requires 1 <= |pat| <= 126 && Lowered(pat)
    ensures IsSafe(pat) <==> |pat| == 1 || forall i :: 0 <= i < |pat| ==> !Letter(pat[i])
  {
    hide AsChar;
    forall c: Byte ensures AsChar(Skip(pat, c)) == Skip(pat, c) { CharAtMost(Skip(pat, c)); }
    if i :| |pat| >= 2 && 0 <= i < |pat| && Letter(pat[i]) {
      var c := Upper(pat[i]);
      assert Lower(c) == pat[i] && LastIndex(pat, c) == -1;
      assert AsChar(Skip(pat, c)) > Reach(pat, c);
    } else if |pat| >= 2 {
      forall c: Byte ensures 1 <= AsChar(Skip(pat, c)) <= Reach(pat, c) {
        assert Lower(c) != c ==> LastIndex(pat, Lower(c)) == -1;
      }
    }
  }

  /** No upper-case letter of the text is a letter of the pattern. */
  ghost predicate NoCapitals(text: Text, pat: Text) {
    forall i :: 0 <= i < |text| && Lower(text[i]) != text[i] ==> Lower(text[i]) !in pat
  }

  /** In a text without capitals of the pattern's letters the search finds the first occurrence. */
  lemma FindsWithoutCapitals(text: Text, beyond: Byte, pat: Text)
    requires |pat| >= 1 && GoesForward(pat) && NoCapitals(text, pat)
    ensures Finds(text, beyond, pat, true)
  {
    forall t: nat ensures SafeMove(text, beyond, pat, t, true) {
      if t + |pat| <= |text| {
        SafeWithoutCapitals(text, beyond, pat, t);
      }
    }
    var steps := SafeMovesFind(text, beyond, pat, 0, true);
  }

  lemma SafeWithoutCapitals(text: Text, beyond: Byte, pat: Text, t: nat)
    requires |pat| >= 1 && GoesForward(pat) && NoCapitals(text, pat) && t + |pat| <= |text|
    ensures SafeMove(text, beyond, pat, t, true)
  {
    var c := ByteAt(text, beyond, t + |pat|);
    CharAtMost(Skip(pat, c));
    CharAtMost(Skip(pat, Lower(c)));
    forall s | t < s < t + Move(text, beyond, pat, t, true) ensures !MatchesAt(text, pat, s, true) {
      if s + |pat| <= |text| {
        assert Lower(c) != c ==> LastIndex(pat, Lower(c)) == -1;
        NoneSkipped(text, beyond, pat, t, s, true);
      }
    }
  }
}
