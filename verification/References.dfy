/** The text of a References header: how it is taken apart from the back and how it is written out. */
module References {
  import opened Prelude

  /** True where g_unichar_isspace holds of a single-byte character. */
  predicate IsSpace(c: char) {
    c == ' ' || c == '\t' || c == '\n' || c == '\r' || c == '\U{0C}'
  }

  function TrimLeft(s: string): (r: string)
    ensures |r| <= |s|
  {
    if s != "" && IsSpace(s[0]) then TrimLeft(s[1..]) else s
  }

  function TrimRight(s: string): (r: string)
    ensures |r| <= |s|
  {
    if s != "" && IsSpace(s[|s| - 1]) then TrimRight(s[..|s| - 1]) else s
  }

  function Trim(s: string): string {
    TrimRight(TrimLeft(s))
  }

  /** StringView.empty(): no characters, or a NUL in front. */
  predicate IsEmpty(s: string) {
    s == "" || s[0] == '\0'
  }

  /** The position of the last space of s, or None when it has none. */
  function LastSpace(s: string): (i: Option<nat>)
    ensures i.Some? ==> i.value < |s| && s[i.value] == ' ' && forall k :: i.value < k < |s| ==> s[k] != ' '
    ensures i.None? ==> forall k :: 0 <= k < |s| ==> s[k] != ' '
  {
    if s == "" then None
    else if s[|s| - 1] == ' ' then Some(|s| - 1)
    else LastSpace(s[..|s| - 1])
  }

  /** What pop_last_token leaves behind, and the token it takes. */
  function PopLastToken(s: string): (r: (string, string))
    requires s != ""
    ensures |r.0| < |s|
  {
    match LastSpace(s)
    case Some(i) => (s[..i], s[i + 1..])
    case None => ("", s)
  }

  predicate MatchAt(needle: string, hay: string, i: int) {
    0 <= i <= |hay| - |needle| && hay[i..i + |needle|] == needle
  }

  /** strstr: needle occurs somewhere in hay. */
  predicate Occurs(needle: string, hay: string) {
    exists i :: 0 <= i <= |hay| && MatchAt(needle, hay, i)
  }

  /** A message identifier as section 3.1.3 of RFC 5536 shapes it: brackets around text without brackets or spaces. */
  predicate WellFormed(m: Mid) {
    && 3 <= |m| && m[0] == '<' && m[|m| - 1] == '>'
    && forall i :: 0 < i < |m| - 1 ==> m[i] != '<' && m[i] != '>' && m[i] != ' '
  }

  ghost predicate AllWellFormed(ids: seq<Mid>) {
    forall i :: 0 <= i < |ids| ==> WellFormed(ids[i])
  }

  /** The identifiers with one space between neighbours, as a header carries them. */
  function Join(ids: seq<Mid>): string {
    if |ids| == 0 then ""
    else if |ids| == 1 then ids[0]
    else Join(ids[..|ids| - 1]) + " " + ids[|ids| - 1]
  }

  lemma TrimKeepsId(m: Mid)
    requires WellFormed(m)
    ensures Trim(m) == m && !IsEmpty(m)
  {
  }

  /** White space around an identifier is taken off; a token of nothing else is empty. */
  lemma TrimStrips(before: string, m: Mid, after: string)
    requires WellFormed(m) && AllSpace(before) && AllSpace(after)
    ensures Trim(before + m + after) == m && IsEmpty(Trim(before))
  {
    TrimLeftStrips(before, m + after);
    assert before + m + after == before + (m + after);
    TrimRightStrips(m, after);
    assert before + "" == before;
    TrimLeftStrips(before, "");
  }

  predicate AllSpace(s: string) {
    forall i :: 0 <= i < |s| ==> s[i] == ' ' || s[i] == '\t' || s[i] == '\n' || s[i] == '\r'
  }

  lemma {:induction false} TrimLeftStrips(before: string, s: string)
    requires AllSpace(before) && (s != "" ==> !IsSpace(s[0]))
    ensures TrimLeft(before + s) == s
    decreases |before|
  {
    if before == "" {
      assert before + s == s;
    } else {
      assert (before + s)[1..] == before[1..] + s;
      TrimLeftStrips(before[1..], s);
    }
  }

  lemma {:induction false} TrimRightStrips(m: Mid, after: string)
    requires WellFormed(m) && AllSpace(after)
    ensures TrimRight(m + after) == m
    decreases |after|
  {
    if after == "" {
      assert m + after == m;
    } else {
      assert (m + after)[..|m + after| - 1] == m + after[..|after| - 1];
      TrimRightStrips(m, after[..|after| - 1]);
    }
  }

  /** After a space at its end the last token of a header is empty, and so the header is given up. */
  lemma NothingAfterSpace(s: string)
    ensures PopLastToken(s + " ") == (s, "") && IsEmpty(Trim(""))
  {
    var w := s + " ";
    assert w[|w| - 1] == ' ' && w[..|s|] == s && w[|s| + 1..] == "";
  }

  /** The last space is the one before a token without spaces. */
  lemma {:induction false} LastSpaceAt(s: string, t: string)
    requires forall k :: 0 <= k < |t| ==> t[k] != ' '
    ensures LastSpace(s + " " + t) == Some(|s|)
  {
    var w := s + " " + t;
    if t == "" {
      assert w[|w| - 1] == ' ';
    } else {
      LastSpaceAt(s, t[..|t| - 1]);
      assert w[..|w| - 1] == s + " " + t[..|t| - 1];
      assert w[|w| - 1] == t[|t| - 1];
    }
  }

  lemma PopAfterSpace(front: string, last: Mid)
    requires WellFormed(last)
    ensures PopLastToken(front + " " + last) == (front, last)
  {
    LastSpaceAt(front, last);
    var w := front + " " + last;
    assert w[..|front|] == front;
    assert w[|front| + 1..] == last;
  }

  /** Parsing from the back undoes printing: the last identifier comes off and the rest is the header without it. */
  lemma PopUndoesJoin(ids: seq<Mid>)
    requires AllWellFormed(ids) && |ids| > 0
    ensures Join(ids) != ""
    ensures PopLastToken(Join(ids)) == (Join(ids[..|ids| - 1]), ids[|ids| - 1])
  {
    var last := ids[|ids| - 1];
    assert WellFormed(last);
    if |ids| == 1 {
      assert LastSpace(last).None?;
    } else {
      PopAfterSpace(Join(ids[..|ids| - 1]), last);
    }
  }

  /** An identifier inside another well-formed identifier is that identifier. */
  lemma OccursInOne(m: Mid, t: Mid, i: int)
    requires WellFormed(m) && WellFormed(t) && MatchAt(m, t, i)
    ensures m == t
  {
    assert t[i..i + |m|][0] == t[i];
    assert t[i..i + |m|][|m| - 1] == t[i + |m| - 1];
    assert i == 0 && |m| == |t|;
  }

  /** A match in front + " " + last lies wholly in one of the two, because an identifier has no space. */
  lemma MatchAvoidsSpace(m: Mid, front: string, last: Mid, i: int)
    requires WellFormed(m) && WellFormed(last) && MatchAt(m, front + " " + last, i)
    ensures MatchAt(m, front, i) || m == last
  {
    var hay := front + " " + last;
    assert hay[|front|] == ' ';
    forall j | i <= j < i + |m| ensures hay[j] != ' ' {
      assert hay[j] == hay[i..i + |m|][j - i];
    }
    if i + |m| <= |front| {
      assert hay[i..i + |m|] == front[i..i + |m|];
    } else {
      var j := i - |front| - 1;
      assert last[j..j + |m|] == hay[i..i + |m|];
      OccursInOne(m, last, j);
    }
  }

  /** A substring search for a well-formed identifier in a header finds exactly the header's own identifiers. */
  lemma {:induction false} OccursInJoin(m: Mid, ids: seq<Mid>)
    requires WellFormed(m) && AllWellFormed(ids)
    ensures Occurs(m, Join(ids)) <==> m in ids
  {
    var hay := Join(ids);
    if |ids| == 1 {
      if m == ids[0] {
        assert MatchAt(m, hay, 0);
      } else if i :| 0 <= i <= |hay| && MatchAt(m, hay, i) {
        OccursInOne(m, ids[0], i);
      }
    } else if |ids| > 1 {
      var rest, last := ids[..|ids| - 1], ids[|ids| - 1];
      var front := Join(rest);
      OccursInJoin(m, rest);
      assert ids == rest + [last];
      if i :| 0 <= i <= |front| && MatchAt(m, front, i) {
        assert hay[i..i + |m|] == front[i..i + |m|];
        assert MatchAt(m, hay, i);
      } else if m == last {
        assert MatchAt(m, hay, |front| + 1);
      } else if i :| 0 <= i <= |hay| && MatchAt(m, hay, i) {
        MatchAvoidsSpace(m, front, last, i);
      }
    }
  }
}
