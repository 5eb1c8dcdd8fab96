/** Base64 lines: UUDecodeLine carries up to three characters from one line to the next. */
module Base64Lines {
  import opened Prelude
  import opened ByteText
  import opened UuTables
  import opened UuCodec

  predicate FourValid(s: seq<Byte>) {
    B64Val(At(s, 0)) != -1 && B64Val(At(s, 1)) != -1 && B64Val(At(s, 2)) != -1 && B64Val(At(s, 3)) != -1
  }

  /** The Base64 characters at the front of s. */
  function ValidRun(s: seq<Byte>): seq<Byte> {
    if s == [] || B64Val(s[0]) == -1 then [] else [s[0]] + ValidRun(s[1..])
  }

  /** What the padding at the front of s yields: the bytes, and the rest of s. */
  function Padding(s: seq<Byte>): (seq<Byte>, seq<Byte>) {
    var z1, z2, z3 := B64Val(At(s, 0)), B64Val(At(s, 1)), B64Val(At(s, 2));
    if z1 != -1 && z2 != -1 && At(s, 2) == EQUALS then
      (TripleAt(B64, s, 0)[..1], s[2..])
    else if z1 != -1 && z2 != -1 && z3 != -1 && At(s, 3) == EQUALS then
      (TripleAt(B64, s, 0)[..2], s[3..])
    else ([], s)
  }

  /** The bytes of s, which is a line with the leftover characters in front of it, and the new leftover. */
  function DecodeB64(s: seq<Byte>): (seq<Byte>, seq<Byte>)
    decreases |s|
  {
    if FourValid(s) then
      ValidNotNul(s);
      var (out, left) := DecodeB64(s[4..]);
      (TripleAt(B64, s, 0) + out, left)
    else
      var (out, rest) := Padding(s);
      (out, ValidRun(rest))
  }

  lemma ValidNotNul(s: seq<Byte>)
    requires FourValid(s)
    ensures |s| >= 4
  {
  }

  lemma DecodeFour(s: seq<Byte>)
    requires FourValid(s)
    ensures |s| >= 4
    ensures DecodeB64(s) == (TripleAt(B64, s, 0) + DecodeB64(s[4..]).0, DecodeB64(s[4..]).1)
  {
    ValidNotNul(s);
  }

  lemma DecodeLast(s: seq<Byte>)
    requires !FourValid(s)
    ensures DecodeB64(s) == (Padding(s).0, ValidRun(Padding(s).1))
  {
  }

  lemma ValidRunNext(s: seq<Byte>)
    ensures ValidRun(s) == if s != [] && B64Val(s[0]) != -1 then [s[0]] + ValidRun(s[1..]) else []
  {
  }

  /** The decoder with the characters it keeps between calls. */
  class LineDecoder {
    var leftover: seq<Byte>

    constructor ()
      ensures leftover == []
    {
      leftover := [];
    }

    /** UUDecodeLine for Base64. */
    method DecodeLine(line: seq<Byte>) returns (d: seq<Byte>)
      modifies this
      ensures (d, leftover) == DecodeB64(old(leftover) + line)
    {
      hide TripleAt, B64Val, Padding, DecodeB64, ValidRun;
      var s := leftover + line;
      ghost var (allOut, allLeft) := DecodeB64(s);
      leftover := [];
      d := [];
      while FourValid(s)
        invariant leftover == []
        invariant d + DecodeB64(s).0 == allOut && DecodeB64(s).1 == allLeft
        decreases |s|
      {
        DecodeFour(s);
        var triple := TripleAt(B64, s, 0);
        assert d + (triple + DecodeB64(s[4..]).0) == d + triple + DecodeB64(s[4..]).0;
        d := d + triple;
        s := s[4..];
      }
      var (out, rest) := Padding(s);
      DecodeLast(s);
      d, s := d + out, rest;
      ghost var all := s;
      assert leftover + ValidRun(s) == ValidRun(all);
      while s != [] && B64Val(s[0]) != -1
        invariant leftover + ValidRun(s) == ValidRun(all)
        decreases |s|
      {
        ValidRunNext(s);
        assert leftover + ([s[0]] + ValidRun(s[1..])) == leftover + [s[0]] + ValidRun(s[1..]);
        leftover, s := leftover + [s[0]], s[1..];
      }
      ValidRunNext(s);
      assert leftover + [] == leftover;
    }
  }

  // ---------------------------------------------------------------- decoding a text cut anywhere

  /** Feeding the pieces, each as a line of its own, one after the other. */
  function Feed(left: seq<Byte>, pieces: seq<seq<Byte>>): (seq<Byte>, seq<Byte>)
    decreases |pieces|
  {
    if pieces == [] then ([], left)
    else
      var (out, left1) := DecodeB64(left + pieces[0] + [NL]);
      var (more, left2) := Feed(left1, pieces[1..]);
      (out + more, left2)
  }

  /** No line leaves more than three characters for the next. */
  predicate CarriesFew(left: seq<Byte>, pieces: seq<seq<Byte>>)
    decreases |pieces|
  {
    |left| <= 3 && (pieces == [] || CarriesFew(DecodeB64(left + pieces[0] + [NL]).1, pieces[1..]))
  }

  predicate AllPadding(s: seq<Byte>) {
    forall k :: 0 <= k < |s| ==> s[k] == EQUALS
  }

  /**
   left and the text still to come are where a decoder of d stands: either together they encode d; or d is empty and
   only padding is left to come.
   */
  predicate Pending(left: seq<Byte>, text: seq<Byte>, d: seq<Byte>) {
    |left| <= 3 && (left + text == Body(B64, d) || (left == [] && d == [] && AllPadding(text)))
  }

  lemma QuadValid(a: Byte, b: Byte, c: Byte, rest: seq<Byte>)
    ensures var s := Quad(B64, a, b, c) + rest;
      FourValid(s) && TripleAt(B64, s, 0) == [a, b, c]
  {
    var s := Quad(B64, a, b, c) + rest;
    assert [] + Quad(B64, a, b, c) + rest == s;
    TripleAtQuad(B64, [], a, b, c, rest);
    ValOfChar(B64, a / 4);
    ValOfChar(B64, a % 4 * 16 + b / 16);
    ValOfChar(B64, b % 16 * 4 + c / 64);
    ValOfChar(B64, c % 64);
  }

  predicate AllValid(s: seq<Byte>) {
    forall k :: 0 <= k < |s| ==> B64Val(s[k]) != -1
  }

  lemma {:induction false} ValidRunOf(s: seq<Byte>, rest: seq<Byte>)
    requires AllValid(s) && B64Val(At(rest, 0)) == -1
    ensures ValidRun(s + rest) == s
  {
    if s == [] {
      assert s + rest == rest;
    } else {
      ValidRunOf(s[1..], rest);
      assert (s + rest)[1..] == s[1..] + rest;
    }
  }

  /** Fewer than four characters and no padding: everything is kept for the next line. */
  lemma ShortLineKept(x: seq<Byte>)
    requires |x| <= 3 && AllValid(x)
    ensures DecodeB64(x + [NL]) == ([], x)
  {
    var s := x + [NL];
    assert At(s, |x|) == NL;
    assert !FourValid(s);
    assert Padding(s) == ([], s);
    ValidRunOf(x, [NL]);
  }

  lemma PaddingCharacters(x: seq<Byte>)
    requires AllPadding(x)
    ensures DecodeB64(x + [NL]) == ([], [])
  {
    assert At(x + [NL], 0) == EQUALS || At(x + [NL], 0) == NL;
  }

  /** The first part of a full group: nothing comes out yet. */
  lemma PrefixOfQuad(d: seq<Byte>, x: seq<Byte>, y: seq<Byte>)
    requires |d| >= 3 && |x| < 4 && x + y == Body(B64, d)
    ensures DecodeB64(x + [NL]) == ([], x)
  {
    var q := Quad(B64, d[0], d[1], d[2]);
    QuadValid(d[0], d[1], d[2], []);
    assert q + [] == q;
    assert Body(B64, d)[..4] == q;
    forall k | 0 <= k < |x| ensures B64Val(x[k]) != -1 {
      assert x[k] == Body(B64, d)[k] == q[k];
      assert B64Val(At(q, 0)) != -1 && B64Val(At(q, 1)) != -1 && B64Val(At(q, 2)) != -1;
    }
    ShortLineKept(x);
  }

  lemma RestCharacters(d: seq<Byte>)
    requires 0 < |d| < 3
    ensures var r := Rest(B64, d);
      |r| == 4 && B64Val(r[0]) != -1 && B64Val(r[1]) != -1 && r[3] == EQUALS
      && (if |d| == 2 then B64Val(r[2]) != -1 else r[2] == EQUALS)
      && TripleAt(B64, r, 0)[..|d|] == d
  {
    var b := if |d| == 2 then d[1] else 0;
    var r, q := Rest(B64, d), Quad(B64, d[0], b, 0);
    QuadValid(d[0], b, 0, []);
    assert q + [] == q;
    assert r[0] == q[0] && r[1] == q[1] && (|d| == 2 ==> r[2] == q[2]);
    assert TripleAt(B64, r, 0)[0] == TripleAt(B64, q, 0)[0];
    assert |d| == 2 ==> TripleAt(B64, r, 0)[1] == TripleAt(B64, q, 0)[1];
  }

  /** The first part of a padded group, cut anywhere. */
  lemma PrefixOfRest(d: seq<Byte>, x: seq<Byte>, y: seq<Byte>)
    requires 0 < |d| < 3 && x + y == Rest(B64, d)
    ensures var (out, left) := DecodeB64(x + [NL]);
      (out == [] && left == x && |x| <= 3) || (out == d && left == [] && AllPadding(y))
  {
    hide DecodeB64, Rest, TripleAt, B64Val;
    RestCharacters(d);
    var r := Rest(B64, d);
    assert x == r[..|x|] && y == r[|x|..];
    var need := if |d| == 1 then 3 else 4;
    if |x| < need {
      ShortLineKept(x);
    } else {
      PaddedGroup(d, x);
    }
  }

  lemma PaddedGroup(d: seq<Byte>, x: seq<Byte>)
    requires 0 < |d| < 3 && (if |d| == 1 then 3 else 4) <= |x| <= 4
    requires forall k :: 0 <= k < |x| ==> x[k] == Rest(B64, d)[k]
    ensures DecodeB64(x + [NL]) == (d, [])
  {
    RestCharacters(d);
    var r, s := Rest(B64, d), x + [NL];
    assert At(s, 0) == r[0] && At(s, 1) == r[1] && At(s, 2) == r[2];
    assert |d| == 2 ==> At(s, 3) == EQUALS;
    assert B64Val(At(s, 2)) == -1 || B64Val(At(s, 3)) == -1;
    assert !FourValid(s);
    assert TripleAt(B64, s, 0)[..|d|] == TripleAt(B64, r, 0)[..|d|];
    assert Padding(s) == (d, if |d| == 1 then s[2..] else s[3..]);
    assert B64Val(EQUALS) == -1;
  }

  /** A whole group at the front of a line comes out. */
  lemma TakeQuad(d: seq<Byte>, x: seq<Byte>, y: seq<Byte>)
    requires |d| >= 3 && |x| >= 4 && x + y == Body(B64, d)
    ensures x[4..] + y == Body(B64, d[3..])
    ensures DecodeB64(x + [NL])
      == ([d[0], d[1], d[2]] + DecodeB64(x[4..] + [NL]).0, DecodeB64(x[4..] + [NL]).1)
  {
    hide DecodeB64, FourValid, TripleAt, Quad, Rest;
    var q, x' := Quad(B64, d[0], d[1], d[2]), x[4..];
    assert (x + y)[..4] == x[..4] == q;
    assert x' + y == (x + y)[4..] == Body(B64, d[3..]);
    assert x + [NL] == q + (x' + [NL]);
    QuadValid(d[0], d[1], d[2], x' + [NL]);
    assert (x + [NL])[4..] == x' + [NL];
    DecodeFour(x + [NL]);
  }

  /** One line: what comes out is the next part of d, and what is kept continues it. */
  lemma {:induction false} OnePiece(d: seq<Byte>, x: seq<Byte>, y: seq<Byte>)
    requires x + y == Body(B64, d)
    ensures var (out, left) := DecodeB64(x + [NL]);
      out <= d && Pending(left, y, d[|out|..])
    decreases |d|
  {
    if |d| >= 3 && |x| >= 4 {
      hide DecodeB64, Body, Pending;
      TakeQuad(d, x, y);
      OnePiece(d[3..], x[4..], y);
      var (out, left) := DecodeB64(x[4..] + [NL]);
      assert d == [d[0], d[1], d[2]] + d[3..];
      assert d[3..][|out|..] == d[3 + |out|..];
    } else if |d| >= 3 {
      PrefixOfQuad(d, x, y);
    } else if d != [] {
      PrefixOfRest(d, x, y);
    } else {
      assert x == [] && y == [];
      ShortLineKept([]);
    }
  }

  /**
   Cut the Base64 text of d into pieces anywhere, even inside a group or its padding, and feed the pieces line by
   line: exactly d comes out, nothing is left over, and no more than three characters are ever carried.
   */
  lemma {:induction false} FeedDecodes(left: seq<Byte>, pieces: seq<seq<Byte>>, d: seq<Byte>)
    requires Pending(left, Joined(pieces), d)
    ensures Feed(left, pieces) == (d, []) && CarriesFew(left, pieces)
    decreases |pieces|
  {
    hide Body, DecodeB64;
    if pieces == [] {
      assert left + Joined(pieces) == left;
      PendingNothing(left, d);
    } else {
      var p, rest := pieces[0], Joined(pieces[1..]);
      var (out, left1) := DecodeB64(left + p + [NL]);
      if left + Joined(pieces) == Body(B64, d) {
        assert (left + p) + rest == Body(B64, d);
        OnePiece(d, left + p, rest);
        FeedDecodes(left1, pieces[1..], d[|out|..]);
        assert out + d[|out|..] == d;
      } else {
        assert AllPadding(p) && AllPadding(rest) by {
          forall k | 0 <= k < |p| ensures p[k] == EQUALS { assert p[k] == Joined(pieces)[k]; }
          forall k | 0 <= k < |rest| ensures rest[k] == EQUALS { assert rest[k] == Joined(pieces)[|p| + k]; }
        }
        assert left + p == p;
        PaddingCharacters(p);
        FeedDecodes([], pieces[1..], []);
      }
    }
  }

  /** With no text to come nothing can be pending but the empty rest: a short leftover never encodes anything. */
  lemma PendingNothing(left: seq<Byte>, d: seq<Byte>)
    requires Pending(left, [], d)
    ensures left == [] && d == []
  {
    BodyLength(B64, d);
    assert left + [] == left;
  }

  // ---------------------------------------------------------------- the encoder's own lines

  /** The lines UUEncodeStream writes, without their ends. */
  function EncoderLines(d: seq<Byte>): seq<seq<Byte>>
    decreases |d|
  {
    if d == [] then []
    else
      var n := if |d| < 57 then |d| else 57;
      [LineOf(B64, d[..n])] + EncoderLines(d[n..])
  }

  lemma {:induction false} BodySplits(d: seq<Byte>, more: seq<Byte>)
    requires |d| % 3 == 0
    ensures Body(B64, d + more) == Body(B64, d) + Body(B64, more)
    decreases |d|
  {
    hide Quad, Rest;
    if d == [] {
      assert d + more == more;
      EmptyBody();
    } else {
      BodySplits(d[3..], more);
      assert (d + more)[3..] == d[3..] + more;
      var q := Quad(B64, d[0], d[1], d[2]);
      assert q + (Body(B64, d[3..]) + Body(B64, more)) == q + Body(B64, d[3..]) + Body(B64, more);
    }
  }

  /** The text is those lines with their ends, and without their ends they are the unbroken Base64 text. */
  lemma {:induction false} EncoderLinesJoin(d: seq<Byte>)
    ensures WithEnds(EncoderLines(d)) == TextOf(B64, d)
    ensures Joined(EncoderLines(d)) == Body(B64, d)
    decreases |d|
  {
    hide Body;
    if d == [] {
      EmptyBody();
    } else {
      var n := if |d| < 57 then |d| else 57;
      EncoderLinesJoin(d[n..]);
      var first, others := LineOf(B64, d[..n]), EncoderLines(d[n..]);
      assert EncoderLines(d)[1..] == others;
      assert first == Body(B64, d[..n]);
      assert d[..n] + d[n..] == d;
      if |d| < 57 {
        EmptyBody();
        assert d[n..] == [] && d[..n] == d;
      } else {
        BodySplits(d[..n], d[n..]);
      }
    }
  }

  lemma EmptyBody()
    ensures Body(B64, []) == []
  {
  }

  /** Decoding the encoder's own lines one by one gives the data back. */
  lemma Base64RoundTrip(d: seq<Byte>)
    ensures Feed([], EncoderLines(d)) == (d, []) && CarriesFew([], EncoderLines(d))
  {
    EncoderLinesJoin(d);
    assert [] + Body(B64, d) == Body(B64, d);
    FeedDecodes([], EncoderLines(d), d);
  }
}
