/** yEnc: one byte per character, a few of them escaped; UUEncodeStream writing lines, UUDecodeLine reading them. */
module Yenc {
  import opened Prelude
  import opened ByteText

  const ESCAPE: Byte := 61
  const DOT: Byte := 46
  const LOWER_Y: Byte := 121

  // ---------------------------------------------------------------- encoding

  /** The characters for one byte; a dot is escaped only at the start of a line. */
  function Characters(b: Byte, atStart: bool): (c: seq<Byte>)
    ensures 1 <= |c| <= 2
  {
    var v := (b + 42) % 256;
    if v == 0 || v == NL || v == CR || v == ESCAPE || v == 27 || (v == DOT && atStart) then
      [ESCAPE, (v + 64) % 256]
    else [v]
  }

  /** The lines for the data d when the line being filled holds line so far. */
  function Lines(line: seq<Byte>, d: seq<Byte>): seq<seq<Byte>>
    decreases |d|
  {
    if d == [] then (if line == [] then [] else [line])
    else if |line| > 127 then [line] + Lines(Characters(d[0], true), d[1..])
    else Lines(line + Characters(d[0], line == []), d[1..])
  }

  /**
   A byte is written 42 higher; where that gives NUL, a line end, an escape or an equals sign, or a dot at the start
   of a line, it is written another 64 higher after an equals sign.
   */
  lemma CharactersSay(b: Byte, atStart: bool)
    ensures var c, v := Characters(b, atStart), (b + 42) % 256;
      if v == 0 || v as char in {'\n', '\r', '='} || v == 27 || (atStart && v as char == '.') then
        |c| == 2 && c[0] as char == '=' && c[1] == (b + 106) % 256
      else c == [v]
  {
  }

  /** Every line but the last has 128 characters, or 129 if the last of them are an escaped byte. */
  lemma {:induction false} LinesAreFull(line: seq<Byte>, d: seq<Byte>, i: nat)
    requires i + 1 < |Lines(line, d)|
    ensures |Lines(line, d)[i]| >= 128
    decreases |d|
  {
    hide Characters;
    if |line| > 127 {
      if i > 0 { LinesAreFull(Characters(d[0], true), d[1..], i - 1); }
    } else if d != [] {
      LinesAreFull(line + Characters(d[0], line == []), d[1..], i);
    }
  }

  // ---------------------------------------------------------------- decoding

  /** Subtraction of unsigned characters. */
  function Back(b: int, k: int): Byte {
    (b - k) % 256
  }

  /** UUDecodeLine for yEnc: line ends are skipped, and a lone escape at the end of the string is dropped. */
  function Decode(s: seq<Byte>): seq<Byte>
    decreases |s|
  {
    if s == [] || s[0] == 0 then []
    else if s[0] == ESCAPE then
      if At(s, 1) == 0 then [] else [Back(s[1], 64 + 42)] + Decode(s[2..])
    else if s[0] == NL || s[0] == CR then Decode(s[1..])
    else [Back(s[0], 42)] + Decode(s[1..])
  }

  method DecodeLine(s: seq<Byte>) returns (d: seq<Byte>)
    ensures d == Decode(s)
  {
    hide Decode, Back;
    d := [];
    var p := 0;
    assert s[0..] == s && d + Decode(s) == Decode(s);
    while p < |s| && s[p] != 0
      invariant p <= |s| && d + Decode(s[p..]) == Decode(s)
    {
      DecodeNext(s, p);
      if s[p] == ESCAPE {
        if p + 1 < |s| && s[p + 1] != 0 {
          var b := Back(s[p + 1], 64 + 42);
          assert d + ([b] + Decode(s[p + 2..])) == d + [b] + Decode(s[p + 2..]);
          d := d + [b];
          p := p + 2;
        } else {
          assert d + [] == d;
          return;
        }
      } else if s[p] == NL || s[p] == CR {
        p := p + 1;
      } else {
        var b := Back(s[p], 42);
        assert d + ([b] + Decode(s[p + 1..])) == d + [b] + Decode(s[p + 1..]);
        d := d + [b];
        p := p + 1;
      }
    }
    DecodeStops(s[p..]);
    assert d + [] == d;
  }

  lemma DecodeNext(s: seq<Byte>, p: nat)
    requires p < |s| && s[p] != 0
    ensures Decode(s[p..]) ==
      if s[p] == ESCAPE then
        (if p + 1 < |s| && s[p + 1] != 0 then [Back(s[p + 1], 64 + 42)] + Decode(s[p + 2..]) else [])
      else if s[p] == NL || s[p] == CR then Decode(s[p + 1..])
      else [Back(s[p], 42)] + Decode(s[p + 1..])
  {
    assert s[p..][1..] == s[p + 1..];
    if p + 1 < |s| {
      assert s[p..][2..] == s[p + 2..] && s[p..][1] == s[p + 1];
    }
  }

  lemma DecodeStops(s: seq<Byte>)
    requires s == [] || s[0] == 0
    ensures Decode(s) == []
  {
  }

  /** A run of characters that does not end inside an escape and holds no line end or NUL. */
  predicate Whole(s: seq<Byte>)
    decreases |s|
  {
    s == [] || (s[0] != 0 && s[0] != NL && s[0] != CR &&
      if s[0] == ESCAPE then |s| >= 2 && s[1] != 0 && s[1] != NL && s[1] != CR && Whole(s[2..]) else Whole(s[1..]))
  }

  lemma {:induction false} DecodeWhole(s: seq<Byte>, t: seq<Byte>)
    requires Whole(s)
    ensures Decode(s + t) == Decode(s) + Decode(t)
    decreases |s|
  {
    hide Decode, Back;
    if s == [] {
      assert s + t == t;
      DecodeStops(s);
    } else {
      var k, b := if s[0] == ESCAPE then 2 else 1, if s[0] == ESCAPE then Back(s[1], 64 + 42) else Back(s[0], 42);
      assert (s + t)[k..] == s[k..] + t && s[0..] == s && (s + t)[0..] == s + t;
      DecodeNext(s, 0);
      DecodeNext(s + t, 0);
      DecodeWhole(s[k..], t);
      assert [b] + (Decode(s[k..]) + Decode(t)) == [b] + Decode(s[k..]) + Decode(t);
    }
  }

  lemma {:induction false} WholeConcat(s: seq<Byte>, t: seq<Byte>)
    requires Whole(s) && Whole(t)
    ensures Whole(s + t)
    decreases |s|
  {
    if s == [] {
      assert s + t == t;
    } else if s[0] == ESCAPE {
      WholeConcat(s[2..], t);
      assert (s + t)[2..] == s[2..] + t;
    } else {
      WholeConcat(s[1..], t);
      assert (s + t)[1..] == s[1..] + t;
    }
  }

  lemma CharactersDecode(b: Byte, atStart: bool)
    ensures Whole(Characters(b, atStart)) && Decode(Characters(b, atStart)) == [b]
  {
    var c := Characters(b, atStart);
    var v := (b + 42) % 256;
    if |c| == 2 {
      assert c[2..] == [] && Back((v + 64) % 256, 64 + 42) == b;
    } else {
      assert c[1..] == [] && Back(v, 42) == b;
    }
  }

  lemma {:induction false} WholeIsPlain(s: seq<Byte>)
    requires Whole(s)
    ensures PlainLine(s)
    decreases |s|
  {
    if s != [] {
      if s[0] == ESCAPE { WholeIsPlain(s[2..]); } else { WholeIsPlain(s[1..]); }
    }
  }

  // ---------------------------------------------------------------- every line, and all of them together

  /** The shape of a line being filled. */
  predicate Filling(line: seq<Byte>) {
    && |line| <= 129 && Whole(line)
    && (line != [] ==> line[0] != DOT)
    && (|line| >= 2 && line[0] == ESCAPE ==> line[1] != LOWER_Y)
  }

  /** A finished data line: neither too long, nor empty, nor like a keyword line, nor touched by dot stuffing. */
  predicate GoodLine(line: seq<Byte>) {
    && 1 <= |line| <= 129 && PlainLine(line)
    && line[0] != DOT
    && !(At(line, 0) == ESCAPE && At(line, 1) == LOWER_Y)
  }

  lemma FillingIsGood(line: seq<Byte>)
    requires Filling(line) && line != []
    ensures GoodLine(line)
  {
    WholeIsPlain(line);
  }

  lemma CharactersShape(b: Byte, atStart: bool)
    ensures var c := Characters(b, atStart);
      && (atStart ==> c[0] != DOT)
      && (|c| == 2 ==> c[0] == ESCAPE && c[1] != LOWER_Y)
      && (|c| == 1 ==> c[0] != ESCAPE)
  {
  }

  lemma WholeStart(line: seq<Byte>)
    requires Whole(line) && line != [] && line[0] == ESCAPE
    ensures |line| >= 2
  {
  }

  lemma AddCharacters(line: seq<Byte>, b: Byte)
    requires Filling(line) && |line| <= 127
    ensures Filling(line + Characters(b, line == [])) && line + Characters(b, line == []) != []
    ensures Decode(line + Characters(b, line == [])) == Decode(line) + [b]
  {
    hide Characters, Whole, Decode;
    var c := Characters(b, line == []);
    CharactersDecode(b, line == []);
    CharactersShape(b, line == []);
    WholeConcat(line, c);
    DecodeWhole(line, c);
    if line == [] {
      assert line + c == c;
    } else {
      assert (line + c)[0] == line[0];
      if line[0] == ESCAPE { WholeStart(line); }
    }
  }

  function DecodeAll(lines: seq<seq<Byte>>): seq<Byte> {
    if lines == [] then [] else Decode(lines[0] + [NL]) + DecodeAll(lines[1..])
  }

  lemma DecodeWithEnd(line: seq<Byte>)
    requires Whole(line)
    ensures Decode(line + [NL]) == Decode(line)
  {
    DecodeWhole(line, [NL]);
    assert [NL][1..] == [];
  }

  ghost predicate AllGood(lines: seq<seq<Byte>>) {
    forall i :: 0 <= i < |lines| ==> GoodLine(lines[i])
  }

  lemma AllGoodCons(line: seq<Byte>, lines: seq<seq<Byte>>)
    requires GoodLine(line) && AllGood(lines)
    ensures AllGood([line] + lines)
  {
  }

  /** Decoding the lines gives back what went into them, and every line has the right shape. */
  lemma {:induction false} LinesDecode(line: seq<Byte>, d: seq<Byte>)
    requires Filling(line)
    ensures DecodeAll(Lines(line, d)) == Decode(line) + d && AllGood(Lines(line, d))
    decreases |d|
  {
    hide Filling, GoodLine, Decode, Characters, AllGood;
    if d == [] {
      LastLine(line);
    } else if |line| > 127 {
      NothingFilled();
      AddCharacters([], d[0]);
      var next := Characters(d[0], true);
      assert [] + next == next;
      LinesDecode(next, d[1..]);
      var more := Lines(next, d[1..]);
      FillingIsGood(line);
      AllGoodCons(line, more);
      FillingDecodes(line);
      assert ([line] + more)[1..] == more;
      assert d == [d[0]] + d[1..];
    } else {
      ShortFilling(line);
      AddCharacters(line, d[0]);
      LinesDecode(line + Characters(d[0], line == []), d[1..]);
      assert d == [d[0]] + d[1..];
    }
  }

  lemma NothingFilled()
    ensures Filling([]) && Decode([]) == []
  {
  }

  lemma ShortFilling(line: seq<Byte>)
    requires Filling(line)
    ensures |line| <= 129
  {
  }

  lemma FillingDecodes(line: seq<Byte>)
    requires Filling(line)
    ensures Decode(line + [NL]) == Decode(line)
  {
    DecodeWithEnd(line);
  }

  lemma LastLine(line: seq<Byte>)
    requires Filling(line)
    ensures DecodeAll(Lines(line, [])) == Decode(line) + [] && AllGood(Lines(line, []))
  {
    if line == [] {
      NothingFilled();
    } else {
      FillingIsGood(line);
      FillingDecodes(line);
      assert [line][1..] == [];
    }
  }

  /** The round trip for any content, with the shape of every line. */
  lemma YencRoundTrip(d: seq<Byte>)
    ensures DecodeAll(Lines([], d)) == d && AllGood(Lines([], d))
  {
    NothingFilled();
    LinesDecode([], d);
  }
}
