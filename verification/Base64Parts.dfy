/** Base64 files in parts: what comes back of them when no MIME header says that they are complete. */
module Base64Parts {
  import opened Prelude
  import opened ByteText
  import opened DecoderLines
  import opened UuTables
  import opened UuCodec
  import opened ValidData
  import opened Base64Lines
  import opened Base64Part

  // ---------------------------------------------------------------- recognising an encoded line

  /** The number of padding characters. */
  function Pad(n: nat): nat {
    if n % 3 == 0 then 0 else 3 - n % 3
  }

  /** Base64 characters and then so many of padding. */
  predicate Shape(s: Text, pad: nat) {
    pad <= |s| && pad <= 2
    && (forall k :: 0 <= k < |s| - pad ==> B64Val(s[k]) != -1)
    && (forall k :: |s| - pad <= k < |s| ==> s[k] == EQUALS)
  }

  lemma {:induction false} BodyShape(d: Text)
    ensures Shape(Body(B64, d), Pad(|d|)) && (d != [] ==> |Body(B64, d)| >= 4)
    decreases |d|
  {
    hide Quad, Rest, B64Val, TripleAt, Shape;
    if |d| >= 3 {
      BodyShape(d[3..]);
      QuadIsValid(d[0], d[1], d[2]);
      ShapeAfter(Quad(B64, d[0], d[1], d[2]), Body(B64, d[3..]), Pad(|d|));
    } else {
      RestShape(d);
    }
  }

  lemma QuadIsValid(a: Byte, b: Byte, c: Byte)
    ensures FourValid(Quad(B64, a, b, c))
  {
    QuadValid(a, b, c, []);
    assert Quad(B64, a, b, c) + [] == Quad(B64, a, b, c);
    hide Quad, FourValid;
  }

  lemma RestShape(d: Text)
    requires |d| < 3
    ensures Shape(Rest(B64, d), Pad(|d|)) && (d != [] ==> |Rest(B64, d)| == 4)
  {
    if d != [] { RestCharacters(d); }
    hide TripleAt, B64Val;
  }

  lemma ShapeAfter(q: Text, more: Text, pad: nat)
    requires FourValid(q) && |q| == 4 && Shape(more, pad)
    ensures Shape(q + more, pad)
  {
    hide B64Val;
    assert forall k :: 0 <= k < 4 ==> At(q, k) == q[k];
  }

  lemma {:induction false} ShapeLength(s: Text, pad: nat)
    requires Shape(s, pad)
    ensures LineLength(s + [NL]) == |s|
    decreases |s|
  {
    if s != [] {
      assert (s + [NL])[1..] == s[1..] + [NL];
      assert s[0] != NL && s[0] != CR && s[0] != 0;
      ShapeLength(s[1..], if pad == |s| then pad - 1 else pad);
    }
  }

  lemma {:induction false} ShapePasses(s: Text, pad: nat, sure: bool, k: nat)
    requires Shape(s, pad) && k <= |s| - pad
    ensures B64Test(s + [NL], |s|, sure, k, |s| - k)
    decreases |s| - k
  {
    var p := s + [NL];
    if k < |s| - pad {
      assert At(p, k) == s[k];
      ShapePasses(s, pad, sure, k + 1);
    } else if k < |s| {
      assert At(p, k) == EQUALS;
      assert k + 1 < |s| ==> At(p, k + 1) == EQUALS;
      assert k + 1 == |s| ==> At(p, k + 1) == NL;
    }
  }

  /** Whether or not the decoder trusts its input yet, an encoded line is taken for Base64. */
  lemma EncodedLineAccepted(s: Text, pad: nat, tf: bool)
    requires Shape(s, pad) && |s| >= 4
    ensures Verdict(s + [NL], if tf then IsB64 else Not, 0) == (IsB64, 0)
  {
    var p := s + [NL];
    ShapeLength(s, pad);
    ShapePasses(s, pad, tf, 0);
    assert p[0] == s[0] && At(p, 0) == s[0] && s[0] != COLON;
    hide B64Test, UuTest, XxTest;
  }

  /** Nothing in an encoded line is special to the decoder. */
  lemma EncodedLineIsPlain(options: Options, s: Text, pad: nat)
    requires Shape(s, pad) && 4 <= |s| <= 76
    ensures var p := s + [NL];
      && PlainLine(s) && Cut(p) == p && At(p, 0) != CR && At(p, 0) != NL
      && !HitsBoundary(options, p) && !Contains(p, CUT_HERE) && !Dashes(p) && !StartsWithIgnoringCase(p, CONTENT_TYPE)
      && (EQUALS in p <==> pad > 0)
  {
    var p := s + [NL];
    assert forall k :: 0 <= k < |s| ==> p[k] == s[k] && s[k] != DASH && s[k] != SPACE;
    if HitsBoundary(options, p) { StartByte(p, [DASH, DASH] + options.boundary.value, 0); }
    if i :| 0 <= i <= |p| && FoundAt(CUT_HERE, p, i) { FoundByte(CUT_HERE, p, i, 3); }
    if |p| >= |CONTENT_TYPE| { assert Lower(p[7]) != Lower(CONTENT_TYPE[7]); }
    if pad > 0 { assert s[|s| - 1] == EQUALS; }
  }

  // ---------------------------------------------------------------- the machine on an encoded line

  /** What has been decoded so far, written or held back. */
  function Held(m: Machine): Text {
    m.out + Bytes(m.left, m.saved).0
  }

  /** Between encoded lines. */
  predicate Reading(m: Machine) {
    && m.phase == Data && m.bhflag == 0 && !m.haddh
    && m.left == [] && Bytes([], m.saved).1 == []
    && |m.saved| <= 3 && (m.tf ==> m.saved == []) && (m.vlc > 0 ==> m.tf)
  }

  lemma {:induction false} BytesAppend(left: Text, a: seq<Text>, b: seq<Text>)
    ensures var (x, l1) := Bytes(left, a);
      Bytes(left, a + b) == (x + Bytes(l1, b).0, Bytes(l1, b).1)
    decreases |a|
  {
    hide DecodeB64;
    if a == [] {
      assert a + b == b;
      assert [] + Bytes(left, b).0 == Bytes(left, b).0;
    } else {
      var (out, l1) := DecodeB64(left + a[0]);
      BytesAppend(l1, a[1..], b);
      assert (a + b)[0] == a[0] && (a + b)[1..] == a[1..] + b;
      var (x, l2) := Bytes(l1, a[1..]);
      assert out + (x + Bytes(l2, b).0) == out + x + Bytes(l2, b).0;
    }
  }

  /** An encoded line decodes to its bytes and leaves nothing for the next. */
  lemma OneLineBytes(d: Text)
    requires 0 < |d| <= 57
    ensures Bytes([], [LineOf(B64, d) + [NL]]) == (d, [])
  {
    hide DecodeB64, LineOf;
    var line := LineOf(B64, d) + [NL];
    Base64RoundTrip(d);
    assert d[..|d|] == d && d[|d|..] == [];
    hide EncoderLines;
    OneEncoderLine(d);
    FeedOne(LineOf(B64, d));
    var lines: seq<Text> := [line];
    assert lines[1..] == [];
    BytesOfNone(DecodeB64(line).1);
    assert [] + line == line;
    assert DecodeB64(line).0 + [] == DecodeB64(line).0;
  }

  lemma OneEncoderLine(d: Text)
    requires 0 < |d| <= 57
    ensures EncoderLines(d) == [LineOf(B64, d)]
  {
    hide LineOf;
    assert d[..|d|] == d && d[|d|..] == [];
  }

  lemma FeedOne(line: Text)
    ensures Feed([], [line]) == DecodeB64(line + [NL])
  {
    hide DecodeB64;
    assert [] + line + [NL] == line + [NL];
    var lines: seq<Text> := [line];
    assert lines[1..] == [];
    var (out, left) := DecodeB64(line + [NL]);
    assert Feed(left, []) == ([], left);
    assert out + [] == out;
  }

  lemma LineShape(d: Text)
    requires 0 < |d| <= 57
    ensures var s := LineOf(B64, d); Shape(s, Pad(|d|)) && 4 <= |s| <= 76
  {
    BodyShape(d);
    BodyLength(B64, d);
    assert [] + Body(B64, d) == Body(B64, d);
  }

  /** How n more lines change what is held back. */
  predicate Counts(m: Machine, n: nat, m': Machine) {
    if m.tf || |m.saved| + n >= 4 then m'.tf
    else !m'.tf && |m'.saved| == |m.saved| + n && m'.out == m.out
  }

  /** Data is noted as soon as some has been written, and nothing else is. */
  predicate Noted(m: Machine, m': Machine) {
    (m'.haddata <==> m.haddata || |m'.out| > |m.out|) && m'.hadct == m.hadct && |m'.out| >= |m.out|
  }

  /** What an encoded line of the bytes d does. */
  predicate TookLine(m: Machine, d: Text, m': Machine) {
    && Reading(m'.(phase := Data)) && m'.phase == (if |d| % 3 == 0 then Data else Done)
    && Held(m') == Held(m) + d && m'.vflag == IsB64 && Counts(m, 1, m') && Noted(m, m')
  }

  lemma DataLineHolds(m: Machine, d: Text)
    requires Reading(m) && 0 < |d| <= 57
    ensures var o := DataLine(m, LineOf(B64, d) + [NL]); o.Continue? && TookLine(m, d, o.m)
  {
    hide Verdict, LineOf, Shape, Bytes;
    var line := LineOf(B64, d) + [NL];
    LineShape(d);
    EncodedLineAccepted(LineOf(B64, d), Pad(|d|), m.tf);
    EncodedLineIsPlain(Options(true, None), LineOf(B64, d), Pad(|d|));
    OneLineBytes(d);
    BytesOfNone([]);
    BytesAppend([], m.saved, [line]);
    assert m.out + (Bytes([], m.saved).0 + d) == m.out + Bytes([], m.saved).0 + d;
    assert m.out + [] == m.out && m.out + d + [] == m.out + d;
    assert m.out + (Bytes([], m.saved).0 + d) + [] == m.out + (Bytes([], m.saved).0 + d);
  }

  /** Reading one encoded line off the front of a file. */
  lemma RunOneLine(options: Options, m: Machine, d: Text, rest: Text) returns (m': Machine)
    requires Reading(m) && 0 < |d| <= 57
    ensures TookLine(m, d, m')
    ensures Run(options, m, LineOf(B64, d) + [NL] + rest) == Run(options, m', rest)
  {
    hide Run, LineOf, Shape, FgetsLength, FpLine, DataLine, Step, TookLine, Contains, HitsBoundary, StartsWith,
      StartsWithIgnoringCase;
    var s := LineOf(B64, d);
    LineShape(d);
    EncodedLineIsPlain(options, s, Pad(|d|));
    ReadPlainLine(s, rest, LINE_BUFFER);
    RunNext(options, m, s + [NL] + rest);
    StepLine(options, m, s + [NL]);
    assert m.(hadct := m.hadct) == m;
    DataLineHolds(m, d);
    m' := DataLine(m, s + [NL]).m;
  }

  // ---------------------------------------------------------------- the data lines

  function LineCount(d: Text): nat {
    (|d| + 56) / 57
  }

  lemma FirstLine(d: Text, rest: Text)
    requires d != []
    ensures var n := Min(|d|, 57);
      TextOf(B64, d) + rest == LineOf(B64, d[..n]) + [NL] + (TextOf(B64, d[n..]) + rest)
  {
    hide LineOf, TextOf;
    var n := Min(|d|, 57);
    TextFirst(B64, d, n);
    Regroup(LineOf(B64, d[..n]) + [NL], TextOf(B64, d[n..]), rest);
  }

  lemma Regroup(a: Text, b: Text, c: Text)
    ensures a + b + c == a + (b + c)
  {
  }

  lemma CountsOneMore(m: Machine, m1: Machine, n: nat, m2: Machine)
    requires Counts(m, 1, m1) && Counts(m1, n, m2) && (m1.tf ==> m1.saved == [])
    ensures Counts(m, 1 + n, m2)
  {
  }

  /** Reading all data lines. A padded line is the last and ends the file. */
  lemma {:induction false} RunText(options: Options, m: Machine, d: Text, rest: Text) returns (m': Machine)
    requires Reading(m)
    ensures Reading(m'.(phase := Data)) && m'.phase == (if |d| % 3 == 0 then Data else Done)
    ensures Held(m') == Held(m) + d && Counts(m, LineCount(d), m') && (if d != [] then m'.vflag == IsB64 else m' == m)
    ensures Noted(m, m')
    ensures Run(options, m, TextOf(B64, d) + rest) == Run(options, m', rest)
    decreases |d|
  {
    hide Run, LineOf, TextOf, Held, Bytes;
    if d == [] {
      m' := m;
      NoText(B64);
      assert [] + rest == rest && Held(m) + [] == Held(m);
    } else {
      var n := Min(|d|, 57);
      FirstLine(d, rest);
      var m1 := RunOneLine(options, m, d[..n], TextOf(B64, d[n..]) + rest);
      if |d| > 57 {
        m' := RunText(options, m1, d[n..], rest);
        LineCountLess(d);
        CountsOneMore(m, m1, LineCount(d[n..]), m');
        assert Held(m) + d[..n] + d[n..] == Held(m) + d;
      } else {
        m' := m1;
        assert d[..n] == d && d[n..] == [];
        NoText(B64);
        assert [] + rest == rest;
      }
    }
  }

  lemma LineCountLess(d: Text)
    requires |d| > 57
    ensures LineCount(d) == 1 + LineCount(d[57..]) && |d[57..]| % 3 == |d| % 3
  {
  }

  // ---------------------------------------------------------------- one part

  /** A part without its headers: data lines and a blank line. */
  function PartText(chunk: Text): Text {
    TextOf(B64, chunk) + [NL]
  }

  /**
   The bytes of a part come out: the mail is known to be MIME, or the part ends with padding, or it has none or at least
   four lines.
   */
  predicate Kept(options: Options, chunk: Text) {
    options.proper || |chunk| % 3 != 0 || chunk == [] || LineCount(chunk) >= 4
  }

  /** One part: its bytes come out whole, or not at all. */
  lemma RunPart(options: Options, out: Text, chunk: Text)
    ensures var r := Run(options, Entered(0, [], out), PartText(chunk));
      && r.Return? && r.m.bhflag == 0 && r.m.left == []
      && (r.m.phase == Done <==> |chunk| % 3 != 0)
      && r.m.out == if Kept(options, chunk) then out + chunk else out
  {
    hide Run, TextOf, Bytes, LineCount;
    var m := Entered(0, [], out);
    BytesOfNone([]);
    assert Held(m) == out by { assert out + [] == out; }
    var m1 := RunText(options, m, chunk, [NL]);
    if m1.phase == Done {
      RunStops(options, m1, [NL]);
      Flushed(m1);
    } else {
      var m2 := m1.(tf := m1.tf && m1.vlc <= 5, saved := if m1.vlc > 5 then [] else m1.saved, vlc := 0);
      RunBlankEnd(options, m1, m2);
      NoLinesCount(chunk);
      hide Counts;
      AtEnd(options, m, m1, m2, chunk);
    }
  }

  lemma NoLinesCount(chunk: Text)
    ensures LineCount(chunk) == 0 <==> chunk == []
  {
  }

  /** The lines held back are written. */
  lemma Flushed(m: Machine)
    requires Reading(m.(phase := Data))
    ensures Took(m, m.saved).out == Held(m) && Took(m, m.saved).left == [] && Took(m, m.saved).phase == m.phase
  {
    hide Bytes;
  }

  lemma RunBlankEnd(options: Options, m: Machine, m2: Machine)
    requires m.phase == Data
    requires m2 == m.(tf := m.tf && m.vlc <= 5, saved := if m.vlc > 5 then [] else m.saved, vlc := 0)
    ensures Run(options, m, [NL]) == Return(Finish(options, m2))
  {
    hide Run, FgetsLength, FpLine, Finish;
    var none: Text := [];
    assert none + [NL] + none == [NL] && none + [NL] == [NL];
    ReadPlainLine(none, none, LINE_BUFFER);
    RunNext(options, m, [NL]);
    StepBlank(options, m, [NL]);
    RunStops(options, m2, none);
  }

  lemma AtEnd(options: Options, m: Machine, m1: Machine, m2: Machine, chunk: Text)
    requires m == Entered(0, [], m.out) && Reading(m1) && Counts(m, LineCount(chunk), m1) && |chunk| % 3 == 0
    requires Held(m1) == m.out + chunk && (if chunk == [] then LineCount(chunk) == 0 else m1.vflag == IsB64)
    requires m2 == m1.(tf := m1.tf && m1.vlc <= 5, saved := if m1.vlc > 5 then [] else m1.saved, vlc := 0)
    ensures var f := Finish(options, m2);
      f.bhflag == 0 && f.left == [] && f.phase == Data && f.out == if Kept(options, chunk) then m.out + chunk else m.out
  {
    hide Bytes, LineCount;
    BytesOfNone([]);
    assert m1.out + [] == m1.out && m.out + [] == m.out;
    assert m2.saved == m1.saved;
    Flushed(m2);
  }

  // ---------------------------------------------------------------- boundaries in the text

  /** A MIME boundary as far as the decoder looks: two dashes and anything. */
  function DashLine(b: Text): Text {
    [DASH, DASH] + b
  }

  predicate IsDashLine(options: Options, b: Text) {
    PlainLine(b) && |b| <= 4092 && !HitsBoundary(options, Cut(DashLine(b) + [NL]))
  }

  /** A line of dashes off the front of a file. */
  lemma RunDashLine(options: Options, m: Machine, b: Text, rest: Text)
    requires m.phase == Data && IsDashLine(options, b)
    ensures !options.proper && (m.haddata || m.saved != []) && (m.haddh || m.hadct) ==>
      Run(options, m, DashLine(b) + [NL] + rest) == Return(Finish(options, m.(phase := Done, vlc := 0)))
    ensures !options.proper && !((m.haddata || m.saved != []) && (m.haddh || m.hadct)) ==>
      Run(options, m, DashLine(b) + [NL] + rest) == Run(options, m.(hadct := false, haddh := true), rest)
    ensures options.proper && m.saved != [] ==>
      Run(options, m, DashLine(b) + [NL] + rest) == Return(Finish(options, m))
  {
    hide Run, FgetsLength, FpLine, Finish, DataLine, Contains, HitsBoundary, StartsWithIgnoringCase;
    var raw := DashLine(b) + [NL];
    var line := Cut(raw);
    assert raw[0] == DASH && raw[1] == DASH && line[0] == DASH && line[1] == DASH;
    ReadPlainLine(DashLine(b), rest, LINE_BUFFER);
    RunNext(options, m, raw + rest);
    StepLine(options, m, raw);
    assert !StartsWith(line, UPPER_BEGIN) by {
      if StartsWith(line, UPPER_BEGIN) { StartByte(line, UPPER_BEGIN, 0); }
    }
    RunStops(options, m.(phase := Done, vlc := 0), rest);
  }

  /** After the lines of a part that is not padded. */
  lemma RunData(options: Options, out: Text, chunk: Text, rest: Text) returns (m: Machine)
    requires |chunk| % 3 == 0
    ensures Reading(m) && Held(m) == out + chunk && (chunk != [] ==> m.vflag == IsB64)
    ensures chunk != [] ==> m.haddata || m.saved != []
    ensures chunk == [] ==> m == Entered(0, [], out)
    ensures LineCount(chunk) >= 4 ==> m.tf
    ensures LineCount(chunk) < 4 ==> m.out == out
    ensures 0 < LineCount(chunk) < 4 ==> m.saved != []
    ensures !m.hadct
    ensures Run(options, Entered(0, [], out), TextOf(B64, chunk) + rest) == Run(options, m, rest)
  {
    hide Run, TextOf, Bytes, LineCount;
    BytesOfNone([]);
    assert out + [] == out;
    m := RunText(options, Entered(0, [], out), chunk, rest);
  }

  lemma FlushedAll(options: Options, m: Machine, m': Machine)
    requires Reading(m) && m'.saved == m.saved && m'.out == m.out && m'.left == m.left && m'.phase == Done
    ensures Finish(options, m').out == Held(m) && Finish(options, m').phase == Done
  {
    hide Bytes;
  }

  /** A boundary vouches for the data before it: it comes out whole, however few its lines are. */
  lemma BoundaryVouches(options: Options, out: Text, chunk: Text, b: Text)
    requires !options.proper && IsDashLine(options, b)
    ensures var r := Run(options, Entered(0, [], out), TextOf(B64, chunk) + (DashLine(b) + [NL]));
      r.Return? && r.m.out == out + chunk
  {
    hide Run, TextOf, Bytes, LineCount, IsDashLine, Counts;
    var dashes := DashLine(b) + [NL];
    if |chunk| % 3 == 0 {
      var m := RunData(options, out, chunk, dashes);
      assert DashLine(b) + [NL] + [] == dashes;
      RunDashLine(options, m, b, []);
      var m1 := m.(hadct := false, haddh := true);
      RunStops(options, m1, []);
      BytesOfNone([]);
      assert out + [] == out && m.out + [] == m.out;
    } else {
      BytesOfNone([]);
      assert out + [] == out;
      var m := RunText(options, Entered(0, [], out), chunk, dashes);
      RunStops(options, m, dashes);
      FlushedAll(options, m.(phase := Data), m);
    }
  }

  /** A second boundary after data ends the file, with all data before it written; what follows is not looked at. */
  lemma SecondBoundaryEnds(options: Options, out: Text, chunk: Text, b: Text, c: Text, rest: Text)
    requires !options.proper && IsDashLine(options, b) && IsDashLine(options, c) && chunk != [] && |chunk| % 3 == 0
    ensures var text := TextOf(B64, chunk) + (DashLine(b) + [NL] + (DashLine(c) + [NL] + rest));
      var r := Run(options, Entered(0, [], out), text);
      r.Return? && r.m.phase == Done && r.m.out == out + chunk
  {
    hide Run, TextOf, Bytes, LineCount, IsDashLine, Counts;
    var tail := DashLine(c) + [NL] + rest;
    var m := RunData(options, out, chunk, DashLine(b) + [NL] + tail);
    RunDashLine(options, m, b, tail);
    var m1 := m.(hadct := false, haddh := true);
    RunDashLine(options, m1, c, rest);
    FlushedAll(options, m, m1.(phase := Done, vlc := 0));
  }

  /** After a Content-Type line the first boundary behind data ends the file. */
  lemma BoundaryAfterContentType(options: Options, m: Machine, chunk: Text, b: Text, rest: Text)
    requires !options.proper && IsDashLine(options, b) && Reading(m) && m.hadct && chunk != [] && |chunk| % 3 == 0
    requires m.saved == [] && !m.tf
    ensures var r := Run(options, m, TextOf(B64, chunk) + (DashLine(b) + [NL] + rest));
      r.Return? && r.m.phase == Done && r.m.out == m.out + chunk
  {
    hide Run, TextOf, Bytes, LineCount, IsDashLine;
    BytesOfNone([]);
    assert m.out + [] == m.out;
    NoLinesCount(chunk);
    var m1 := RunText(options, m, chunk, DashLine(b) + [NL] + rest);
    RunDashLine(options, m1, b, rest);
    FlushedAll(options, m1, m1.(phase := Done, vlc := 0));
  }

  /** A Content-Type line is noted unless the mail is known to be MIME, whatever else becomes of it. */
  lemma ContentTypeIsNoted(options: Options, m: Machine, raw: Text)
    requires StartsWithIgnoringCase(Cut(raw), CONTENT_TYPE) && !HitsBoundary(options, Cut(raw))
    ensures Step(options, m, raw).m.hadct == (m.hadct || !options.proper)
    ensures forall i :: 0 <= i < 12 ==> CONTENT_TYPE[i] as char == "Content-Type"[i]
  {
    hide Verdict, Bytes, Contains, HitsBoundary;
    var line := Cut(raw);
    assert Lower(line[0]) == 99 && At(raw, 0) == raw[0] == line[0] == At(line, 0);
    if StartsWith(line, UPPER_BEGIN) { StartByte(line, UPPER_BEGIN, 0); }
  }

  /** In mail known to be MIME a boundary ends the part, and the lines held back are written. */
  lemma BoundaryEndsProper(options: Options, out: Text, chunk: Text, b: Text, rest: Text)
    requires options.proper && IsDashLine(options, b) && 0 < LineCount(chunk) < 4 && |chunk| % 3 == 0
    ensures var r := Run(options, Entered(0, [], out), TextOf(B64, chunk) + (DashLine(b) + [NL] + rest));
      r.Return? && r.m.out == out + chunk
  {
    hide Run, TextOf, Bytes, LineCount, IsDashLine, Counts;
    NoLinesCount(chunk);
    var m := RunData(options, out, chunk, DashLine(b) + [NL] + rest);
    RunDashLine(options, m, b, rest);
    hide Held;
    FlushedHeld(m);
  }

  lemma FlushedHeld(m: Machine)
    ensures Took(m, m.saved).out == Held(m)
  {
    hide Bytes;
  }

  /** A line found to be in another encoding ends the trust, and what is held back and the boundary are forgotten. */
  lemma ForeignLineForgets(m: Machine, line: Text)
    requires var v := Verdict(line, if m.tf then IsB64 else Not, m.bhflag).0; v != Not && v != IsB64
    ensures var o := DataLine(m, line);
      && o.Continue? && !o.m.tf && o.m.saved == [] && o.m.vlc == 0 && !o.m.haddh
      && o.m.out == m.out && o.m.hadct == m.hadct
  {
    hide Verdict;
  }

  /**
   After more than five lines in a row that were written at once a blank line ends the trust; otherwise it changes
   little.
   */
  lemma BlankEndsTrust(options: Options, m: Machine)
    ensures var o := Step(options, m, [NL]);
      && o.Continue? && o.m.vlc == 0 && o.m.out == m.out && o.m.phase == m.phase
      && (m.vlc > 5 ==> !o.m.tf && o.m.saved == [])
      && (m.vlc <= 5 ==> o.m.tf == m.tf && o.m.saved == m.saved)
  {
  }

  /**
   A line that announces a cut drops what is held back, while data is not trusted yet and mail not known to be MIME.
   */
  lemma CutLineDrops(options: Options, m: Machine, raw: Text)
    requires StartsWith(Cut(raw), UPPER_BEGIN) && Contains(Cut(raw), CUT_HERE) && !HitsBoundary(options, Cut(raw))
    requires !options.proper && !m.tf && At(raw, 0) == 66
    ensures Step(options, m, raw) == Continue(m.(saved := [], vlc := 0))
  {
    hide DataLine, Contains, HitsBoundary, StartsWith;
  }

  // ---------------------------------------------------------------- all parts

  /** Bytes per part. */
  function PerPart(linperfile: int): int {
    57 * linperfile
  }

  /** A part reads so many bytes; a file that ends exactly there is not seen to end. */
  predicate MeetsEnd(d: Text, linperfile: int) {
    linperfile <= 0 || |d| < PerPart(linperfile)
  }

  /** All parts without their headers, up to the one that meets the end of the file. */
  function Parts(d: Text, linperfile: int): seq<Text>
    decreases |d|
  {
    if MeetsEnd(d, linperfile) then [PartText(d)]
    else [PartText(d[..PerPart(linperfile)])] + Parts(d[PerPart(linperfile)..], linperfile)
  }

  /** UUEncodePartial for Base64, part after part until the end of the file is met. */
  method EncodeParts(infile: Text, linperfile: int) returns (parts: seq<Text>)
    ensures parts == Parts(infile, linperfile)
  {
    hide TextOf;
    parts := [];
    var pos, feof := 0, false;
    assert infile[0..] == infile;
    ghost var all := Parts(infile, linperfile);
    assert [] + all == all;
    while !feof
      invariant pos <= |infile|
      invariant feof ==> parts == all
      invariant !feof ==> parts + Parts(infile[pos..], linperfile) == all
      decreases !feof, |infile| - pos
    {
      var text, pos' := EncodeStream(B64, infile, pos, linperfile);
      feof := linperfile <= 0 || pos' - pos < PerPart(linperfile);
      var outfile := text + [NL];
      if feof {
        assert infile[pos..pos'] == infile[pos..];
      } else {
        var n := PerPart(linperfile);
        assert infile[pos..][..n] == infile[pos..pos'] && infile[pos..][n..] == infile[pos'..];
        var more := Parts(infile[pos'..], linperfile);
        assert parts + ([outfile] + more) == parts + [outfile] + more;
      }
      parts, pos := parts + [outfile], pos';
    }
  }

  /** UUDecode: BinHex flag, leftover and output go from part to part. */
  function RunParts(options: Options, bhflag: nat, left: Text, out: Text, files: seq<Text>): Outcome
    decreases |files|
  {
    if files == [] then Return(Entered(bhflag, left, out))
    else
      var r := Run(options, Entered(bhflag, left, out), files[0]);
      if r.NeedsRepair? || r.m.phase == Done then r
      else RunParts(options, r.m.bhflag, r.m.left, r.m.out, files[1..])
  }

  method DecodeParts(options: Options, files: seq<Text>) returns (ok: bool, dataout: Text)
    ensures var r := RunParts(options, 0, [], [], files);
      (ok <==> !r.NeedsRepair?) && (ok ==> dataout == r.m.out)
  {
    hide Run;
    var decoder := new LineDecoder();
    var bhflag := 0;
    ok, dataout := true, [];
    ghost var all := RunParts(options, 0, [], [], files);
    assert files[0..] == files;
    for i := 0 to |files|
      invariant fresh(decoder) && ok && RunParts(options, bhflag, decoder.leftover, dataout, files[i..]) == all
    {
      assert files[i..][0] == files[i] && files[i..][1..] == files[i + 1..];
      var m;
      ok, m := DecodePart(decoder, options, files[i], bhflag, dataout);
      bhflag, dataout := m.bhflag, m.out;
      if !ok || m.phase == Done { return; }
    }
  }

  /** What the last part holds. */
  function LastChunk(d: Text, linperfile: int): Text
    decreases |d|
  {
    if MeetsEnd(d, linperfile) then d else LastChunk(d[PerPart(linperfile)..], linperfile)
  }

  /** No part is lost: those before the last are not padded and have linperfile lines. */
  predicate AllKept(options: Options, d: Text, linperfile: int) {
    Kept(options, LastChunk(d, linperfile)) && (MeetsEnd(d, linperfile) || options.proper || linperfile >= 4)
  }

  lemma FullPart(options: Options, d: Text, linperfile: int)
    requires !MeetsEnd(d, linperfile)
    ensures var n := PerPart(linperfile);
      0 < n <= |d| && n % 3 == 0 && (Kept(options, d[..n]) <==> options.proper || linperfile >= 4)
  {
    FullLines(linperfile);
    assert |d[..PerPart(linperfile)]| == 57 * linperfile;
  }

  lemma FullLines(k: nat)
    ensures (57 * k + 56) / 57 == k && 57 * k % 3 == 0
  {
    assert 57 * k == 3 * (19 * k);
  }

  lemma {:induction false} RunAllParts(options: Options, out: Text, d: Text, linperfile: int)
    ensures var r := RunParts(options, 0, [], out, Parts(d, linperfile));
      && r.Return? && |r.m.out| <= |out| + |d|
      && (r.m.out == out + d <==> AllKept(options, d, linperfile))
    decreases |d|
  {
    hide Run, PartText, Kept;
    var parts := Parts(d, linperfile);
    if MeetsEnd(d, linperfile) {
      RunPart(options, out, d);
      assert parts[1..] == [];
      assert |d| % 3 == 0 || d != [];
      KeptEmpty(options, d);
    } else {
      var n := PerPart(linperfile);
      FullPart(options, d, linperfile);
      RunPart(options, out, d[..n]);
      assert parts[1..] == Parts(d[n..], linperfile);
      var out' := if Kept(options, d[..n]) then out + d[..n] else out;
      RunAllParts(options, out', d[n..], linperfile);
      assert out + d[..n] + d[n..] == out + d;
    }
  }

  lemma KeptEmpty(options: Options, d: Text)
    ensures d == [] ==> Kept(options, d)
  {
  }

  /**
   A file written in parts and read back: the content comes back if and only if the mail is known to be MIME; or every
   full part has at least four lines, and the last one has at least four, or ends with padding, or has none. Of any
   other file a part is lost, be it the only one.
   */
  lemma Base64EndToEnd(options: Options, d: Text, linperfile: int)
    ensures var r := RunParts(options, 0, [], [], Parts(d, linperfile));
      r.Return? && (r.m.out == d <==> AllKept(options, d, linperfile))
  {
    hide RunParts, Parts, AllKept;
    RunAllParts(options, [], d, linperfile);
    assert [] + d == d;
  }

  /** Encoding a file in parts and decoding them. */
  method EncodeAndDecode(options: Options, infile: Text, linperfile: int) returns (ok: bool, dataout: Text)
    ensures ok && (dataout == infile <==> AllKept(options, infile, linperfile))
  {
    hide RunParts, Parts, AllKept;
    Base64EndToEnd(options, infile, linperfile);
    var parts := EncodeParts(infile, linperfile);
    ok, dataout := DecodeParts(options, parts);
  }
}
