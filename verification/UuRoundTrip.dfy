/** Decoding what the encoder writes: every line is recognised, the end is found, the bytes come back. */
module UuRoundTrip {
  import opened Prelude
  import opened ByteText
  import opened DecoderLines
  import opened UuTables
  import opened UuCodec
  import opened ValidData
  import opened UuPart
  import opened Numerals

  const GRAVE: Byte := 96

  // ---------------------------------------------------------------- the shape of an encoded line

  /** Characters the UU encoder writes. */
  predicate UuText(s: seq<Byte>) {
    forall k :: 0 <= k < |s| ==> 33 <= s[k] <= 96
  }

  lemma {:induction false} BodyIsUuText(d: seq<Byte>)
    ensures UuText(Body(UU, d))
    decreases |d|
  {
    if |d| >= 3 { BodyIsUuText(d[3..]); }
  }

  /** When two bytes are left over the last character is padding. */
  lemma {:induction false} BodyEndsPadded(d: seq<Byte>)
    requires |d| % 3 == 2
    ensures |Body(UU, d)| > 0 && Body(UU, d)[|Body(UU, d)| - 1] == GRAVE
    decreases |d|
  {
    if |d| >= 3 { BodyEndsPadded(d[3..]); }
  }

  lemma LineShape(d: seq<Byte>)
    requires |d| <= 45
    ensures var s := LineOf(UU, d);
      UuText(s) && |s| == UuLen(|d|) && s[0] == UuChar(|d|) && (|d| % 3 == 2 ==> s[|s| - 1] == GRAVE)
  {
    BodyIsUuText(d);
    BodyLength(UU, d);
    if |d| % 3 == 2 { BodyEndsPadded(d); }
  }

  // ---------------------------------------------------------------- recognising an encoded line

  lemma {:induction false} LengthOfLine(s: seq<Byte>)
    requires UuText(s)
    ensures LineLength(s + [NL]) == |s|
  {
    if s != [] {
      LengthOfLine(s[1..]);
      assert (s + [NL])[1..] == s[1..] + [NL];
    }
  }

  /** After a line of BinHex an encoded line can look like more of it; flag is what the line before has left. */
  predicate LooksBinhex(flag: nat, d: seq<Byte>)
    requires |d| <= 45
  {
    BinhexTest(LineOf(UU, d) + [NL], UuLen(|d|), false, flag).Some?
  }

  lemma NotBinhex(d: seq<Byte>)
    requires |d| <= 45
    ensures !LooksBinhex(0, d)
  {
    LineShape(d);
    var s := LineOf(UU, d);
    var p := s + [NL];
    if At(p, 0) == COLON {
      assert |d| == 26 && |s| == 37;
      var n := BhRun(p, 1, 36);
      assert At(p, 36) == s[36] == GRAVE && At(p, 37) == NL;
    }
  }

  lemma IsUuLine(d: seq<Byte>, sure: bool)
    requires |d| <= 45
    ensures UuTest(LineOf(UU, d) + [NL], UuLen(|d|), sure)
  {
    LineShape(d);
    var s := LineOf(UU, d);
    var p := s + [NL];
    TablesInvert(|d|, 0);
    assert At(p, 0) == s[0];
    forall k | 0 <= k < UuLen(|d|) ensures At(p, k) < 128 && UuVal(At(p, k)) >= 0 {
      assert At(p, k) == s[k];
    }
  }

  /** While the decoder does not trust its input a line that looks like BinHex makes it forget what it holds back. */
  predicate Drops(m: Machine, d: seq<Byte>)
    requires |d| <= 45
  {
    !m.trusted && LooksBinhex(m.bhflag, d)
  }

  /**
   Whether or not the decoder trusts its input yet, an encoded line is taken for UU and leaves the BinHex state alone,
   unless it looks like BinHex after a line of it.
   */
  lemma EncodedLineAccepted(m: Machine, d: seq<Byte>)
    requires |d| <= 45
    ensures if Drops(m, d) then DataVerdict(UU, m, LineOf(UU, d) + [NL]).0 == IsBH
            else DataVerdict(UU, m, LineOf(UU, d) + [NL]) == (IsUU, m.bhflag)
  {
    hide UuTest, B64Test, XxTest, BinhexTest;
    var p := LineOf(UU, d) + [NL];
    LineShape(d);
    LengthOfLine(LineOf(UU, d));
    IsUuLine(d, true);
    IsUuLine(d, false);
    assert p[0] == UuChar(|d|);
  }

  /** No line of the encoder has the space that the special lines contain. */
  lemma NotACutLine(s: seq<Byte>)
    requires UuText(s)
    ensures !Contains(s + [NL], CUT_HERE)
  {
    if i :| 0 <= i <= |s + [NL]| && FoundAt(CUT_HERE, s + [NL], i) {
      FoundByte(CUT_HERE, s + [NL], i, 3);
      assert false;
    }
  }

  // ---------------------------------------------------------------- the machine on an encoded line

  /** What has been decoded so far, written or held back. */
  function Held(m: Machine): seq<Byte> {
    m.out + AllBytesOf(UU, m.saved)
  }

  /** The states the machine is in between the lines of an encoded file. */
  predicate Reading(m: Machine) {
    && (m.phase == Data || m.phase == End)
    && |m.saved| <= 3 && (m.trusted ==> m.saved == [])
  }

  lemma {:induction false} AllBytesAppend(lines: seq<seq<Byte>>, line: seq<Byte>)
    ensures AllBytesOf(UU, lines + [line]) == AllBytesOf(UU, lines) + LineBytesOf(UU, line)
  {
    hide AllBytesOf, LineBytesOf;
    BytesOfNone();
    BytesOfFirst(lines + [line]);
    if lines == [] {
      assert (lines + [line])[1..] == [];
    } else {
      AllBytesAppend(lines[1..], line);
      assert (lines + [line])[1..] == lines[1..] + [line];
      BytesOfFirst(lines);
      Regroup(LineBytesOf(UU, lines[0]), AllBytesOf(UU, lines[1..]), LineBytesOf(UU, line), []);
    }
  }

  lemma BytesOfNone()
    ensures AllBytesOf(UU, []) == []
  {
  }

  lemma BytesOfFirst(lines: seq<seq<Byte>>)
    requires lines != []
    ensures AllBytesOf(UU, lines) == LineBytesOf(UU, lines[0]) + AllBytesOf(UU, lines[1..])
  {
    hide LineBytesOf;
  }

  /** How n more lines change what is held back: nothing is held once four lines have been seen in all. */
  predicate Counts(m: Machine, n: nat, m': Machine) {
    if m.trusted || |m.saved| + n >= 4 then m'.trusted
    else !m'.trusted && |m'.saved| == |m.saved| + n && m'.out == m.out
  }

  /** What an encoded line does: its bytes are held or written, or nothing is held any more. */
  predicate TookLine(m: Machine, d: seq<Byte>, o: Outcome)
    requires |d| <= 45
  {
    o.Continue? && Reading(o.m)
    && if Drops(m, d) then !o.m.trusted && o.m.saved == [] && o.m.out == m.out
       else
         && Held(o.m) == Held(m) + d && o.m.phase == (if |d| < 45 then End else Data) && Counts(m, 1, o.m)
         && o.m.bhflag == m.bhflag && o.m.run == (if m.trusted then m.run + 1 else m.run)
  }

  lemma DataLineHolds(m: Machine, d: seq<Byte>)
    requires Reading(m) && |d| <= 45
    ensures TookLine(m, d, DataLine(UU, m, LineOf(UU, d) + [NL]))
  {
    hide DataVerdict, Decoded, LineOf, UuTest, LooksBinhex;
    var p := LineOf(UU, d) + [NL];
    EncodedLineAccepted(m, d);
    if !Drops(m, d) {
      LineRoundTrip(UU, d, [NL]);
      assert LineBytesOf(UU, p) == d;
      LineShape(d);
      assert At(p, 0) == UuChar(|d|);
      AllBytesAppend(m.saved, p);
      assert m.out + AllBytesOf(UU, m.saved) + d == m.out + (AllBytesOf(UU, m.saved) + d);
      assert m.saved == [] ==> AllBytesOf(UU, m.saved) == [];
    }
  }

  lemma EncodedStep(options: Options, m: Machine, d: seq<Byte>)
    requires Reading(m) && |d| <= 45
    ensures Step(UU, options, m, LineOf(UU, d) + [NL])
      == if HitsBoundary(options, LineOf(UU, d) + [NL]) then Stop(m) else DataLine(UU, m, LineOf(UU, d) + [NL])
  {
    hide DataLine, Contains, LineOf, HitsBoundary;
    LineShape(d);
    var p := LineOf(UU, d) + [NL];
    NotACutLine(LineOf(UU, d));
    assert p[0] == UuChar(|d|) && At(p, 0) == p[0];
    assert Cut(p) == p;
    if StartsWith(p, END_) {
      StartByte(p, END_, 0);
      assert false;
    }
  }

  lemma LineIsPlain(d: seq<Byte>)
    requires |d| <= 45
    ensures PlainLine(LineOf(UU, d)) && 1 <= |LineOf(UU, d)| <= 61
  {
    LineShape(d);
  }

  /** Only a line of 13 bytes begins with a dash, so a full line is never taken for a MIME boundary. */
  lemma HitsNeedDash(options: Options, d: seq<Byte>)
    requires |d| <= 45 && HitsBoundary(options, LineOf(UU, d) + [NL])
    ensures |d| == 13
  {
    hide LineOf;
    LineShape(d);
    StartByte(LineOf(UU, d) + [NL], [DASH, DASH] + options.boundary.value, 0);
  }

  /** Reading one encoded line off the front of a file. */
  lemma RunOneLine(options: Options, m: Machine, d: seq<Byte>, rest: seq<Byte>)
    requires Reading(m) && |d| <= 45
    ensures HitsBoundary(options, LineOf(UU, d) + [NL]) ==>
      Run(UU, options, m, LineOf(UU, d) + [NL] + rest) == Stop(m)
    ensures !HitsBoundary(options, LineOf(UU, d) + [NL]) ==>
      var r := DataLine(UU, m, LineOf(UU, d) + [NL]);
      TookLine(m, d, r) && Run(UU, options, m, LineOf(UU, d) + [NL] + rest) == Run(UU, options, r.m, rest)
  {
    hide DataLine, Step, LineOf, FgetsLength, FpLine, Held, HitsBoundary, Run, Counts, Drops;
    LineIsPlain(d);
    ReadPlainLine(LineOf(UU, d), rest, LINE_BUFFER);
    RunNext(UU, options, m, LineOf(UU, d) + [NL] + rest);
    EncodedStep(options, m, d);
    DataLineHolds(m, d);
  }

  // ---------------------------------------------------------------- the data lines

  /** The bytes of the last line, if it is not a full one. */
  function LastBytes(d: seq<Byte>): seq<Byte> {
    d[|d| - |d| % 45..]
  }

  /** The last line looks like the MIME boundary: two dashes and the boundary's text. */
  predicate CutShort(options: Options, d: seq<Byte>) {
    HitsBoundary(options, LineOf(UU, LastBytes(d)) + [NL])
  }

  /** The line of thirteen bytes 52 begins with two dashes and a number sign. */
  lemma DashesCutShort()
    ensures CutShort(Options(true, Some([35])), seq(13, _ => 52))
  {
    var d: seq<Byte> := seq(13, _ => 52);
    assert LastBytes(d) == d;
    var line := LineOf(UU, d) + [NL];
    LineShape(d);
    assert Body(UU, d) == Quad(UU, 52, 52, 52) + Body(UU, d[3..]);
    assert line[..3] == [DASH, DASH, 35];
  }

  function LineCount(d: seq<Byte>): nat {
    (|d| + 44) / 45
  }

  lemma OneLineLess(d: seq<Byte>)
    requires |d| > 45
    ensures LastBytes(d[45..]) == LastBytes(d) && LineCount(d) == 1 + LineCount(d[45..])
  {
  }

  lemma TextFirstLine(d: seq<Byte>, rest: seq<Byte>)
    requires d != []
    ensures var n := Min(|d|, 45);
      TextOf(UU, d) + rest == LineOf(UU, d[..n]) + [NL] + (TextOf(UU, d[n..]) + rest)
  {
    hide LineOf, TextOf;
    TextFirst(UU, d, Min(|d|, 45));
  }

  lemma CountsOneMore(m: Machine, m1: Machine, n: nat, m2: Machine)
    requires Counts(m, 1, m1) && Counts(m1, n, m2) && (m1.trusted ==> m1.saved == [])
    ensures Counts(m, 1 + n, m2)
  {
  }

  /** How many lines it takes until the input is trusted. */
  function Needed(m: Machine): nat {
    if m.trusted || |m.saved| > 3 then 0 else 4 - |m.saved|
  }

  /** None of the first n lines looks like BinHex. */
  predicate NoBinhex(flag: nat, n: nat, d: seq<Byte>)
    decreases n
  {
    n == 0 || d == []
    || (!LooksBinhex(flag, d[..Min(|d|, 45)]) && NoBinhex(flag, n - 1, d[Min(|d|, 45)..]))
  }

  lemma {:induction false} NoBinhexBefore(n: nat, d: seq<Byte>)
    ensures NoBinhex(0, n, d)
    decreases n
  {
    if n > 0 && d != [] {
      NotBinhex(d[..Min(|d|, 45)]);
      NoBinhexBefore(n - 1, d[Min(|d|, 45)..]);
    }
  }

  /** Reading a first line that is not taken for the boundary. */
  lemma RunFirst(options: Options, m: Machine, d: seq<Byte>, rest: seq<Byte>) returns (m': Machine)
    requires Reading(m) && d != [] && !CutShort(options, d)
    ensures var n := Min(|d|, 45);
      && TookLine(m, d[..n], Continue(m')) && !CutShort(options, d[n..])
      && Run(UU, options, m, TextOf(UU, d) + rest) == Run(UU, options, m', TextOf(UU, d[n..]) + rest)
  {
    hide LineOf, Run, DataLine, TextOf, HitsBoundary, TookLine;
    var n := Min(|d|, 45);
    TextFirstLine(d, rest);
    assert |d| < 45 ==> LastBytes(d) == d[..n];
    if HitsBoundary(options, LineOf(UU, d[..n]) + [NL]) {
      HitsNeedDash(options, d[..n]);
      assert false;
    }
    RunOneLine(options, m, d[..n], TextOf(UU, d[n..]) + rest);
    TookReads(m, d[..n], DataLine(UU, m, LineOf(UU, d[..n]) + [NL]));
    m' := DataLine(UU, m, LineOf(UU, d[..n]) + [NL]).m;
    if |d| > 45 {
      OneLineLess(d);
    } else {
      NothingCutShort(options, d[n..]);
    }
  }

  lemma TookReads(m: Machine, d: seq<Byte>, o: Outcome)
    requires |d| <= 45 && TookLine(m, d, o)
    ensures o == Continue(o.m) && Reading(o.m)
  {
  }

  lemma NothingCutShort(options: Options, d: seq<Byte>)
    requires d == []
    ensures !CutShort(options, d)
  {
    if CutShort(options, d) { HitsNeedDash(options, LastBytes(d)); }
  }

  /** Reading all data lines when none is dropped. */
  lemma {:induction false} RunText(options: Options, m: Machine, d: seq<Byte>, rest: seq<Byte>) returns (m': Machine)
    requires Reading(m) && !CutShort(options, d) && NoBinhex(m.bhflag, Needed(m), d)
    ensures Reading(m') && Held(m') == Held(m) + d && Counts(m, LineCount(d), m')
    ensures m'.bhflag == m.bhflag
    ensures m'.run == m.run + if LineCount(d) > Needed(m) then LineCount(d) - Needed(m) else 0
    ensures d != [] ==> m'.phase == if |d| % 45 != 0 then End else Data
    ensures Run(UU, options, m, TextOf(UU, d) + rest) == Run(UU, options, m', rest)
    decreases |d|
  {
    hide LineOf, Held, Run, DataLine, TextOf, CutShort, LooksBinhex;
    if d == [] {
      m' := m;
      NoText(UU);
      assert [] + rest == rest;
      assert Held(m) + d == Held(m);
      CountsNone(m);
    } else {
      var n := Min(|d|, 45);
      var first, others := d[..n], d[n..];
      var m1 := RunFirst(options, m, d, rest);
      LessNeeded(m, m1);
      hide Counts, NoBinhex;
      if |d| > 45 {
        OneLineLess(d);
        m' := RunText(options, m1, others, rest);
        CountsOneMore(m, m1, LineCount(others), m');
        assert Held(m) + first + others == Held(m) + d;
      } else {
        m' := m1;
        assert others == [] && first == d;
        NoText(UU);
        assert [] + rest == rest;
      }
    }
  }

  lemma LessNeeded(m: Machine, m1: Machine)
    requires Reading(m) && Reading(m1) && Counts(m, 1, m1)
    ensures Needed(m1) == (if Needed(m) == 0 then 0 else Needed(m) - 1) && (m.trusted <==> Needed(m) == 0)
    ensures !m1.trusted ==> m1.out == m.out
  {
  }

  /** Reading all data lines, whatever becomes of them: nothing is added to them. */
  lemma {:induction false} RunAnyText(options: Options, m: Machine, d: seq<Byte>, rest: seq<Byte>)
    returns (m': Machine)
    requires Reading(m) && !CutShort(options, d)
    ensures Reading(m') && |Held(m')| <= |Held(m)| + |d|
    ensures Run(UU, options, m, TextOf(UU, d) + rest) == Run(UU, options, m', rest)
    decreases |d|
  {
    hide LineOf, Run, DataLine, TextOf, CutShort, Drops, Counts, AllBytesOf;
    if d == [] {
      m' := m;
      NoText(UU);
      assert [] + rest == rest;
    } else {
      var m1 := RunFirst(options, m, d, rest);
      BytesOfNone();
      m' := RunAnyText(options, m1, d[Min(|d|, 45)..], rest);
    }
  }

  /** A line that looks like BinHex before the input is trusted is missing in the end, with all that was held back. */
  lemma {:induction false} RunTextDrops(options: Options, m: Machine, d: seq<Byte>, rest: seq<Byte>)
    returns (m': Machine)
    requires Reading(m) && !CutShort(options, d) && !NoBinhex(m.bhflag, Needed(m), d)
    ensures Reading(m') && |Held(m')| < |m.out| + |d|
    ensures Run(UU, options, m, TextOf(UU, d) + rest) == Run(UU, options, m', rest)
    decreases |d|
  {
    hide LineOf, Run, DataLine, TextOf, CutShort, Counts, AllBytesOf, LooksBinhex;
    var first, others := d[..Min(|d|, 45)], d[Min(|d|, 45)..];
    var m1 := RunFirst(options, m, d, rest);
    if Drops(m, first) {
      BytesOfNone();
      m' := RunAnyText(options, m1, others, rest);
    } else {
      LessNeeded(m, m1);
      m' := RunTextDrops(options, m1, others, rest);
    }
  }

  lemma CountsNone(m: Machine)
    requires |m.saved| <= 3
    ensures Counts(m, LineCount([]), m)
  {
  }

  /** When the last line looks like the boundary the reading stops in front of it. */
  lemma {:induction false} RunTextStops(options: Options, m: Machine, d: seq<Byte>, rest: seq<Byte>)
    requires Reading(m) && CutShort(options, d)
    ensures var r := Run(UU, options, m, TextOf(UU, d) + rest); r.Stop? && r.m.phase != Done
    decreases |d|
  {
    hide LineOf, Run, DataLine, TextOf, HitsBoundary, TookLine;
    HitsNeedDash(options, LastBytes(d));
    var n := Min(|d|, 45);
    TextFirstLine(d, rest);
    RunOneLine(options, m, d[..n], TextOf(UU, d[n..]) + rest);
    if |d| < 45 {
      assert LastBytes(d) == d == d[..n];
    } else {
      if HitsBoundary(options, LineOf(UU, d[..n]) + [NL]) { HitsNeedDash(options, d[..n]); }
      TookReads(m, d[..n], DataLine(UU, m, LineOf(UU, d[..n]) + [NL]));
      assert |d| > 45;
      OneLineLess(d);
      RunTextStops(options, DataLine(UU, m, LineOf(UU, d[..n]) + [NL]).m, d[n..], rest);
    }
  }

  // ---------------------------------------------------------------- the whole file

  /** The begin line after the word: the mode in octal, 0644 if there is none, and the name. */
  function Header(mode: nat, name: seq<Byte>): seq<Byte> {
    Printed(if mode == 0 then 420 else mode, 8) + [SPACE] + name
  }

  /** The whole file that UUEncodeToStream writes: begin line, data lines, an empty data line, end line, blank line. */
  function EncodedFile(header: seq<Byte>, d: seq<Byte>): seq<Byte> {
    BEGIN_ + header + [NL] + TextOf(UU, d) + [UuChar(0), NL] + END_ + [NL] + [NL]
  }

  /** UUEncodeToStream for UU: writes the whole file around the encoded lines. */
  method EncodeToStream(mode: nat, name: seq<Byte>, infile: seq<Byte>) returns (outfile: seq<Byte>)
    ensures outfile == EncodedFile(Header(mode, name), infile)
  {
    hide Printed;
    var themode := if mode == 0 then 420 else mode;
    outfile := BEGIN_ + (Printed(themode, 8) + [SPACE] + name) + [NL];
    var text, pos := EncodeStream(UU, infile, 0, 0);
    assert infile[0..|infile|] == infile;
    outfile := outfile + text;
    outfile := outfile + [UuChar(0), NL] + END_ + [NL];
    outfile := outfile + [NL];
  }

  lemma RunEnd(options: Options, m: Machine, rest: seq<Byte>)
    requires Reading(m) && m.phase == End
    ensures Run(UU, options, m, END_ + [NL] + rest) == Stop(m.(phase := Done))
  {
    hide FgetsLength, FpLine, Run;
    ReadPlainLine(END_, rest, LINE_BUFFER);
    RunNext(UU, options, m, END_ + [NL] + rest);
    var line := END_ + [NL];
    assert line == [101, 110, 100, 10];
    assert line[..3] == END_;
    assert Cut(line) == line && At(line, 0) == 101;
  }

  lemma BeginStep(options: Options, raw: seq<Byte>)
    requires |raw| >= 6 && raw[..6] == BEGIN_
    ensures Step(UU, options, FRESH, raw) == Continue(FRESH.(phase := Data))
  {
    hide DataLine, Contains;
    var line := Cut(raw);
    assert raw[0] == raw[..6][0] == 98;
    assert line[0] == 98 && line[..6] == BEGIN_;
    if StartsWith(line, UPPER_BEGIN) {
      StartByte(line, UPPER_BEGIN, 0);
      assert false;
    }
    if HitsBoundary(options, line) {
      StartByte(line, [DASH, DASH] + options.boundary.value, 0);
      assert false;
    }
  }

  /** The part of the begin line that does not fit the line buffer, with the newline that ends it. */
  function Overflow(header: seq<Byte>): seq<Byte> {
    var line := BEGIN_ + header + [NL];
    if |line| < LINE_BUFFER then [] else line[LINE_BUFFER - 1..]
  }

  /** Reads on to the end of the text. */
  function ReadOn(options: Options, m: Machine, text: seq<Byte>): Outcome
    decreases |text|
  {
    if text == [] then Continue(m)
    else
      var k := FgetsLength(text, LINE_BUFFER);
      var o := Step(UU, options, m, FpLine(text[..k], LINE_BUFFER));
      if o.Continue? then ReadOn(options, o.m, text[k..]) else o
  }

  /** What a begin line leaves: a fresh machine, unless it overflows the line buffer. */
  function Opened(options: Options, header: seq<Byte>): Outcome {
    ReadOn(options, FRESH.(phase := Data), Overflow(header))
  }

  lemma StepReading(options: Options, m: Machine, raw: seq<Byte>)
    requires Reading(m)
    ensures var o := Step(UU, options, m, raw); o.Continue? ==> Reading(o.m)
  {
    hide Contains, HitsBoundary, DataVerdict, LineBytesOf, AllBytesOf, Cut, StartsWith;
  }

  /** The rest of a line is read alike whatever comes after its newline. */
  lemma PieceOfLine(x: seq<Byte>, rest: seq<Byte>)
    requires PlainLine(x)
    ensures var line := x + [NL];
      var k := FgetsLength(line, LINE_BUFFER);
      && FgetsLength(line + rest, LINE_BUFFER) == k && (line + rest)[..k] == line[..k]
      && k == (if |x| + 1 < LINE_BUFFER then |x| + 1 else LINE_BUFFER - 1)
      && (k <= |x| ==> line[k..] == x[k..] + [NL] && FpLine(line[..k], LINE_BUFFER) == x[..k])
      && (k > |x| ==> line[k..] == [] && FpLine(line[..k], LINE_BUFFER) == line)
  {
    var line := x + [NL];
    assert line + rest == x + ([NL] + rest);
    UntilAt(x, [NL] + rest, NL);
    UntilAt(x, [NL], NL);
    if |x| + 1 < LINE_BUFFER {
      assert line + [] == line;
      ReadPlainLine(x, [], LINE_BUFFER);
    } else {
      var k := LINE_BUFFER - 1;
      assert line[..k] == x[..k];
      UntilNone(x[..k], 0);
      assert x[..k][..k] == x[..k];
    }
  }

  /** A line read in pieces. */
  lemma {:induction false} RunOn(options: Options, m: Machine, x: seq<Byte>, rest: seq<Byte>)
    requires Reading(m) && PlainLine(x)
    ensures var o := ReadOn(options, m, x + [NL]);
      && (o.Continue? ==> Reading(o.m))
      && Run(UU, options, m, x + [NL] + rest) == if o.Continue? then Run(UU, options, o.m, rest) else o
    decreases |x|
  {
    hide Run, Step, FgetsLength, FpLine;
    var line := x + [NL];
    PieceOfLine(x, rest);
    var k := FgetsLength(line, LINE_BUFFER);
    var raw := FpLine(line[..k], LINE_BUFFER);
    StepReading(options, m, raw);
    RunNext(UU, options, m, line + rest);
    ReadOnNext(options, m, line);
    var o := Step(UU, options, m, raw);
    if o.Continue? {
      if k <= |x| {
        assert (line + rest)[k..] == x[k..] + [NL] + rest;
        RunOn(options, o.m, x[k..], rest);
      } else {
        assert (line + rest)[k..] == rest;
        ReadOnNothing(options, o.m);
      }
    }
  }

  lemma ReadOnNext(options: Options, m: Machine, text: seq<Byte>)
    requires text != []
    ensures var k := FgetsLength(text, LINE_BUFFER);
      var o := Step(UU, options, m, FpLine(text[..k], LINE_BUFFER));
      ReadOn(options, m, text) == if o.Continue? then ReadOn(options, o.m, text[k..]) else o
  {
    hide Step, FgetsLength, FpLine;
  }

  lemma ReadOnNothing(options: Options, m: Machine)
    ensures ReadOn(options, m, []) == Continue(m)
  {
  }

  /** The begin line, of any length. */
  lemma RunBegin(options: Options, header: seq<Byte>, rest: seq<Byte>)
    requires PlainLine(header)
    ensures var o := Opened(options, header);
      && (o.Continue? ==> Reading(o.m))
      && Run(UU, options, FRESH, BEGIN_ + header + [NL] + rest)
         == if o.Continue? then Run(UU, options, o.m, rest) else o
  {
    hide FgetsLength, FpLine, Step, Run, ReadOn;
    var s := BEGIN_ + header;
    var line := s + [NL];
    PieceOfLine(s, rest);
    RunNext(UU, options, FRESH, line + rest);
    var k := FgetsLength(line, LINE_BUFFER);
    assert FpLine(line[..k], LINE_BUFFER)[..6] == BEGIN_;
    BeginStep(options, FpLine(line[..k], LINE_BUFFER));
    var m := FRESH.(phase := Data);
    if k <= |s| {
      assert (line + rest)[k..] == s[k..] + [NL] + rest;
      RunOn(options, m, s[k..], rest);
      assert Overflow(header) == s[k..] + [NL];
    } else {
      assert (line + rest)[k..] == rest;
      ReadOnNothing(options, m);
      assert Overflow(header) == [];
    }
  }

  /** A begin line that fits, or only lacks room for its newline, leaves a fresh machine. */
  lemma ShortBegin(options: Options, header: seq<Byte>)
    requires |header| <= 4089
    ensures var o := Opened(options, header);
      o.Continue? && Reading(o.m) && o.m == Entered(o.m.phase, 0, [])
  {
    var line := BEGIN_ + header + [NL];
    if |header| == 4089 {
      assert Overflow(header) == [NL];
      var none: seq<Byte> := [];
      assert none + [NL] + none == [NL] && none + [NL] == [NL];
      ReadPlainLine(none, none, LINE_BUFFER);
      ReadOnNext(options, FRESH.(phase := Data), [NL]);
      StepBlank(UU, options, FRESH.(phase := Data), [NL]);
    }
    hide ReadOn;
    ReadOnNothing(options, FRESH.(phase := Data));
    if |header| == 4089 { ReadOnNothing(options, Entered(End, 0, [])); }
  }

  lemma RunBlank(options: Options, m: Machine, rest: seq<Byte>) returns (m': Machine)
    requires m.phase != Done
    ensures Run(UU, options, m, [NL] + rest) == Run(UU, options, m', rest)
    ensures m' == m.(phase := if m.phase == Data then End else m.phase,
      trusted := if m.run > 5 then false else m.trusted, saved := if m.run > 5 then [] else m.saved, run := 0)
  {
    hide Run, FgetsLength, FpLine;
    assert [] + [NL] + rest == [NL] + rest && [] + [NL] == [NL];
    ReadPlainLine([], rest, LINE_BUFFER);
    RunNext(UU, options, m, [NL] + rest);
    StepBlank(UU, options, m, [NL]);
    m' := Step(UU, options, m, [NL]).m;
  }

  /** The end of a file: an empty data line, the end line, and whatever follows. */
  lemma RunTail(options: Options, m: Machine, rest: seq<Byte>)
    requires Reading(m)
    ensures var r := Run(UU, options, m, [UuChar(0), NL] + END_ + [NL] + rest);
      r.Stop? && r.m.phase == Done && Output(UU, r.m) == Held(m)
  {
    hide Run, Held, DataLine, HitsBoundary;
    var endPart := END_ + [NL] + rest;
    assert LineOf(UU, []) == [UuChar(0)];
    assert [UuChar(0), NL] + END_ + [NL] + rest == LineOf(UU, []) + [NL] + endPart;
    if HitsBoundary(options, LineOf(UU, []) + [NL]) { HitsNeedDash(options, []); }
    RunOneLine(options, m, [], endPart);
    var m2 := DataLine(UU, m, LineOf(UU, []) + [NL]).m;
    RunEnd(options, m2, rest);
    HeldIsOutput(m2, m2.(phase := Done));
    assert Held(m) + [] == Held(m);
  }

  /**
   End to end, for every mode, name and content. A begin line that overflows the line buffer is read on as data, which
   can end the reading. Otherwise no line needs repair, and the decoder reaches the end unless the last line looks like
   the MIME boundary it was given. Then the content has come back if and only if the overflow left no bytes, and after
   BinHex in it no line looks like more of that before the decoder trusts its input.
   */
  lemma UuEndToEnd(options: Options, header: seq<Byte>, d: seq<Byte>)
    requires PlainLine(header)
    ensures var r, o := Run(UU, options, FRESH, EncodedFile(header, d)), Opened(options, header);
      if !o.Continue? then r == o
      else
        && r.Stop? && (r.m.phase == Done <==> !CutShort(options, d))
        && (r.m.phase == Done && (o.m.trusted || o.m.out == [] || o.m.bhflag == 0) ==>
              (Output(UU, r.m) == d <==> Held(o.m) == [] && NoBinhex(o.m.bhflag, Needed(o.m), d)))
  {
    hide Run, TextOf, Held, CutShort, Counts, Opened, ReadOn, NoBinhex, Needed;
    var tail := [UuChar(0), NL] + END_ + [NL] + [NL];
    assert EncodedFile(header, d) == BEGIN_ + header + [NL] + (TextOf(UU, d) + tail);
    RunBegin(options, header, TextOf(UU, d) + tail);
    var o := Opened(options, header);
    if o.Continue? {
      if CutShort(options, d) {
        RunTextStops(options, o.m, d, tail);
      } else if NoBinhex(o.m.bhflag, Needed(o.m), d) {
        var m1 := RunText(options, o.m, d, tail);
        RunTail(options, m1, [NL]);
        OnlyWithNothing(Held(o.m), d);
      } else {
        var m1 := RunTextDrops(options, o.m, d, tail);
        RunTail(options, m1, [NL]);
        DropsMeans(o.m, d);
      }
    }
  }

  /**
   What comes after the first 4095 characters of the begin line is read as data: if it is itself an encoded line its
   bytes come out in front of the content.
   */
  lemma LongNameIsData(options: Options, header: seq<Byte>, x: seq<Byte>, d: seq<Byte>)
    requires PlainLine(header) && |header| == 4089 && |x| <= 45
    requires !CutShort(options, d) && !HitsBoundary(options, LineOf(UU, x) + [NL])
    ensures var r := Run(UU, options, FRESH, EncodedFile(header + LineOf(UU, x), d));
      r.Stop? && r.m.phase == Done && Output(UU, r.m) == x + d
  {
    hide Run, TextOf, Held, CutShort, HitsBoundary, Counts, LineOf, FgetsLength, FpLine, Step, DataLine, LooksBinhex,
      NoBinhex;
    var tail := [UuChar(0), NL] + END_ + [NL] + [NL];
    var text := TextOf(UU, d) + tail;
    var s, line := BEGIN_ + header, LineOf(UU, x);
    assert EncodedFile(header + line, d) == (s + line) + [NL] + text;
    LineIsPlain(x);
    PieceOfLine(s + line, text);
    RunNext(UU, options, FRESH, (s + line) + [NL] + text);
    assert (s + line)[..|s|] == s && s[..6] == BEGIN_ && ((s + line) + [NL] + text)[|s|..] == line + [NL] + text;
    BeginStep(options, s);
    var m := FRESH.(phase := Data);
    NothingHeld(m);
    NotBinhex(x);
    RunOneLine(options, m, x, text);
    var m0 := DataLine(UU, m, line + [NL]).m;
    NoBinhexBefore(Needed(m0), d);
    var m1 := RunText(options, m0, d, tail);
    RunTail(options, m1, [NL]);
    assert [] + x + d == x + d;
  }

  lemma OnlyWithNothing(x: seq<Byte>, d: seq<Byte>)
    ensures x + d == d <==> x == []
  {
    assert |x + d| == |x| + |d|;
    assert [] + d == d;
  }

  lemma DropsMeans(m: Machine, d: seq<Byte>)
    requires !NoBinhex(m.bhflag, Needed(m), d)
    ensures !m.trusted && m.bhflag != 0
  {
    NoBinhexBefore(Needed(m), d);
  }

  /** With a begin line that fits, the content comes back whenever the end is reached. */
  lemma ShortHeader(options: Options, header: seq<Byte>, d: seq<Byte>)
    requires PlainLine(header) && |header| <= 4089
    ensures var r := Run(UU, options, FRESH, EncodedFile(header, d));
      && r.Stop? && (r.m.phase == Done <==> !CutShort(options, d))
      && (r.m.phase == Done ==> Output(UU, r.m) == d)
  {
    hide Run, EncodedFile, CutShort, Opened, Output;
    UuEndToEnd(options, header, d);
    ShortBegin(options, header);
    var o := Opened(options, header);
    NothingHeld(o.m);
    NoBinhexBefore(Needed(o.m), d);
  }

  /** Encoding a file and decoding what was written: exactly when it gives the file back. */
  method EncodeAndDecode(options: Options, mode: nat, name: seq<Byte>, infile: seq<Byte>)
    returns (ok: bool, state: Phase, dataout: seq<Byte>)
    requires PlainLine(name)
    ensures var o := Opened(options, Header(mode, name));
      && (ok <==> !o.NeedsRepair?)
      && (o.Stop? ==> state == o.m.phase)
      && (o.Continue? ==> (state == Done <==> !CutShort(options, infile)))
      && (o.Continue? && state == Done && (o.m.trusted || o.m.out == [] || o.m.bhflag == 0) ==>
            (dataout == infile <==> Held(o.m) == [] && NoBinhex(o.m.bhflag, Needed(o.m), infile)))
    ensures |Header(mode, name)| <= 4089 ==>
      ok && (state == Done <==> !CutShort(options, infile)) && (state == Done ==> dataout == infile)
  {
    hide Run, EncodedFile, CutShort, Printed, Output, Opened, Held, NoBinhex, Needed;
    HeaderIsPlain(mode, name);
    UuEndToEnd(options, Header(mode, name), infile);
    if |Header(mode, name)| <= 4089 { ShortHeader(options, Header(mode, name), infile); }
    var file := EncodeToStream(mode, name, infile);
    var bhflag;
    ok, state, bhflag, dataout := DecodePart(UU, options, file, Begin, 0, []);
  }

  /** The begin line reads back: the mode in octal, with 0644 for none, and the name after a space. */
  lemma HeaderReads(mode: nat, name: seq<Byte>)
    ensures Value(Header(mode, name), 8, 0) == if mode == 0 then 420 else mode
    ensures exists k :: 0 < k < |Header(mode, name)| && Header(mode, name)[k] == SPACE
                        && AllDigits(Header(mode, name)[..k], 8) && Header(mode, name)[k + 1..] == name
  {
    hide Printed, Value;
    var themode := if mode == 0 then 420 else mode;
    var digits, h := Printed(themode, 8), Header(mode, name);
    PrintedValue(themode, 8);
    assert h == digits + ([SPACE] + name);
    ReadPrinted(themode, 8, [SPACE] + name);
    assert h[..|digits|] == digits && h[|digits|] == SPACE && h[|digits| + 1..] == name;
  }

  /** After the end line comes a blank line. */
  lemma FileEndsBlank(header: seq<Byte>, d: seq<Byte>)
    ensures var s := EncodedFile(header, d);
      |s| >= 6 && s[|s| - 6..] == [NL] + END_ + [NL, NL] && StartsWith(s, BEGIN_ + header + [NL])
  {
    hide TextOf;
    var s, start := EncodedFile(header, d), BEGIN_ + header + [NL];
    assert s[..|start|] == start;
  }

  lemma HeaderIsPlain(mode: nat, name: seq<Byte>)
    requires PlainLine(name)
    ensures PlainLine(Header(mode, name))
  {
    hide Printed;
    DigitsArePlain(if mode == 0 then 420 else mode, 8);
  }

  lemma NothingHeld(m: Machine)
    requires m.out == [] && m.saved == []
    ensures Held(m) == []
  {
  }

  lemma HeldIsOutput(m: Machine, done: Machine)
    requires done == m.(phase := Done)
    ensures Output(UU, done) == Held(m)
  {
  }
}
