/** What the uudecoder does with lines that the encoder does not write, or not there. */
module UuLaws {
  import opened Prelude
  import opened ByteText
  import opened DecoderLines
  import opened UuCodec
  import opened ValidData
  import opened UuPart
  import opened UuRoundTrip

  // ---------------------------------------------------------------- blank lines

  /**
   A blank line in the data. When more than five lines in a row were written at once, as it is with ten lines or more,
   the decoder starts to hold lines back again, and loses what comes then if it has fewer than four lines.
   */
  lemma BlankLineBetween(options: Options, d: Text, e: Text)
    requires options.boundary.None?
    ensures var r := Run(UU, options, FRESH.(phase := Data), TextOf(UU, d) + ([NL] + (TextOf(UU, e) + [NL])));
      && r.Stop? && r.m.phase != Done
      && Output(UU, r.m) ==
           if LineCount(d) >= 10 then (if LineCount(e) >= 4 then d + e else d)
           else if LineCount(d) + LineCount(e) >= 4 then d + e else []
  {
    hide Run, TextOf, CutShort, LineCount;
    var m0 := FRESH.(phase := Data);
    NoneCutShort(options, d);
    NoneCutShort(options, e);
    NoBinhexBefore(Needed(m0), d);
    HeldNothing(m0);
    var m1 := RunText(options, m0, d, [NL] + (TextOf(UU, e) + [NL]));
    var m2 := RunBlank(options, m1, TextOf(UU, e) + [NL]);
    NoBinhexBefore(Needed(m2), e);
    HeldNothing(m1);
    HeldNothing(m2);
    var m3 := RunText(options, m2, e, [NL]);
    HeldNothing(m3);
    assert [NL] + [] == [NL];
    var m4 := RunBlank(options, m3, []);
    RunStops(UU, options, m4, []);
    NoLines(e);
    assert [] + d == d && [] + e == e && d + [] == d;
  }

  lemma NoneCutShort(options: Options, d: Text)
    requires options.boundary.None?
    ensures !CutShort(options, d)
  {
  }

  lemma HeldNothing(m: Machine)
    ensures m.saved == [] ==> Held(m) == m.out
    ensures Held(m.(run := 0, phase := End)) == Held(m)
  {
  }

  lemma NoLines(d: Text)
    ensures LineCount(d) == 0 <==> d == []
  {
  }

  // ---------------------------------------------------------------- the end line

  /** The word "end" ends the file after a line that is not full, and after full lines only it does not. */
  lemma EndNeedsShortLine(options: Options, d: Text)
    requires options.boundary.None? && d != []
    ensures var r := Run(UU, options, FRESH.(phase := Data), TextOf(UU, d) + (END_ + [NL]));
      && (r.Stop? && r.m.phase == Done <==> |d| % 45 != 0)
      && (|d| % 45 != 0 ==> Output(UU, r.m) == d)
  {
    hide Run, TextOf, CutShort, LineCount;
    var m0 := FRESH.(phase := Data);
    NoneCutShort(options, d);
    NoBinhexBefore(Needed(m0), d);
    HeldNothing(m0);
    var m1 := RunText(options, m0, d, END_ + [NL]);
    assert [] + d == d && END_ + [NL] + [] == END_ + [NL];
    if |d| % 45 != 0 {
      RunEnd(options, m1, []);
      HeldIsOutput(m1, m1.(phase := Done));
    } else {
      EndAsData(options, m1);
    }
  }

  lemma EndAsData(options: Options, m: Machine)
    requires options.boundary.None? && Reading(m) && m.phase == Data
    ensures var r := Run(UU, options, m, END_ + [NL]); r.Stop? ==> r.m.phase != Done
  {
    hide FgetsLength, FpLine, Run, DataVerdict, LineBytesOf, AllBytesOf;
    assert END_ + [NL] + [] == END_ + [NL];
    ReadPlainLine(END_, [], LINE_BUFFER);
    RunNext(UU, options, m, END_ + [NL]);
    var line := END_ + [NL];
    assert line == [101, 110, 100, 10] && Cut(line) == line && At(line, 0) == 101;
    StepLine(UU, options, m, line);
    var o := Step(UU, options, m, line);
    RunStops(UU, options, o.m, []);
  }

  /** A full line leaves the decoder where it expects more data, any other line where the end line can come. */
  lemma FullLinesGoOn(e: Encoding, m: Machine, line: Text)
    requires e != B64 && line != [] && DataVerdict(e, m, line).0 == KindOf(e)
    ensures var o := DataLine(e, m, line);
      o.Continue? && (o.m.phase == Data <==> line[0] as char == if e == UU then 'M' else 'h')
      && (o.m.phase == Data || o.m.phase == End)
  {
    hide Decoded, AllBytesOf, Verdict;
  }

  // ---------------------------------------------------------------- the begin line

  /** A begin line may be in an HTML paragraph, and then in any mix of cases; data is expected after it. */
  lemma BeginLines(options: Options, m: Machine, line: Text, rest: Text)
    requires m.phase == Begin && options.boundary.None? && PlainLine(line) && |line| <= 4094
    requires StartsWith(line, BEGIN_) || StartsWithIgnoringCase(line, PRE_BEGIN)
    ensures Run(UU, options, m, line + [NL] + rest) == Run(UU, options, m.(phase := Data), rest)
    ensures forall i :: 0 <= i < 6 ==> BEGIN_[i] as char == "begin "[i]
    ensures forall i :: 0 <= i < 11 ==> PRE_BEGIN[i] as char == "<pre>begin "[i]
    ensures forall i :: 0 <= i < 3 ==> END_[i] as char == "end"[i]
  {
    hide FgetsLength, FpLine, Run, Contains;
    var raw := line + [NL];
    var cut := Cut(raw);
    assert StartsWith(line, BEGIN_) ==> line[0] == 98 by {
      if StartsWith(line, BEGIN_) { StartByte(line, BEGIN_, 0); }
    }
    assert StartsWithIgnoringCase(line, PRE_BEGIN) ==> Lower(line[0]) == 60;
    assert At(raw, 0) == raw[0] == line[0] == cut[0] && line[0] != 66;
    assert !StartsWith(cut, UPPER_BEGIN) by {
      if StartsWith(cut, UPPER_BEGIN) { StartByte(cut, UPPER_BEGIN, 0); }
    }
    assert StartsWith(line, BEGIN_) ==> cut[..6] == line[..6];
    ReadPlainLine(line, rest, LINE_BUFFER);
    RunNext(UU, options, m, raw + rest);
    StepLine(UU, options, m, raw);
  }

  // ---------------------------------------------------------------- other lines

  /** A line found to be in another encoding ends the trust, and what is held back is forgotten. */
  lemma ForeignLineForgets(e: Encoding, m: Machine, line: Text)
    requires e != B64 && var v := DataVerdict(e, m, line).0; v != Not && v != KindOf(e)
    ensures var o := DataLine(e, m, line);
      o.Continue? && !o.m.trusted && o.m.saved == [] && o.m.run == 0 && o.m.out == m.out && o.m.phase == m.phase
  {
    hide DataVerdict;
  }

  /**
   A line that announces a cut drops what is held back, while data is not trusted yet and mail not known to be MIME.
   */
  lemma CutLineDrops(e: Encoding, options: Options, m: Machine, raw: Text)
    requires e != B64 && !options.proper && !m.trusted && m.phase != Done && At(raw, 0) == 66
    requires StartsWith(Cut(raw), UPPER_BEGIN) && Contains(Cut(raw), CUT_HERE) && !HitsBoundary(options, Cut(raw))
    ensures Step(e, options, m, raw) == Continue(m.(saved := [], run := 0))
  {
    hide DataLine, Contains, HitsBoundary, StartsWith;
    StepLine(e, options, m, raw);
  }

  /** The two phrases of such a line. */
  lemma CutPhrases()
    ensures forall i :: 0 <= i < 5 ==> UPPER_BEGIN[i] as char == "BEGIN"[i]
    ensures forall i :: 0 <= i < 8 ==> CUT_HERE[i] as char == "CUT HERE"[i]
  {
  }
}
