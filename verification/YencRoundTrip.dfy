/** What UUDecodePart makes of a yEnc part that the encoder wrote. */
module YencRoundTrip {
  import opened Prelude
  import opened ByteText
  import opened DecoderLines
  import opened ValidData
  import Crc32
  import opened Yenc
  import opened YencFields
  import opened YencPart
  import opened Numerals
  import opened YencStream
  import opened YencEncoder

  // ---------------------------------------------------------------- data lines

  /** The decoder takes a data line of the encoder for the MIME boundary. */
  predicate Hits(options: Options, line: Text) {
    HitsBoundary(options, line + [NL])
  }

  predicate AnyHits(options: Options, lines: seq<Text>) {
    exists i :: 0 <= i < |lines| && Hits(options, lines[i])
  }

  /** Between data lines. */
  predicate Reading(m: Machine) {
    m.phase == Data && m.tf
  }

  lemma DataStep(options: Options, m: Machine, line: Text)
    requires Reading(m) && GoodLine(line) && !Hits(options, line)
    ensures Step(options, m, line + [NL]) == Continue(Took(m, Decode(line + [NL])))
  {
    hide Decode, Crc32.Crc, HitsBoundary, Contains;
    var raw := line + [NL];
    assert raw[0] == line[0] && At(raw, 0) == line[0];
    assert Cut(raw) == raw;
    StepLine(options, m, raw);
    if StartsWith(raw, YEND + [SPACE]) {
      StartByte(raw, YEND + [SPACE], 0);
      StartByte(raw, YEND + [SPACE], 1);
      assert false;
    }
  }

  lemma HitStep(options: Options, m: Machine, line: Text)
    requires Reading(m) && GoodLine(line) && Hits(options, line)
    ensures Step(options, m, line + [NL]) == Stop(m)
  {
    hide HitsBoundary, Contains;
    var raw := line + [NL];
    assert raw[0] == line[0] && At(raw, 0) == line[0];
    assert Cut(raw) == raw;
    StepLine(options, m, raw);
  }

  lemma RunDataLine(options: Options, m: Machine, line: Text, rest: Text)
    requires Reading(m) && GoodLine(line)
    ensures Run(options, m, line + [NL] + rest)
      == if Hits(options, line) then Stop(m) else Run(options, Took(m, Decode(line + [NL])), rest)
  {
    hide Run, Step, FgetsLength, FpLine, Decode, Crc32.Crc, Hits;
    ReadPlainLine(line, rest, LINE_BUFFER);
    RunNext(options, m, line + [NL] + rest);
    if Hits(options, line) { HitStep(options, m, line); } else { DataStep(options, m, line); }
  }

  /** After data lines that hold the bytes d. */
  function AfterData(m: Machine, d: Text, vlc: nat): Machine {
    Took(m, d).(vlc := vlc)
  }

  lemma AfterNothing(m: Machine)
    ensures AfterData(m, [], m.vlc) == m
  {
    hide Crc32.Crc;
    Crc32.CrcOfNothing(m.filecrc);
    Crc32.CrcOfNothing(m.partcrc);
    assert m.out + [] == m.out;
  }

  lemma AfterMore(m: Machine, a: Text, b: Text, vlc: nat)
    ensures AfterData(Took(m, a), b, vlc) == AfterData(m, a + b, vlc)
  {
    hide Crc32.Crc;
    Crc32.CrcChains(m.filecrc, a, b);
    Crc32.CrcChains(m.partcrc, a, b);
    assert m.out + a + b == m.out + (a + b);
  }

  lemma GoodLineDecodes(line: Text)
    requires GoodLine(line)
    ensures |Decode(line + [NL])| >= 1
  {
    assert (line + [NL])[1..] == line[1..] + [NL];
  }

  /** Reading the data lines. */
  lemma {:induction false} RunLines(options: Options, m: Machine, lines: seq<Text>, rest: Text)
    requires Reading(m) && AllGood(lines) && !AnyHits(options, lines)
    ensures Run(options, m, WithEnds(lines) + rest)
      == Run(options, AfterData(m, DecodeAll(lines), m.vlc + |lines|), rest)
    decreases |lines|
  {
    hide Run, Decode, GoodLine, Hits, Took;
    if lines == [] {
      AfterNothing(m);
      assert [] + rest == rest;
    } else {
      var line, d := lines[0], Decode(lines[0] + [NL]);
      assert WithEnds(lines) + rest == line + [NL] + (WithEnds(lines[1..]) + rest);
      RunDataLine(options, m, line, WithEnds(lines[1..]) + rest);
      TookKeeps(m, d);
      RestGood(options, lines);
      RunLines(options, Took(m, d), lines[1..], rest);
      AfterMore(m, d, DecodeAll(lines[1..]), m.vlc + |lines|);
    }
  }

  lemma TookKeeps(m: Machine, d: Text)
    ensures var t := Took(m, d);
      t.phase == m.phase && t.tf == m.tf && t.vlc == m.vlc + 1 && t.bhflag == m.bhflag && t.out == m.out + d
  {
  }

  lemma RestGood(options: Options, lines: seq<Text>)
    requires lines != [] && AllGood(lines)
    ensures GoodLine(lines[0]) && AllGood(lines[1..])
    ensures AnyHits(options, lines) <==> Hits(options, lines[0]) || AnyHits(options, lines[1..])
  {
    hide GoodLine, Hits;
    if AnyHits(options, lines[1..]) {
      var i :| 0 <= i < |lines| - 1 && Hits(options, lines[1..][i]);
      assert Hits(options, lines[i + 1]);
    }
    if AnyHits(options, lines) {
      var i :| 0 <= i < |lines| && Hits(options, lines[i]);
      if i > 0 { assert Hits(options, lines[1..][i - 1]); }
    }
  }

  /** A line taken for the boundary ends the part; it and what follows it are missing. */
  lemma {:induction false} RunLinesStop(options: Options, m: Machine, lines: seq<Text>, rest: Text)
    requires Reading(m) && AllGood(lines) && AnyHits(options, lines)
    ensures var r := Run(options, m, WithEnds(lines) + rest);
      r.Stop? && r.m.phase == Data && r.m.bhflag == m.bhflag && r.m.warnings == m.warnings
      && |r.m.out| < |m.out| + |DecodeAll(lines)|
    decreases |lines|
  {
    hide Run, Decode, GoodLine, Hits;
    var line, d := lines[0], Decode(lines[0] + [NL]);
    assert WithEnds(lines) + rest == line + [NL] + (WithEnds(lines[1..]) + rest);
    RestGood(options, lines);
    GoodLineDecodes(line);
    RunDataLine(options, m, line, WithEnds(lines[1..]) + rest);
    if !Hits(options, line) {
      RunLinesStop(options, Took(m, d), lines[1..], rest);
    }
  }

  // ---------------------------------------------------------------- the =yend line

  /** A line that the decoder takes for the end of the part. */
  predicate Ending(line: Text) {
    PlainLine(line) && |line| <= 254 && StartsWith(line, YEND + [SPACE])
  }

  lemma RunEnding(options: Options, m: Machine, line: Text, rest: Text)
    requires m.phase == Data && Ending(line)
    ensures Run(options, m, line + [NL] + rest) == Stop(EndLine(m, line + [NL]))
  {
    hide Run, FgetsLength, FpLine, Contains, EndLine;
    var raw := line + [NL];
    StartByte(line, YEND + [SPACE], 0);
    assert At(raw, 0) == raw[0] == line[0] == 61;
    assert Cut(raw) == raw && raw[..6] == line[..6];
    ReadPlainLine(line, rest, LINE_BUFFER);
    RunNext(options, m, raw + rest);
    StepLine(options, m, raw);
    if HitsBoundary(options, raw) {
      StartByte(raw, [DASH, DASH] + options.boundary.value, 0);
      assert false;
    }
    if StartsWith(raw, UPPER_BEGIN) {
      StartByte(raw, UPPER_BEGIN, 0);
      assert false;
    }
  }

  /** The data lines and the end line of a part. */
  lemma RunBody(options: Options, m: Machine, lines: seq<Text>, end: Text)
    requires Reading(m) && AllGood(lines) && Ending(end)
    ensures var r := Run(options, m, WithEnds(lines) + (end + [NL] + [NL]));
      if AnyHits(options, lines) then
        r.Stop? && r.m.phase == Data && r.m.bhflag == m.bhflag && r.m.warnings == m.warnings
        && |r.m.out| < |m.out| + |DecodeAll(lines)|
      else r == Stop(EndLine(AfterData(m, DecodeAll(lines), m.vlc + |lines|), end + [NL]))
  {
    hide Run, EndLine, Took, Ending, AnyHits, DecodeAll;
    if AnyHits(options, lines) {
      RunLinesStop(options, m, lines, end + [NL] + [NL]);
    } else {
      RunLines(options, m, lines, end + [NL] + [NL]);
      TookKeeps(m, DecodeAll(lines));
      RunEnding(options, AfterData(m, DecodeAll(lines), m.vlc + |lines|), end, [NL]);
    }
  }

  // ---------------------------------------------------------------- the header line

  /** The longest numbers: files are smaller than 2 ** 63 bytes. */
  const MAX_SIZE := 0x8000_0000_0000_0000

  lemma DecimalLength(n: nat)
    requires n <= MAX_SIZE + 1
    ensures 1 <= |Printed(n, 10)| <= 19 && AllDigits(Printed(n, 10), 10)
  {
    assert Power(10, 5) == 100000;
    assert Power(10, 10) == 100000 * 100000;
    assert Power(10, 15) == 100000 * 10000000000;
    assert Power(10, 19) == 10000 * 1000000000000000;
    PrintedLength(n, 10, 19);
    hide Printed;
    PrintedValue(n, 10);
  }

  /** A field with a number: nothing in it is another field or the end of a line. */
  lemma DecimalField(w: Word, n: nat)
    requires n <= MAX_SIZE + 1
    ensures var e := Decimal(w, n);
      IsKey(e.key) && NoSpace(e.value) && PlainLine(e.key + e.value) && 3 <= |e.key + e.value| <= 27
  {
    hide Printed;
    DecimalLength(n);
    PlainNumbers(n);
    KeysAreKeys(w);
    KeyIsPlain(w);
    PlainConcat(Key(w), Printed(n, 10));
  }

  lemma KeyIsPlain(w: Word)
    ensures PlainLine(Key(w))
  {
  }

  lemma PlainConcat(a: Text, b: Text)
    requires PlainLine(a) && PlainLine(b)
    ensures PlainLine(a + b)
  {
  }

  /** Entries of the encoder: keyword and number. */
  predicate Tidy(entries: seq<Entry>) {
    WellFormed(entries) && forall i :: 0 <= i < |entries| ==> PlainLine(entries[i].key + entries[i].value)
                                                              && |entries[i].key + entries[i].value| <= 27
  }

  lemma {:induction false} FieldsShape(entries: seq<Entry>)
    requires Tidy(entries)
    ensures PlainLine(Fields(entries)) && |Fields(entries)| <= 27 * |entries|
    decreases |entries|
  {
    if entries != [] {
      FieldsShape(entries[1..]);
      PlainConcat(entries[0].key + entries[0].value, Fields(entries[1..]));
    }
  }

  /** Sizes that the program's types can hold. */
  predicate Sized(totsize: nat, linperfile: int, partno: nat) {
    totsize < MAX_SIZE && partno <= totsize + 1 && Announces(totsize, linperfile, partno)
    && PartBegin(partno, linperfile) <= totsize + 1 && PartEnd(partno, linperfile, totsize) <= totsize
    && PartSize(partno, linperfile, totsize) <= totsize
  }

  lemma HeaderTidy(totsize: nat, linperfile: int, partno: nat)
    requires totsize < MAX_SIZE && partno <= totsize + 1
    ensures var f := HeaderFields(totsize, linperfile, partno);
      Tidy(f) && PlainLine(Fields(f)) && |Fields(f)| <= 81 && Fields(f) != [] && Fields(f)[0] == SPACE
  {
    hide Printed, NumParts, PlainLine, NoSpace;
    DecimalField(PartKey, partno);
    DecimalField(LineKey, 128);
    DecimalField(SizeKey, totsize);
    FieldsShape(HeaderFields(totsize, linperfile, partno));
  }

  /** The header line up to the name. */
  function BeforeName(totsize: nat, linperfile: int, partno: nat): Text {
    YBEGIN + Fields(HeaderFields(totsize, linperfile, partno))
  }

  /** What the decoder sees of the name: it cuts the line after 255 characters. */
  function NameRead(name: Text, totsize: nat, linperfile: int, partno: nat): Text {
    var room := 249 - |BeforeName(totsize, linperfile, partno)|;
    if |name| < room || room < 0 then name + [NL] else name[..room]
  }

  lemma CutHeader(name: Text, totsize: nat, linperfile: int, partno: nat)
    requires totsize < MAX_SIZE && partno <= totsize + 1
    ensures Cut(HeaderText(name, totsize, linperfile, partno) + [NL])
      == BeforeName(totsize, linperfile, partno) + (NAME_ + NameRead(name, totsize, linperfile, partno))
  {
    hide HeaderFields, Fields;
    HeaderTidy(totsize, linperfile, partno);
    var before := BeforeName(totsize, linperfile, partno);
    assert |before| <= 88;
    assert HeaderText(name, totsize, linperfile, partno) + [NL] == before + (NAME_ + (name + [NL]));
    CutAfter(before + NAME_, name, 249 - |before|);
    assert before + NAME_ + NameRead(name, totsize, linperfile, partno)
      == before + (NAME_ + NameRead(name, totsize, linperfile, partno));
    assert before + NAME_ + (name + [NL]) == before + (NAME_ + (name + [NL]));
  }

  lemma CutAfter(before: Text, name: Text, room: nat)
    requires |before| + room == 255
    ensures Cut(before + (name + [NL])) == before + (if |name| < room then name + [NL] else name[..room])
  {
    if |name| >= room {
      assert (before + (name + [NL]))[..255] == before + name[..room];
    }
  }

  /** The size field stands last before the name. */
  lemma SizeIsLast(totsize: nat, linperfile: int, partno: nat) returns (init: seq<Entry>)
    ensures HeaderFields(totsize, linperfile, partno) == init + [Decimal(SizeKey, totsize)]
    ensures Without(init, SIZE_)
  {
    hide Printed, NumParts;
    var f := HeaderFields(totsize, linperfile, partno);
    init := f[..|f| - 1];
    KeysDiffer(PartKey, SizeKey);
    KeysDiffer(LineKey, SizeKey);
  }

  /** What the header line says to the decoder. */
  lemma HeaderSays(name: Text, totsize: nat, linperfile: int, partno: nat)
    requires totsize < MAX_SIZE && partno <= totsize + 1
    ensures var line := Cut(HeaderText(name, totsize, linperfile, partno) + [NL]);
      && StartsWith(line, YBEGIN + [SPACE]) && Field(line, NAME_).Some?
      && (Field(line, PART_).Some?
          <==> Several(totsize, linperfile) || Contains(NameRead(name, totsize, linperfile, partno), PART_))
      && Field(line, SIZE_).Some? && Atoi(Field(line, SIZE_).value) == Int32(totsize)
  {
    hide Field, Atol, Cut, Printed, Several, NameRead, HeaderFields, Fields, Contains, Differ, IsKey, NoSpace,
      PlainLine;
    var line := Cut(HeaderText(name, totsize, linperfile, partno) + [NL]);
    var f, read := HeaderFields(totsize, linperfile, partno), NameRead(name, totsize, linperfile, partno);
    CutHeader(name, totsize, linperfile, partno);
    HeaderTidy(totsize, linperfile, partno);
    HeaderStarts(line, f, read);
    NameIsFound(totsize, linperfile, partno, read);
    SizeIsFound(totsize, linperfile, partno, read);
    PartIsFound(totsize, linperfile, partno, read);
  }

  lemma HeaderStarts(line: Text, f: seq<Entry>, read: Text)
    requires Fields(f) != [] && Fields(f)[0] == SPACE && line == YBEGIN + Fields(f) + (NAME_ + read)
    ensures StartsWith(line, YBEGIN + [SPACE])
  {
    hide Fields;
    assert line[..8] == YBEGIN + [SPACE];
  }

  lemma NameIsFound(totsize: nat, linperfile: int, partno: nat, read: Text)
    requires totsize < MAX_SIZE && partno <= totsize + 1
    ensures Field(BeforeName(totsize, linperfile, partno) + (NAME_ + read), NAME_) == Some(read)
  {
    hide Field, Printed, NumParts, Fields, PlainLine, Differ;
    var f := HeaderFields(totsize, linperfile, partno);
    HeaderTidy(totsize, linperfile, partno);
    KeysDiffer(PartKey, NameKey);
    KeysDiffer(LineKey, NameKey);
    KeysDiffer(SizeKey, NameKey);
    assert Without(f, NAME_);
    KeysAreKeys(NameKey);
    FindField(YBEGIN, f, NAME_, read);
  }

  lemma SizeIsFound(totsize: nat, linperfile: int, partno: nat, read: Text)
    requires totsize < MAX_SIZE && partno <= totsize + 1
    ensures var r := Field(BeforeName(totsize, linperfile, partno) + (NAME_ + read), SIZE_);
      r.Some? && Atoi(r.value) == Int32(totsize)
  {
    hide Field, Printed, NumParts, Fields, PlainLine, Differ, HeaderFields, Atol;
    HeaderTidy(totsize, linperfile, partno);
    var init := SizeIsLast(totsize, linperfile, partno);
    var digits := Printed(totsize, 10);
    FieldsAppend(init, [Decimal(SizeKey, totsize)]);
    OneField(Decimal(SizeKey, totsize));
    assert YBEGIN + (Fields(init) + (SIZE_ + digits)) + (NAME_ + read)
        == YBEGIN + Fields(init) + (SIZE_ + (digits + (NAME_ + read)));
    KeysAreKeys(SizeKey);
    PartTidy(init, [Decimal(SizeKey, totsize)]);
    FindField(YBEGIN, init, SIZE_, digits + (NAME_ + read));
    AtolPrinted(totsize, NAME_ + read);
  }

  lemma OneField(e: Entry)
    ensures Fields([e]) == e.key + e.value
  {
    assert [e][1..] == [];
  }

  lemma PartTidy(a: seq<Entry>, b: seq<Entry>)
    requires Tidy(a + b)
    ensures Tidy(a)
  {
    hide PlainLine, IsKey, NoSpace;
    forall i | 0 <= i < |a| ensures a[i] == (a + b)[i] {}
  }

  lemma PartIsFound(totsize: nat, linperfile: int, partno: nat, read: Text)
    requires totsize < MAX_SIZE && partno <= totsize + 1
    ensures Field(BeforeName(totsize, linperfile, partno) + (NAME_ + read), PART_).Some?
      <==> Several(totsize, linperfile) || Contains(read, PART_)
  {
    hide Field, Printed, NumParts, Fields, PlainLine, Differ, Contains;
    var f := HeaderFields(totsize, linperfile, partno);
    HeaderTidy(totsize, linperfile, partno);
    KeysAreKeys(PartKey);
    KeysAreKeys(NameKey);
    KeysDiffer(LineKey, PartKey);
    KeysDiffer(SizeKey, PartKey);
    KeysDiffer(NameKey, PartKey);
    if Several(totsize, linperfile) {
      var digits := Printed(partno, 10);
      assert f == [f[0]] + f[1..];
      FieldsAppend([f[0]], f[1..]);
      OneField(f[0]);
      var more := digits + Fields(f[1..]) + (NAME_ + read);
      NoFields();
      assert YBEGIN + (PART_ + digits + Fields(f[1..])) + (NAME_ + read) == YBEGIN + [] + (PART_ + more);
      FindField(YBEGIN, [], PART_, more);
    } else {
      assert Without(f, PART_);
      MissField(YBEGIN, f, NAME_ + read, PART_);
      assert NAME_ + [] + read == NAME_ + read;
      SkipField(NAME_, [], read, PART_);
      FieldFound(read, PART_);
    }
  }

  lemma NoFields()
    ensures Fields([]) == []
  {
  }

  /**
   The single part of a file whose name, as far as the decoder reads it, contains " part=" is taken for one of
   several.
   */
  predicate Misread(name: Text, totsize: nat, linperfile: int, partno: nat) {
    !Several(totsize, linperfile) && Contains(NameRead(name, totsize, linperfile, partno), PART_)
  }

  /** A plain line that begins like a keyword line is neither blank nor passed over. */
  lemma KeywordStep(options: Options, m: Machine, raw: Text)
    requires raw != [] && raw[0] == ESCAPE && m.phase != Range && m.phase != Done
    ensures Step(options, m, raw) == LineStep(m, Cut(raw))
  {
    hide Contains, LineStep;
    var line := Cut(raw);
    assert line[0] == raw[0] == At(raw, 0);
    StepLine(options, m, raw);
    if HitsBoundary(options, line) {
      StartByte(line, [DASH, DASH] + options.boundary.value, 0);
      assert false;
    }
    if StartsWith(line, UPPER_BEGIN) {
      StartByte(line, UPPER_BEGIN, 0);
      assert false;
    }
  }

  /** The machine after the header line. */
  function Started(m: Machine, totsize: nat, ranged: bool): Machine {
    if ranged then m.(filesize := Int32(totsize), phase := Range)
    else m.(filesize := Int32(totsize), phase := Data, tf := true)
  }

  lemma HeaderTurns(m: Machine, name: Text, totsize: nat, linperfile: int, partno: nat)
    requires totsize < MAX_SIZE && partno <= totsize + 1 && m.phase == Header
    ensures LineStep(m, Cut(HeaderText(name, totsize, linperfile, partno) + [NL]))
      == Continue(Started(m, totsize, Several(totsize, linperfile) || Misread(name, totsize, linperfile, partno)))
  {
    hide Field, Atol, Cut, HeaderText, Several, NameRead, Contains, StartsWith, Int32;
    HeaderSays(name, totsize, linperfile, partno);
  }

  lemma HeaderPlain(name: Text, totsize: nat, linperfile: int, partno: nat)
    requires totsize < MAX_SIZE && partno <= totsize + 1 && PlainLine(name) && |name| <= 4000
    ensures var h := HeaderText(name, totsize, linperfile, partno);
      PlainLine(h) && |h| <= 4094 && h != [] && h[0] == ESCAPE
  {
    hide HeaderFields, Fields;
    HeaderTidy(totsize, linperfile, partno);
  }

  lemma RunHeader(options: Options, m: Machine, name: Text, totsize: nat, linperfile: int, partno: nat, rest: Text)
    requires totsize < MAX_SIZE && partno <= totsize + 1 && PlainLine(name) && |name| <= 4000 && m.phase == Header
    ensures var ranged := Several(totsize, linperfile) || Misread(name, totsize, linperfile, partno);
      Run(options, m, HeaderText(name, totsize, linperfile, partno) + [NL] + rest)
        == Run(options, Started(m, totsize, ranged), rest)
  {
    hide Run, Step, LineStep, Cut, FgetsLength, FpLine, HeaderText, Several, Misread, Started, PlainLine;
    var h := HeaderText(name, totsize, linperfile, partno);
    HeaderPlain(name, totsize, linperfile, partno);
    ReadPlainLine(h, rest, LINE_BUFFER);
    RunNext(options, m, h + [NL] + rest);
    KeywordStep(options, m, h + [NL]);
    HeaderTurns(m, name, totsize, linperfile, partno);
  }

  lemma RunBlank(options: Options, m: Machine, rest: Text)
    requires m.phase == Header && !m.tf && m.vlc == 0
    ensures Run(options, m, [NL] + rest) == Run(options, m, rest)
  {
    hide Run, FgetsLength, FpLine;
    assert [] + [NL] + rest == [NL] + rest && [] + [NL] == [NL];
    ReadPlainLine([], rest, LINE_BUFFER);
    RunNext(options, m, [NL] + rest);
    StepBlank(options, m, [NL]);
  }

  // ---------------------------------------------------------------- the range line

  lemma RangeFields(totsize: nat, linperfile: int, partno: nat)
    requires Sized(totsize, linperfile, partno)
    ensures var line := RangeText(totsize, linperfile, partno);
      && PlainLine(line) && |line| <= 4094
      && Field(line + [NL], END_).Some?
      && Atoi(Field(line + [NL], END_).value) == Int32(PartEnd(partno, linperfile, totsize))
  {
    hide Field, Printed, Fields, Differ, PartBegin, PartEnd, Atol, PlainLine, Int32;
    var begin, end := PartBegin(partno, linperfile), PartEnd(partno, linperfile, totsize);
    var e, f := Decimal(BeginKey, begin), Decimal(EndKey, end);
    DecimalField(BeginKey, begin);
    DecimalField(EndKey, end);
    FieldsShape([e, f]);
    PlainConcat(YPART, Fields([e, f])) by { KeywordsPlain(); }
    FieldsAppend([e], [f]);
    OneField(f);
    var digits := Printed(end, 10);
    assert [e] + [f] == [e, f];
    assert YPART + (Fields([e]) + (END_ + digits)) + [NL] == YPART + Fields([e]) + (END_ + (digits + [NL]));
    KeysDiffer(BeginKey, EndKey);
    KeysAreKeys(EndKey);
    assert Without([e], END_);
    FindField(YPART, [e], END_, digits + [NL]);
    AtolPrinted(end, [NL]);
  }

  lemma KeywordsPlain()
    ensures PlainLine(YPART) && PlainLine(YEND)
  {
  }

  lemma RunRange(options: Options, m: Machine, totsize: nat, linperfile: int, partno: nat, rest: Text)
    requires m.phase == Range && Sized(totsize, linperfile, partno)
    ensures Run(options, m, RangeText(totsize, linperfile, partno) + [NL] + rest)
      == Run(options, m.(phase := Data, tf := true, partends := Int32(PartEnd(partno, linperfile, totsize))), rest)
  {
    hide Run, Step, FgetsLength, FpLine, RangeText, Field, Atol, PartEnd, PlainLine, Int32;
    var line := RangeText(totsize, linperfile, partno);
    RangeFields(totsize, linperfile, partno);
    ReadPlainLine(line, rest, LINE_BUFFER);
    RunNext(options, m, line + [NL] + rest);
    StepRange(options, m, line + [NL]);
  }

  // ---------------------------------------------------------------- the end line of the encoder

  lemma EndTidy(totsize: nat, linperfile: int, partno: nat, pcrc: bv32, crc: bv32)
    requires Sized(totsize, linperfile, partno)
    ensures Tidy(EndFields(totsize, linperfile, partno, pcrc) + [Checksum(CrcKey, crc)])
    ensures Tidy(EndFields(totsize, linperfile, partno, pcrc))
    ensures EndFields(totsize, linperfile, partno, pcrc) != [] && |EndFields(totsize, linperfile, partno, pcrc)| <= 3
  {
    hide Printed, NumParts, PlainLine, NoSpace, PartSize, Checksum, IsKey;
    DecimalField(SizeKey, PartSize(partno, linperfile, totsize));
    DecimalField(SizeKey, totsize);
    DecimalField(PartKey, partno);
    ChecksumField(PcrcKey, pcrc);
    ChecksumField(CrcKey, crc);
  }

  lemma ChecksumField(w: Word, crc: bv32)
    ensures var e := Checksum(w, crc);
      e.key == Key(w) && IsKey(e.key) && NoSpace(e.value) && PlainLine(e.key + e.value) && |e.key + e.value| <= 27
  {
    hide Hex8, Printed;
    PlainNumbers(crc as nat);
    KeysAreKeys(w);
    KeyIsPlain(w);
    PlainConcat(Key(w), Hex8(crc as nat));
    Hex8Length(crc as nat);
  }

  lemma Hex8Length(n: nat)
    requires n < 0x1_0000_0000
    ensures |Hex8(n)| == 8
  {
    assert Power(16, 4) == 0x1_0000;
    assert Power(16, 8) == 0x1_0000 * 0x1_0000;
    PrintedLength(n, 16, 8);
  }

  /** The fields of the end line, with the checksum of the file where there is one. */
  function AllEndFields(totsize: nat, linperfile: int, partno: nat, pcrc: bv32, crc: bv32, feof: bool): seq<Entry>
    requires Announces(totsize, linperfile, partno)
  {
    EndFields(totsize, linperfile, partno, pcrc) + (if feof then [Checksum(CrcKey, crc)] else [])
  }

  lemma EndIsFields(totsize: nat, linperfile: int, partno: nat, pcrc: bv32, crc: bv32, feof: bool)
    requires Sized(totsize, linperfile, partno)
    ensures var f := AllEndFields(totsize, linperfile, partno, pcrc, crc, feof);
      && Tidy(f) && f != [] && |f| <= 4
      && EndText(totsize, linperfile, partno, pcrc, crc, feof) == YEND + Fields(f)
  {
    hide EndFields, Checksum, Tidy, Fields;
    EndTidy(totsize, linperfile, partno, pcrc, crc);
    var f, last := EndFields(totsize, linperfile, partno, pcrc), [Checksum(CrcKey, crc)];
    NoFields();
    assert f + [] == f;
    FieldsAppend(f, last);
    assert YEND + (Fields(f) + Fields(last)) == YEND + Fields(f) + Fields(last);
    assert YEND + Fields(f) + [] == YEND + Fields(f);
  }

  lemma EndIsEnding(totsize: nat, linperfile: int, partno: nat, pcrc: bv32, crc: bv32, feof: bool)
    requires Sized(totsize, linperfile, partno)
    ensures Ending(EndText(totsize, linperfile, partno, pcrc, crc, feof))
  {
    var f := AllEndFields(totsize, linperfile, partno, pcrc, crc, feof);
    hide AllEndFields, EndText, PlainLine, NoSpace;
    EndIsFields(totsize, linperfile, partno, pcrc, crc, feof);
    FieldsShape(f);
    PlainConcat(YEND, Fields(f)) by { KeywordsPlain(); }
    assert Fields(f)[0] == f[0].key[0] == SPACE;
    hide Fields;
    assert (YEND + Fields(f))[..6] == YEND + [SPACE];
  }

  /** A field of the line is found with its value, wherever it stands. */
  lemma FieldOfMany(word: Text, before: seq<Entry>, e: Entry, more: seq<Entry>, rest: Text)
    requires NoSpace(word) && Tidy(before + [e] + more) && Without(before, e.key)
    ensures Field(word + Fields(before + [e] + more) + rest, e.key) == Some(e.value + (Fields(more) + rest))
  {
    hide Field, Fields, NoSpace, PlainLine, Differ;
    FieldsAppend(before + [e], more);
    FieldsAppend(before, [e]);
    OneField(e);
    var all := before + [e] + more;
    forall i | 0 <= i < |before| ensures before[i] == all[i] {}
    assert e == all[|before|];
    FindField(word, before, e.key, e.value + (Fields(more) + rest));
    assert word + (Fields(before) + (e.key + e.value) + Fields(more)) + rest
        == word + Fields(before) + (e.key + (e.value + (Fields(more) + rest)));
  }

  /** A field that the line does not have is not found, whatever the values are. */
  lemma FieldOfNone(word: Text, entries: seq<Entry>, key: Text)
    requires NoSpace(word) && Tidy(entries) && Without(entries, key) && IsKey(key)
    ensures Field(word + Fields(entries) + [NL], key) == None
  {
    hide Fields, NoSpace, PlainLine, Differ;
    MissField(word, entries, [NL], key);
    assert [NL][1..] == [];
  }

  lemma AfterNumber(more: seq<Entry>, base: int)
    requires 2 <= base <= 16 && Tidy(more)
    ensures EndsNumber(Fields(more) + [NL], base)
  {
    if more != [] {
      assert (Fields(more) + [NL])[0] == more[0].key[0] == SPACE;
    }
  }

  lemma ChecksumRead(crc: bv32, more: seq<Entry>, value: Option<Text>, c: bv32)
    requires Tidy(more) && value == Some(Hex8(crc as nat) + (Fields(more) + [NL]))
    ensures Wrong(value, c) <==> crc != c
  {
    hide Hex8, Strtoul, Fields;
    AfterNumber(more, 16);
    StrtoulHex8(crc as nat, Fields(more) + [NL]);
    NumbersDiffer(crc, c);
  }

  lemma NumbersDiffer(a: bv32, b: bv32)
    ensures Number(a) == Number(b) <==> a == b
  {
    assert Number(a) as bv32 == a && Number(b) as bv32 == b;
  }

  /** The size that the end line gives. */
  function SizeGiven(totsize: nat, linperfile: int, partno: nat): int {
    if Several(totsize, linperfile) then PartSize(partno, linperfile, totsize) else totsize
  }

  lemma SizeRead(totsize: nat, linperfile: int, partno: nat, pcrc: bv32, crc: bv32, feof: bool)
    requires Sized(totsize, linperfile, partno)
    ensures var size := Field(EndText(totsize, linperfile, partno, pcrc, crc, feof) + [NL], SIZE_);
      size.Some? && Atol(size.value) == SizeGiven(totsize, linperfile, partno)
  {
    hide Field, Fields, NumParts, Printed, EndText, Tidy, PartSize, Atol, EndsNumber;
    EndIsFields(totsize, linperfile, partno, pcrc, crc, feof);
    var f := AllEndFields(totsize, linperfile, partno, pcrc, crc, feof);
    var n := SizeGiven(totsize, linperfile, partno);
    assert f == [] + [f[0]] + f[1..] && f[0] == Decimal(SizeKey, n);
    LastTidy([f[0]], f[1..]) by { assert [f[0]] + f[1..] == f; }
    FieldOfMany(YEND, [], f[0], f[1..], [NL]);
    AfterNumber(f[1..], 10);
    AtolPrinted(n, Fields(f[1..]) + [NL]);
  }

  lemma LastTidy(a: seq<Entry>, b: seq<Entry>)
    requires Tidy(a + b)
    ensures Tidy(b)
  {
    hide PlainLine, IsKey, NoSpace;
    forall i | 0 <= i < |b| ensures b[i] == (a + b)[|a| + i] {}
  }

  lemma PcrcRead(totsize: nat, linperfile: int, partno: nat, pcrc: bv32, crc: bv32, feof: bool, c: bv32)
    requires Sized(totsize, linperfile, partno)
    ensures Wrong(Field(EndText(totsize, linperfile, partno, pcrc, crc, feof) + [NL], PCRC_), c)
      <==> Several(totsize, linperfile) && pcrc != c
  {
    hide Field, Fields, NumParts, Printed, EndText, Tidy, PartSize, EndsNumber, Wrong, Hex8, Differ;
    EndIsFields(totsize, linperfile, partno, pcrc, crc, feof);
    var f := AllEndFields(totsize, linperfile, partno, pcrc, crc, feof);
    KeysDiffer(SizeKey, PcrcKey);
    KeysDiffer(PartKey, PcrcKey);
    KeysDiffer(CrcKey, PcrcKey);
    KeysAreKeys(PcrcKey);
    if Several(totsize, linperfile) {
      assert f == f[..2] + [f[2]] + f[3..] && f[2] == Checksum(PcrcKey, pcrc);
      LastTidy(f[..3], f[3..]) by { assert f[..3] + f[3..] == f; }
      FieldOfMany(YEND, f[..2], f[2], f[3..], [NL]);
      ChecksumRead(pcrc, f[3..], Field(YEND + Fields(f) + [NL], PCRC_), c);
    } else {
      FieldOfNone(YEND, f, PCRC_);
      NothingWrong(c);
    }
  }

  lemma NothingWrong(c: bv32)
    ensures !Wrong(None, c)
  {
  }

  lemma NoCrcBefore(totsize: nat, linperfile: int, partno: nat, pcrc: bv32)
    requires Announces(totsize, linperfile, partno)
    ensures Without(EndFields(totsize, linperfile, partno, pcrc), CRC_)
  {
    hide NumParts, Printed, Hex8, PartSize, Differ;
    KeysDiffer(SizeKey, CrcKey);
    KeysDiffer(PartKey, CrcKey);
    KeysDiffer(PcrcKey, CrcKey);
  }

  lemma CrcRead(totsize: nat, linperfile: int, partno: nat, pcrc: bv32, crc: bv32, feof: bool, c: bv32)
    requires Sized(totsize, linperfile, partno)
    ensures Wrong(Field(EndText(totsize, linperfile, partno, pcrc, crc, feof) + [NL], CRC_), c) <==> feof && crc != c
  {
    hide Field, Fields, EndFields, EndText, Tidy, EndsNumber, Wrong, Hex8, Differ, Without;
    EndIsFields(totsize, linperfile, partno, pcrc, crc, feof);
    NoCrcBefore(totsize, linperfile, partno, pcrc);
    var before, last := EndFields(totsize, linperfile, partno, pcrc), Checksum(CrcKey, crc);
    var f := AllEndFields(totsize, linperfile, partno, pcrc, crc, feof);
    KeysAreKeys(CrcKey);
    if feof {
      assert f == before + [last] + [];
      LastTidy(f, []) by { assert f + [] == f; }
      FieldOfMany(YEND, before, last, [], [NL]);
      ChecksumRead(crc, [], Field(YEND + Fields(f) + [NL], CRC_), c);
    } else {
      assert f == before;
      FieldOfNone(YEND, f, CRC_);
      NothingWrong(c);
    }
  }

  /** What the decoder finds fault with: exactly what it computed otherwise than the encoder. */
  lemma EndFaults(m: Machine, totsize: nat, linperfile: int, partno: nat, pcrc: bv32, crc: bv32, feof: bool)
    requires Sized(totsize, linperfile, partno)
    ensures Faults(m, EndText(totsize, linperfile, partno, pcrc, crc, feof) + [NL])
      == Warnings(Several(totsize, linperfile) && pcrc != m.partcrc, feof && crc != m.filecrc,
                  SizeGiven(totsize, linperfile, partno) != m.partsize && m.filesize != -1)
  {
    hide Field, EndText, Wrong, Atol, NumParts, SizeGiven, Several;
    SizeRead(totsize, linperfile, partno, pcrc, crc, feof);
    PcrcRead(totsize, linperfile, partno, pcrc, crc, feof, m.partcrc);
    CrcRead(totsize, linperfile, partno, pcrc, crc, feof, m.filecrc);
  }

  // ---------------------------------------------------------------- what the keyword lines say

  /** The field of a line reads as a number. */
  predicate Reads(line: Text, key: Text, n: int) {
    Field(line, key).Some? && Atol(Field(line, key).value) == n
  }

  lemma NumberReads(word: Text, before: seq<Entry>, w: Word, n: nat, more: seq<Entry>, rest: Text)
    requires NoSpace(word) && Tidy(before + [Decimal(w, n)] + more) && Without(before, Key(w))
    requires more != [] || EndsNumber(rest, 10)
    ensures Reads(word + Fields(before + [Decimal(w, n)] + more) + rest, Key(w), n)
  {
    hide Fields, Printed, NoSpace, Differ, Atol, Field, Tidy, EndsNumber;
    FieldOfMany(word, before, Decimal(w, n), more, rest);
    FieldsEndNumber(before + [Decimal(w, n)], more, rest);
    AtolPrinted(n, Fields(more) + rest);
  }

  lemma KeywordsSpaceless()
    ensures NoSpace(YBEGIN) && NoSpace(YPART) && NoSpace(YEND)
  {
  }

  lemma FieldsEndNumber(before: seq<Entry>, more: seq<Entry>, rest: Text)
    requires Tidy(before + more) && (more != [] || EndsNumber(rest, 10))
    ensures EndsNumber(Fields(more) + rest, 10)
  {
    LastTidy(before, more);
    if more != [] {
      assert (Fields(more) + rest)[0] == more[0].key[0] == SPACE;
    } else {
      assert Fields(more) + rest == rest;
    }
  }

  /** The header line of one of several parts: its number, the length of lines, the size of the file, and the name. */
  lemma HeaderNumbers(name: Text, totsize: nat, linperfile: int, partno: nat)
    requires totsize < MAX_SIZE && partno <= totsize + 1
    ensures var line := HeaderText(name, totsize, linperfile, partno);
      && (Several(totsize, linperfile) ==> Reads(line, PART_, partno))
      && Reads(line, LINE_, 128) && Reads(line, SIZE_, totsize) && Field(line, NAME_) == Some(name)
      && StartsWith(line, YBEGIN + [SPACE])
  {
    KeywordsSpaceless();
    hide Field, Printed, NumParts, Fields, PlainLine, Differ, Atol, NoSpace;
    var f, rest := HeaderFields(totsize, linperfile, partno), NAME_ + name;
    HeaderTidy(totsize, linperfile, partno);
    HeaderStarts(YBEGIN + Fields(f) + (NAME_ + name), f, name);
    NameIsFound(totsize, linperfile, partno, name);
    KeysDiffer(PartKey, LineKey);
    KeysDiffer(PartKey, SizeKey);
    KeysDiffer(LineKey, SizeKey);
    var k := if Several(totsize, linperfile) then 1 else 0;
    assert f == f[..k] + [f[k]] + f[k + 1..] && f[k] == Decimal(LineKey, 128);
    NumberReads(YBEGIN, f[..k], LineKey, 128, f[k + 1..], rest);
    assert f == f[..k + 1] + [f[k + 1]] + [] && f[k + 1] == Decimal(SizeKey, totsize);
    NumberReads(YBEGIN, f[..k + 1], SizeKey, totsize, [], rest);
    if Several(totsize, linperfile) {
      assert f == [] + [f[0]] + f[1..] && f[0] == Decimal(PartKey, partno);
      NumberReads(YBEGIN, [], PartKey, partno, f[1..], rest);
    }
  }

  /** The range line: where the part begins and ends. */
  lemma RangeNumbers(totsize: nat, linperfile: int, partno: nat)
    requires Sized(totsize, linperfile, partno)
    ensures var line := RangeText(totsize, linperfile, partno);
      && Reads(line, BEGIN_, PartBegin(partno, linperfile)) && Reads(line, END_, PartEnd(partno, linperfile, totsize))
      && StartsWith(line, YPART + [SPACE])
  {
    KeywordsSpaceless();
    hide Field, Printed, PlainLine, Differ, PartBegin, PartEnd, Atol, NoSpace;
    var begin, end := PartBegin(partno, linperfile), PartEnd(partno, linperfile, totsize);
    var e, f := Decimal(BeginKey, begin), Decimal(EndKey, end);
    DecimalField(BeginKey, begin);
    DecimalField(EndKey, end);
    KeysDiffer(BeginKey, EndKey);
    var all := [e, f];
    assert Fields(all)[0] == e.key[0] == SPACE;
    assert (YPART + Fields(all))[..7] == YPART + [SPACE];
    hide Fields;
    assert all == [] + [e] + [f] && all == [e] + [f] + [];
    assert YPART + Fields(all) + [] == YPART + Fields(all);
    NumberReads(YPART, [], BeginKey, begin, [f], []);
    NumberReads(YPART, [e], EndKey, end, [], []);
  }

  /** The end line of one of several parts: its number, and its size. */
  lemma EndNumbers(totsize: nat, linperfile: int, partno: nat, pcrc: bv32, crc: bv32, feof: bool)
    requires Sized(totsize, linperfile, partno)
    ensures var line := EndText(totsize, linperfile, partno, pcrc, crc, feof) + [NL];
      && (Several(totsize, linperfile) ==> Reads(line, PART_, partno))
      && Reads(line, SIZE_, SizeGiven(totsize, linperfile, partno))
  {
    hide Field, Fields, NumParts, Printed, EndText, Tidy, PartSize, Atol, EndsNumber, Differ;
    SizeRead(totsize, linperfile, partno, pcrc, crc, feof);
    if Several(totsize, linperfile) {
      EndIsFields(totsize, linperfile, partno, pcrc, crc, feof);
      var f := AllEndFields(totsize, linperfile, partno, pcrc, crc, feof);
      KeysDiffer(SizeKey, PartKey);
      assert f == f[..1] + [f[1]] + f[2..] && f[1] == Decimal(PartKey, partno);
      NumberReads(YEND, f[..1], PartKey, partno, f[2..], [NL]);
    }
  }

  /** A part begins with its header line, after a blank line if it is the first, and ends with a blank line. */
  lemma PartBlanks(name: Text, totsize: nat, linperfile: int, partno: nat, chunk: Text, crc: bv32, feof: bool)
    requires Sized(totsize, linperfile, partno)
    ensures var s := PartText(name, totsize, linperfile, partno, chunk, crc, feof);
      && StartsWith(s, (if partno == 1 then [NL] else []) + HeaderText(name, totsize, linperfile, partno) + [NL])
      && |s| >= 2 && s[|s| - 1] == NL && s[|s| - 2] == NL
  {
    hide HeaderText, RangeText, EndText, WithEnds;
    var start := (if partno == 1 then [NL] else []) + HeaderText(name, totsize, linperfile, partno) + [NL];
    var s := PartText(name, totsize, linperfile, partno, chunk, crc, feof);
    assert s[..|start|] == start;
  }

  // ---------------------------------------------------------------- other lines

  /** A header line counts only with a name; one without a size leaves the size unknown. */
  lemma HeaderNeedsName(m: Machine, line: Text)
    requires m.phase == Header
    ensures !StartsWith(line, YBEGIN + [SPACE]) || Field(line, NAME_).None? ==> HeaderLine(m, line) == m
    ensures StartsWith(line, YBEGIN + [SPACE]) && Field(line, NAME_).Some? ==>
      var h := HeaderLine(m, line);
      && h.phase == (if Field(line, PART_).Some? then Range else Data) && (h.phase == Data ==> h.tf)
      && h.filesize == (if Field(line, SIZE_).None? then -1 else Atoi(Field(line, SIZE_).value)) && h.out == m.out
  {
    hide Field, Atol;
  }

  /** A range line without an end breaks the reading off; with one the data begins. */
  lemma RangeNeedsEnd(m: Machine, raw: Text)
    ensures var o := RangeLine(m, raw);
      && (o.Continue? <==> Field(raw, END_).Some?) && (o.Stop? <==> Field(raw, END_).None?) && o.m.out == m.out
      && o.m.phase == Data && (o.Continue? ==> o.m.tf && o.m.partends == Atoi(Field(raw, END_).value))
  {
    hide Field, Atol;
  }

  /** After more than five data lines in a row a blank line ends the trust, and data lines are not taken any more. */
  lemma BlankEndsTrust(options: Options, m: Machine, line: Text)
    requires m.phase == Data
    ensures var o := Step(options, m, [NL]);
      o.Continue? && o.m.vlc == 0 && o.m.out == m.out && o.m.phase == Data && (o.m.tf <==> m.tf && m.vlc <= 5)
    ensures !m.tf ==> DataLine(m, line).m.out == m.out && DataLine(m, line).m.filecrc == m.filecrc
    ensures m.tf && line != [] && line[0] != 0 ==>
      var o := DataLine(m, line); o.Continue? && o.m.vlc == m.vlc + 1 && o.m.out == m.out + Decode(line)
  {
    hide BinhexTest, B64Test, UuTest, XxTest, Decode, Crc32.Crc;
  }

  /** The file is done when its part is the only one, or reaches the end that the header gave. */
  lemma EndLineDecides(m: Machine, line: Text)
    requires m.phase == Data
    ensures EndLine(m, line).phase == Done <==> m.partends == 0 || m.filesize <= m.partends
    ensures m.filesize == -1 ==> !EndLine(m, line).warnings.size
  {
    hide Field, Atol, Strtoul;
  }

  // ---------------------------------------------------------------- a whole part

  /** Where the decoder is told that the part ends, 0 if it is not told. */
  function EndRead(totsize: nat, linperfile: int, partno: nat): int {
    if Several(totsize, linperfile) then Int32(PartEnd(partno, linperfile, totsize)) else 0
  }

  /** The decoder takes the part for the last one. */
  predicate TakenForLast(totsize: nat, linperfile: int, partno: nat) {
    var end := EndRead(totsize, linperfile, partno);
    end == 0 || end >= Int32(totsize)
  }

  /** The machine in front of the data lines. */
  function Ready(bhflag: nat, out: Text, filecrc: bv32, totsize: nat, partends: int): Machine {
    Machine(Data, true, 0, bhflag, out, Int32(totsize), partends, 0, 0, filecrc, NO_WARNINGS)
  }

  /** The lines in front of the data lines. */
  function Front(name: Text, totsize: nat, linperfile: int, partno: nat): Text
    requires Announces(totsize, linperfile, partno)
  {
    (if partno == 1 then [NL] else []) + (HeaderText(name, totsize, linperfile, partno) + [NL])
    + (if Several(totsize, linperfile) then RangeText(totsize, linperfile, partno) + [NL] else [])
  }

  lemma RunFront(options: Options, bhflag: nat, out: Text, filecrc: bv32, name: Text, totsize: nat, linperfile: int,
                 partno: nat, rest: Text)
    requires Sized(totsize, linperfile, partno) && PlainLine(name) && |name| <= 4000
    ensures Run(options, Entered(bhflag, out, filecrc), Front(name, totsize, linperfile, partno) + rest)
      == if Misread(name, totsize, linperfile, partno) then
           Run(options, Started(Entered(bhflag, out, filecrc), totsize, true), rest)
         else
           Run(options, Ready(bhflag, out, filecrc, totsize, EndRead(totsize, linperfile, partno)), rest)
  {
    hide Run, HeaderText, RangeText, PlainLine, PartEnd, NumParts, Int32, NameRead, Contains;
    var m := Entered(bhflag, out, filecrc);
    var header := HeaderText(name, totsize, linperfile, partno) + [NL];
    var range := if Several(totsize, linperfile) then RangeText(totsize, linperfile, partno) + [NL] else [];
    var file := Front(name, totsize, linperfile, partno) + rest;
    if partno == 1 {
      assert file == [NL] + (header + (range + rest));
      RunBlank(options, m, header + (range + rest));
    } else {
      assert file == header + (range + rest);
    }
    RunHeader(options, m, name, totsize, linperfile, partno, range + rest);
    if Several(totsize, linperfile) {
      assert range + rest == RangeText(totsize, linperfile, partno) + [NL] + rest;
      RunRange(options, Started(m, totsize, true), totsize, linperfile, partno, rest);
    } else {
      assert range + rest == rest;
    }
  }

  /** Nothing is lost of the part: no line is taken for the boundary, and the first line not for a range line. */
  predicate Clean(options: Options, name: Text, totsize: nat, linperfile: int, partno: nat, chunk: Text) {
    !AnyHits(options, Lines([], chunk)) && !Misread(name, totsize, linperfile, partno)
  }

  /** What the decoder warns of after a part of which nothing is lost. */
  function WarningsOf(filecrc: bv32, totsize: nat, linperfile: int, partno: nat, chunk: Text, crc: bv32, feof: bool)
    : Warnings
  {
    Warnings(Several(totsize, linperfile) && EndRead(totsize, linperfile, partno) == 0 && Crc32.Crc(0, chunk) != 0,
             feof && crc != Crc32.Crc(filecrc, chunk),
             SizeGiven(totsize, linperfile, partno) != |chunk| && Int32(totsize) != -1)
  }

  lemma RunCleanPart(options: Options, bhflag: nat, out: Text, filecrc: bv32, name: Text, totsize: nat,
                     linperfile: int, partno: nat, chunk: Text, crc: bv32, feof: bool)
    requires Sized(totsize, linperfile, partno) && PlainLine(name) && |name| <= 4000
    requires Clean(options, name, totsize, linperfile, partno, chunk)
    ensures var r := Run(options, Entered(bhflag, out, filecrc),
                         PartText(name, totsize, linperfile, partno, chunk, crc, feof));
      && r.Stop? && r.m.bhflag == bhflag && r.m.out == out + chunk && r.m.filecrc == Crc32.Crc(filecrc, chunk)
      && (r.m.phase == Done <==> TakenForLast(totsize, linperfile, partno))
      && r.m.warnings == WarningsOf(filecrc, totsize, linperfile, partno, chunk, crc, feof)
  {
    hide Run, EndText, PlainLine, NumParts, Int32, Misread, AnyHits, Lines, WithEnds, HeaderText, RangeText, Faults,
      Ending, AllGood, Crc32.Crc, SizeGiven, EndRead;
    var end := EndText(totsize, linperfile, partno, Crc32.Crc(0, chunk), crc, feof);
    var m := Ready(bhflag, out, filecrc, totsize, EndRead(totsize, linperfile, partno));
    PartIsFront(name, totsize, linperfile, partno, chunk, crc, feof);
    RunFront(options, bhflag, out, filecrc, name, totsize, linperfile, partno,
             WithEnds(Lines([], chunk)) + (end + [NL] + [NL]));
    YencRoundTrip(chunk);
    EndIsEnding(totsize, linperfile, partno, Crc32.Crc(0, chunk), crc, feof);
    RunBody(options, m, Lines([], chunk), end);
    var m1 := AfterData(m, chunk, m.vlc + |Lines([], chunk)|);
    EndFaults(m1, totsize, linperfile, partno, Crc32.Crc(0, chunk), crc, feof);
  }

  lemma PartIsFront(name: Text, totsize: nat, linperfile: int, partno: nat, chunk: Text, crc: bv32, feof: bool)
    requires Sized(totsize, linperfile, partno)
    ensures var end := EndText(totsize, linperfile, partno, Crc32.Crc(0, chunk), crc, feof);
      PartText(name, totsize, linperfile, partno, chunk, crc, feof)
        == Front(name, totsize, linperfile, partno) + (WithEnds(Lines([], chunk)) + (end + [NL] + [NL]))
  {
    hide HeaderText, RangeText, EndText, WithEnds, Lines, Several, PartSize, PartEnd, PartBegin;
  }

  /** A part that is not clean: its bytes are not all there when the decoder thinks it is done. */
  lemma RunPoorPart(options: Options, bhflag: nat, out: Text, filecrc: bv32, name: Text, totsize: nat,
                    linperfile: int, partno: nat, chunk: Text, crc: bv32, feof: bool)
    requires Sized(totsize, linperfile, partno) && PlainLine(name) && |name| <= 4000
    requires !Clean(options, name, totsize, linperfile, partno, chunk)
    ensures var r := Run(options, Entered(bhflag, out, filecrc),
                         PartText(name, totsize, linperfile, partno, chunk, crc, feof));
      && r.Stop? && r.m.bhflag == bhflag && |r.m.out| <= |out| + |chunk|
      && (r.m.phase == Done || chunk != [] ==> |r.m.out| < |out| + |chunk|)
  {
    hide Run, EndText, PlainLine, NumParts, Int32, Misread, AnyHits, Lines, WithEnds, HeaderText, RangeText,
      Ending, AllGood, Crc32.Crc, SizeGiven, EndRead;
    var end := EndText(totsize, linperfile, partno, Crc32.Crc(0, chunk), crc, feof);
    var m := Ready(bhflag, out, filecrc, totsize, EndRead(totsize, linperfile, partno));
    PartIsFront(name, totsize, linperfile, partno, chunk, crc, feof);
    RunFront(options, bhflag, out, filecrc, name, totsize, linperfile, partno,
             WithEnds(Lines([], chunk)) + (end + [NL] + [NL]));
    YencRoundTrip(chunk);
    EndIsEnding(totsize, linperfile, partno, Crc32.Crc(0, chunk), crc, feof);
    if Misread(name, totsize, linperfile, partno) {
      RunMisread(options, Started(Entered(bhflag, out, filecrc), totsize, true), Lines([], chunk), end, chunk);
    } else {
      RunBody(options, m, Lines([], chunk), end);
    }
  }

  /** A first line read as a range line is lost, or breaks the reading off. */
  lemma RunMisread(options: Options, m: Machine, lines: seq<Text>, end: Text, d: Text)
    requires m.phase == Range && !m.tf && AllGood(lines) && Ending(end) && d == DecodeAll(lines)
    ensures var r := Run(options, m, WithEnds(lines) + (end + [NL] + [NL]));
      && r.Stop? && r.m.bhflag == m.bhflag && |r.m.out| <= |m.out| + |d|
      && (r.m.phase == Done || d != [] ==> |r.m.out| < |m.out| + |d|)
  {
    hide Run, Atol, AllGood, GoodLine, Decode, FgetsLength, FpLine, Field, EndLine, Crc32.Crc, Ending, AnyHits;
    var tail := end + [NL] + [NL];
    if lines == [] {
      assert WithEnds(lines) + tail == end + [NL] + [NL];
      RunFirstLine(options, m, end, [NL]) by { EndingIsShort(end); }
      var m1 := RangeLine(m, end + [NL]).m;
      if m1.tf { RunToNothing(options, m1); }
    } else {
      RestGood(options, lines);
      GoodLineDecodes(lines[0]);
      assert WithEnds(lines) + tail == lines[0] + [NL] + (WithEnds(lines[1..]) + tail);
      RunFirstLine(options, m, lines[0], WithEnds(lines[1..]) + tail) by { GoodIsShort(lines[0]); }
      var m1 := RangeLine(m, lines[0] + [NL]).m;
      if m1.tf {
        RunBody(options, m1, lines[1..], end);
        EndLineKeeps(AfterData(m1, DecodeAll(lines[1..]), m1.vlc + |lines[1..]|), end + [NL]);
      }
    }
  }

  lemma EndLineKeeps(m: Machine, line: Text)
    ensures EndLine(m, line).out == m.out && EndLine(m, line).bhflag == m.bhflag
  {
  }

  lemma EndingIsShort(end: Text)
    requires Ending(end)
    ensures PlainLine(end) && |end| <= 4094
  {
  }

  lemma GoodIsShort(line: Text)
    requires GoodLine(line)
    ensures PlainLine(line) && |line| <= 4094
  {
  }

  lemma RunFirstLine(options: Options, m: Machine, line: Text, rest: Text)
    requires m.phase == Range && PlainLine(line) && |line| <= 4094 && !m.tf
    ensures var o := RangeLine(m, line + [NL]);
      && !o.NeedsRepair? && o.m.phase == Data && o.m.out == m.out && o.m.bhflag == m.bhflag
      && (o.Continue? <==> o.m.tf)
      && Run(options, m, line + [NL] + rest) == if o.m.tf then Run(options, o.m, rest) else Stop(o.m)
  {
    hide Run, FgetsLength, FpLine, Field, Atol, PlainLine;
    ReadPlainLine(line, rest, LINE_BUFFER);
    RunNext(options, m, line + [NL] + rest);
    StepRange(options, m, line + [NL]);
  }

  lemma RunToNothing(options: Options, m: Machine)
    requires m.phase == Data
    ensures var r := Run(options, m, [NL]);
      r.Stop? && r.m.phase == Data && r.m.out == m.out && r.m.bhflag == m.bhflag
  {
    hide Run, FgetsLength, FpLine;
    assert [] + [NL] + [] == [NL] && [] + [NL] == [NL];
    ReadPlainLine([], [], LINE_BUFFER);
    RunNext(options, m, [NL]);
    StepBlank(options, m, [NL]);
    RunStops(options, Step(options, m, [NL]).m, []);
  }
}
