/** UUDecodePart on yEnc: the header line, the range line, the data lines and the =yend line with its checks. */
module YencPart {
  import opened Prelude
  import opened ByteText
  import opened DecoderLines
  import opened ValidData
  import opened Crc32
  import opened Yenc
  import opened YencFields

  datatype Phase = Header | Range | Data | Done

  /** What the decoder warns of at the =yend line. */
  datatype Warnings = Warnings(partCrc: bool, fileCrc: bool, size: bool)

  const NO_WARNINGS := Warnings(false, false, false)

  /**
   The state between lines; out, bhflag and filecrc outlive the part. Range is between the header and the range
   line.
   */
  datatype Machine = Machine(phase: Phase, tf: bool, vlc: nat, bhflag: nat, out: Text, filesize: int, partends: int,
                             partsize: nat, partcrc: bv32, filecrc: bv32, warnings: Warnings)

  datatype Outcome = Continue(m: Machine) | Stop(m: Machine) | NeedsRepair(m: Machine)

  function Entered(bhflag: nat, out: Text, filecrc: bv32): Machine {
    Machine(Header, false, 0, bhflag, out, 0, 0, 0, 0, filecrc, NO_WARNINGS)
  }

  function Number(crc: bv32): nat {
    crc as nat
  }

  // ---------------------------------------------------------------- one line

  /** The header line: the size of the file, and whether a range line follows. */
  function HeaderLine(m: Machine, line: Text): Machine {
    if StartsWith(line, YBEGIN + [SPACE]) && Field(line, NAME_).Some? then
      var size := Field(line, SIZE_);
      var m1 := m.(filesize := if size.Some? then Atoi(size.value) else -1);
      if Field(line, PART_).Some? then m1.(phase := Range) else m1.(phase := Data, tf := true)
    else m
  }

  function RangeLine(m: Machine, raw: Text): Outcome {
    var end := Field(raw, END_);
    if end.Some? then Continue(m.(phase := Data, tf := true, partends := Atoi(end.value)))
    else Stop(m.(phase := Data))
  }

  /** The bytes of one data line. */
  function Took(m: Machine, d: Text): Machine {
    m.(out := m.out + d, vlc := m.vlc + 1, partsize := m.partsize + |d|, filecrc := Crc(m.filecrc, d),
       partcrc := if m.partends != 0 then Crc(m.partcrc, d) else m.partcrc)
  }

  function DataLine(m: Machine, line: Text): Outcome {
    var (v, flag) := Verdict(line, if m.tf then IsYenc else Not, m.bhflag);
    var m1 := m.(bhflag := flag);
    if v == Not then NeedsRepair(m1)
    else if v == IsYenc then Continue(Took(m1, Decode(line)))
    else Continue(m1.(tf := false, vlc := 0))
  }

  predicate Wrong(value: Option<Text>, crc: bv32) {
    value.Some? && Strtoul(value.value) != Number(crc)
  }

  /** What the =yend line finds fault with. */
  function Faults(m: Machine, line: Text): Warnings {
    var size := Field(line, SIZE_);
    Warnings(Wrong(Field(line, PCRC_), m.partcrc), Wrong(Field(line, CRC_), m.filecrc),
             size.Some? && Atol(size.value) != m.partsize && m.filesize != -1)
  }

  /** The =yend line: the part is over, and the file is if this part reaches its end or is the only one. */
  function EndLine(m: Machine, line: Text): Machine {
    m.(warnings := Faults(m, line), phase := if m.partends == 0 || m.partends >= m.filesize then Done else m.phase)
  }

  function Step(options: Options, m: Machine, raw: Text): Outcome {
    if m.phase == Range then RangeLine(m, raw)
    else if At(raw, 0) == CR || At(raw, 0) == NL then Continue(m.(tf := m.tf && m.vlc <= 5, vlc := 0))
    else
      var line := Cut(raw);
      if HitsBoundary(options, line) then Stop(m)
      else if !options.proper && StartsWith(line, UPPER_BEGIN) && Contains(line, CUT_HERE) && !m.tf then
        Continue(m.(vlc := 0))
      else
        LineStep(m, line)
  }

  /** A line that is neither blank nor passed over. */
  function LineStep(m: Machine, line: Text): Outcome {
    match m.phase
    case Header => Continue(HeaderLine(m, line))
    case Data => if StartsWith(line, YEND + [SPACE]) then Stop(EndLine(m, line)) else DataLine(m, line)
    case _ => Stop(m)
  }

  function Run(options: Options, m: Machine, file: Text): Outcome
    decreases |file|
  {
    if file == [] || m.phase == Done then Stop(m)
    else
      var k := FgetsLength(file, LINE_BUFFER);
      match Step(options, m, FpLine(file[..k], LINE_BUFFER))
      case Continue(m') => Run(options, m', file[k..])
      case Stop(m') => Stop(m')
      case NeedsRepair(m') => NeedsRepair(m')
  }

  /** How the reading ends after a line. */
  function After(options: Options, o: Outcome, rest: Text): Outcome {
    if o.Continue? then Run(options, o.m, rest) else o
  }

  lemma RunNext(options: Options, m: Machine, file: Text)
    requires file != [] && m.phase != Done
    ensures var k := FgetsLength(file, LINE_BUFFER);
      Run(options, m, file) == After(options, Step(options, m, FpLine(file[..k], LINE_BUFFER)), file[k..])
  {
    hide Step, FpLine, FgetsLength;
  }

  lemma RunStops(options: Options, m: Machine, file: Text)
    ensures file == [] || m.phase == Done ==> Run(options, m, file) == Stop(m)
  {
  }

  lemma StepLine(options: Options, m: Machine, raw: Text)
    requires At(raw, 0) != CR && At(raw, 0) != NL && m.phase != Range && m.phase != Done
    ensures var line := Cut(raw);
      Step(options, m, raw) ==
        if HitsBoundary(options, line) then Stop(m)
        else if !options.proper && StartsWith(line, UPPER_BEGIN) && Contains(line, CUT_HERE) && !m.tf then
          Continue(m.(vlc := 0))
        else LineStep(m, line)
  {
    hide LineStep, Contains, StartsWith, HitsBoundary;
  }

  // ---------------------------------------------------------------- the loop

  /**
   UUDecodePart for yEnc: the variables of the program are the fields of m. bhflag, the checksum of the file and the
   output go from part to part; everything else is local. Returns false when a line would have to be repaired.
   */
  method DecodePart(options: Options, datain: Text, bhflag0: nat, filecrc0: bv32, written: Text)
    returns (ok: bool, m: Machine)
    ensures var r := Run(options, Entered(bhflag0, written, filecrc0), datain);
      r == if ok then Stop(m) else NeedsRepair(m)
  {
    hide Run, Step, FgetsLength, FpLine, StartsWith, Contains, HitsBoundary, Cut, HeaderLine, DataLine, EndLine, At;
    ok, m := true, Entered(bhflag0, written, filecrc0);
    var rest := datain;
    ghost var all := Run(options, m, datain);
    while rest != []
      invariant m.phase == Header ==> m.partends == 0 && !m.tf
      invariant m.phase == Header || m.phase == Data
      invariant Run(options, m, rest) == all && ok && m.warnings == NO_WARNINGS
      decreases |rest|
    {
      var raw;
      raw, rest := ReadLine(options, rest, m);
      if At(raw, 0) == CR || At(raw, 0) == NL {
        StepBlank(options, m, raw);
        if m.vlc > 5 { m := m.(tf := false); }
        m := m.(vlc := 0);
        continue;
      }
      var line := Cut(raw);
      StepLine(options, m, raw);
      if HitsBoundary(options, line) { return; }
      if !options.proper {
        if StartsWith(line, UPPER_BEGIN) && Contains(line, CUT_HERE) && !m.tf {
          m := m.(vlc := 0);
          continue;
        }
      }
      if m.phase == Header {
        var broken;
        broken, rest, m := ReadHeader(options, line, rest, m);
        if broken { return; }
        continue;
      }
      if StartsWith(line, YEND + [SPACE]) {
        m := CheckEnd(line, m);
        return;
      }
      ok, m := TakeLine(line, m);
      if !ok { return; }
    }
    RunStops(options, m, rest);
  }

  method ReadLine(options: Options, datain: Text, ghost m: Machine) returns (raw: Text, rest: Text)
    requires datain != [] && m.phase != Done
    ensures |rest| < |datain|
    ensures Run(options, m, datain) == After(options, Step(options, m, raw), rest)
  {
    hide Run, Step, FgetsLength, FpLine;
    FgetsProgress(datain);
    RunNext(options, m, datain);
    var k := FgetsLength(datain, LINE_BUFFER);
    raw, rest := FpLine(datain[..k], LINE_BUFFER), datain[k..];
  }

  /** The header line and the range line after it. Without a range line where one is due the reading breaks off. */
  method ReadHeader(options: Options, line: Text, datain: Text, m: Machine)
    returns (broken: bool, rest: Text, m': Machine)
    requires m.phase == Header && m.partends == 0 && !m.tf
    ensures |rest| <= |datain| && m'.warnings == m.warnings
    ensures !broken ==> m' == m || m'.phase == Data
    ensures Run(options, HeaderLine(m, line), datain) == if broken then Stop(m') else Run(options, m', rest)
  {
    hide Run, Step, FgetsLength, FpLine, StartsWith, Field, Atoi;
    broken, rest, m' := false, datain, m;
    if StartsWith(line, YBEGIN + [SPACE]) && Field(line, NAME_).Some? {
      var ptr := Field(line, SIZE_);
      m' := m.(phase := Data, filesize := if ptr.Some? then Atoi(ptr.value) else -1);
      if Field(line, PART_).Some? {
        ghost var m1 := HeaderLine(m, line);
        RunStops(options, m1, rest);
        if rest == [] {
          broken, m' := true, m'.(phase := Range);
          return;
        }
        var raw;
        raw, rest := ReadLine(options, rest, m1);
        StepRange(options, m1, raw);
        var end := Field(raw, END_);
        if end.None? {
          broken := true;
          return;
        }
        m' := m'.(partends := Atoi(end.value));
      }
      m' := m'.(tf := true);
    }
  }

  /** One data line: the bytes it adds, if it is taken for data, go into the checksums and the output. */
  method TakeLine(line: Text, m: Machine) returns (ok: bool, m': Machine)
    ensures DataLine(m, line) == if ok then Continue(m') else NeedsRepair(m')
    ensures m'.phase == m.phase && m'.warnings == m.warnings
  {
    hide Verdict, Decode, Crc;
    var verdict := Verdict(line, if m.tf then IsYenc else Not, m.bhflag);
    ok, m' := verdict.0 != Not, m.(bhflag := verdict.1);
    if !ok { return; }
    if verdict.0 == IsYenc {
      var oline := DecodeLine(line);
      if m.partends != 0 { m' := m'.(partcrc := Crc(m.partcrc, oline)); }
      m' := m'.(filecrc := Crc(m.filecrc, oline), partsize := m.partsize + |oline|);
      m' := m'.(vlc := m.vlc + 1, out := m.out + oline);
    } else {
      m' := m'.(vlc := 0, tf := false);
    }
  }

  lemma StepBlank(options: Options, m: Machine, raw: Text)
    requires (At(raw, 0) == CR || At(raw, 0) == NL) && m.phase != Range
    ensures Step(options, m, raw) == Continue(m.(tf := m.tf && m.vlc <= 5, vlc := 0))
  {
  }

  lemma StepRange(options: Options, m: Machine, raw: Text)
    requires m.phase == Range
    ensures Step(options, m, raw) == RangeLine(m, raw)
  {
  }

  /** The =yend line: the checksums and the size are compared, and the end of the file is found. */
  method CheckEnd(line: Text, m: Machine) returns (m': Machine)
    ensures m' == EndLine(m, line)
  {
    hide Field, Strtoul, Atol, Number;
    var warnings := NO_WARNINGS;
    var ptr := Field(line, PCRC_);
    if ptr.Some? && Strtoul(ptr.value) != Number(m.partcrc) { warnings := warnings.(partCrc := true); }
    ptr := Field(line, CRC_);
    if ptr.Some? && Strtoul(ptr.value) != Number(m.filecrc) { warnings := warnings.(fileCrc := true); }
    ptr := Field(line, SIZE_);
    if ptr.Some? {
      if Atol(ptr.value) != m.partsize && m.filesize != -1 { warnings := warnings.(size := true); }
    }
    m' := m.(warnings := warnings, phase := if m.partends == 0 || m.partends >= m.filesize then Done else m.phase);
  }
}
