/** UUDecodePart on Base64: lines are held back until four have been seen, and no begin or end line is there to tell. */
module Base64Part {
  import opened Prelude
  import opened ByteText
  import opened DecoderLines
  import opened ValidData
  import opened Base64Lines

  datatype Phase = Data | Done

  /**
   The state between lines. saved holds the lines back, up to three; left is what UUDecodeLine carries from line to
   line; vflag is the last verdict. haddata, haddh and hadct note data written, a MIME boundary and a Content-Type line.
   */
  datatype Machine = Machine(phase: Phase, tf: bool, saved: seq<Text>, vlc: nat, bhflag: nat, left: Text, out: Text,
                             vflag: Kind, haddata: bool, haddh: bool, hadct: bool)

  /** Break leaves the loop for what comes after it, Return does not come there. */
  datatype Outcome = Continue(m: Machine) | Break(m: Machine) | Return(m: Machine) | NeedsRepair(m: Machine)

  // "Content-Type"
  const CONTENT_TYPE: Text := [67, 111, 110, 116, 101, 110, 116, 45, 84, 121, 112, 101]

  function Entered(bhflag: nat, left: Text, out: Text): Machine {
    Machine(Data, false, [], 0, bhflag, left, out, Not, false, false, false)
  }

  // ---------------------------------------------------------------- one line

  /** The bytes of lines, one after the other, and what is carried on. */
  function Bytes(left: Text, lines: seq<Text>): (Text, Text)
    decreases |lines|
  {
    if lines == [] then ([], left)
    else
      var (out, left1) := DecodeB64(left + lines[0]);
      var (more, left2) := Bytes(left1, lines[1..]);
      (out + more, left2)
  }

  /** Decodes the lines into the output. */
  function Took(m: Machine, lines: seq<Text>): Machine {
    var (out, left) := Bytes(m.left, lines);
    m.(out := m.out + out, left := left, haddata := m.haddata || out != [])
  }

  predicate Dashes(line: Text) {
    At(line, 0) == DASH && At(line, 1) == DASH
  }

  function DataLine(m: Machine, line: Text): Outcome {
    var (v, flag) := Verdict(line, if m.tf then IsB64 else Not, m.bhflag);
    var m1 := m.(bhflag := flag, vflag := v);
    if v == Not then NeedsRepair(m1)
    else if v != IsB64 then Continue(m1.(vlc := 0, tf := false, saved := [], haddh := false))
    else
      var m2 := m1.(phase := if EQUALS in line then Done else Data);
      if m.tf then Continue(Took(m2, [line]).(vlc := m.vlc + 1))
      else if |m.saved| == 3 then Continue(Took(m2, m.saved + [line]).(tf := true, saved := []))
      else Continue(m2.(saved := m.saved + [line]))
  }

  /** A line that is not blank. */
  function LineStep(options: Options, m: Machine, line: Text): Outcome {
    if HitsBoundary(options, line) then Return(m)
    else if !options.proper && StartsWith(line, UPPER_BEGIN) && Contains(line, CUT_HERE) && !m.tf then
      Continue(m.(saved := [], vlc := 0))
    else if !options.proper && Dashes(line) then
      if (m.haddata || m.saved != []) && (m.haddh || m.hadct) then Continue(m.(phase := Done, vlc := 0))
      else Continue(m.(hadct := false, haddh := true))
    else if Dashes(line) && m.saved != [] then Break(m)
    else
      DataLine(m.(hadct := m.hadct || (!options.proper && StartsWithIgnoringCase(line, CONTENT_TYPE))), line)
  }

  function Step(options: Options, m: Machine, raw: Text): Outcome {
    if At(raw, 0) == CR || At(raw, 0) == NL then
      Continue(m.(tf := m.tf && m.vlc <= 5, saved := if m.vlc > 5 then [] else m.saved, vlc := 0))
    else LineStep(options, m, Cut(raw))
  }

  /** After the loop: the lines held back are written at the end of a file, or where MIME says that they are data. */
  function Finish(options: Options, m: Machine): Machine {
    if m.phase == Done || (m.vflag == IsB64 && (options.proper || m.haddh)) then Took(m, m.saved) else m
  }

  function Run(options: Options, m: Machine, file: Text): Outcome
    decreases |file|
  {
    if file == [] || m.phase == Done then Return(Finish(options, m))
    else
      var k := FgetsLength(file, LINE_BUFFER);
      match Step(options, m, FpLine(file[..k], LINE_BUFFER))
      case Continue(m') => Run(options, m', file[k..])
      case Break(m') => Return(Finish(options, m'))
      case Return(m') => Return(m')
      case NeedsRepair(m') => NeedsRepair(m')
  }

  /** How the reading ends after a line. */
  function After(options: Options, o: Outcome, rest: Text): Outcome {
    if o.Continue? then Run(options, o.m, rest)
    else if o.Break? then Return(Finish(options, o.m))
    else o
  }

  lemma RunNext(options: Options, m: Machine, file: Text)
    requires file != [] && m.phase != Done
    ensures var k := FgetsLength(file, LINE_BUFFER);
      Run(options, m, file) == After(options, Step(options, m, FpLine(file[..k], LINE_BUFFER)), file[k..])
  {
    hide Step, FpLine, FgetsLength, Finish;
  }

  lemma RunStops(options: Options, m: Machine, file: Text)
    ensures file == [] || m.phase == Done ==> Run(options, m, file) == Return(Finish(options, m))
  {
    hide Finish;
  }

  lemma StepBlank(options: Options, m: Machine, raw: Text)
    requires At(raw, 0) == CR || At(raw, 0) == NL
    ensures Step(options, m, raw)
      == Continue(m.(tf := m.tf && m.vlc <= 5, saved := if m.vlc > 5 then [] else m.saved, vlc := 0))
  {
  }

  lemma StepLine(options: Options, m: Machine, raw: Text)
    requires At(raw, 0) != CR && At(raw, 0) != NL
    ensures Step(options, m, raw) == LineStep(options, m, Cut(raw))
  {
    hide LineStep;
  }

  // ---------------------------------------------------------------- the loop

  /**
   UUDecodePart for Base64: the variables of the program are the fields of m, and decoder is what UUDecodeLine keeps
   between calls. Returns false when a line would have to be repaired.
   */
  method DecodePart(decoder: LineDecoder, options: Options, datain: Text, bhflag0: nat, written: Text)
    returns (ok: bool, m: Machine)
    modifies decoder
    ensures var r := Run(options, Entered(bhflag0, old(decoder.leftover), written), datain);
      r == if ok then Return(m) else NeedsRepair(m)
    ensures ok ==> decoder.leftover == m.left
  {
    hide Run, Step, LineStep, FgetsLength, FpLine, Cut, Finish, At;
    ok, m := true, Entered(bhflag0, decoder.leftover, written);
    var rest := datain;
    ghost var all := Run(options, m, datain);
    while rest != [] && m.phase != Done
      invariant Run(options, m, rest) == all && ok && decoder.leftover == m.left
      decreases |rest|
    {
      FgetsProgress(rest);
      RunNext(options, m, rest);
      var k := FgetsLength(rest, LINE_BUFFER);
      var raw := FpLine(rest[..k], LINE_BUFFER);
      rest := rest[k..];
      if At(raw, 0) == CR || At(raw, 0) == NL {
        StepBlank(options, m, raw);
        if m.vlc > 5 { m := m.(tf := false, saved := []); }
        m := m.(vlc := 0);
        continue;
      }
      StepLine(options, m, raw);
      var stop, leave;
      ok, stop, leave, m := TakeLine(decoder, options, Cut(raw), m);
      if !ok || stop { return; }
      if leave {
        m := WriteSaved(decoder, options, m);
        return;
      }
    }
    RunStops(options, m, rest);
    m := WriteSaved(decoder, options, m);
  }

  /** A line that is not blank: whether it can be used, and whether the reading stops with it. */
  method TakeLine(decoder: LineDecoder, options: Options, line: Text, m: Machine)
    returns (ok: bool, stop: bool, leave: bool, m': Machine)
    requires decoder.leftover == m.left
    modifies decoder
    ensures decoder.leftover == m'.left
    ensures LineStep(options, m, line)
      == if !ok then NeedsRepair(m') else if stop then Return(m') else if leave then Break(m') else Continue(m')
  {
    hide StartsWith, Contains, HitsBoundary, StartsWithIgnoringCase, DataLine;
    ok, stop, leave, m' := true, false, false, m;
    if HitsBoundary(options, line) {
      stop := true;
      return;
    }
    if !options.proper {
      if StartsWith(line, UPPER_BEGIN) && Contains(line, CUT_HERE) && !m.tf {
        m' := m.(saved := [], vlc := 0);
        return;
      }
      if At(line, 0) == DASH && At(line, 1) == DASH {
        if (m.haddata || m.saved != []) && (m.haddh || m.hadct) {
          m' := m.(phase := Done, vlc := 0);
          return;
        }
        m' := m.(hadct := false, haddh := true);
        return;
      }
      if StartsWithIgnoringCase(line, CONTENT_TYPE) { m' := m.(hadct := true); }
    }
    if At(line, 0) == DASH && At(line, 1) == DASH && m.saved != [] {
      leave := true;
      return;
    }
    ok, m' := TakeData(decoder, line, m');
  }

  method TakeData(decoder: LineDecoder, line: Text, m: Machine) returns (ok: bool, m': Machine)
    requires decoder.leftover == m.left
    modifies decoder
    ensures decoder.leftover == m'.left
    ensures DataLine(m, line) == if ok then Continue(m') else NeedsRepair(m')
  {
    hide Verdict, Bytes;
    var verdict := Verdict(line, if m.tf then IsB64 else Not, m.bhflag);
    ok, m' := verdict.0 != Not, m.(bhflag := verdict.1, vflag := verdict.0);
    if !ok { return; }
    if verdict.0 == IsB64 {
      m' := m'.(phase := if EQUALS in line then Done else Data);
      if m.tf {
        m' := WriteLines(decoder, [line], m');
        m' := m'.(vlc := m.vlc + 1);
      } else if |m.saved| == 3 {
        m' := WriteLines(decoder, m.saved + [line], m');
        m' := m'.(tf := true, saved := []);
      } else {
        m' := m'.(saved := m.saved + [line]);
      }
    } else {
      m' := m'.(vlc := 0, tf := false, saved := [], haddh := false);
    }
  }

  /** Decodes the lines and writes what they give. */
  method WriteLines(decoder: LineDecoder, lines: seq<Text>, m: Machine) returns (m': Machine)
    requires decoder.leftover == m.left
    modifies decoder
    ensures m' == Took(m, lines) && decoder.leftover == m'.left
  {
    hide DecodeB64, Bytes;
    var oline: Text := [];
    ghost var all := Bytes(m.left, lines);
    assert lines[0..] == lines && oline + all.0 == all.0;
    for i := 0 to |lines|
      invariant var more := Bytes(decoder.leftover, lines[i..]);
        oline + more.0 == all.0 && more.1 == all.1
    {
      assert lines[i..][0] == lines[i] && lines[i..][1..] == lines[i + 1..];
      BytesNext(decoder.leftover, lines[i..], oline);
      var d := decoder.DecodeLine(lines[i]);
      oline := oline + d;
    }
    assert lines[|lines|..] == [];
    BytesOfNone(decoder.leftover);
    assert oline + [] == oline;
    m' := m.(out := m.out + oline, left := decoder.leftover, haddata := m.haddata || oline != []);
  }

  lemma BytesOfNone(left: Text)
    ensures Bytes(left, []) == ([], left)
  {
  }

  lemma BytesNext(left: Text, lines: seq<Text>, before: Text)
    requires lines != []
    ensures var (out, left1) := DecodeB64(left + lines[0]);
      var more := Bytes(left1, lines[1..]);
      before + Bytes(left, lines).0 == before + out + more.0 && Bytes(left, lines).1 == more.1
  {
    hide DecodeB64;
    var (out, left1) := DecodeB64(left + lines[0]);
    var more := Bytes(left1, lines[1..]);
    assert before + (out + more.0) == before + out + more.0;
  }

  /** What comes after the loop. */
  method WriteSaved(decoder: LineDecoder, options: Options, m: Machine) returns (m': Machine)
    requires decoder.leftover == m.left
    modifies decoder
    ensures m' == Finish(options, m) && decoder.leftover == m'.left
  {
    m' := m;
    if m.phase == Done || (m.vflag == IsB64 && (options.proper || m.haddh)) {
      m' := WriteLines(decoder, m.saved, m);
    }
  }
}
