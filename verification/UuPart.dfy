/** UUDecodePart on uuencoded text: a state machine from the begin line to the end line that holds back three lines. */
module UuPart {
  import opened Prelude
  import opened ByteText
  import opened DecoderLines
  import opened UuCodec
  import opened ValidData

  datatype Phase = Begin | Data | End | Done

  /**
   The state between lines. trusted (tf) is set once four valid lines have been seen; until then valid lines wait in
   saved, whose length is tc.
   */
  datatype Machine = Machine(phase: Phase, trusted: bool, saved: seq<seq<Byte>>, run: nat, bhflag: nat, out: seq<Byte>)

  /** What a line does: go on, stop with a result, or ask for the line to be repaired, which is not modelled. */
  datatype Outcome = Continue(m: Machine) | Stop(m: Machine) | NeedsRepair(m: Machine)

  const BEGIN_: seq<Byte> := [98, 101, 103, 105, 110, 32]
  const PRE_BEGIN: seq<Byte> := [60, 112, 114, 101, 62, 98, 101, 103, 105, 110, 32]
  const END_: seq<Byte> := [101, 110, 100]
  function KindOf(e: Encoding): Kind {
    match e
    case UU => IsUU
    case XX => IsXX
    case B64 => IsB64
  }

  /** The verdict on a data line, with the correction for lines that also look like Base64. */
  function DataVerdict(e: Encoding, m: Machine, line: seq<Byte>): (Kind, nat) {
    var (v, flag) := Verdict(line, if m.trusted then KindOf(e) else Not, m.bhflag);
    if v == IsB64 && Verdict(line, KindOf(e), flag).0 == KindOf(e) then (KindOf(e), flag) else (v, flag)
  }

  /** A line while data is expected. */
  function DataLine(e: Encoding, m: Machine, line: seq<Byte>): Outcome
    requires e != B64
  {
    var (v, flag) := DataVerdict(e, m, line);
    var m1 := m.(bhflag := flag);
    if v == Not then NeedsRepair(m1)
    else if v != KindOf(e) then Continue(m1.(trusted := false, saved := [], run := 0))
    else
      var phase := if At(line, 0) == (if e == UU then UPPER_M else LOWER_H) then Data else End;
      if m.trusted then Continue(m1.(out := m.out + LineBytesOf(e, line), run := m.run + 1, phase := phase))
      else if |m.saved| == 3 then
        var out := m.out + AllBytesOf(e, m.saved) + LineBytesOf(e, line);
        Continue(m1.(out := out, trusted := true, saved := [], phase := phase))
      else Continue(m1.(saved := m.saved + [line], phase := phase))
  }

  /** The bytes of a line that has been found valid; a first character without a value cannot occur there. */
  function LineBytesOf(e: Encoding, line: seq<Byte>): seq<Byte> {
    if ValOf(e, At(line, 0)) >= 0 then Decoded(e, line) else []
  }

  function AllBytesOf(e: Encoding, lines: seq<seq<Byte>>): seq<Byte> {
    if lines == [] then [] else LineBytesOf(e, lines[0]) + AllBytesOf(e, lines[1..])
  }

  /** One line of the file, as _FP_fgets delivers it. */
  function Step(e: Encoding, options: Options, m: Machine, raw: seq<Byte>): Outcome
    requires e != B64
  {
    if At(raw, 0) == CR || At(raw, 0) == NL then
      Continue(m.(phase := if m.phase == Data then End else m.phase,
                  trusted := if m.run > 5 then false else m.trusted,
                  saved := if m.run > 5 then [] else m.saved,
                  run := 0))
    else
      var line := Cut(raw);
      if HitsBoundary(options, line) then Stop(m)
      else if !options.proper && StartsWith(line, UPPER_BEGIN) && Contains(line, CUT_HERE) && !m.trusted then
        Continue(m.(saved := [], run := 0))
      else
        match m.phase
        case Begin =>
          Continue(if StartsWith(line, BEGIN_) || StartsWithIgnoringCase(line, PRE_BEGIN) then m.(phase := Data) else m)
        case Data => DataLine(e, m, line)
        case End => if StartsWith(line, END_) then Stop(m.(phase := Done)) else DataLine(e, m, line)
        case Done => Stop(m)
  }

  /** The state after reading the file to its end or to a stop. */
  function Run(e: Encoding, options: Options, m: Machine, file: seq<Byte>): Outcome
    requires e != B64
    decreases |file|
  {
    if file == [] || m.phase == Done then Stop(m)
    else
      var k := FgetsLength(file, LINE_BUFFER);
      match Step(e, options, m, FpLine(file[..k], LINE_BUFFER))
      case Continue(m') => Run(e, options, m', file[k..])
      case Stop(m') => Stop(m')
      case NeedsRepair(m') => NeedsRepair(m')
  }

  /** The state at the beginning of a part: what is static or the caller's is kept, what is local starts anew. */
  function Entered(phase: Phase, bhflag: nat, out: seq<Byte>): Machine {
    Machine(phase, false, [], 0, bhflag, out)
  }

  const FRESH := Entered(Begin, 0, [])

  /** The decoded file: what was written, and at the end of a complete file the lines still held back. */
  function Output(e: Encoding, m: Machine): seq<Byte> {
    if m.phase == Done then m.out + AllBytesOf(e, m.saved) else m.out
  }

  // ---------------------------------------------------------------- the loop

  /**
   UUDecodePart for UU and XX. state, bhflag and the output are kept from part to part; tf, tc, the saved lines and vlc
   are local. Returns false when a line would have to be repaired first.
   */
  method DecodePart(e: Encoding, options: Options, datain: seq<Byte>, state0: Phase, bhflag0: nat, written: seq<Byte>)
    returns (ok: bool, state: Phase, bhflag: nat, dataout: seq<Byte>)
    requires e != B64
    ensures var r := Run(e, options, Entered(state0, bhflag0, written), datain);
      && (ok <==> !r.NeedsRepair?)
      && (ok ==> state == r.m.phase && bhflag == r.m.bhflag && dataout == Output(e, r.m))
  {
    hide Step, Run, Output, AllBytesOf, LineBytesOf, DataLine, FgetsLength, FpLine, HasValues, StartsWith, Contains,
      StartsWithIgnoringCase, HitsBoundary, Cut;
    ok, state, bhflag, dataout := true, state0, bhflag0, written;
    var tf, tc, vlc := false, 0, 0;
    var save := new seq<Byte>[3](_ => []);
    var rest := datain;
    ghost var all := Run(e, options, Entered(state0, bhflag0, written), datain);
    assert save[..tc] == [];
    NoValues(e);
    while rest != [] && state != Done
      invariant 0 <= tc <= 3 && save.Length == 3 && fresh(save) && HasValues(e, save[..tc])
      invariant Run(e, options, Machine(state, tf, save[..tc], vlc, bhflag, dataout), rest) == all
      decreases |rest|
    {
      ghost var m := Machine(state, tf, save[..tc], vlc, bhflag, dataout);
      FgetsProgress(rest);
      RunNext(e, options, m, rest);
      var k := FgetsLength(rest, LINE_BUFFER);
      var raw := FpLine(rest[..k], LINE_BUFFER);
      rest := rest[k..];
      if At(raw, 0) == CR || At(raw, 0) == NL {
        StepBlank(e, options, m, raw);
        NoValues(e);
        if state == Data { state := End; }
        if vlc > 5 { tf, tc := false, 0; }
        vlc := 0;
        continue;
      }
      var line := Cut(raw);
      StepLine(e, options, m, raw);
      if HitsBoundary(options, line) {
        StoppedOutput(e, m);
        return;
      }
      if !options.proper {
        if StartsWith(line, UPPER_BEGIN) && Contains(line, CUT_HERE) && !tf {
          NoValues(e);
          tc, tf, vlc := 0, false, 0;
          continue;
        }
      }
      if state == Begin {
        if StartsWith(line, BEGIN_) || StartsWithIgnoringCase(line, PRE_BEGIN) {
          state := Data;
        }
        continue;
      } else if state == End {
        if StartsWith(line, END_) {
          state := Done;
          break;
        }
      }
      var repair, oline;
      repair, oline, state, tf, tc, vlc, bhflag := TakeLine(e, line, state, tf, tc, save, vlc, bhflag, m);
      if repair {
        return false, state, bhflag, dataout;
      }
      dataout := dataout + oline;
    }
    ghost var m := Machine(state, tf, save[..tc], vlc, bhflag, dataout);
    RunStops(e, options, m, rest);
    assert all == Stop(m);
    OutputIs(e, m);
    if state == Done {
      dataout := WriteSaved(e, save, tc, dataout);
    }
  }

  /** What DecodePart does with a data line. save keeps the lines held back, tc of them. */
  method TakeLine(e: Encoding, line: seq<Byte>, state: Phase, tf: bool, tc: nat, save: array<seq<Byte>>, vlc: nat,
                  bhflag: nat, ghost m: Machine)
    returns (repair: bool, oline: seq<Byte>, state': Phase, tf': bool, tc': nat, vlc': nat, bhflag': nat)
    requires e != B64 && save.Length == 3 && tc <= 3 && HasValues(e, save[..tc])
    requires m.(out := []) == Machine(state, tf, save[..tc], vlc, bhflag, [])
    modifies save
    ensures tc' <= 3 && HasValues(e, save[..tc'])
    ensures repair ==> DataLine(e, m, line).NeedsRepair?
    ensures !repair ==>
      DataLine(e, m, line) == Continue(Machine(state', tf', save[..tc'], vlc', bhflag', m.out + oline))
  {
    hide AllBytesOf, LineBytesOf, Verdict, Decoded, ValOf;
    repair, oline, state', tf', tc', vlc', bhflag' := false, [], state, tf, tc, vlc, bhflag;
    ghost var saved := save[..tc];
    var verdict := Verdict(line, if tf then KindOf(e) else Not, bhflag);
    var vflag := verdict.0;
    bhflag' := verdict.1;
    if vflag == Not {
      repair := true;
      return;
    }
    if vflag == IsB64 {
      if Verdict(line, KindOf(e), bhflag').0 == KindOf(e) { vflag := KindOf(e); }
    }
    assert (vflag, bhflag') == DataVerdict(e, m, line);
    if vflag == KindOf(e) {
      VerdictHasValue(e, m, line);
      if tf {
        oline := DecodeLine(e, line);
        vlc' := vlc + 1;
      } else if tc == 3 {
        oline := WriteSaved(e, save, 3, []);
        var last := DecodeLine(e, line);
        assert [] + AllBytesOf(e, saved) == AllBytesOf(e, saved);
        assert m.out + (AllBytesOf(e, saved) + last) == m.out + AllBytesOf(e, saved) + last;
        oline := oline + last;
        tf', tc' := true, 0;
        NoValues(e);
        assert save[..0] == [];
      } else {
        save[tc], tc' := line, tc + 1;
        assert save[..tc + 1] == saved + [line];
      }
      state' := if At(line, 0) == (if e == UU then UPPER_M else LOWER_H) then Data else End;
    } else {
      vlc', tf', tc' := 0, false, 0;
      NoValues(e);
      assert save[..0] == [];
    }
    assert m.out + [] == m.out;
  }

  /** Decodes the tc lines held back. */
  method WriteSaved(e: Encoding, save: array<seq<Byte>>, tc: nat, written: seq<Byte>) returns (out: seq<Byte>)
    requires e != B64 && tc <= save.Length && HasValues(e, save[..tc])
    ensures out == written + AllBytesOf(e, save[..tc])
  {
    hide AllBytesOf, LineBytesOf;
    out := written;
    for i := 0 to tc
      invariant out + AllBytesOf(e, save[i..tc]) == written + AllBytesOf(e, save[..tc])
    {
      assert save[i..tc][0] == save[i] == save[..tc][i] && save[i..tc][1..] == save[i + 1..tc];
      FirstBytes(e, save[i..tc], out);
      var oline := DecodeLine(e, save[i]);
      out := out + oline;
    }
    assert save[tc..tc] == [];
    NoBytes(e);
    assert out + [] == out;
  }

  /** Every line has a first character with a value, so that it can be decoded. */
  predicate HasValues(e: Encoding, lines: seq<seq<Byte>>) {
    forall i :: 0 <= i < |lines| ==> ValOf(e, At(lines[i], 0)) >= 0
  }

  lemma NoValues(e: Encoding)
    ensures HasValues(e, [])
  {
  }

  /** A line found to be in the encoding begins with a length. */
  lemma VerdictHasValue(e: Encoding, m: Machine, line: seq<Byte>)
    requires e != B64 && DataVerdict(e, m, line).0 == KindOf(e)
    ensures ValOf(e, At(line, 0)) >= 0
    ensures LineBytesOf(e, line) == Decoded(e, line)
  {
    hide B64Test, BinhexTest, Decoded;
  }

  lemma NoBytes(e: Encoding)
    ensures AllBytesOf(e, []) == []
  {
  }

  lemma FirstBytes(e: Encoding, lines: seq<seq<Byte>>, out: seq<Byte>)
    requires lines != [] && ValOf(e, At(lines[0], 0)) >= 0
    ensures out + AllBytesOf(e, lines) == out + Decoded(e, lines[0]) + AllBytesOf(e, lines[1..])
  {
    hide Decoded;
    assert out + (Decoded(e, lines[0]) + AllBytesOf(e, lines[1..]))
        == out + Decoded(e, lines[0]) + AllBytesOf(e, lines[1..]);
  }

  // ---------------------------------------------------------------- the specification, step by step

  lemma RunNext(e: Encoding, options: Options, m: Machine, file: seq<Byte>)
    requires e != B64 && file != [] && m.phase != Done
    ensures var k := FgetsLength(file, LINE_BUFFER);
      var o := Step(e, options, m, FpLine(file[..k], LINE_BUFFER));
      Run(e, options, m, file) == if o.Continue? then Run(e, options, o.m, file[k..]) else o
  {
    hide Step, FpLine, FgetsLength;
  }

  lemma RunStops(e: Encoding, options: Options, m: Machine, file: seq<Byte>)
    requires e != B64
    ensures file == [] || m.phase == Done ==> Run(e, options, m, file) == Stop(m)
  {
  }

  lemma StepBlank(e: Encoding, options: Options, m: Machine, raw: seq<Byte>)
    requires e != B64 && (At(raw, 0) == CR || At(raw, 0) == NL)
    ensures Step(e, options, m, raw) == Continue(m.(phase := if m.phase == Data then End else m.phase,
      trusted := if m.run > 5 then false else m.trusted, saved := if m.run > 5 then [] else m.saved, run := 0))
  {
  }

  lemma StepLine(e: Encoding, options: Options, m: Machine, raw: seq<Byte>)
    requires e != B64 && At(raw, 0) != CR && At(raw, 0) != NL && m.phase != Done
    ensures var line := Cut(raw);
      Step(e, options, m, raw) ==
        if HitsBoundary(options, line) then Stop(m)
        else if !options.proper && StartsWith(line, UPPER_BEGIN) && Contains(line, CUT_HERE) && !m.trusted then
          Continue(m.(saved := [], run := 0))
        else if m.phase == Begin then
          Continue(if StartsWith(line, BEGIN_) || StartsWithIgnoringCase(line, PRE_BEGIN) then m.(phase := Data) else m)
        else if m.phase == End && StartsWith(line, END_) then Stop(m.(phase := Done))
        else DataLine(e, m, line)
  {
    hide DataLine, Contains, StartsWith, StartsWithIgnoringCase, HitsBoundary;
  }

  lemma StoppedOutput(e: Encoding, m: Machine)
    ensures m.phase != Done ==> Output(e, m) == m.out
  {
  }

  lemma OutputIs(e: Encoding, m: Machine)
    ensures Output(e, m) == if m.phase == Done then m.out + AllBytesOf(e, m.saved) else m.out
  {
  }
}
