/** Uuencoded files in several parts: UUEncodePartial writes them, UUDecode runs UUDecodePart over them. */
module UuMultipart {
  import opened Prelude
  import opened ByteText
  import opened DecoderLines
  import opened UuTables
  import opened UuCodec
  import opened UuPart
  import opened UuRoundTrip

  // ---------------------------------------------------------------- writing

  /** Bytes per part. */
  function PerPart(linperfile: int): int {
    45 * linperfile
  }

  /**
   One part: the first has the header lines and the begin line, the one that meets the end of the file the end line.
   */
  function PartText(first: bool, lines: seq<Text>, header: Text, chunk: Text, feof: bool): Text {
    (if first then WithEnds(lines) + [NL] + BEGIN_ + header + [NL] else [])
    + TextOf(UU, chunk) + (if feof then [UuChar(0), NL] + END_ + [NL] else []) + [NL]
  }

  /** A part reads so many bytes; a file that ends exactly there is not seen to end. */
  predicate MeetsEnd(d: Text, linperfile: int) {
    linperfile <= 0 || |d| < PerPart(linperfile)
  }

  /** All parts, up to the one that meets the end of the file. */
  function Parts(first: bool, lines: seq<Text>, header: Text, d: Text, linperfile: int): (r: seq<Text>)
    ensures r != []
    decreases |d|
  {
    if MeetsEnd(d, linperfile) then [PartText(first, lines, header, d, true)]
    else
      var n := PerPart(linperfile);
      [PartText(first, lines, header, d[..n], false)] + Parts(false, lines, header, d[n..], linperfile)
  }

  /** UUEncodePartial for UU, from where the part before stopped reading. */
  method EncodePartial(infile: Text, pos: nat, partno: nat, lines: seq<Text>, header: Text, linperfile: int)
    returns (outfile: Text, pos': nat, feof: bool)
    requires pos <= |infile|
    ensures feof == MeetsEnd(infile[pos..], linperfile)
    ensures pos' == if feof then |infile| else pos + PerPart(linperfile)
    ensures pos <= pos' <= |infile| && outfile == PartText(partno == 1, lines, header, infile[pos..pos'], feof)
  {
    hide TextOf, WithEnds;
    outfile := [];
    if partno == 1 {
      outfile := WithEnds(lines) + [NL];
      outfile := outfile + BEGIN_ + header + [NL];
    }
    var text;
    text, pos' := EncodeStream(UU, infile, pos, linperfile);
    feof := linperfile <= 0 || pos' - pos < PerPart(linperfile);
    outfile := outfile + text;
    if feof {
      outfile := outfile + ([UuChar(0), NL] + END_ + [NL]);
    } else {
      assert outfile + [] == outfile;
    }
    outfile := outfile + [NL];
  }

  /** Part after part until the end of the file is met. */
  method EncodeParts(infile: Text, lines: seq<Text>, header: Text, linperfile: int) returns (parts: seq<Text>)
    ensures parts == Parts(true, lines, header, infile, linperfile)
  {
    hide PartText;
    parts := [];
    var pos, feof, partno := 0, false, 1;
    assert infile[0..] == infile;
    ghost var all := Parts(true, lines, header, infile, linperfile);
    assert [] + all == all;
    while !feof
      invariant pos <= |infile| && partno >= 1
      invariant feof ==> parts == all
      invariant !feof ==> parts + Parts(partno == 1, lines, header, infile[pos..], linperfile) == all
      decreases !feof, |infile| - pos
    {
      var outfile, pos';
      outfile, pos', feof := EncodePartial(infile, pos, partno, lines, header, linperfile);
      if feof {
        assert infile[pos..pos'] == infile[pos..];
      } else {
        var n := PerPart(linperfile);
        assert infile[pos..][..n] == infile[pos..pos'] && infile[pos..][n..] == infile[pos'..];
        var more := Parts(false, lines, header, infile[pos'..], linperfile);
        assert parts + ([outfile] + more) == parts + [outfile] + more;
      }
      parts, pos, partno := parts + [outfile], pos', partno + 1;
    }
  }

  // ---------------------------------------------------------------- reading

  /** UUDecode: state, BinHex flag and output go from part to part; what a part holds back at its end is gone. */
  function RunParts(options: Options, phase: Phase, bhflag: nat, out: Text, files: seq<Text>): Outcome
    decreases |files|
  {
    if files == [] || phase == Done then Stop(Entered(phase, bhflag, out))
    else
      var r := Run(UU, options, Entered(phase, bhflag, out), files[0]);
      if r.NeedsRepair? then r else RunParts(options, r.m.phase, r.m.bhflag, Output(UU, r.m), files[1..])
  }

  method DecodeParts(options: Options, files: seq<Text>) returns (ok: bool, state: Phase, dataout: Text)
    ensures var r := RunParts(options, Begin, 0, [], files);
      (ok <==> !r.NeedsRepair?) && (ok ==> state == r.m.phase && dataout == r.m.out)
  {
    hide Run, Output;
    var bhflag := 0;
    ok, state, dataout := true, Begin, [];
    ghost var all := RunParts(options, Begin, 0, [], files);
    assert files[0..] == files;
    var i := 0;
    while i < |files| && state != Done
      invariant i <= |files| && RunParts(options, state, bhflag, dataout, files[i..]) == all
    {
      assert files[i..][0] == files[i] && files[i..][1..] == files[i + 1..];
      ok, state, bhflag, dataout := DecodePart(UU, options, files[i], state, bhflag, dataout);
      if !ok { return; }
      i := i + 1;
    }
  }

  // ---------------------------------------------------------------- the lines before the begin line

  /** A header line: it fits the line buffer and does not look like a begin line. */
  predicate Ordinary(line: Text) {
    PlainLine(line) && 0 < |line| <= 4094
    && !StartsWith(Cut(line + [NL]), BEGIN_) && !StartsWithIgnoringCase(Cut(line + [NL]), PRE_BEGIN)
  }

  predicate AllOrdinary(lines: seq<Text>) {
    forall i :: 0 <= i < |lines| ==> Ordinary(lines[i])
  }

  lemma SkipLine(options: Options, line: Text, rest: Text)
    requires Ordinary(line) && options.boundary.None?
    ensures Run(UU, options, FRESH, line + [NL] + rest) == Run(UU, options, FRESH, rest)
  {
    hide Run, FgetsLength, FpLine, Contains, StartsWith, StartsWithIgnoringCase, Cut;
    ReadPlainLine(line, rest, LINE_BUFFER);
    RunNext(UU, options, FRESH, line + [NL] + rest);
    assert At(line + [NL], 0) == line[0];
    StepLine(UU, options, FRESH, line + [NL]);
  }

  lemma {:induction false} SkipLines(options: Options, lines: seq<Text>, rest: Text)
    requires AllOrdinary(lines) && options.boundary.None?
    ensures Run(UU, options, FRESH, WithEnds(lines) + rest) == Run(UU, options, FRESH, rest)
    decreases |lines|
  {
    hide Run, Ordinary;
    if lines == [] {
      assert [] + rest == rest;
    } else {
      assert WithEnds(lines) + rest == lines[0] + [NL] + (WithEnds(lines[1..]) + rest);
      SkipLine(options, lines[0], WithEnds(lines[1..]) + rest);
      SkipLines(options, lines[1..], rest);
    }
  }

  // ---------------------------------------------------------------- one part

  /** The decoder at the beginning of a part: waiting for the begin line in the first, reading data in the others. */
  predicate Awaits(first: bool, phase: Phase, out: Text) {
    if first then phase == Begin && out == [] else phase == Data || phase == End
  }

  /** The beginning of a part: the machine is ready for its data lines. */
  lemma RunStart(options: Options, first: bool, phase: Phase, out: Text, lines: seq<Text>, header: Text, rest: Text)
    returns (m: Machine)
    requires options.boundary.None? && AllOrdinary(lines) && PlainLine(header) && |header| <= 4089
    requires Awaits(first, phase, out)
    ensures Reading(m) && m == Entered(m.phase, 0, out)
    ensures var start := if first then WithEnds(lines) + [NL] + BEGIN_ + header + [NL] else [];
      Run(UU, options, Entered(phase, 0, out), start + rest) == Run(UU, options, m, rest)
  {
    hide Run, WithEnds, AllOrdinary, Opened;
    if first {
      var begin := BEGIN_ + header + [NL] + rest;
      assert WithEnds(lines) + [NL] + BEGIN_ + header + [NL] + rest == WithEnds(lines) + ([NL] + begin);
      SkipLines(options, lines, [NL] + begin);
      m := RunBlank(options, FRESH, begin);
      RunBegin(options, header, rest);
      ShortBegin(options, header);
      m := Opened(options, header).m;
    } else {
      m := Entered(phase, 0, out);
      assert [] + rest == rest;
    }
  }

  lemma NoBoundary(options: Options, d: Text)
    requires options.boundary.None?
    ensures !CutShort(options, d)
  {
  }

  /** A part that does not meet the end: its bytes are written if it has four lines, and lost if it has fewer. */
  lemma RunMiddle(options: Options, m: Machine, chunk: Text)
    requires options.boundary.None? && Reading(m) && m == Entered(m.phase, 0, m.out)
    ensures var r := Run(UU, options, m, TextOf(UU, chunk) + [NL]);
      r.Stop? && r.m.phase == End && r.m.bhflag == 0
      && Output(UU, r.m) == (if LineCount(chunk) >= 4 then m.out + chunk else m.out)
  {
    hide Run, TextOf, CutShort, LineCount;
    NoBoundary(options, chunk);
    NothingSaved(m);
    NoBinhexBefore(Needed(m), chunk);
    var m1 := RunText(options, m, chunk, [NL]);
    assert m1.trusted ==> Held(m1) == m1.out by { if m1.trusted { NothingSaved(m1); } }
    assert [NL] + [] == [NL];
    var m2 := RunBlank(options, m1, []);
    RunStops(UU, options, m2, []);
  }

  lemma NothingSaved(m: Machine)
    requires m.saved == []
    ensures Held(m) == m.out
  {
  }

  /** The part that meets the end is written whole, however short it is. */
  lemma RunLast(options: Options, m: Machine, chunk: Text)
    requires options.boundary.None? && Reading(m) && m == Entered(m.phase, 0, m.out)
    ensures var r := Run(UU, options, m, TextOf(UU, chunk) + ([UuChar(0), NL] + END_ + [NL] + [NL]));
      r.Stop? && r.m.phase == Done && Output(UU, r.m) == m.out + chunk
  {
    hide Run, TextOf, CutShort, Counts;
    NoBoundary(options, chunk);
    NothingSaved(m);
    NoBinhexBefore(Needed(m), chunk);
    var m1 := RunText(options, m, chunk, [UuChar(0), NL] + END_ + [NL] + [NL]);
    RunTail(options, m1, [NL]);
  }

  lemma RunPart(options: Options, first: bool, phase: Phase, out: Text, lines: seq<Text>, header: Text, chunk: Text,
                feof: bool)
    requires options.boundary.None? && AllOrdinary(lines) && PlainLine(header) && |header| <= 4089
    requires Awaits(first, phase, out)
    ensures var r := Run(UU, options, Entered(phase, 0, out), PartText(first, lines, header, chunk, feof));
      && r.Stop? && r.m.phase == (if feof then Done else End) && (!feof ==> r.m.bhflag == 0)
      && Output(UU, r.m) == (if feof || LineCount(chunk) >= 4 then out + chunk else out)
  {
    hide Run, TextOf, WithEnds, AllOrdinary, LineCount, Output;
    var end: Text := if feof then [UuChar(0), NL] + END_ + [NL] else [];
    var start: Text := if first then WithEnds(lines) + [NL] + BEGIN_ + header + [NL] else [];
    assert PartText(first, lines, header, chunk, feof) == start + (TextOf(UU, chunk) + (end + [NL]));
    var m := RunStart(options, first, phase, out, lines, header, TextOf(UU, chunk) + (end + [NL]));
    if feof {
      RunLast(options, m, chunk);
    } else {
      assert [] + [NL] == [NL];
      RunMiddle(options, m, chunk);
    }
  }

  // ---------------------------------------------------------------- all parts

  /** What the last part carries. */
  function LastChunk(d: Text, linperfile: int): Text {
    if MeetsEnd(d, linperfile) then d else d[|d| - |d| % PerPart(linperfile)..]
  }

  lemma ChunkLess(d: Text, linperfile: int)
    requires !MeetsEnd(d, linperfile)
    ensures var n := PerPart(linperfile);
      0 < n <= |d| && LastChunk(d[n..], linperfile) == LastChunk(d, linperfile) && |LastChunk(d, linperfile)| < |d|
      && (LineCount(d[..n]) >= 4 <==> linperfile >= 4)
  {
    var n := PerPart(linperfile);
    ModLess(|d|, n);
    if |d| - n < n { SmallMod(|d| - n, n); }
    assert LineCount(d[..n]) == linperfile;
  }

  lemma ModLess(a: nat, n: int)
    requires 0 < n <= a
    ensures (a - n) % n == a % n < n
  {
    var q := a / n;
    assert a == q * n + a % n;
    assert a - n == (q - 1) * n + a % n;
    ModUnique(a - n, n, q - 1, a % n);
  }

  lemma ModUnique(a: nat, n: int, q: int, r: int)
    requires n > 0 && 0 <= r < n && a == q * n + r
    ensures a % n == r && a / n == q
  {
    var q', r' := a / n, a % n;
    Remains(a, n);
    Difference(q, q', n);
    if q > q' { AtLeast(q - q', n); } else if q < q' { AtLeast(q' - q, n); Negated(q, q', n); }
  }

  lemma Remains(a: nat, n: int)
    requires n > 0
    ensures a == (a / n) * n + a % n && 0 <= a % n < n
  {
  }

  lemma Difference(p: int, q: int, n: int)
    ensures (p - q) * n == p * n - q * n
  {
  }

  lemma Negated(p: int, q: int, n: int)
    ensures (q - p) * n == -((p - q) * n)
  {
  }

  lemma AtLeast(k: int, n: int)
    requires k >= 1 && n > 0
    ensures k * n >= n
  {
  }

  lemma SmallMod(a: nat, n: int)
    requires a < n
    ensures a % n == a
  {
  }

  lemma {:induction false} RunAllParts(options: Options, first: bool, phase: Phase, out: Text, lines: seq<Text>,
                                       header: Text, d: Text, linperfile: int)
    requires options.boundary.None? && AllOrdinary(lines) && PlainLine(header) && |header| <= 4089
    requires Awaits(first, phase, out)
    ensures var r := RunParts(options, phase, 0, out, Parts(first, lines, header, d, linperfile));
      r.Stop? && r.m.phase == Done
      && r.m.out == out + (if linperfile >= 4 then d else LastChunk(d, linperfile))
    decreases |d|
  {
    hide Run, PartText, AllOrdinary, LineCount, Output, LastChunk;
    var parts := Parts(first, lines, header, d, linperfile);
    if MeetsEnd(d, linperfile) {
      RunPart(options, first, phase, out, lines, header, d, true);
      OnlyChunk(d, linperfile);
      assert parts[1..] == [];
    } else {
      var n := PerPart(linperfile);
      ChunkLess(d, linperfile);
      RunPart(options, first, phase, out, lines, header, d[..n], false);
      assert parts[1..] == Parts(false, lines, header, d[n..], linperfile);
      var out' := if linperfile >= 4 then out + d[..n] else out;
      RunAllParts(options, false, End, out', lines, header, d[n..], linperfile);
      assert out + d[..n] + d[n..] == out + d;
    }
  }

  lemma OnlyChunk(d: Text, linperfile: int)
    ensures MeetsEnd(d, linperfile) ==> LastChunk(d, linperfile) == d
  {
  }

  /**
   A file written in parts and read back, part by part, up to the one that met the end of the file: the end is always
   reached, and the content comes back exactly when there is one part only or every part has at least four lines. With
   fewer lines the decoder loses what it holds back at the end of each part, and only the last part comes out.
   */
  lemma UuPartsEndToEnd(options: Options, lines: seq<Text>, header: Text, d: Text, linperfile: int)
    requires options.boundary.None? && AllOrdinary(lines) && PlainLine(header) && |header| <= 4089
    ensures var r := RunParts(options, Begin, 0, [], Parts(true, lines, header, d, linperfile));
      && r.Stop? && r.m.phase == Done
      && (r.m.out == d <==> MeetsEnd(d, linperfile) || linperfile >= 4)
      && (linperfile < 4 ==> r.m.out == LastChunk(d, linperfile))
  {
    hide RunParts, Parts, LastChunk;
    RunAllParts(options, true, Begin, [], lines, header, d, linperfile);
    OnlyChunk(d, linperfile);
    if !MeetsEnd(d, linperfile) { ChunkLess(d, linperfile); }
    assert [] + d == d && [] + LastChunk(d, linperfile) == LastChunk(d, linperfile);
  }

  // ---------------------------------------------------------------- the number of parts announced

  /** numparts: how many parts the size of the file calls for. */
  function NumParts(size: nat, linperfile: int): int {
    if linperfile <= 0 then 1 else (size + (PerPart(linperfile) - 1)) / PerPart(linperfile)
  }

  lemma {:induction false} PartsCount(first: bool, lines: seq<Text>, header: Text, d: Text, linperfile: int)
    requires linperfile > 0
    ensures |Parts(first, lines, header, d, linperfile)| == |d| / PerPart(linperfile) + 1
    decreases |d|
  {
    hide PartText;
    var n := PerPart(linperfile);
    if MeetsEnd(d, linperfile) {
      ModUnique(|d|, n, 0, |d|);
    } else {
      PartsCount(false, lines, header, d[n..], linperfile);
      DivLess(|d|, n);
    }
  }

  lemma DivLess(a: nat, n: int)
    requires 0 < n <= a
    ensures a / n == (a - n) / n + 1
  {
    var q := (a - n) / n;
    assert a - n == q * n + (a - n) % n;
    assert a == (q + 1) * n + (a - n) % n;
    ModUnique(a, n, q + 1, (a - n) % n);
  }

  /**
   The parts announced are all parts, but for a file whose last part is exactly full: then the end line is in one
   more.
   */
  lemma NumPartsIs(size: nat, linperfile: int)
    requires linperfile > 0
    ensures NumParts(size, linperfile)
      == size / PerPart(linperfile) + (if size % PerPart(linperfile) == 0 then 0 else 1)
  {
    var n := PerPart(linperfile);
    var q, r := size / n, size % n;
    assert size == q * n + r;
    if r == 0 {
      ModUnique(size + (n - 1), n, q, n - 1);
    } else {
      assert size + (n - 1) == (q + 1) * n + (r - 1);
      ModUnique(size + (n - 1), n, q + 1, r - 1);
    }
  }

  lemma {:induction false} WithoutLast(options: Options, first: bool, phase: Phase, out: Text, lines: seq<Text>,
                                       header: Text, d: Text, linperfile: int)
    requires options.boundary.None? && AllOrdinary(lines) && PlainLine(header) && |header| <= 4089
    requires Awaits(first, phase, out)
    ensures var parts := Parts(first, lines, header, d, linperfile);
      var r := RunParts(options, phase, 0, out, parts[..|parts| - 1]);
      r.Stop? && r.m.phase != Done
    decreases |d|
  {
    hide Run, PartText, AllOrdinary, LineCount, Output, RunParts;
    var parts := Parts(first, lines, header, d, linperfile);
    if MeetsEnd(d, linperfile) {
      NoParts(options, phase, out);
      assert parts[..|parts| - 1] == [];
    } else {
      var n := PerPart(linperfile);
      RunPart(options, first, phase, out, lines, header, d[..n], false);
      var out' := if LineCount(d[..n]) >= 4 then out + d[..n] else out;
      WithoutLast(options, false, End, out', lines, header, d[n..], linperfile);
      var file, more := PartText(first, lines, header, d[..n], false), Parts(false, lines, header, d[n..], linperfile);
      hide Parts;
      assert parts[..|parts| - 1] == [file] + more[..|more| - 1];
      RunPartsNext(options, phase, out, file, more[..|more| - 1]);
    }
  }

  lemma NoParts(options: Options, phase: Phase, out: Text)
    ensures RunParts(options, phase, 0, out, []) == Stop(Entered(phase, 0, out))
  {
  }

  lemma RunPartsNext(options: Options, phase: Phase, out: Text, file: Text, rest: seq<Text>)
    requires phase != Done
    ensures var r := Run(UU, options, Entered(phase, 0, out), file);
      RunParts(options, phase, 0, out, [file] + rest)
        == if r.NeedsRepair? then r else RunParts(options, r.m.phase, r.m.bhflag, Output(UU, r.m), rest)
  {
    hide Run, Output;
    assert ([file] + rest)[1..] == rest;
  }

  /**
   With the announced number of parts alone the decoder reaches the end exactly when the size of the file is not a
   multiple of the size of a part: a last part that is exactly full has no end line.
   */
  lemma AnnouncedPartsReachEnd(options: Options, lines: seq<Text>, header: Text, d: Text, linperfile: int)
    requires options.boundary.None? && AllOrdinary(lines) && PlainLine(header) && |header| <= 4089
    requires linperfile > 0
    ensures var parts, n := Parts(true, lines, header, d, linperfile), NumParts(|d|, linperfile);
      && 0 <= n <= |parts|
      && var r := RunParts(options, Begin, 0, [], parts[..n]);
      r.Stop? && (r.m.phase == Done <==> |d| % PerPart(linperfile) != 0)
  {
    hide RunParts, Parts, NumParts, AllOrdinary;
    var parts := Parts(true, lines, header, d, linperfile);
    PartsCount(true, lines, header, d, linperfile);
    NumPartsIs(|d|, linperfile);
    if |d| % PerPart(linperfile) == 0 {
      WithoutLast(options, true, Begin, [], lines, header, d, linperfile);
    } else {
      UuPartsEndToEnd(options, lines, header, d, linperfile);
      assert parts[..|parts|] == parts;
    }
  }
}
