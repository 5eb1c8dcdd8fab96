/** yEnc files in one part or several: UUDecode runs UUDecodePart over what UUEncodePartial wrote. */
module YencMultipart {
  import opened Prelude
  import opened ByteText
  import opened DecoderLines
  import opened Crc32
  import opened YencFields
  import opened YencStream
  import opened YencEncoder
  import YencPart
  import opened YencRoundTrip

  // ---------------------------------------------------------------- reading

  /** The decoded file, and what was warned of part by part. */
  datatype Decoded = Decoded(ok: bool, done: bool, out: Text, warnings: seq<YencPart.Warnings>)

  /** UUDecode: the BinHex flag, the output and the checksum of the file go from part to part. */
  function RunParts(options: Options, bhflag: nat, out: Text, filecrc: bv32, files: seq<Text>): Decoded
    decreases |files|
  {
    if files == [] then Decoded(true, false, out, [])
    else
      var r := YencPart.Run(options, YencPart.Entered(bhflag, out, filecrc), files[0]);
      if r.NeedsRepair? then Decoded(false, false, r.m.out, [])
      else if r.m.phase == YencPart.Done then Decoded(true, true, r.m.out, [r.m.warnings])
      else
        var more := RunParts(options, r.m.bhflag, r.m.out, r.m.filecrc, files[1..]);
        more.(warnings := [r.m.warnings] + more.warnings)
  }

  method DecodeParts(options: Options, files: seq<Text>) returns (r: Decoded)
    ensures r == RunParts(options, 0, [], 0, files)
  {
    hide YencPart.Run;
    var m := YencPart.Entered(0, [], 0);
    var warnings: seq<YencPart.Warnings> := [];
    ghost var all := RunParts(options, 0, [], 0, files);
    assert files[0..] == files && [] + all.warnings == all.warnings;
    for i := 0 to |files|
      invariant var more := RunParts(options, m.bhflag, m.out, m.filecrc, files[i..]);
        all == more.(warnings := warnings + more.warnings)
    {
      assert files[i..][0] == files[i] && files[i..][1..] == files[i + 1..];
      var ok;
      ghost var before := warnings;
      ok, m := YencPart.DecodePart(options, files[i], m.bhflag, m.filecrc, m.out);
      if !ok {
        assert warnings + [] == warnings;
        return Decoded(false, false, m.out, warnings);
      }
      warnings := warnings + [m.warnings];
      if m.phase == YencPart.Done {
        return Decoded(true, true, m.out, warnings);
      }
      ghost var more := RunParts(options, m.bhflag, m.out, m.filecrc, files[i + 1..]);
      assert before + ([m.warnings] + more.warnings) == warnings + more.warnings;
    }
    assert warnings + [] == warnings;
    r := Decoded(true, false, m.out, warnings);
  }

  // ---------------------------------------------------------------- the parts of a file

  /** What part p holds. */
  function Chunk(d: Text, linperfile: int, p: int): Text
    requires 1 <= p <= Calls(|d|, linperfile)
  {
    PartReadsItsRange(|d|, linperfile, p);
    d[PartBegin(p, linperfile) - 1..StopAt(|d|, PartBegin(p, linperfile) - 1, linperfile)]
  }

  predicate CleanPart(options: Options, name: Text, d: Text, linperfile: int, p: int)
    requires 1 <= p <= Calls(|d|, linperfile)
  {
    Clean(options, name, |d|, linperfile, p, Chunk(d, linperfile, p))
  }

  /** Nothing is lost of the parts from partno on, and none but the last is taken for the last. */
  ghost predicate Readable(options: Options, name: Text, d: Text, linperfile: int, partno: nat) {
    && (forall p :: 1 <= partno <= p <= Calls(|d|, linperfile) ==> CleanPart(options, name, d, linperfile, p))
    && (forall p :: partno <= p < Calls(|d|, linperfile) ==> !TakenForLast(|d|, linperfile, p))
  }

  lemma ReadableNext(options: Options, name: Text, d: Text, linperfile: int, partno: nat)
    requires 1 <= partno <= Calls(|d|, linperfile)
    ensures Readable(options, name, d, linperfile, partno)
      <==> CleanPart(options, name, d, linperfile, partno)
           && (partno < Calls(|d|, linperfile) ==>
                 !TakenForLast(|d|, linperfile, partno) && Readable(options, name, d, linperfile, partno + 1))
  {
    hide CleanPart, TakenForLast, Calls;
  }

  /** The facts about one part that the runs need. */
  lemma PartFacts(d: Text, linperfile: int, partno: nat, pos: nat)
    requires Starts(|d|, linperfile, partno, pos) && |d| < MAX_SIZE
    ensures Announces(|d|, linperfile, partno) && Sized(|d|, linperfile, partno)
    ensures var end, n := StopAt(|d|, pos, linperfile), Calls(|d|, linperfile);
      && pos <= end <= |d|
      && (!MeetsEnd(|d|, pos, linperfile) ==> pos < end && Starts(|d|, linperfile, partno + 1, end))
      && (MeetsEnd(|d|, pos, linperfile) ==> end == |d|)
      && (partno <= n ==>
            && d[pos..end] == Chunk(d, linperfile, partno)
            && (partno < n <==> end < |d|)
            && (partno == n ==> TakenForLast(|d|, linperfile, partno))
            && SizeGiven(|d|, linperfile, partno) == end - pos)
  {
    hide NumParts, Unit;
    StartsAnnounce(|d|, linperfile, partno, pos);
    if partno <= Calls(|d|, linperfile) {
      PartsTile(|d|, linperfile, partno);
    }
  }

  // ---------------------------------------------------------------- the run over the parts

  /** The first part to be read. */
  function FirstPart(name: Text, d: Text, linperfile: int, partno: nat, pos: nat): Text
    requires Starts(|d|, linperfile, partno, pos)
  {
    StartsAnnounce(|d|, linperfile, partno, pos);
    var end := StopAt(|d|, pos, linperfile);
    PartText(name, |d|, linperfile, partno, d[pos..end], Crc(0, d[..end]), MeetsEnd(|d|, pos, linperfile))
  }

  lemma PartsAre(name: Text, d: Text, linperfile: int, partno: nat, pos: nat)
    requires Starts(|d|, linperfile, partno, pos)
    ensures var parts := PartsFrom(name, d, linperfile, partno, pos);
      parts[0] == FirstPart(name, d, linperfile, partno, pos)
    ensures MeetsEnd(|d|, pos, linperfile) ==> PartsFrom(name, d, linperfile, partno, pos)[1..] == []
    ensures !MeetsEnd(|d|, pos, linperfile) ==>
      var end := StopAt(|d|, pos, linperfile);
      Starts(|d|, linperfile, partno + 1, end)
      && PartsFrom(name, d, linperfile, partno, pos)[1..] == PartsFrom(name, d, linperfile, partno + 1, end)
  {
    hide PartText, Crc;
    StartsAnnounce(|d|, linperfile, partno, pos);
  }

  /** Reading the first of the parts that are left. */
  lemma RunPart(options: Options, bhflag: nat, out: Text, filecrc: bv32, name: Text, d: Text, linperfile: int,
                partno: nat, pos: nat) returns (m: YencPart.Machine)
    requires Starts(|d|, linperfile, partno, pos) && |d| < MAX_SIZE && PlainLine(name) && |name| <= 4000
    ensures YencPart.Run(options, YencPart.Entered(bhflag, out, filecrc), FirstPart(name, d, linperfile, partno, pos))
      == YencPart.Stop(m)
    ensures var end := StopAt(|d|, pos, linperfile);
      && pos <= end <= |d| && m.bhflag == bhflag && |m.out| <= |out| + (end - pos)
      && if Clean(options, name, |d|, linperfile, partno, d[pos..end]) then
           && m.out == out + d[pos..end] && m.filecrc == Crc(filecrc, d[pos..end])
           && (m.phase == YencPart.Done <==> TakenForLast(|d|, linperfile, partno))
           && m.warnings == WarningsOf(filecrc, |d|, linperfile, partno, d[pos..end], Crc(0, d[..end]),
                                       MeetsEnd(|d|, pos, linperfile))
         else m.phase == YencPart.Done || pos < end ==> |m.out| < |out| + (end - pos)
  {
    hide YencPart.Run, PartText, Crc, Clean, TakenForLast, WarningsOf, MeetsEnd, PlainLine;
    PartFacts(d, linperfile, partno, pos);
    var end := StopAt(|d|, pos, linperfile);
    var chunk, crc, feof := d[pos..end], Crc(0, d[..end]), MeetsEnd(|d|, pos, linperfile);
    var r := YencPart.Run(options, YencPart.Entered(bhflag, out, filecrc),
                          PartText(name, |d|, linperfile, partno, chunk, crc, feof));
    if Clean(options, name, |d|, linperfile, partno, chunk) {
      RunCleanPart(options, bhflag, out, filecrc, name, |d|, linperfile, partno, chunk, crc, feof);
    } else {
      RunPoorPart(options, bhflag, out, filecrc, name, |d|, linperfile, partno, chunk, crc, feof);
    }
    m := r.m;
  }

  lemma RunPartsNext(options: Options, bhflag: nat, out: Text, filecrc: bv32, files: seq<Text>, m: YencPart.Machine)
    requires files != []
    requires YencPart.Run(options, YencPart.Entered(bhflag, out, filecrc), files[0]) == YencPart.Stop(m)
    ensures var r, more := RunParts(options, bhflag, out, filecrc, files),
                           RunParts(options, m.bhflag, m.out, m.filecrc, files[1..]);
      r == if m.phase == YencPart.Done then Decoded(true, true, m.out, [m.warnings])
           else more.(warnings := [m.warnings] + more.warnings)
  {
    hide YencPart.Run;
  }

  lemma NoFiles(options: Options, bhflag: nat, out: Text, filecrc: bv32)
    ensures RunParts(options, bhflag, out, filecrc, []) == Decoded(true, false, out, [])
  {
  }

  /** What is missing before a part never comes back. */
  lemma {:induction false} RunShort(options: Options, bhflag: nat, out: Text, filecrc: bv32, name: Text, d: Text,
                                    linperfile: int, partno: nat, pos: nat)
    requires Starts(|d|, linperfile, partno, pos) && |d| < MAX_SIZE && PlainLine(name) && |name| <= 4000
    requires |out| < pos
    ensures var r := RunParts(options, bhflag, out, filecrc, PartsFrom(name, d, linperfile, partno, pos));
      r.ok && |r.out| < |d|
    decreases |d| - pos
  {
    hide YencPart.Run, RunParts, PartsFrom, FirstPart, Crc, Clean, TakenForLast, WarningsOf, MeetsEnd, PlainLine;
    var files := PartsFrom(name, d, linperfile, partno, pos);
    PartsAre(name, d, linperfile, partno, pos);
    PartFacts(d, linperfile, partno, pos);
    var m := RunPart(options, bhflag, out, filecrc, name, d, linperfile, partno, pos);
    RunPartsNext(options, bhflag, out, filecrc, files, m);
    if MeetsEnd(|d|, pos, linperfile) {
      NoFiles(options, m.bhflag, m.out, m.filecrc);
    } else {
      RunShort(options, m.bhflag, m.out, m.filecrc, name, d, linperfile, partno + 1, StopAt(|d|, pos, linperfile));
    }
  }

  /** The checksum of the last part is made, or has no bytes to be made of. */
  predicate EndsKnown(d: Text, linperfile: int) {
    Several(|d|, linperfile) && d != [] ==> Int32(|d|) != 0
  }

  predicate NothingWarned(warnings: seq<YencPart.Warnings>) {
    forall i :: 0 <= i < |warnings| ==> warnings[i] == YencPart.NO_WARNINGS
  }

  lemma {:induction false} RunGood(options: Options, bhflag: nat, name: Text, d: Text, linperfile: int, partno: nat,
                                   pos: nat)
    requires Starts(|d|, linperfile, partno, pos) && |d| < MAX_SIZE && PlainLine(name) && |name| <= 4000
    requires partno <= Calls(|d|, linperfile)
    ensures var r := RunParts(options, bhflag, d[..pos], Crc(0, d[..pos]), PartsFrom(name, d, linperfile, partno, pos));
      && r.ok && (r.done && r.out == d <==> Readable(options, name, d, linperfile, partno))
      && (r.done && r.out == d && EndsKnown(d, linperfile) ==> NothingWarned(r.warnings))
    decreases |d| - pos
  {
    hide YencPart.Run, RunParts, PartsFrom, FirstPart, Crc, Clean, TakenForLast, WarningsOf, MeetsEnd, PlainLine,
      Readable, Calls, StopAt, EndsKnown;
    var files := PartsFrom(name, d, linperfile, partno, pos);
    var out, filecrc := d[..pos], Crc(0, d[..pos]);
    PartsAre(name, d, linperfile, partno, pos);
    PartFacts(d, linperfile, partno, pos);
    ReadableNext(options, name, d, linperfile, partno);
    var m := RunPart(options, bhflag, out, filecrc, name, d, linperfile, partno, pos);
    RunPartsNext(options, bhflag, out, filecrc, files, m);
    var end := StopAt(|d|, pos, linperfile);
    if CleanPart(options, name, d, linperfile, partno) {
      assert out + d[pos..end] == d[..end];
      CrcChains(0, out, d[pos..end]);
      WarnedOf(d, linperfile, partno, pos);
      if m.phase == YencPart.Done {
        assert partno == Calls(|d|, linperfile) ==> d[..end] == d;
      } else {
        RunGood(options, m.bhflag, name, d, linperfile, partno + 1, end);
      }
    } else if MeetsEnd(|d|, pos, linperfile) {
      NoFiles(options, m.bhflag, m.out, m.filecrc);
    } else if m.phase != YencPart.Done {
      RunShort(options, m.bhflag, m.out, m.filecrc, name, d, linperfile, partno + 1, end);
    }
  }

  /** The decoder agrees with the encoder on a part that is not taken for the last too early. */
  lemma WarnedOf(d: Text, linperfile: int, partno: nat, pos: nat)
    requires Starts(|d|, linperfile, partno, pos) && |d| < MAX_SIZE && partno <= Calls(|d|, linperfile)
    ensures var end := StopAt(|d|, pos, linperfile);
      pos <= end <= |d| &&
      var w := WarningsOf(Crc(0, d[..pos]), |d|, linperfile, partno, d[pos..end], Crc(0, d[..end]),
                          MeetsEnd(|d|, pos, linperfile));
      (TakenForLast(|d|, linperfile, partno) ==> partno == Calls(|d|, linperfile) && EndsKnown(d, linperfile))
      ==> w == YencPart.NO_WARNINGS
  {
    hide Crc, Calls, MeetsEnd, Int32, StopAt, SizeGiven, EndRead, TakenForLast, EndsKnown, Several;
    PartFacts(d, linperfile, partno, pos);
    var end := StopAt(|d|, pos, linperfile);
    assert d[..pos] + d[pos..end] == d[..end];
    CrcChains(0, d[..pos], d[pos..end]);
    CrcOfNothing(0);
    EndReadIs(d, linperfile, partno);
  }

  lemma EndReadIs(d: Text, linperfile: int, partno: nat)
    requires 1 <= partno <= Calls(|d|, linperfile)
    ensures Several(|d|, linperfile) && EndRead(|d|, linperfile, partno) == 0 ==>
      TakenForLast(|d|, linperfile, partno)
      && (partno == Calls(|d|, linperfile) && EndsKnown(d, linperfile) ==> d == [])
  {
    hide NumParts, Int32, Unit;
    PartsTile(|d|, linperfile, partno);
  }

  /**
   A file written part by part and read back: it is complete and has the content exactly when no data line is taken for
   the boundary, no first line for a range line, and no part for the last one before its time. Then there is nothing to
   warn of, but for a size that leaves 0 in the lower 32 bits.
   */
  lemma YencEndToEnd(options: Options, name: Text, d: Text, linperfile: int)
    requires |d| < MAX_SIZE && PlainLine(name) && |name| <= 4000
    ensures Starts(|d|, linperfile, 1, 0)
    ensures var r := RunParts(options, 0, [], 0, PartsFrom(name, d, linperfile, 1, 0));
      && r.ok && (r.done && r.out == d <==> Readable(options, name, d, linperfile, 1))
      && (r.done && r.out == d && EndsKnown(d, linperfile) ==> NothingWarned(r.warnings))
  {
    hide RunParts, PartsFrom, Crc, PlainLine, Readable, EndsKnown, NothingWarned;
    assert d[..0] == [];
    CrcOfNothing(0);
    RunGood(options, 0, name, d, linperfile, 1, 0);
  }

  /** Encoding a file in parts and decoding them. */
  method EncodeAndDecode(options: Options, name: Text, infile: Text, linperfile: int) returns (r: Decoded)
    requires |infile| < MAX_SIZE && PlainLine(name) && |name| <= 4000
    ensures r.ok && (r.done && r.out == infile <==> Readable(options, name, infile, linperfile, 1))
  {
    hide RunParts, PartsFrom, Crc, PlainLine, Readable, EndsKnown, NothingWarned;
    YencEndToEnd(options, name, infile, linperfile);
    var parts := EncodeParts(infile, name, linperfile);
    r := DecodeParts(options, parts);
  }

  // ---------------------------------------------------------------- sizes

  /** Below 2 ** 31 bytes no part is taken for the last too early. */
  lemma SmallFiles(options: Options, name: Text, d: Text, linperfile: int)
    requires |d| < 0x8000_0000
    ensures Readable(options, name, d, linperfile, 1)
      <==> forall p :: 1 <= p <= Calls(|d|, linperfile) ==> CleanPart(options, name, d, linperfile, p)
    ensures EndsKnown(d, linperfile)
  {
    hide CleanPart, NumParts;
    forall p | 1 <= p < Calls(|d|, linperfile) ensures !TakenForLast(|d|, linperfile, p) {
      EndBelow(|d|, linperfile, p);
    }
  }

  lemma EndBelow(totsize: nat, linperfile: int, p: int)
    requires 1 <= p < Calls(totsize, linperfile)
    ensures Several(totsize, linperfile) && 1 <= PartEnd(p, linperfile, totsize) < totsize
  {
    hide NumParts;
    PartsTile(totsize, linperfile, p);
    PartReadsItsRange(totsize, linperfile, p);
  }

  /**
   From 2 ** 31 bytes on, up to twice as many, the size is read as a negative number: the first of several parts
   ends it.
   */
  lemma LargeFiles(options: Options, name: Text, d: Text, linperfile: int)
    requires 0x8000_0000 <= |d| < 0x1_0000_0000 && 0 < Unit(linperfile) < 0x8000_0000
    ensures !Readable(options, name, d, linperfile, 1)
  {
    hide CleanPart, NumParts;
    PartsReachEnd(|d|, linperfile);
    if Calls(|d|, linperfile) <= 1 {
      assert false;
    }
    EndBelow(|d|, linperfile, 1);
    assert Int32(|d|) < 0 < Int32(PartEnd(1, linperfile, |d|));
    assert TakenForLast(|d|, linperfile, 1);
  }

  /** Whatever the content is, a file in a single part that is named after the field for parts does not come back. */
  lemma PartInName(options: Options, d: Text)
    requires |d| < MAX_SIZE
    ensures Misread(PART_, |d|, 0, 1) && !Readable(options, PART_, d, 0, 1)
  {
    hide AnyHits, HeaderFields;
    HeaderTidy(|d|, 0, 1);
    var read := NameRead(PART_, |d|, 0, 1);
    assert read == PART_ + [NL];
    assert FoundAt(PART_, read, 0);
    assert !CleanPart(options, PART_, d, 0, 1);
  }
}
