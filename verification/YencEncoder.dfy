/** UUEncodePartial for yEnc: the keyword lines of a part, and all parts of a file. */
module YencEncoder {
  import opened Prelude
  import opened ByteText
  import opened Numerals
  import opened Crc32
  import opened Yenc
  import opened YencFields
  import opened YencStream

  // ---------------------------------------------------------------- the text of a part

  function Decimal(w: Word, n: int): Entry
    requires n >= 0
  {
    Entry(Key(w), Printed(n, 10))
  }

  function Checksum(w: Word, crc: bv32): Entry {
    Entry(Key(w), Hex8(crc as nat))
  }

  /** A file is written as one part or as several; an empty one counts no parts, and is written as one of several. */
  predicate Several(totsize: nat, linperfile: int) {
    NumParts(totsize, linperfile) != 1
  }

  function HeaderFields(totsize: nat, linperfile: int, partno: nat): seq<Entry> {
    if Several(totsize, linperfile) then [Decimal(PartKey, partno), Decimal(LineKey, 128), Decimal(SizeKey, totsize)]
    else [Decimal(LineKey, 128), Decimal(SizeKey, totsize)]
  }

  function HeaderText(name: Text, totsize: nat, linperfile: int, partno: nat): Text {
    YBEGIN + Fields(HeaderFields(totsize, linperfile, partno)) + (NAME_ + name)
  }

  /** The numbers that a part announces are not negative. */
  predicate Announces(totsize: nat, linperfile: int, partno: int) {
    PartBegin(partno, linperfile) >= 0 && PartEnd(partno, linperfile, totsize) >= 0
    && PartSize(partno, linperfile, totsize) >= 0
  }

  function RangeText(totsize: nat, linperfile: int, partno: nat): Text
    requires Announces(totsize, linperfile, partno)
  {
    YPART + Fields([Decimal(BeginKey, PartBegin(partno, linperfile)),
                    Decimal(EndKey, PartEnd(partno, linperfile, totsize))])
  }

  function EndFields(totsize: nat, linperfile: int, partno: nat, pcrc: bv32): seq<Entry>
    requires Announces(totsize, linperfile, partno)
  {
    if Several(totsize, linperfile) then
      [Decimal(SizeKey, PartSize(partno, linperfile, totsize)), Decimal(PartKey, partno), Checksum(PcrcKey, pcrc)]
    else [Decimal(SizeKey, totsize)]
  }

  /** The checksum of the file is given where its end has been met. */
  function EndText(totsize: nat, linperfile: int, partno: nat, pcrc: bv32, crc: bv32, feof: bool): Text
    requires Announces(totsize, linperfile, partno)
  {
    YEND + Fields(EndFields(totsize, linperfile, partno, pcrc)) + (if feof then Fields([Checksum(CrcKey, crc)]) else [])
  }

  /** The bytes of one part, and the checksum of the file up to there. */
  function PartText(name: Text, totsize: nat, linperfile: int, partno: nat, chunk: Text, crc: bv32, feof: bool): Text
    requires Announces(totsize, linperfile, partno)
  {
    (if partno == 1 then [NL] else []) + (HeaderText(name, totsize, linperfile, partno) + [NL])
    + (if Several(totsize, linperfile) then RangeText(totsize, linperfile, partno) + [NL] else [])
    + WithEnds(Lines([], chunk))
    + (EndText(totsize, linperfile, partno, Crc(0, chunk), crc, feof) + [NL] + [NL])
  }

  /** The reading meets the end of the file: less is left than a part takes. */
  predicate MeetsEnd(size: nat, pos: int, linperfile: int) {
    linperfile <= 0 || size - pos < Unit(linperfile)
  }

  // ---------------------------------------------------------------- the positions

  /** Where part partno starts; partno may be the one more that only meets the end of the file. */
  predicate Starts(totsize: nat, linperfile: int, partno: int, pos: int) {
    partno >= 1 && pos == PartBegin(partno, linperfile) - 1 && 0 <= pos <= totsize && (linperfile <= 0 ==> partno == 1)
  }

  /**
   What a part announces is what it reads; unless it meets the end of the file, the next part starts where it stops.
   */
  lemma StartsAnnounce(totsize: nat, linperfile: int, partno: int, pos: int)
    requires Starts(totsize, linperfile, partno, pos)
    ensures Announces(totsize, linperfile, partno)
    ensures var end := StopAt(totsize, pos, linperfile);
      && pos <= end == PartEnd(partno, linperfile, totsize) && PartSize(partno, linperfile, totsize) == end - pos
      && (!MeetsEnd(totsize, pos, linperfile) ==>
            end == pos + Unit(linperfile) && Unit(linperfile) > 0 && Starts(totsize, linperfile, partno + 1, end))
      && (MeetsEnd(totsize, pos, linperfile) ==> end == totsize)
      && (Several(totsize, linperfile) || pos == totsize > 0 || (pos == 0 && end == totsize))
      && partno <= totsize + 1
  {
    if linperfile > 0 {
      UnitPositive(linperfile);
      OneMore(partno, Unit(linperfile));
      PartsReachEnd(totsize, linperfile);
      SizeBound(partno - 1, Unit(linperfile));
      hide NumParts;
      if NumParts(totsize, linperfile) == 1 && partno >= 2 {
        Monotone(1, partno - 1, Unit(linperfile));
      }
    }
  }

  lemma SizeBound(a: nat, u: int)
    requires u > 0
    ensures a <= a * u
  {
  }

  // ---------------------------------------------------------------- writing

  /** All parts from partno on, up to the one that meets the end of the file. */
  function PartsFrom(name: Text, d: Text, linperfile: int, partno: nat, pos: nat): (parts: seq<Text>)
    requires Starts(|d|, linperfile, partno, pos)
    ensures parts != []
    decreases |d| - pos
  {
    StartsAnnounce(|d|, linperfile, partno, pos);
    var end := StopAt(|d|, pos, linperfile);
    var feof := MeetsEnd(|d|, pos, linperfile);
    [PartText(name, |d|, linperfile, partno, d[pos..end], Crc(0, d[..end]), feof)]
    + if feof then [] else PartsFrom(name, d, linperfile, partno + 1, end)
  }

  /**
   UUEncodePartial for yEnc, from where the part before stopped reading; crcptr is the checksum of the file so far.
   */
  method EncodePartial(infile: Text, pos: nat, name: Text, partno: nat, linperfile: int, crcptr: bv32)
    returns (outfile: Text, pos': nat, crcptr': bv32, feof: bool)
    requires Starts(|infile|, linperfile, partno, pos)
    requires partno > 1 ==> crcptr == Crc(0, infile[..pos])
    ensures Announces(|infile|, linperfile, partno)
    ensures pos' == StopAt(|infile|, pos, linperfile) && pos <= pos' && feof == MeetsEnd(|infile|, pos, linperfile)
    ensures crcptr' == Crc(0, infile[..pos'])
    ensures outfile
      == PartText(name, |infile|, linperfile, partno, infile[pos..pos'], crcptr', feof)
  {
    hide NumParts, Crc, Printed, Lines, WithEnds, MeetsEnd, HeaderText, RangeText, EndText;
    StartsAnnounce(|infile|, linperfile, partno, pos);
    var totsize, several := |infile|, Several(|infile|, linperfile);
    var crc := if partno == 1 then 0 else crcptr;
    if partno == 1 { CrcOfNothing(0); }
    assert partno == 1 ==> infile[..pos] == [];
    outfile := if partno == 1 then [NL] else [];
    outfile := outfile + (HeaderText(name, totsize, linperfile, partno) + [NL]);
    outfile := outfile + (if several then RangeText(totsize, linperfile, partno) + [NL] else []);
    var text, pcrc;
    text, pos', crcptr', pcrc := EncodeStream(infile, pos, linperfile, crc, 0);
    CrcChains(0, infile[..pos], infile[pos..pos']);
    assert infile[..pos] + infile[pos..pos'] == infile[..pos'];
    feof := MeetsEnd(totsize, pos, linperfile);
    outfile := outfile + text;
    outfile := outfile + (EndText(totsize, linperfile, partno, pcrc, crcptr', feof) + [NL] + [NL]);
  }

  /** Part after part until the end of the file is met. */
  method EncodeParts(infile: Text, name: Text, linperfile: int) returns (parts: seq<Text>)
    ensures Starts(|infile|, linperfile, 1, 0)
    ensures parts == PartsFrom(name, infile, linperfile, 1, 0)
  {
    hide PartText, Crc, MeetsEnd, Several, NumParts, Unit, Announces;
    parts := [];
    var pos, feof, partno, crc := 0, false, 1, 0;
    ghost var all := PartsFrom(name, infile, linperfile, 1, 0);
    assert [] + all == all;
    while !feof
      invariant pos <= |infile| && partno >= 1
      invariant !feof ==> Starts(|infile|, linperfile, partno, pos)
      invariant partno > 1 ==> crc == Crc(0, infile[..pos])
      invariant feof ==> parts == all
      invariant !feof ==> parts + PartsFrom(name, infile, linperfile, partno, pos) == all
      decreases !feof, |infile| - pos
    {
      StartsAnnounce(|infile|, linperfile, partno, pos);
      var outfile, pos';
      outfile, pos', crc, feof := EncodePartial(infile, pos, name, partno, linperfile, crc);
      if !feof {
        var more := PartsFrom(name, infile, linperfile, partno + 1, pos');
        assert parts + ([outfile] + more) == parts + [outfile] + more;
      }
      parts, pos, partno := parts + [outfile], pos', partno + 1;
    }
  }
}
