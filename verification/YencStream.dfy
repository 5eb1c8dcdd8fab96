/** The data lines of a yEnc part with its checksums, and how the parts of a file tile it. */
module YencStream {
  import opened Prelude
  import opened ByteText
  import opened Crc32
  import opened Yenc

  // ---------------------------------------------------------------- writing

  /** Where encoding from pos stops: at the end of the file, or after linperfile reads of 128 bytes. */
  function StopAt(size: nat, pos: nat, linperfile: int): nat
    requires pos <= size
  {
    if linperfile <= 0 then size else Min(size, pos + 128 * linperfile)
  }

  /**
   UUEncodeStream for yEnc: reads 128 bytes at a time, feeds each read to both checksums, and breaks lines where they
   are full rather than where reads end.
   */
  method EncodeStream(infile: seq<Byte>, pos: nat, linperfile: int, crc: bv32, pcrc: bv32)
    returns (out: seq<Byte>, pos': nat, crc': bv32, pcrc': bv32)
    requires pos <= |infile|
    ensures pos' == StopAt(|infile|, pos, linperfile) && pos <= pos'
    ensures out == WithEnds(Lines([], infile[pos..pos']))
    ensures crc' == Crc(crc, infile[pos..pos']) && pcrc' == Crc(pcrc, infile[pos..pos'])
  {
    hide Crc, Lines, WithEnds;
    ghost var end := StopAt(|infile|, pos, linperfile);
    ghost var all := WithEnds(Lines([], infile[pos..end]));
    out, pos', crc', pcrc' := [], pos, crc, pcrc;
    var otemp: seq<Byte> := [];
    var line := 0;
    CrcOfNothing(crc);
    CrcOfNothing(pcrc);
    assert infile[pos..pos] == [] && [] + all == all;
    while pos' < |infile| && (linperfile <= 0 || line < linperfile)
      invariant pos <= pos' <= end <= |infile|
      invariant pos' == Min(|infile|, pos + 128 * line) && (linperfile > 0 ==> line <= linperfile)
      invariant crc' == Crc(crc, infile[pos..pos']) && pcrc' == Crc(pcrc, infile[pos..pos'])
      invariant out + WithEnds(Lines(otemp, infile[pos'..end])) == all
      decreases |infile| - pos'
    {
      var count := Min(128, |infile| - pos');
      var itemp := infile[pos'..pos' + count];
      CrcChains(crc, infile[pos..pos'], itemp);
      CrcChains(pcrc, infile[pos..pos'], itemp);
      assert infile[pos..pos'] + itemp == infile[pos..pos' + count];
      crc' := Crc(crc', itemp);
      pcrc' := Crc(pcrc', itemp);
      line := line + 1;
      out, otemp := EncodeRead(infile, pos', count, end, out, otemp);
      pos' := pos' + count;
    }
    assert pos' == end && infile[end..end] == [];
    FlushLast(otemp);
    if otemp != [] {
      out := out + otemp + [NL];
    }
  }

  /** The characters of one read go into the line buffer, which is written out whenever it is full. */
  method EncodeRead(infile: seq<Byte>, pos: nat, count: nat, ghost end: nat, out: seq<Byte>, otemp: seq<Byte>)
    returns (out': seq<Byte>, otemp': seq<Byte>)
    requires pos + count <= end <= |infile|
    ensures out' + WithEnds(Lines(otemp', infile[pos + count..end])) == out + WithEnds(Lines(otemp, infile[pos..end]))
  {
    hide Characters, WithEnds, Lines;
    out', otemp' := out, otemp;
    for index := 0 to count
      invariant out' + WithEnds(Lines(otemp', infile[pos + index..end]))
             == out + WithEnds(Lines(otemp, infile[pos..end]))
    {
      var b := infile[pos + index];
      assert infile[pos + index..end][0] == b && infile[pos + index..end][1..] == infile[pos + index + 1..end];
      NextCharacters(otemp', infile[pos + index..end]);
      if |otemp'| > 127 {
        out' := out' + otemp' + [NL];
        otemp' := [];
      }
      otemp' := otemp' + Characters(b, otemp' == []);
    }
  }

  lemma NextCharacters(line: seq<Byte>, d: seq<Byte>)
    requires d != []
    ensures |line| > 127 ==>
      WithEnds(Lines(line, d)) == line + [NL] + WithEnds(Lines([] + Characters(d[0], true), d[1..]))
    ensures |line| <= 127 ==> Lines(line, d) == Lines(line + Characters(d[0], line == []), d[1..])
  {
    if |line| > 127 {
      var next := Characters(d[0], true);
      assert [] + next == next;
      var more := Lines(next, d[1..]);
      assert ([line] + more)[1..] == more;
    }
  }

  lemma FlushLast(otemp: seq<Byte>)
    ensures WithEnds(Lines(otemp, [])) == if otemp == [] then [] else otemp + [NL]
  {
    assert [otemp][1..] == [];
  }

  // ---------------------------------------------------------------- parts

  /** Bytes per full part. */
  function Unit(linperfile: int): int {
    linperfile * 128
  }

  function NumParts(totsize: nat, linperfile: int): int {
    if linperfile <= 0 then 1 else (totsize + (Unit(linperfile) - 1)) / Unit(linperfile)
  }

  /** How many parts are written: an empty file, for which no parts are counted, still takes one. */
  function Calls(totsize: nat, linperfile: int): int {
    Max(1, NumParts(totsize, linperfile))
  }

  /** The range announced in the =ypart line, counted from 1, and the size in the =yend line. */
  function PartBegin(partno: int, linperfile: int): int {
    if linperfile <= 0 then 1 else (partno - 1) * Unit(linperfile) + 1
  }

  function PartEnd(partno: int, linperfile: int, totsize: int): int {
    if linperfile > 0 && partno * Unit(linperfile) < totsize then partno * Unit(linperfile) else totsize
  }

  function PartSize(partno: int, linperfile: int, totsize: int): int {
    if linperfile <= 0 then totsize
    else if partno * Unit(linperfile) < totsize then Unit(linperfile)
    else totsize - (partno - 1) * Unit(linperfile)
  }

  /** numparts parts reach the end of the file and one fewer do not. */
  lemma PartsReachEnd(totsize: nat, linperfile: int)
    ensures var n := NumParts(totsize, linperfile);
      if linperfile <= 0 then n == 1
      else if totsize == 0 then n == 0
      else n >= 1 && (n - 1) * Unit(linperfile) < totsize <= n * Unit(linperfile)
  {
    if linperfile > 0 {
      UnitPositive(linperfile);
      hide Unit;
      var u := Unit(linperfile);
      var t, n := totsize + u - 1, NumParts(totsize, linperfile);
      assert n == t / u;
      DivRange(t, u, n);
      OneMore(n, u);
      PositiveFactor(n, u);
      if totsize == 0 { Quotient(u - 1, u); }
    }
  }

  lemma Quotient(t: nat, u: int)
    requires t < u
    ensures t / u == 0
  {
  }

  lemma PositiveFactor(n: int, u: int)
    requires 0 < u
    ensures n * u > 0 <==> n >= 1
  {
    if n >= 1 { Monotone(1, n, u); } else { Monotone(n, 0, u); }
  }

  lemma DivRange(t: nat, u: int, n: int)
    requires u > 0 && n == t / u
    ensures n * u <= t < n * u + u
  {
  }

  lemma Monotone(a: int, b: int, u: int)
    requires a <= b && 0 < u
    ensures a * u <= b * u
  {
  }

  lemma OneMore(a: int, u: int)
    ensures (a + 1) * u == a * u + u && (a - 1) * u == a * u - u
  {
  }

  lemma UnitPositive(linperfile: int)
    requires linperfile > 0
    ensures Unit(linperfile) > 0 && Unit(linperfile) == 128 * linperfile
  {
  }

  /** A part that is not the last ends where a full unit ends, before the end of the file; the last one ends with it. */
  lemma PartEnds(totsize: nat, linperfile: int, partno: int)
    requires 1 <= partno <= Calls(totsize, linperfile)
    ensures linperfile > 0 ==>
      (partno - 1) * Unit(linperfile) < totsize || totsize == 0 == (partno - 1) * Unit(linperfile)
    ensures partno < Calls(totsize, linperfile) ==> linperfile > 0 && partno * Unit(linperfile) < totsize
    ensures partno == Calls(totsize, linperfile) ==> PartEnd(partno, linperfile, totsize) == totsize
  {
    hide NumParts;
    var n, u := NumParts(totsize, linperfile), Unit(linperfile);
    PartsReachEnd(totsize, linperfile);
    if linperfile > 0 && totsize > 0 {
      Monotone(partno - 1, n - 1, u);
      if partno < n { Monotone(partno, n - 1, u); }
    }
  }

  /**
   The announced ranges tile the file: the first begins at 1, each begins right after the one before ends, the last
   ends with the file; none is empty unless the file is, and each size is the length of its range.
   */
  lemma PartsTile(totsize: nat, linperfile: int, partno: int)
    requires 1 <= partno <= Calls(totsize, linperfile)
    ensures PartBegin(1, linperfile) == 1
    ensures PartEnd(Calls(totsize, linperfile), linperfile, totsize) == totsize
    ensures partno < Calls(totsize, linperfile) ==>
      PartBegin(partno + 1, linperfile) == PartEnd(partno, linperfile, totsize) + 1
    ensures partno < Calls(totsize, linperfile) <==> PartEnd(partno, linperfile, totsize) < totsize
    ensures PartBegin(partno, linperfile) <= PartEnd(partno, linperfile, totsize) + (if totsize == 0 then 1 else 0)
    ensures PartSize(partno, linperfile, totsize)
      == PartEnd(partno, linperfile, totsize) - PartBegin(partno, linperfile) + 1
  {
    hide NumParts, Unit;
    PartEnds(totsize, linperfile, partno);
    OneMore(partno, Unit(linperfile));
    if linperfile > 0 { UnitPositive(linperfile); }
    PartEnds(totsize, linperfile, Calls(totsize, linperfile));
  }

  /** The sizes of the first k parts. */
  function SizesUpTo(k: nat, linperfile: int, totsize: nat): int {
    if k == 0 then 0 else SizesUpTo(k - 1, linperfile, totsize) + PartSize(k, linperfile, totsize)
  }

  /** The sizes of the parts add up to the end of the last of them, so all of them add up to the file. */
  lemma {:induction false} SizesAddUp(k: nat, linperfile: int, totsize: nat)
    requires k <= Calls(totsize, linperfile)
    ensures SizesUpTo(k, linperfile, totsize) == if k == 0 then 0 else PartEnd(k, linperfile, totsize)
  {
    hide PartSize, PartEnd, PartBegin, Calls;
    if k > 0 {
      SizesAddUp(k - 1, linperfile, totsize);
      PartsTile(totsize, linperfile, k);
      if k > 1 { PartsTile(totsize, linperfile, k - 1); }
    }
  }

  /**
   Encoding part after part reads exactly the announced ranges: part partno starts at its begin and stops at its
   end.
   */
  lemma PartReadsItsRange(totsize: nat, linperfile: int, partno: int)
    requires 1 <= partno <= Calls(totsize, linperfile)
    ensures var pos := PartBegin(partno, linperfile) - 1;
      0 <= pos <= totsize && StopAt(totsize, pos, linperfile) == PartEnd(partno, linperfile, totsize)
  {
    hide NumParts;
    PartEnds(totsize, linperfile, partno);
    OneMore(partno, Unit(linperfile));
    if linperfile > 0 { Monotone(0, partno - 1, Unit(linperfile)); }
  }
}
