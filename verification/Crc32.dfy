/** The CRC of section 8 of RFC 1952, byte by byte and four bytes at a time. */
module Crc32 {
  import opened Prelude

  // ---------------------------------------------------------------- the register

  /** Exclusive or has a name of its own so that proofs can use its laws without looking at bits. */
  function Xor(a: bv32, b: bv32): bv32 {
    a ^ b
  }

  function Low(c: bv32): bv32 {
    c & 0xff
  }

  function Down(c: bv32): bv32 {
    c >> 8
  }

  /** One bit: shift right and subtract the polynomial if a bit fell out. */
  function Bit(c: bv32): bv32 {
    if c & 1 == 1 then (c >> 1) ^ 0xedb88320 else c >> 1
  }

  /** Eight bits. */
  function Shift(c: bv32): bv32 {
    Bit(Bit(Bit(Bit(Bit(Bit(Bit(Bit(c))))))))
  }

  /** crc_table[k][n & 0xff]: each table pushes one more zero byte through than the one before. */
  function Table(k: nat, n: bv32): bv32 {
    if k == 0 then Shift(Low(n))
    else
      var t := Table(k - 1, n);
      Xor(Table(0, t), Down(t))
  }

  function Word(b: Byte): bv32 {
    (b as bv32) & 0xff
  }

  /** One byte through the register: the step DO1. */
  function Step(c: bv32, b: Byte): bv32 {
    Xor(Table(0, Xor(c, Word(b))), Down(c))
  }

  function Steps(c: bv32, s: seq<Byte>): bv32
    decreases |s|
  {
    if s == [] then c else Steps(Step(c, s[0]), s[1..])
  }

  /** The CRC of s, continuing from the CRC of what came before. */
  function Crc(crc: bv32, s: seq<Byte>): bv32 {
    Flip(Steps(Flip(crc), s))
  }

  function Flip(c: bv32): bv32 {
    !c
  }

  // ---------------------------------------------------------------- bit-level laws

  lemma XorLaws(a: bv32, b: bv32, c: bv32)
    ensures Xor(a, b) == Xor(b, a)
    ensures Xor(Xor(a, b), c) == Xor(a, Xor(b, c))
  {
  }

  lemma HalfOfXor(a: bv32, b: bv32)
    ensures (a ^ b) >> 1 == (a >> 1) ^ (b >> 1)
  {
  }

  lemma LowBitOfXor(a: bv32, b: bv32)
    ensures (a ^ b) & 1 == (a & 1) ^ (b & 1)
  {
  }

  lemma LowBitCases(a: bv32)
    ensures a & 1 == 0 || a & 1 == 1
  {
  }

  lemma BitLinear(a: bv32, b: bv32)
    ensures Bit(Xor(a, b)) == Xor(Bit(a), Bit(b))
  {
    HalfOfXor(a, b);
    LowBitOfXor(a, b);
    LowBitCases(a);
    LowBitCases(b);
    XorPolynomial(a >> 1, b >> 1, 0xedb88320);
  }

  lemma XorPolynomial(a: bv32, b: bv32, p: bv32)
    ensures (a ^ p) ^ b == (a ^ b) ^ p && a ^ (b ^ p) == (a ^ b) ^ p && (a ^ p) ^ (b ^ p) == a ^ b
  {
  }

  lemma ShiftLinear(a: bv32, b: bv32)
    ensures Shift(Xor(a, b)) == Xor(Shift(a), Shift(b))
  {
    hide Bit, Xor;
    var a1, b1 := Bit(a), Bit(b);
    var a2, b2 := Bit(a1), Bit(b1);
    var a3, b3 := Bit(a2), Bit(b2);
    var a4, b4 := Bit(a3), Bit(b3);
    var a5, b5 := Bit(a4), Bit(b4);
    var a6, b6 := Bit(a5), Bit(b5);
    var a7, b7 := Bit(a6), Bit(b6);
    BitLinear(a, b);
    BitLinear(a1, b1);
    BitLinear(a2, b2);
    BitLinear(a3, b3);
    BitLinear(a4, b4);
    BitLinear(a5, b5);
    BitLinear(a6, b6);
    BitLinear(a7, b7);
  }

  function High(c: bv32): bv32 {
    c & 0xffffff00
  }

  /** Eight bits that are all zero just move the rest down. */
  lemma ShiftOfHigh(c: bv32)
    ensures Shift(High(c)) == Down(c)
  {
    ShiftOfZeros(High(c));
  }

  lemma ShiftOfZeros(c: bv32)
    requires c & 0xff == 0
    ensures Shift(c) == c >> 8
  {
  }

  lemma LowAndHigh(c: bv32)
    ensures Xor(Low(c), High(c)) == c
  {
  }

  /** A table look-up and a shift push any register through. */
  lemma ShiftByTable(c: bv32)
    ensures Shift(c) == Xor(Table(0, c), Down(c))
  {
    hide Shift, Xor, Low, High, Down;
    ShiftLinear(Low(c), High(c));
    LowAndHigh(c);
    ShiftOfHigh(c);
  }

  lemma DownOfByte(c: bv32, b: Byte)
    ensures Down(Xor(c, Word(b))) == Down(c)
  {
  }

  lemma StepIsShift(c: bv32, b: Byte)
    ensures Step(c, b) == Shift(Xor(c, Word(b)))
  {
    hide Shift, Table, Xor, Down, Word;
    ShiftByTable(Xor(c, Word(b)));
    DownOfByte(c, b);
  }

  // ---------------------------------------------------------------- several bytes of zeros

  function Shifts(k: nat, c: bv32): bv32 {
    if k == 0 then c else Shift(Shifts(k - 1, c))
  }

  lemma {:induction false} TableIsShifts(k: nat, n: bv32)
    ensures Table(k, n) == Shifts(k + 1, Low(n))
  {
    hide Shift, Xor, Low, Down;
    if k == 0 {
      assert Shifts(0, Low(n)) == Low(n);
    } else {
      TableIsShifts(k - 1, n);
      ShiftByTable(Table(k - 1, n));
    }
  }

  lemma {:induction false} ShiftsLinear(k: nat, a: bv32, b: bv32)
    ensures Shifts(k, Xor(a, b)) == Xor(Shifts(k, a), Shifts(k, b))
  {
    hide Shift, Xor;
    if k > 0 {
      ShiftsLinear(k - 1, a, b);
      ShiftLinear(Shifts(k - 1, a), Shifts(k - 1, b));
    }
  }

  lemma {:induction false} ShiftsInside(k: nat, c: bv32)
    ensures Shifts(k + 1, c) == Shifts(k, Shift(c))
  {
    hide Shift;
    if k > 0 {
      ShiftsInside(k - 1, c);
    }
  }

  // ---------------------------------------------------------------- four bytes at a time

  /** The register with its lowest byte at position i of the word. */
  function Place(i: nat, n: bv32): bv32
    requires i < 4
  {
    if i == 0 then Low(n) else if i == 1 then Low(n) << 8 else if i == 2 then Low(n) << 16 else Low(n) << 24
  }

  /** Byte i of the register. */
  function Pick(i: nat, c: bv32): bv32
    requires i < 4
  {
    if i == 0 then Low(c) else if i == 1 then Low(c >> 8) else if i == 2 then Low(c >> 16) else c >> 24
  }

  /** The four bytes as a little-endian machine loads them. */
  function Load(b0: Byte, b1: Byte, b2: Byte, b3: Byte): bv32 {
    Xor(Xor(Word(b0), Place(1, Word(b1))), Xor(Place(2, Word(b2)), Place(3, Word(b3))))
  }

  /** DOLIT4: four bytes through the register with four look-ups. */
  function Lit4(c: bv32, b0: Byte, b1: Byte, b2: Byte, b3: Byte): bv32 {
    var x := Xor(c, Load(b0, b1, b2, b3));
    Xor(Xor(Table(3, Pick(0, x)), Table(2, Pick(1, x))), Xor(Table(1, Pick(2, x)), Table(0, Pick(3, x))))
  }

  lemma PlaceDown(i: nat, n: bv32)
    requires i < 3
    ensures Shift(Place(i + 1, n)) == Place(i, n)
  {
    hide Shift, Low;
    PlaceHigh(i, n);
    ShiftOfHigh(Place(i + 1, n));
  }

  lemma PlaceHigh(i: nat, n: bv32)
    requires i < 3
    ensures High(Place(i + 1, n)) == Place(i + 1, n) && Down(Place(i + 1, n)) == Place(i, n)
  {
  }

  /** A byte at position i needs i shifts to reach the bottom of the register. */
  lemma {:induction false} ShiftsOfPlace(i: nat, k: nat, n: bv32)
    requires i < 4
    ensures Shifts(k + i, Place(i, n)) == Shifts(k, Low(n))
    decreases i
  {
    hide Shift, Low;
    if i > 0 {
      ShiftsInside(k + i - 1, Place(i, n));
      PlaceDown(i - 1, n);
      ShiftsOfPlace(i - 1, k, n);
    } else {
      PlaceBottom(n);
    }
  }

  lemma PlaceBottom(n: bv32)
    ensures Place(0, n) == Low(n)
  {
  }

  lemma PickAndPlace(x: bv32)
    ensures x == Xor(Xor(Place(0, Pick(0, x)), Place(1, Pick(1, x))), Xor(Place(2, Pick(2, x)), Place(3, Pick(3, x))))
  {
  }

  /** One look-up does the work of shifting its byte all the way. */
  lemma LookUp(i: nat, n: bv32)
    requires i < 4
    ensures Table(3 - i, n) == Shifts(4, Place(i, n))
  {
    hide Shift, Low, Place, Table;
    TableIsShifts(3 - i, n);
    ShiftsOfPlace(i, 4 - i, n);
  }

  lemma LookUpsShift(x: bv32)
    ensures Xor(Xor(Table(3, Pick(0, x)), Table(2, Pick(1, x))), Xor(Table(1, Pick(2, x)), Table(0, Pick(3, x))))
      == Shifts(4, x)
  {
    hide Xor, Shifts, Table, Place, Pick;
    PickAndPlace(x);
    LookUp(0, Pick(0, x));
    LookUp(1, Pick(1, x));
    LookUp(2, Pick(2, x));
    LookUp(3, Pick(3, x));
    var p0, p1 := Place(0, Pick(0, x)), Place(1, Pick(1, x));
    var p2, p3 := Place(2, Pick(2, x)), Place(3, Pick(3, x));
    ShiftsLinear(4, p0, p1);
    ShiftsLinear(4, p2, p3);
    ShiftsLinear(4, Xor(p0, p1), Xor(p2, p3));
  }

  /** The byte that enters after k + 1 others could have been placed k + 1 positions up at the start. */
  lemma EarlyByte(k: nat, x: bv32, b: Byte)
    requires 0 < k < 4
    ensures Xor(Shifts(k, x), Word(b)) == Shifts(k, Xor(x, Place(k, Word(b))))
  {
    hide Xor, Shift, Place, Word, Low;
    ShiftsLinear(k, x, Place(k, Word(b)));
    ShiftsOfPlace(k, 0, Word(b));
    LowOfWord(b);
  }

  lemma LowOfWord(b: Byte)
    ensures Low(Word(b)) == Word(b)
  {
  }

  function FourSteps(c: bv32, b0: Byte, b1: Byte, b2: Byte, b3: Byte): bv32 {
    Step(Step(Step(Step(c, b0), b1), b2), b3)
  }

  lemma FourStepsShift(c: bv32, b0: Byte, b1: Byte, b2: Byte, b3: Byte)
    ensures FourSteps(c, b0, b1, b2, b3) == Shifts(4, Xor(c, Load(b0, b1, b2, b3)))
  {
    hide Xor, Shift, Place, Word, Step;
    var x0 := Xor(c, Word(b0));
    var x1 := Xor(x0, Place(1, Word(b1)));
    var x2 := Xor(x1, Place(2, Word(b2)));
    var x3 := Xor(x2, Place(3, Word(b3)));
    StepIsShift(c, b0);
    assert Step(c, b0) == Shifts(1, x0);
    EarlyByte(1, x0, b1);
    StepIsShift(Step(c, b0), b1);
    assert Step(Step(c, b0), b1) == Shifts(2, x1);
    EarlyByte(2, x1, b2);
    StepIsShift(Shifts(2, x1), b2);
    assert Step(Shifts(2, x1), b2) == Shifts(3, x2);
    EarlyByte(3, x2, b3);
    StepIsShift(Shifts(3, x2), b3);
    assert Step(Shifts(3, x2), b3) == Shifts(4, x3);
    LoadInPieces(c, Word(b0), Place(1, Word(b1)), Place(2, Word(b2)), Place(3, Word(b3)));
  }

  lemma LoadInPieces(c: bv32, p0: bv32, p1: bv32, p2: bv32, p3: bv32)
    ensures Xor(Xor(Xor(Xor(c, p0), p1), p2), p3) == Xor(c, Xor(Xor(p0, p1), Xor(p2, p3)))
  {
    hide Xor;
    XorLaws(c, p0, p1);
    XorLaws(Xor(c, Xor(p0, p1)), p2, p3);
    XorLaws(c, Xor(p0, p1), Xor(p2, p3));
  }

  /** Four look-ups do what four single bytes do. */
  lemma SlicedIsBytewise(c: bv32, b0: Byte, b1: Byte, b2: Byte, b3: Byte)
    ensures Lit4(c, b0, b1, b2, b3) == FourSteps(c, b0, b1, b2, b3)
  {
    hide Xor, Shifts, Table, Pick, Load, FourSteps;
    LookUpsShift(Xor(c, Load(b0, b1, b2, b3)));
    FourStepsShift(c, b0, b1, b2, b3);
  }

  // ---------------------------------------------------------------- whole buffers

  lemma {:induction false} StepsConcat(c: bv32, s: seq<Byte>, t: seq<Byte>)
    ensures Steps(c, s + t) == Steps(Steps(c, s), t)
    decreases |s|
  {
    hide Step;
    if s == [] {
      assert s + t == t;
    } else {
      StepsConcat(Step(c, s[0]), s[1..], t);
      assert (s + t)[1..] == s[1..] + t;
    }
  }

  /** Checksums chain: the CRC of a whole is got by feeding its parts one after the other. */
  lemma CrcChains(crc: bv32, s: seq<Byte>, t: seq<Byte>)
    ensures Crc(crc, s + t) == Crc(Crc(crc, s), t)
  {
    hide Steps, Flip;
    StepsConcat(Flip(crc), s, t);
    FlipTwice(Steps(Flip(crc), s));
  }

  lemma FlipTwice(c: bv32)
    ensures Flip(Flip(c)) == c
  {
  }

  /** The CRC carried over several chunks of a file is the CRC of the file. */
  function CrcOfReads(crc: bv32, chunks: seq<seq<Byte>>): bv32
    decreases |chunks|
  {
    if chunks == [] then crc else CrcOfReads(Crc(crc, chunks[0]), chunks[1..])
  }

  lemma {:induction false} ReadsDoNotMatter(crc: bv32, chunks: seq<seq<Byte>>)
    ensures CrcOfReads(crc, chunks) == Crc(crc, Joined(chunks))
    decreases |chunks|
  {
    hide Steps, Flip;
    if chunks == [] {
      NoSteps(Flip(crc));
      FlipTwice(crc);
    } else {
      ReadsDoNotMatter(Crc(crc, chunks[0]), chunks[1..]);
      CrcChains(crc, chunks[0], Joined(chunks[1..]));
    }
  }

  lemma CrcOfNothing(crc: bv32)
    ensures Crc(crc, []) == crc
  {
    hide Flip;
    FlipTwice(crc);
  }

  lemma NoSteps(c: bv32)
    ensures Steps(c, []) == c
  {
  }

  lemma StepsUnfold(c: bv32, s: seq<Byte>)
    requires s != []
    ensures Steps(c, s) == Steps(Step(c, s[0]), s[1..])
  {
  }

  lemma OneStep(c: bv32, b: Byte, t: bv32, s: seq<Byte>)
    requires Step(c, b) == t
    ensures Steps(c, [b] + s) == Steps(t, s)
  {
    assert ([b] + s)[1..] == s;
    hide Step;
  }

  /** The check value of this CRC: that of the nine digits from 1 on. */
  lemma CheckValue()
    ensures Crc(0, [49, 50, 51, 52, 53, 54, 55, 56, 57]) == 0xcbf43926
  {
    CheckRegisters();
    hide Step;
    var s: seq<Byte> := [];
    OneStep(0x651f2550, 57, 0x340bc6d9, s);
    s := [57] + s;
    OneStep(0xaffc9660, 56, 0x651f2550, s);
    s := [56] + s;
    OneStep(0xf68d2c9e, 55, 0xaffc9660, s);
    s := [55] + s;
    OneStep(0x340ac5e3, 54, 0xf68d2c9e, s);
    s := [54] + s;
    OneStep(0x641c1f5c, 53, 0x340ac5e3, s);
    s := [53] + s;
    OneStep(0x77b79c2d, 52, 0x641c1f5c, s);
    s := [52] + s;
    OneStep(0xb0acbb32, 51, 0x77b79c2d, s);
    s := [51] + s;
    OneStep(0x7c231048, 50, 0xb0acbb32, s);
    s := [50] + s;
    OneStep(0xffffffff, 49, 0x7c231048, s);
    s := [49] + s;
    assert s == [49, 50, 51, 52, 53, 54, 55, 56, 57];
  }

  lemma CheckRegisters()
    ensures Step(0xffffffff, 49) == 0x7c231048
    ensures Step(0x7c231048, 50) == 0xb0acbb32
    ensures Step(0xb0acbb32, 51) == 0x77b79c2d
    ensures Step(0x77b79c2d, 52) == 0x641c1f5c
    ensures Step(0x641c1f5c, 53) == 0x340ac5e3
    ensures Step(0x340ac5e3, 54) == 0xf68d2c9e
    ensures Step(0xf68d2c9e, 55) == 0xaffc9660
    ensures Step(0xaffc9660, 56) == 0x651f2550
    ensures Step(0x651f2550, 57) == 0x340bc6d9
  {
  }

  lemma FourAhead(c: bv32, s: seq<Byte>)
    requires |s| >= 4
    ensures Steps(c, s) == Steps(Lit4(c, s[0], s[1], s[2], s[3]), s[4..])
  {
    hide Step, Lit4, Steps;
    SlicedIsBytewise(c, s[0], s[1], s[2], s[3]);
    StepsUnfold(c, s);
    var c1 := Step(c, s[0]);
    StepsUnfold(c1, s[1..]);
    var c2 := Step(c1, s[1]);
    assert s[1..][1..] == s[2..];
    StepsUnfold(c2, s[2..]);
    var c3 := Step(c2, s[2]);
    assert s[2..][1..] == s[3..];
    StepsUnfold(c3, s[3..]);
    assert s[3..][1..] == s[4..];
  }

  /** One DOLIT4 on the buffer at position pos. */
  method DoLit4(c: bv32, buf: seq<Byte>, pos: nat) returns (c': bv32)
    requires pos + 4 <= |buf|
    ensures Steps(c', buf[pos + 4..]) == Steps(c, buf[pos..])
  {
    hide Lit4, Steps;
    c' := Lit4(c, buf[pos], buf[pos + 1], buf[pos + 2], buf[pos + 3]);
    FourAhead(c, buf[pos..]);
    assert buf[pos..][4..] == buf[pos + 4..];
  }

  /**
   crc32_little: single bytes up to a word boundary, then words, eight of them at a time while they last, then the
   bytes left over. address is where the buffer lies in memory.
   */
  method Crc32Little(crc: bv32, buf: seq<Byte>, address: nat) returns (r: bv32)
    ensures r == Crc(crc, buf)
  {
    hide Step, Steps, Flip;
    var c := Flip(crc);
    var pos := 0;
    assert buf[0..] == buf;
    while pos < |buf| && (address + pos) % 4 != 0
      invariant pos <= |buf| && Steps(c, buf[pos..]) == Steps(Flip(crc), buf)
    {
      StepsUnfold(c, buf[pos..]);
      assert buf[pos..][1..] == buf[pos + 1..];
      c := Step(c, buf[pos]);
      pos := pos + 1;
    }
    while |buf| - pos >= 32
      invariant pos <= |buf| && Steps(c, buf[pos..]) == Steps(Flip(crc), buf)
    {
      ghost var start := pos;
      for k := 0 to 8
        invariant pos == start + 4 * k && start + 32 <= |buf| && Steps(c, buf[pos..]) == Steps(Flip(crc), buf)
      {
        c := DoLit4(c, buf, pos);
        pos := pos + 4;
      }
    }
    while |buf| - pos >= 4
      invariant pos <= |buf| && Steps(c, buf[pos..]) == Steps(Flip(crc), buf)
    {
      c := DoLit4(c, buf, pos);
      pos := pos + 4;
    }
    while pos < |buf|
      invariant pos <= |buf| && Steps(c, buf[pos..]) == Steps(Flip(crc), buf)
    {
      StepsUnfold(c, buf[pos..]);
      assert buf[pos..][1..] == buf[pos + 1..];
      c := Step(c, buf[pos]);
      pos := pos + 1;
    }
    assert buf[pos..] == [];
    NoSteps(c);
    r := Flip(c);
  }
}
