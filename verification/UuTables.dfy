/** The code tables of the transfer encodings and the decoding tables UUInitConc derives from them. */
module UuTables {
  import opened Prelude

  /** A six-bit value. */
  type Sextet = v: int | 0 <= v < 64

  /** What a decoding table holds for a byte: its value, or -1. */
  type Code = v: int | -1 <= v < 64

  // ---------------------------------------------------------------- encoding tables

  function UuChar(v: Sextet): Byte {
    if v == 0 then 96 else 32 + v
  }

  function B64Char(v: Sextet): Byte {
    if v < 26 then 65 + v
    else if v < 52 then 97 + (v - 26)
    else if v < 62 then 48 + (v - 52)
    else if v == 62 then 43
    else 47
  }

  function XxChar(v: Sextet): Byte {
    if v == 0 then 43
    else if v == 1 then 45
    else if v < 12 then 48 + (v - 2)
    else if v < 38 then 65 + (v - 12)
    else 97 + (v - 38)
  }

  function BhChar(v: Sextet): Byte {
    if v < 13 then 33 + v
    else if v < 20 then 48 + (v - 13)
    else if v < 22 then 56 + (v - 20)
    else if v < 37 then 64 + (v - 22)
    else if v < 44 then 80 + (v - 37)
    else if v < 48 then 88 + (v - 44)
    else if v < 55 then 96 + (v - 48)
    else if v < 61 then 104 + (v - 55)
    else 112 + (v - 61)
  }

  // ---------------------------------------------------------------- decoding tables

  /** UUxlat: two stretches of the alphabet, a second zero, and one correction. */
  function UuVal(b: Byte): Code {
    if b == 96 then 0
    else if b == 126 then 62
    else if 32 <= b < 96 then b - 32
    else if 96 < b < 128 then b - 96
    else -1
  }

  function B64Val(b: Byte): Code {
    if 65 <= b <= 90 then b - 65
    else if 97 <= b <= 122 then b - 97 + 26
    else if 48 <= b <= 57 then b - 48 + 52
    else if b == 43 then 62
    else if b == 47 then 63
    else -1
  }

  function XxVal(b: Byte): Code {
    if b == 43 then 0
    else if b == 45 then 1
    else if 48 <= b <= 57 then b - 48 + 2
    else if 65 <= b <= 90 then b - 65 + 12
    else if 97 <= b <= 122 then b - 97 + 38
    else -1
  }

  function BhVal(b: Byte): Code {
    if 33 <= b <= 45 then b - 33
    else if 48 <= b <= 54 then b - 48 + 13
    else if 56 <= b <= 57 then b - 56 + 20
    else if 64 <= b <= 78 then b - 64 + 22
    else if 80 <= b <= 86 then b - 80 + 37
    else if 88 <= b <= 91 then b - 88 + 44
    else if 96 <= b <= 102 then b - 96 + 48
    else if 104 <= b <= 109 then b - 104 + 55
    else if 112 <= b <= 114 then b - 112 + 61
    else -1
  }

  /** UUxlen: the length of a line that announces n bytes, length character included. */
  function UuLen(n: Sextet): (len: nat)
    ensures 1 <= len <= 85
  {
    1 + (n + 2) / 3 * 4
  }

  /**
   Each decoding table undoes its encoding table. UU has second spellings: the space for 0, and the lower-case letters
   and signs from 97 on, of which 126 stands for 62 and not for its place in the row; every other byte has no value.
   */
  lemma TablesInvert(v: Sextet, b: Byte)
    ensures UuVal(UuChar(v)) == v && B64Val(B64Char(v)) == v && XxVal(XxChar(v)) == v && BhVal(BhChar(v)) == v
    ensures B64Val(b) == v <==> B64Char(v) == b
    ensures XxVal(b) == v <==> XxChar(v) == b
    ensures BhVal(b) == v <==> BhChar(v) == b
    ensures UuVal(b) == v <==>
      UuChar(v) == b || (b == 32 && v == 0) || (97 <= b <= 127 && b != 126 && v == b - 96) || (b == 126 && v == 62)
  {
    B64Inverts(v, b);
    XxInverts(v, b);
    BhInverts(v, b);
    hide B64Char, B64Val, XxChar, XxVal, BhChar, BhVal;
  }

  lemma B64Inverts(v: Sextet, b: Byte)
    ensures B64Val(B64Char(v)) == v && (B64Val(b) == v <==> B64Char(v) == b)
  {
  }

  lemma XxInverts(v: Sextet, b: Byte)
    ensures XxVal(XxChar(v)) == v && (XxVal(b) == v <==> XxChar(v) == b)
  {
  }

  lemma BhInverts(v: Sextet, b: Byte)
    ensures BhVal(BhChar(v)) == v && (BhVal(b) == v <==> BhChar(v) == b)
  {
  }

  /** The character so many places after c. */
  function After(c: char, k: nat): Byte
    requires c as int + k < 256
  {
    c as int + k
  }

  /**
   The alphabets as characters: of UU by custom the 64 from the space on with a grave accent for the space, of
   Base64 that of section 6.8 of RFC 2045, of XX the signs, digits and letters, and of BinHex that of Appendix A of
   RFC 1741.
   */
  lemma Alphabets(v: Sextet)
    ensures UuChar(v) == if v == 0 then After('`', 0) else After(' ', v)
    ensures B64Char(v) ==
      if v < 26 then After('A', v) else if v < 52 then After('a', v - 26) else if v < 62 then After('0', v - 52)
      else if v == 62 then After('+', 0) else After('/', 0)
    ensures XxChar(v) ==
      if v == 0 then After('+', 0) else if v == 1 then After('-', 0) else if v < 12 then After('0', v - 2)
      else if v < 38 then After('A', v - 12) else After('a', v - 38)
    ensures BhChar(v) ==
      if v < 13 then After('!', v) else if v < 20 then After('0', v - 13) else if v < 22 then After('8', v - 20)
      else if v < 37 then After('@', v - 22) else if v < 44 then After('P', v - 37)
      else if v < 48 then After('X', v - 44)
      else if v < 55 then After('`', v - 48) else if v < 61 then After('h', v - 55) else After('p', v - 61)
  {
  }

  /**
   A line that announces so many bytes has its length character and four characters for every three bytes or fewer.
   */
  lemma LineLengths(n: Sextet)
    ensures 3 * (UuLen(n) - 1) - 8 <= 4 * n <= 3 * (UuLen(n) - 1) && (UuLen(n) - 1) % 4 == 0
  {
  }

  // ---------------------------------------------------------------- filling the tables

  /** Writes i under code[i] for every i, leaving every other entry as it was. */
  method FillInverse(table: array<int>, code: Sextet -> Byte, ghost inverse: Byte -> Code)
    requires table.Length == 256 && forall b: int :: 0 <= b < 256 ==> table[b] == -1
    requires forall v: Sextet, b: Byte :: inverse(b) == v <==> code(v) == b
    modifies table
    ensures forall b: int :: 0 <= b < 256 ==> table[b] == inverse(b)
  {
    for i := 0 to 64
      invariant forall b: int :: 0 <= b < 256 ==> table[b] == if 0 <= inverse(b) < i then inverse(b) else -1
    {
      table[code(i)] := i;
    }
  }

  /** UUInitConc: fills the five tables from scratch. */
  method InitConc() returns (uu: array<int>, b64: array<int>, xx: array<int>, bh: array<int>, len: array<int>)
    ensures uu.Length == b64.Length == xx.Length == bh.Length == 256 && len.Length == 64
    ensures forall b: int :: 0 <= b < 256 ==>
      uu[b] == UuVal(b) && b64[b] == B64Val(b) && xx[b] == XxVal(b) && bh[b] == BhVal(b)
    ensures forall n: int :: 0 <= n < 64 ==> len[n] == UuLen(n)
  {
    uu := FillUu();
    len := FillLengths();
    b64 := new int[256](_ => -1);
    xx := new int[256](_ => -1);
    bh := new int[256](_ => -1);
    forall v: Sextet, b: Byte
      ensures B64Val(b) == v <==> B64Char(v) == b
      ensures XxVal(b) == v <==> XxChar(v) == b
      ensures BhVal(b) == v <==> BhChar(v) == b
    {
      TablesInvert(v, b);
    }
    FillInverse(b64, B64Char, B64Val);
    FillInverse(xx, XxChar, XxVal);
    FillInverse(bh, BhChar, BhVal);
  }

  method FillUu() returns (uu: array<int>)
    ensures fresh(uu) && uu.Length == 256 && forall b: int :: 0 <= b < 256 ==> uu[b] == UuVal(b)
  {
    uu := new int[256](_ => -1);
    for j := 0 to 64
      invariant forall b: int :: 0 <= b < 256 ==> uu[b] == if 32 <= b < 32 + j then b - 32 else -1
    {
      uu[32 + j] := j;
    }
    for j := 0 to 32
      invariant forall b: int :: 0 <= b < 256 ==>
        uu[b] == if 96 <= b < 96 + j then b - 96 else if 32 <= b < 96 then b - 32 else -1
    {
      uu[96 + j] := j;
    }
    uu[96] := uu[32];
    uu[126] := uu[94];
  }

  method FillLengths() returns (len: array<int>)
    ensures fresh(len) && len.Length == 64 && forall n: int :: 0 <= n < 64 ==> len[n] == UuLen(n)
  {
    len := new int[64];
    len[0] := 1;
    var i, j := 1, 5;
    while i <= 61
      invariant 1 <= i <= 64 && i % 3 == 1 && j == 5 + (i - 1) / 3 * 4
      invariant forall n: int :: 0 <= n < i ==> len[n] == UuLen(n)
    {
      len[i], len[i + 1], len[i + 2] := j, j, j;
      i, j := i + 3, j + 4;
    }
  }
}
