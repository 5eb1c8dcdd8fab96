/** The three-to-four encodings: UUEncodeStream writing lines, UUDecodeLine reading one UU or XX line back. */
module UuCodec {
  import opened Prelude
  import opened ByteText
  import opened UuTables

  datatype Encoding = UU | XX | B64

  function CharOf(e: Encoding, v: Sextet): Byte {
    match e
    case UU => UuChar(v)
    case XX => XxChar(v)
    case B64 => B64Char(v)
  }

  /** Bytes per line. */
  function Bpl(e: Encoding): (n: nat)
    ensures 0 < n <= 57 && (e != B64 ==> n == 45)
  {
    if e == B64 then 57 else 45
  }

  /** The number of bytes on k full lines. */
  function LineBytes(e: Encoding, k: int): int {
    if e == B64 then 57 * k else 45 * k
  }

  // ---------------------------------------------------------------- encoding

  /** Three bytes as four characters. */
  function Quad(e: Encoding, a: Byte, b: Byte, c: Byte): (q: seq<Byte>)
    ensures |q| == 4
  {
    [CharOf(e, a / 4), CharOf(e, a % 4 * 16 + b / 16), CharOf(e, b % 16 * 4 + c / 64), CharOf(e, c % 64)]
  }

  /** The one or two bytes left over at the end of a line. */
  function Rest(e: Encoding, d: seq<Byte>): seq<Byte>
    requires |d| < 3
  {
    if |d| == 2 then
      [CharOf(e, d[0] / 4), CharOf(e, d[0] % 4 * 16 + d[1] / 16), CharOf(e, d[1] % 16 * 4),
       if e == B64 then EQUALS else CharOf(e, 0)]
    else if |d| == 1 then
      [CharOf(e, d[0] / 4), CharOf(e, d[0] % 4 * 16),
       if e == B64 then EQUALS else CharOf(e, 0), if e == B64 then EQUALS else CharOf(e, 0)]
    else []
  }

  function Body(e: Encoding, d: seq<Byte>): seq<Byte> {
    if |d| >= 3 then Quad(e, d[0], d[1], d[2]) + Body(e, d[3..]) else Rest(e, d)
  }

  /** One line without its end: UU and XX announce the number of bytes first. */
  function LineOf(e: Encoding, d: seq<Byte>): seq<Byte>
    requires |d| < 64
  {
    (if e == B64 then [] else [CharOf(e, |d|)]) + Body(e, d)
  }

  /** All lines for the data, each with a newline. */
  function TextOf(e: Encoding, d: seq<Byte>): seq<Byte>
    decreases |d|
  {
    if d == [] then []
    else
      var n := if |d| < Bpl(e) then |d| else Bpl(e);
      LineOf(e, d[..n]) + [NL] + TextOf(e, d[n..])
  }

  /** Fills the line buffer for the bytes just read. */
  method EncodeLine(e: Encoding, itemp: seq<Byte>) returns (otemp: seq<Byte>)
    requires |itemp| < 64
    ensures otemp == LineOf(e, itemp)
  {
    hide Quad, CharOf;
    otemp := [];
    if e != B64 {
      otemp := otemp + [CharOf(e, |itemp|)];
    }
    var index := 0;
    assert itemp[0..] == itemp;
    while index <= |itemp| - 3
      invariant index <= |itemp|
      invariant otemp + Body(e, itemp[index..]) == LineOf(e, itemp)
    {
      hide Rest;
      var q := Quad(e, itemp[index], itemp[index + 1], itemp[index + 2]);
      assert itemp[index..][3..] == itemp[index + 3..];
      assert otemp + (q + Body(e, itemp[index + 3..])) == otemp + q + Body(e, itemp[index + 3..]);
      otemp := otemp + q;
      index := index + 3;
    }
    if index != |itemp| {
      otemp := otemp + Rest(e, itemp[index..]);
    } else {
      assert otemp + [] == otemp;
    }
  }

  /**
   UUEncodeStream for the binary encodings: encodes the rest of the file, or as many lines of it as asked for when
   linperfile is positive. Returns the text and the new position.
   */
  method EncodeStream(e: Encoding, infile: seq<Byte>, pos: nat, linperfile: int) returns (out: seq<Byte>, pos': nat)
    requires pos <= |infile|
    ensures pos <= pos' <= |infile| && out == TextOf(e, infile[pos..pos'])
    ensures pos' == if linperfile <= 0 || pos + LineBytes(e, linperfile) > |infile| then |infile|
                    else pos + LineBytes(e, linperfile)
  {
    hide TextOf, LineOf;
    out, pos' := [], pos;
    assert infile[pos..pos] == [];
    NoText(e);
    var line := 0;
    while pos' < |infile| && (linperfile <= 0 || line < linperfile)
      invariant pos <= pos' <= |infile|
      invariant linperfile > 0 ==> line <= linperfile
      invariant pos' == if pos + LineBytes(e, line) > |infile| then |infile| else pos + LineBytes(e, line)
      invariant out == TextOf(e, infile[pos..pos'])
      decreases |infile| - pos'
    {
      var n := if |infile| - pos' < Bpl(e) then |infile| - pos' else Bpl(e);
      var count := infile[pos'..pos' + n];
      var otemp := EncodeLine(e, count);
      out := out + otemp + [NL];
      TextAppend(e, infile[pos..pos'], count, line);
      SliceAppend(infile, pos, pos', pos' + n);
      pos', line := pos' + n, line + 1;
    }
  }

  lemma NoText(e: Encoding)
    ensures TextOf(e, []) == []
  {
  }

  lemma SliceAppend(s: seq<Byte>, a: nat, b: nat, c: nat)
    requires a <= b <= c <= |s|
    ensures s[a..b] + s[b..c] == s[a..c]
  {
  }

  /** Appending one more line's worth of bytes to whole lines appends one line of text. */
  lemma {:induction false} TextAppend(e: Encoding, d: seq<Byte>, more: seq<Byte>, lines: nat)
    requires |d| == LineBytes(e, lines) && 0 < |more| <= Bpl(e)
    ensures TextOf(e, d + more) == TextOf(e, d) + LineOf(e, more) + [NL]
    decreases lines
  {
    hide LineOf, TextOf;
    if lines == 0 {
      assert d + more == more;
      TextFirst(e, more, |more|);
      assert more[|more|..] == [] && more[..|more|] == more && d == [];
      NoText(e);
      assert LineOf(e, more) + [NL] + [] == [] + LineOf(e, more) + [NL];
    } else {
      var n := Bpl(e);
      TextAppend(e, d[n..], more, lines - 1);
      assert (d + more)[..n] == d[..n] && (d + more)[n..] == d[n..] + more;
      TextFirst(e, d, n);
      TextFirst(e, d + more, n);
      Regroup(LineOf(e, d[..n]) + [NL], TextOf(e, d[n..]), LineOf(e, more), [NL]);
    }
  }

  lemma Regroup(a: seq<Byte>, b: seq<Byte>, c: seq<Byte>, d: seq<Byte>)
    ensures a + (b + c + d) == a + b + c + d
  {
  }

  lemma TextFirst(e: Encoding, d: seq<Byte>, n: int)
    requires 0 < n <= |d| && (n == Bpl(e) || n == |d| <= Bpl(e))
    ensures TextOf(e, d) == LineOf(e, d[..n]) + [NL] + TextOf(e, d[n..])
  {
    hide LineOf;
  }

  /** The four characters are the digits, in base 64, of the number that the three bytes are in base 256. */
  lemma QuadIsNumber(e: Encoding, a: Byte, b: Byte, c: Byte, s0: Sextet, s1: Sextet, s2: Sextet, s3: Sextet)
    requires ((s0 * 64 + s1) * 64 + s2) * 64 + s3 == (a * 256 + b) * 256 + c
    ensures Quad(e, a, b, c) == [CharOf(e, s0), CharOf(e, s1), CharOf(e, s2), CharOf(e, s3)]
  {
    SplitBytes(a, b, c);
    SameDigits(s0, s1, s2, s3, a / 4, a % 4 * 16 + b / 16, b % 16 * 4 + c / 64, c % 64);
  }

  lemma SplitBytes(a: Byte, b: Byte, c: Byte)
    ensures ((a / 4 * 64 + (a % 4 * 16 + b / 16)) * 64 + (b % 16 * 4 + c / 64)) * 64 + c % 64 == (a * 256 + b) * 256 + c
  {
    assert a == a / 4 * 4 + a % 4 && b == b / 16 * 16 + b % 16 && c == c / 64 * 64 + c % 64;
  }

  lemma SameDigits(s0: Sextet, s1: Sextet, s2: Sextet, s3: Sextet, t0: Sextet, t1: Sextet, t2: Sextet, t3: Sextet)
    requires ((s0 * 64 + s1) * 64 + s2) * 64 + s3 == ((t0 * 64 + t1) * 64 + t2) * 64 + t3
    ensures s0 == t0 && s1 == t1 && s2 == t2 && s3 == t3
  {
  }

  /** What is left over is padded: with the character for zero, or in Base64 with as many equals signs as bytes lack. */
  lemma RestIsPadded(e: Encoding, a: Byte, b: Byte)
    ensures Rest(e, [a, b]) == Quad(e, a, b, 0)[..3] + [if e == B64 then EQUALS else CharOf(e, 0)]
    ensures Rest(e, [a])
      == Quad(e, a, 0, 0)[..2] + (if e == B64 then [EQUALS, EQUALS] else [CharOf(e, 0), CharOf(e, 0)])
    ensures EQUALS as char == '='
  {
  }

  /** Lines hold 45 bytes, in Base64 57, but for the last one, and those of UU and XX begin with the number of bytes. */
  lemma LinesAreFull(e: Encoding, d: seq<Byte>)
    requires d != []
    ensures var n := if e == B64 then 57 else 45;
      var k := if |d| < n then |d| else n;
      TextOf(e, d) == (if e == B64 then [] else [CharOf(e, k)]) + Body(e, d[..k]) + [NL] + TextOf(e, d[k..])
  {
    hide Body, CharOf;
  }

  // ---------------------------------------------------------------- decoding a UU or XX line

  function ValOf(e: Encoding, b: Byte): Code {
    match e
    case UU => UuVal(b)
    case XX => XxVal(b)
    case B64 => B64Val(b)
  }

  /** x | y where the bits of y lie below those of x; -1 is all ones. */
  function Or(x: int, y: int): int {
    if y == -1 then -1 else x + y
  }

  /** The three bytes that four table entries stand for, as the int arithmetic of the decoder truncates them. */
  function Triple(z1: Code, z2: Code, z3: Code, z4: Code): (t: seq<Byte>)
    ensures |t| == 3
  {
    [Or(z1 * 4, if z2 == -1 then -1 else z2 / 16) % 256,
     Or(z2 * 16, if z3 == -1 then -1 else z3 / 4) % 256,
     Or(z3 * 64, z4) % 256]
  }

  /** Decodes quads of s from pos until j characters are used up, but stores only i bytes. */
  function Unpack(e: Encoding, s: seq<Byte>, pos: nat, i: int, j: int): seq<Byte>
    decreases j
  {
    if j <= 0 then []
    else
      UpTo(TripleAt(e, s, pos), i) + Unpack(e, s, pos + 4, i - 3, j - 4)
  }

  function TripleAt(e: Encoding, s: seq<Byte>, pos: nat): (t: seq<Byte>)
    ensures |t| == 3
  {
    Triple(ValOf(e, At(s, pos)), ValOf(e, At(s, pos + 1)), ValOf(e, At(s, pos + 2)), ValOf(e, At(s, pos + 3)))
  }

  /** The part of a triple that the count still allows. */
  function UpTo(t: seq<Byte>, count: int): seq<Byte>
    requires |t| == 3
  {
    t[..if count <= 0 then 0 else if count >= 3 then 3 else count]
  }

  /** What a UU or XX line decodes to, given that its first character is a length. */
  function Decoded(e: Encoding, s: seq<Byte>): seq<Byte>
    requires ValOf(e, At(s, 0)) >= 0
  {
    var i := ValOf(e, At(s, 0));
    Unpack(e, s, 1, i, UuLen(i) - 1)
  }

  /** UUDecodeLine on a UU or XX line. */
  method DecodeLine(e: Encoding, s: seq<Byte>) returns (d: seq<Byte>)
    requires ValOf(e, At(s, 0)) >= 0
    ensures d == Decoded(e, s)
  {
    hide Triple, ValOf, TripleAt, UpTo;
    var i: int := ValOf(e, At(s, 0));
    var j := UuLen(i) - 1;
    var pos := 1;
    d := [];
    while j > 0
      invariant pos >= 1
      invariant d + Unpack(e, s, pos, i, j) == Decoded(e, s)
      decreases j
    {
      var t := TripleAt(e, s, pos);
      d := StoreUpTo(d, t, i);
      i, pos, j := i - 3, pos + 4, j - 4;
    }
  }

  /** Stores three bytes one by one as long as the count lasts. */
  method StoreUpTo(d: seq<Byte>, t: seq<Byte>, count: int) returns (r: seq<Byte>)
    requires |t| == 3
    ensures r == d + UpTo(t, count)
  {
    var i := count;
    r := d;
    if i > 0 { r := r + [t[0]]; }
    i := i - 1;
    if i > 0 { r := r + [t[1]]; }
    i := i - 1;
    if i > 0 { r := r + [t[2]]; }
  }

  // ---------------------------------------------------------------- decoding undoes encoding

  lemma ValOfChar(e: Encoding, v: Sextet)
    ensures ValOf(e, CharOf(e, v)) == v
  {
    TablesInvert(v, 0);
  }

  /** High bits from one sextet, low bits from the next: hi * lowUnits + low, cut to a byte. */
  lemma BitsFirst(p: int, q: int, r: int)
    requires 0 <= p < 64 && 0 <= q < 4 && 0 <= r < 16
    ensures (q * 16 + r) / 16 == q && (p * 4 + q) % 256 == p * 4 + q
  {
  }

  lemma BitsMiddle(q: int, r: int, t: int, u: int)
    requires 0 <= q < 4 && 0 <= r < 16 && 0 <= t < 16 && 0 <= u < 4
    ensures (t * 4 + u) / 4 == t && ((q * 16 + r) * 16 + t) % 256 == r * 16 + t
  {
    assert (q * 16 + r) * 16 + t == q * 256 + (r * 16 + t);
    Remainder(q, r * 16 + t);
  }

  lemma Remainder(q: int, r: int)
    requires 0 <= r < 256
    ensures (q * 256 + r) % 256 == r
  {
  }

  lemma BitsLast(t: int, u: int, w: int)
    requires 0 <= t < 16 && 0 <= u < 4 && 0 <= w < 64
    ensures ((t * 4 + u) * 64 + w) % 256 == u * 64 + w
  {
    assert (t * 4 + u) * 64 + w == t * 256 + (u * 64 + w);
  }

  lemma SextetsOfBytes(a: Byte, b: Byte, c: Byte)
    ensures Triple(a / 4, a % 4 * 16 + b / 16, b % 16 * 4 + c / 64, c % 64) == [a, b, c]
  {
    BitsFirst(a / 4, a % 4, b / 16);
    BitsMiddle(a % 4, b / 16, b % 16, c / 64);
    BitsLast(b % 16, c / 64, c % 64);
  }

  lemma TripleOfQuad(e: Encoding, a: Byte, b: Byte, c: Byte)
    ensures var q := Quad(e, a, b, c);
      Triple(ValOf(e, q[0]), ValOf(e, q[1]), ValOf(e, q[2]), ValOf(e, q[3])) == [a, b, c]
  {
    hide Triple, CharOf, ValOf;
    SextetsOfBytes(a, b, c);
    ValOfChar(e, a / 4);
    ValOfChar(e, a % 4 * 16 + b / 16);
    ValOfChar(e, b % 16 * 4 + c / 64);
    ValOfChar(e, c % 64);
  }

  /** A last, shorter group is the first part of a full one padded with zeros. */
  lemma RestIsQuad(e: Encoding, d: seq<Byte>)
    requires e != B64 && 0 < |d| < 3
    ensures Rest(e, d) == Quad(e, d[0], if |d| == 2 then d[1] else 0, 0)
  {
  }

  /** The first group of the body, whether full or padded, and what comes after it. */
  lemma BodyUnfolds(e: Encoding, d: seq<Byte>)
    requires e != B64 && d != []
    ensures var tail := if |d| >= 3 then d[3..] else [];
      Body(e, d) == Quad(e, d[0], if |d| >= 2 then d[1] else 0, if |d| >= 3 then d[2] else 0) + Body(e, tail)
  {
    if |d| < 3 { RestIsQuad(e, d); }
  }

  lemma UnpackStep(e: Encoding, s: seq<Byte>, pos: nat, i: int, j: int)
    ensures j > 0 ==> Unpack(e, s, pos, i, j) == UpTo(TripleAt(e, s, pos), i) + Unpack(e, s, pos + 4, i - 3, j - 4)
    ensures j <= 0 ==> Unpack(e, s, pos, i, j) == []
  {
  }

  lemma {:induction false} UnpackBody(e: Encoding, d: seq<Byte>, pre: seq<Byte>, post: seq<Byte>)
    requires e != B64
    ensures Unpack(e, pre + Body(e, d) + post, |pre|, |d|, (|d| + 2) / 3 * 4) == d
    decreases |d|
  {
    hide TripleAt, Quad, Body, UpTo, Unpack;
    var s, j := pre + Body(e, d) + post, (|d| + 2) / 3 * 4;
    UnpackStep(e, s, |pre|, |d|, j);
    if d != [] {
      var b, c := if |d| >= 2 then d[1] else 0, if |d| >= 3 then d[2] else 0;
      var q := Quad(e, d[0], b, c);
      var tail := if |d| >= 3 then d[3..] else [];
      BodyUnfolds(e, d);
      assert s == pre + q + (Body(e, tail) + post);
      TripleAtQuad(e, pre, d[0], b, c, Body(e, tail) + post);
      UpToGives(d, b, c);
      if |d| >= 3 {
        UnpackBody(e, tail, pre + q, post);
        assert pre + q + Body(e, tail) + post == s;
        assert d == [d[0], b, c] + tail;
        assert (|tail| + 2) / 3 * 4 == j - 4;
      } else {
        UnpackStep(e, s, |pre| + 4, |d| - 3, j - 4);
        assert d + [] == d;
      }
    }
  }

  lemma TripleAtQuad(e: Encoding, pre: seq<Byte>, a: Byte, b: Byte, c: Byte, post: seq<Byte>)
    ensures TripleAt(e, pre + Quad(e, a, b, c) + post, |pre|) == [a, b, c]
  {
    hide Quad;
    FourAt(pre, Quad(e, a, b, c), post);
    TripleOfQuad(e, a, b, c);
  }

  lemma UpToGives(d: seq<Byte>, b: Byte, c: Byte)
    requires d != [] && (|d| >= 2 ==> b == d[1]) && (|d| >= 3 ==> c == d[2])
    ensures UpTo([d[0], b, c], |d|) == if |d| >= 3 then [d[0], b, c] else d
  {
  }

  lemma FourAt(pre: seq<Byte>, q: seq<Byte>, post: seq<Byte>)
    requires |q| == 4
    ensures var s := pre + q + post;
      At(s, |pre|) == q[0] && At(s, |pre| + 1) == q[1] && At(s, |pre| + 2) == q[2] && At(s, |pre| + 3) == q[3]
  {
  }

  /** For up to 63 bytes, decoding the line returns the bytes, whatever follows the line. */
  lemma LineRoundTrip(e: Encoding, d: seq<Byte>, post: seq<Byte>)
    requires e != B64 && |d| < 64
    ensures ValOf(e, At(LineOf(e, d) + post, 0)) == |d|
    ensures Decoded(e, LineOf(e, d) + post) == d
  {
    hide Body, Unpack, CharOf, ValOf;
    ValOfChar(e, |d|);
    UnpackBody(e, d, [CharOf(e, |d|)], post);
  }

  lemma {:induction false} BodyLength(e: Encoding, d: seq<Byte>)
    ensures |Body(e, d)| == (|d| + 2) / 3 * 4
    decreases |d|
  {
    if |d| >= 3 { BodyLength(e, d[3..]); }
  }
}
