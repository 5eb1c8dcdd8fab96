/** UUValidData: which encoding a line of text could be. */
module ValidData {
  import opened Prelude
  import opened ByteText
  import opened UuTables

  /** The encodings a line can be found to be in; Not is the verdict 0, and also "still searching". */
  datatype Kind = Not | IsUU | IsB64 | IsXX | IsBH | IsYenc

  const COLON: Byte := 58
  const UPPER_M: Byte := 77
  const LOWER_H: Byte := 104
  const PART: seq<Byte> := [112, 97, 114, 116]

  /** The number of characters before the line end. */
  function LineLength(p: seq<Byte>): (i: nat)
    ensures i <= |p|
  {
    if p == [] || p[0] == NL || p[0] == CR || p[0] == 0 then 0 else 1 + LineLength(p[1..])
  }

  predicate IsLower(b: Byte) {
    97 <= b <= 122
  }

  // ---------------------------------------------------------------- BinHex

  /** Skips BinHex characters from s on, at most len of them: the number skipped. */
  function BhRun(p: seq<Byte>, s: nat, len: nat): (n: nat)
    ensures n <= len
    ensures n < len ==> BhVal(At(p, s + n)) == -1
    decreases len
  {
    if len == 0 || BhVal(At(p, s)) == -1 then 0 else 1 + BhRun(p, s + 1, len - 1)
  }

  function SpaceRun(p: seq<Byte>, s: nat, len: nat): (n: nat)
    ensures n <= len
    decreases len
  {
    if len == 0 || At(p, s) != SPACE then 0 else 1 + SpaceRun(p, s + 1, len - 1)
  }

  /** The BinHex test on the i characters of p: None to go on to Base64, or the new state flag. */
  function BinhexTest(p: seq<Byte>, i: nat, sure: bool, bhflag: nat): Option<nat>
    requires i > 0
  {
    if bhflag == 0 && At(p, 0) != COLON then None
    else
      var s0 := if bhflag == 0 then 1 else 0;
      var len0 := i - s0;
      var n := BhRun(p, s0, len0);
      var s1, len1 := s0 + n, len0 - n;
      var flag := if At(p, s1) == COLON then 0 else 1;
      var (s2, len2) := if At(p, s1) == COLON && len1 > 0 then (s1 + 1, len1 - 1) else (s1, len1);
      var len3 := if (i >= 60 && len2 <= 10) || sure then len2 - SpaceRun(p, s2, len2) else len2;
      if len3 != 0 || (flag == 1 && i < 40) then None else Some(flag)
  }

  // ---------------------------------------------------------------- Base64

  /** The Base64 test from position s on, with len characters of the i to go. */
  predicate B64Test(p: seq<Byte>, i: nat, sure: bool, s: nat, len: nat)
    decreases len
  {
    if len == 0 then true
    else
      var b, left := At(p, s), len - 1;
      if b >= 128 || (B64Val(b) == -1 && b != EQUALS) then
        ((i >= 60 && left <= 10) || sure) && b == SPACE && left == 0
      else if b == EQUALS then
        var (s1, left1) := if At(p, s + 1) == EQUALS && left >= 1 then (s + 2, left - 1) else (s + 1, left);
        var left2 := if sure && left1 > 0 then left1 - SpaceRun(p, s1, left1) else left1;
        left2 == 0
      else B64Test(p, i, sure, s + 1, left)
  }

  // ---------------------------------------------------------------- UU and XX

  /** The expected length, shortened for encoders that leave padding out of the last group. */
  function Tolerated(j: nat, len: nat, v: int): int {
    if len == j then j
    else if v >= 0 && v % 3 == 1 && j - 2 == len then j - 2
    else if v >= 0 && v % 3 == 2 && j - 1 == len then j - 1
    else j
  }

  predicate UuTest(p: seq<Byte>, i: nat, sure: bool)
    requires i > 0
  {
    var first := At(p, 0);
    var v := UuVal(first);
    v >= 0 &&
    var j0 := UuLen(v);
    var len := if i - 1 == j0 then i - 1 else i;
    var j := Tolerated(j0, len, v);
    && !(len != j &&
         ((first == DASH && At(p, 1) == DASH && Contains(p, PART)) ||
          !(first != UPPER_M && first != LOWER_H && len > j && len <= UuLen(45))))
    && !((len != j || IsLower(first)) && !sure && SPACE in p)
    && forall k :: 0 <= k < j ==> At(p, k) < 128 && UuVal(At(p, k)) >= 0
  }

  predicate XxTest(p: seq<Byte>, i: nat)
    requires i > 0
  {
    var first := At(p, 0);
    var v := XxVal(first);
    v >= 0 &&
    var j0 := UuLen(v);
    var len := if i - 1 == j0 then i - 1 else i;
    var j := Tolerated(j0, len, UuVal(first));
    && !(len != j && !(first != LOWER_H && len > j && len <= UuLen(8)))
    && forall k :: 0 <= k < len ==> At(p, k) < 128 && XxVal(At(p, k)) >= 0
  }

  // ---------------------------------------------------------------- the verdict

  /** From the Base64 test on, while still searching. */
  function SearchFromB64(p: seq<Byte>, i: nat): Kind
    requires i > 0
  {
    if B64Test(p, i, false, 0, i) then IsB64
    else if UuTest(p, i, false) then IsUU
    else if XxTest(p, i) then IsXX
    else Not
  }

  /**
   UUValidData: the verdict on a line and the new BinHex state. encoding is Not while no encoding has been settled on;
   then BinHex, Base64, UU and XX are tried in turn.
   */
  function Verdict(p: seq<Byte>, encoding: Kind, bhflag: nat): (Kind, nat) {
    var i := LineLength(p);
    if p == [] || p[0] == 0 then (Not, bhflag)
    else if encoding == IsYenc then (IsYenc, bhflag)
    else if i == 0 then (Not, bhflag)
    else
      match encoding
      case IsUU => (if UuTest(p, i, true) then IsUU else Not, bhflag)
      case IsXX => (if XxTest(p, i) then IsXX else Not, bhflag)
      case IsB64 => (if B64Test(p, i, true, 0, i) then IsB64 else Not, bhflag)
      case IsBH =>
        (match BinhexTest(p, i, true, bhflag)
         case Some(flag) => (IsBH, flag)
         case None => (Not, bhflag))
      case _ =>
        match BinhexTest(p, i, false, bhflag)
        case Some(flag) => (IsBH, flag)
        case None => (SearchFromB64(p, i), bhflag)
  }
}
