/** Which lines UUValidData takes for which encoding, told by their characters. */
module VerdictLaws {
  import opened Prelude
  import opened ByteText
  import opened UuTables
  import opened ValidData

  // ---------------------------------------------------------------- Base64

  /** The first k characters of p are of the Base64 alphabet. */
  predicate B64Chars(p: Text, k: nat) {
    forall j :: 0 <= j < k ==> B64Val(At(p, j)) != -1
  }

  predicate Spaces(p: Text, from: nat, to: nat) {
    forall j :: from <= j < to ==> At(p, j) == SPACE
  }

  /**
   From k on, where the Base64 characters end: nothing; or one equals sign, or two, and then nothing but spaces, and
   these only in a line known to be Base64; or one last space, in such a line or one of at least 60 characters.
   */
  predicate B64Ending(p: Text, i: nat, sure: bool, k: nat)
    requires k <= i
  {
    k == i
    || (At(p, k) == EQUALS
        && var t := if At(p, k + 1) == EQUALS && k + 1 < i then k + 2 else k + 1; t == i || (sure && Spaces(p, t, i)))
    || (At(p, k) == SPACE && k + 1 == i && (sure || i >= 60))
  }

  /** A line passes for Base64 exactly when it is Base64 characters and such an ending. */
  lemma B64Means(p: Text, i: nat, sure: bool)
    ensures B64Test(p, i, sure, 0, i) <==>
      exists k: nat :: k <= i && B64Chars(p, k) && (k < i ==> B64Val(At(p, k)) == -1) && B64Ending(p, i, sure, k)
  {
    var k := FirstOther(p, i, sure, 0);
    EndingDecides(p, i, sure, k);
  }

  /** The test goes on to the first character that is not of the alphabet. */
  lemma {:induction false} FirstOther(p: Text, i: nat, sure: bool, s: nat) returns (k: nat)
    requires s <= i && B64Chars(p, s)
    ensures s <= k <= i && B64Chars(p, k) && (k < i ==> B64Val(At(p, k)) == -1)
    ensures B64Test(p, i, sure, s, i - s) == B64Test(p, i, sure, k, i - k)
    decreases i - s
  {
    if s == i || B64Val(At(p, s)) == -1 {
      k := s;
    } else {
      k := FirstOther(p, i, sure, s + 1);
    }
  }

  lemma EndingDecides(p: Text, i: nat, sure: bool, k: nat)
    requires k <= i && B64Chars(p, k) && (k < i ==> B64Val(At(p, k)) == -1)
    ensures B64Test(p, i, sure, k, i - k) <==> B64Ending(p, i, sure, k)
  {
    if k < i && At(p, k) == EQUALS {
      var t := if At(p, k + 1) == EQUALS && k + 1 < i then k + 2 else k + 1;
      SpaceRunMeans(p, t, i - t);
    }
  }

  lemma {:induction false} SpaceRunMeans(p: Text, s: nat, len: nat)
    ensures SpaceRun(p, s, len) == len <==> Spaces(p, s, s + len)
    decreases len
  {
    if len > 0 && At(p, s) == SPACE { SpaceRunMeans(p, s + 1, len - 1); }
  }

  // ---------------------------------------------------------------- UU and XX

  /** The length of a line fits its length character: exactly, or one more, or short of padding at the end. */
  predicate FitsLength(i: nat, v: Sextet) {
    i == UuLen(v) || i == UuLen(v) + 1 || (v % 3 == 1 && i + 2 == UuLen(v)) || (v % 3 == 2 && i + 1 == UuLen(v))
  }

  /** All characters that are looked at are of the alphabet. */
  predicate UuChars(p: Text, k: nat) {
    forall j :: 0 <= j < k ==> UuVal(At(p, j)) >= 0
  }

  /**
   What passes for UU: never a line whose first character is not of the alphabet; a line of fitting length exactly
   when its characters are of the alphabet, but while the encoding is not settled never one that begins with a
   lower-case letter and has a space. A line of any other length passes only when it is longer than it should be, no
   longer than 61, and does not begin like a full line, and then not with a space while the encoding is not settled.
   */
  lemma UuMeans(p: Text, i: nat, sure: bool)
    requires i > 0
    ensures UuTest(p, i, sure) ==> UuVal(At(p, 0)) >= 0
    ensures UuVal(At(p, 0)) >= 0 && FitsLength(i, UuVal(At(p, 0))) ==>
      (UuTest(p, i, sure) <==>
        UuChars(p, Min(i, UuLen(UuVal(At(p, 0))))) && (sure || !IsLower(At(p, 0)) || SPACE !in p))
    ensures UuTest(p, i, sure) && !FitsLength(i, UuVal(At(p, 0))) ==>
      && UuLen(UuVal(At(p, 0))) < i <= 61 && At(p, 0) as char !in {'M', 'h'} && (sure || SPACE !in p)
      && UuChars(p, UuLen(UuVal(At(p, 0))))
  {
  }

  predicate XxChars(p: Text, k: nat) {
    forall j :: 0 <= j < k ==> XxVal(At(p, j)) >= 0
  }

  /** What passes for XX: only lines all of whose characters are of its alphabet, of exact length or one more. */
  lemma XxMeans(p: Text, i: nat)
    requires i > 0
    ensures XxTest(p, i) ==> XxVal(At(p, 0)) >= 0 && XxChars(p, i - 1)
    ensures XxVal(At(p, 0)) >= 0 && i == UuLen(XxVal(At(p, 0))) ==> (XxTest(p, i) <==> XxChars(p, i))
  {
  }

  // ---------------------------------------------------------------- BinHex

  predicate BhChars(p: Text, from: nat, to: nat) {
    forall j :: from <= j < to ==> BhVal(At(p, j)) != -1
  }

  lemma {:induction false} BhRunMeans(p: Text, s: nat, len: nat)
    ensures BhChars(p, s, s + BhRun(p, s, len))
    decreases len
  {
    if len > 0 && BhVal(At(p, s)) != -1 { BhRunMeans(p, s + 1, len - 1); }
  }

  /**
   BinHex begins with a colon. A line without another is taken for it, and more is expected, only from 40 characters
   on; a line that ends in one ends it. Nothing but BinHex characters stands in between.
   */
  lemma BinhexMeans(p: Text, i: nat, sure: bool, bhflag: nat)
    requires i > 0 && BinhexTest(p, i, sure, bhflag).Some?
    ensures bhflag == 0 ==> At(p, 0) as char == ':'
    ensures var flag := BinhexTest(p, i, sure, bhflag).value;
      && (flag == 0 || flag == 1) && (flag == 1 ==> i >= 40)
      && exists k: nat :: BhUpTo(p, i, bhflag, flag, k)
  {
    var s0 := if bhflag == 0 then 1 else 0;
    var k := s0 + BhRun(p, s0, i - s0);
    BhRunMeans(p, s0, i - s0);
    assert BhUpTo(p, i, bhflag, BinhexTest(p, i, sure, bhflag).value, k) by { hide BhRun, SpaceRun; }
  }

  /** BinHex characters, after the first colon if there is one, up to k, where a colon stands if the flag is cleared. */
  predicate BhUpTo(p: Text, i: nat, bhflag: nat, flag: nat, k: nat) {
    k <= i && BhChars(p, if bhflag == 0 then 1 else 0, k) && (flag == 0 <==> At(p, k) as char == ':')
  }

  // ---------------------------------------------------------------- the order of the tests

  /**
   While the encoding is not settled BinHex comes first, then Base64, UU and XX; once it is settled only it counts.
   */
  lemma VerdictOrder(p: Text, bhflag: nat, i: nat)
    requires p != [] && p[0] != 0 && i == LineLength(p) > 0
    ensures var v := Verdict(p, Not, bhflag).0;
      && (v == IsBH <==> BinhexTest(p, i, false, bhflag).Some?)
      && (v == IsB64 <==> v != IsBH && B64Test(p, i, false, 0, i))
      && (v == IsUU <==> v != IsBH && v != IsB64 && UuTest(p, i, false))
      && (v == IsXX <==> v != IsBH && v != IsB64 && v != IsUU && XxTest(p, i)) && v != IsYenc
    ensures Verdict(p, IsUU, bhflag).0 in {IsUU, Not} && Verdict(p, IsXX, bhflag).0 in {IsXX, Not}
    ensures Verdict(p, IsB64, bhflag).0 in {IsB64, Not} && Verdict(p, IsBH, bhflag).0 in {IsBH, Not}
    ensures Verdict(p, IsYenc, bhflag) == (IsYenc, bhflag)
  {
    hide BinhexTest, B64Test, UuTest, XxTest;
  }
}
