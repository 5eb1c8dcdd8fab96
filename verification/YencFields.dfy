/** The keyword lines of yEnc: a word and fields with values, written by the encoder and searched by the decoder. */
module YencFields {
  import opened Prelude
  import opened ByteText
  import opened Numerals

  // "=ybegin", "=ypart", "=yend"
  const YBEGIN: Text := [61, 121, 98, 101, 103, 105, 110]
  const YPART: Text := [61, 121, 112, 97, 114, 116]
  const YEND: Text := [61, 121, 101, 110, 100]

  // " part=", " line=", " size=", " name=", " begin=", " end=", " pcrc32=", " crc32="
  const PART_: Text := [32, 112, 97, 114, 116, 61]
  const LINE_: Text := [32, 108, 105, 110, 101, 61]
  const SIZE_: Text := [32, 115, 105, 122, 101, 61]
  const NAME_: Text := [32, 110, 97, 109, 101, 61]
  const BEGIN_: Text := [32, 98, 101, 103, 105, 110, 61]
  const END_: Text := [32, 101, 110, 100, 61]
  const PCRC_: Text := [32, 112, 99, 114, 99, 51, 50, 61]
  const CRC_: Text := [32, 99, 114, 99, 51, 50, 61]

  // ---------------------------------------------------------------- searching

  /** strstr: what follows the first occurrence of key. */
  function Field(s: Text, key: Text): Option<Text>
    decreases |s|
  {
    if StartsWith(s, key) then Some(s[|key|..])
    else if s == [] then None
    else Field(s[1..], key)
  }

  lemma {:induction false} FieldFound(s: Text, key: Text)
    requires key != []
    ensures Field(s, key).Some? <==> Contains(s, key)
    decreases |s|
  {
    if StartsWith(s, key) {
      assert FoundAt(key, s, 0);
    } else if s != [] {
      FieldFound(s[1..], key);
      if i :| 0 <= i <= |s| && FoundAt(key, s, i) {
        assert i > 0;
        assert s[1..][i - 1..i - 1 + |key|] == s[i..i + |key|];
        assert FoundAt(key, s[1..], i - 1);
      }
      if i :| 0 <= i <= |s[1..]| && FoundAt(key, s[1..], i) {
        assert s[1..][i..i + |key|] == s[i + 1..i + 1 + |key|];
        assert FoundAt(key, s, i + 1);
      }
    }
  }

  predicate NoSpace(s: Text) {
    forall i :: 0 <= i < |s| ==> s[i] != SPACE
  }

  /** A key: a space and then none. */
  predicate IsKey(key: Text) {
    |key| >= 2 && key[0] == SPACE && NoSpace(key[1..])
  }

  lemma {:induction false} SkipWord(word: Text, rest: Text, key: Text)
    requires NoSpace(word) && IsKey(key)
    ensures Field(word + rest, key) == Field(rest, key)
    decreases |word|
  {
    if word == [] {
      assert word + rest == rest;
    } else {
      var s := word + rest;
      if StartsWith(s, key) {
        StartByte(s, key, 0);
        assert false;
      }
      assert s[1..] == word[1..] + rest;
      SkipWord(word[1..], rest, key);
    }
  }

  /** The two keys differ before either ends. */
  predicate Differ(a: Text, b: Text) {
    exists k :: 0 <= k < |a| && k < |b| && a[k] != b[k]
  }

  lemma SkipField(k: Text, value: Text, rest: Text, key: Text)
    requires IsKey(k) && IsKey(key) && Differ(k, key) && NoSpace(value)
    ensures Field(k + value + rest, key) == Field(rest, key)
  {
    var s := k + value + rest;
    var i :| 0 <= i < |k| && i < |key| && k[i] != key[i];
    assert s[i] == k[i];
    assert !StartsWith(s, key);
    assert s[1..] == (k[1..] + value) + rest;
    SkipWord(k[1..] + value, rest, key);
  }

  lemma FieldHere(key: Text, rest: Text)
    ensures Field(key + rest, key) == Some(rest)
  {
    assert (key + rest)[..|key|] == key && (key + rest)[|key|..] == rest;
  }

  // ---------------------------------------------------------------- lines of fields

  datatype Entry = Entry(key: Text, value: Text)

  /** Fields one after the other. */
  function Fields(entries: seq<Entry>): Text {
    if entries == [] then [] else entries[0].key + entries[0].value + Fields(entries[1..])
  }

  /** Keys are keys, and values have no spaces. */
  predicate WellFormed(entries: seq<Entry>) {
    forall i :: 0 <= i < |entries| ==> IsKey(entries[i].key) && NoSpace(entries[i].value)
  }

  predicate Without(entries: seq<Entry>, key: Text) {
    forall i :: 0 <= i < |entries| ==> Differ(entries[i].key, key)
  }

  /** Searching a line for a key that its first fields do not have goes on behind them. */
  lemma {:induction false} SkipFields(entries: seq<Entry>, rest: Text, key: Text)
    requires WellFormed(entries) && Without(entries, key) && IsKey(key)
    ensures Field(Fields(entries) + rest, key) == Field(rest, key)
    decreases |entries|
  {
    if entries == [] {
      assert Fields(entries) + rest == rest;
    } else {
      hide Differ, IsKey;
      var k, value, more := entries[0].key, entries[0].value, Fields(entries[1..]);
      assert Differ(k, key);
      SkipFields(entries[1..], rest, key);
      assert Fields(entries) + rest == k + value + (more + rest);
      SkipField(k, value, more + rest, key);
    }
  }

  /** Searching a line for a key that it has finds the value and what follows. */
  lemma FindField(word: Text, before: seq<Entry>, key: Text, rest: Text)
    requires NoSpace(word) && WellFormed(before) && Without(before, key) && IsKey(key)
    ensures Field(word + Fields(before) + (key + rest), key) == Some(rest)
  {
    assert word + Fields(before) + (key + rest) == word + (Fields(before) + (key + rest));
    SkipWord(word, Fields(before) + (key + rest), key);
    SkipFields(before, key + rest, key);
    FieldHere(key, rest);
  }

  /** Searching a line for a key that it does not have finds what the rest of it has. */
  lemma MissField(word: Text, before: seq<Entry>, rest: Text, key: Text)
    requires NoSpace(word) && WellFormed(before) && Without(before, key) && IsKey(key)
    ensures Field(word + Fields(before) + rest, key) == Field(rest, key)
  {
    assert word + Fields(before) + rest == word + (Fields(before) + rest);
    SkipWord(word, Fields(before) + rest, key);
    SkipFields(before, rest, key);
  }

  lemma {:induction false} FieldsAppend(a: seq<Entry>, b: seq<Entry>)
    ensures Fields(a + b) == Fields(a) + Fields(b)
    decreases |a|
  {
    if a == [] {
      assert a + b == b;
    } else {
      FieldsAppend(a[1..], b);
      assert (a + b)[1..] == a[1..] + b;
      assert a[0].key + a[0].value + (Fields(a[1..]) + Fields(b)) == a[0].key + a[0].value + Fields(a[1..]) + Fields(b);
    }
  }

  // ---------------------------------------------------------------- the keys in use

  datatype Word = PartKey | LineKey | SizeKey | NameKey | BeginKey | EndKey | PcrcKey | CrcKey

  function Key(w: Word): Text {
    match w
    case PartKey => PART_
    case LineKey => LINE_
    case SizeKey => SIZE_
    case NameKey => NAME_
    case BeginKey => BEGIN_
    case EndKey => END_
    case PcrcKey => PCRC_
    case CrcKey => CRC_
  }

  /** The text s, byte for character. */
  predicate Spells(s: Text, word: string) {
    |s| == |word| && forall i :: 0 <= i < |s| ==> s[i] as char == word[i]
  }

  /** How the keywords are spelled. */
  lemma Spelling()
    ensures Spells(YBEGIN, "=ybegin") && Spells(YPART, "=ypart") && Spells(YEND, "=yend")
    ensures Spells(PART_, " part=") && Spells(LINE_, " line=") && Spells(SIZE_, " size=") && Spells(NAME_, " name=")
    ensures Spells(BEGIN_, " begin=") && Spells(END_, " end=") && Spells(PCRC_, " pcrc32=") && Spells(CRC_, " crc32=")
  {
  }

  lemma KeysAreKeys(w: Word)
    ensures IsKey(Key(w)) && |Key(w)| <= 8 && Key(w)[|Key(w)| - 1] == 61
  {
  }

  lemma KeysDiffer(v: Word, w: Word)
    requires v != w
    ensures Differ(Key(v), Key(w))
  {
    var a, b := Key(v), Key(w);
    if {v, w} == {PartKey, PcrcKey} {
      assert a[2] != b[2];
    } else {
      assert a[1] != b[1];
    }
  }

  // ---------------------------------------------------------------- numbers in fields

  predicate IsBlank(b: Byte) {
    b == SPACE || 9 <= b <= 13
  }

  function SkipBlanks(s: Text): Text {
    if s != [] && IsBlank(s[0]) then SkipBlanks(s[1..]) else s
  }

  /** atol, for numbers in its range. */
  function Atol(s: Text): int {
    var t := SkipBlanks(s);
    if t != [] && t[0] == DASH then 0 - Value(t[1..], 10, 0)
    else if t != [] && t[0] == 43 then Value(t[1..], 10, 0)
    else Value(t, 10, 0)
  }

  /** What is left of a long in an int of 32 bits. */
  function Int32(n: int): (r: int)
    ensures -0x8000_0000 <= r < 0x8000_0000
    ensures -0x8000_0000 <= n < 0x8000_0000 ==> r == n
  {
    (n + 0x8000_0000) % 0x1_0000_0000 - 0x8000_0000
  }

  /** atoi, which keeps the lowest 32 bits. */
  function Atoi(s: Text): int {
    Int32(Atol(s))
  }

  lemma DigitsAreNotBlank(s: Text, base: int)
    requires 2 <= base <= 16 && AllDigits(s, base)
    ensures NoSpace(s) && (s != [] ==> !IsBlank(s[0]) && s[0] != DASH && s[0] != 43)
    ensures PlainLine(s)
  {
  }

  lemma AtolPrinted(n: nat, rest: Text)
    requires EndsNumber(rest, 10)
    ensures Atol(Printed(n, 10) + rest) == n
  {
    hide Value;
    PrintedValue(n, 10);
    DigitsAreNotBlank(Printed(n, 10), 10);
    hide Printed;
    assert (Printed(n, 10) + rest)[0] == Printed(n, 10)[0];
    ReadPrinted(n, 10, rest);
  }

  /** The eight hexadecimal digits of a checksum. */
  function Hex8(n: nat): Text {
    Padded(n, 16, 8)
  }

  /** strtoul in base 16; no sign is expected. */
  function Strtoul(s: Text): nat {
    var t := SkipBlanks(s);
    var prefixed := |t| >= 3 && t[0] == 48 && (t[1] == 120 || t[1] == 88) && DigitVal(t[2]) < 16;
    Value(if prefixed then t[2..] else t, 16, 0)
  }

  lemma HexDigits(n: nat)
    ensures AllDigits(Hex8(n), 16) && |Hex8(n)| >= 8
  {
    hide Printed;
    PrintedValue(n, 16);
    ZerosValue(Max(8 - |Printed(n, 16)|, 0), 16);
  }

  lemma StrtoulHex8(n: nat, rest: Text)
    requires EndsNumber(rest, 16)
    ensures Strtoul(Hex8(n) + rest) == n
  {
    hide Value;
    HexDigits(n);
    DigitsAreNotBlank(Hex8(n), 16);
    ReadPadded(n, 16, 8, rest);
    hide Hex8;
    var s := Hex8(n) + rest;
    assert s[0] == Hex8(n)[0] && s[1] == Hex8(n)[1];
    assert DigitVal(s[1]) < 16;
  }

  /** Numbers can have blanks and a sign in front, hexadecimal ones the prefix 0x. */
  lemma SignsAndPrefixes(s: Text)
    requires s != [] && DigitVal(s[0]) < 10
    ensures Atol([SPACE] + s) == Value(s, 10, 0) && Atol([43] + s) == Value(s, 10, 0)
    ensures Atol([45] + s) == 0 - Value(s, 10, 0)
    ensures Strtoul([48, 120] + s) == Value(s, 16, 0) && Strtoul([48, 88] + s) == Value(s, 16, 0)
  {
    hide Value;
    var blank, plus, minus, lower, upper := [SPACE] + s, [43] + s, [45] + s, [48, 120] + s, [48, 88] + s;
    assert blank[1..] == s && plus[1..] == s && minus[1..] == s && lower[2..] == s && upper[2..] == s;
    assert SkipBlanks(s) == s && SkipBlanks(blank) == s;
    assert lower[2] == s[0] && upper[2] == s[0];
  }

  lemma PlainNumbers(n: nat)
    ensures NoSpace(Printed(n, 10)) && PlainLine(Printed(n, 10))
    ensures NoSpace(Hex8(n)) && PlainLine(Hex8(n))
  {
    hide Printed;
    PrintedValue(n, 10);
    DigitsAreNotBlank(Printed(n, 10), 10);
    HexDigits(n);
    DigitsAreNotBlank(Hex8(n), 16);
  }
}
