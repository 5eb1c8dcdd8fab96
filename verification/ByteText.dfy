/** Lines of bytes as C strings hold them, and files as byte sequences read line by line. */
module ByteText {
  import opened Prelude

  const NL: Byte := 10
  const CR: Byte := 13
  const SPACE: Byte := 32
  const DASH: Byte := 45
  const EQUALS: Byte := 61

  /** The size of the buffer that lines are read into. */
  const LINE_BUFFER := 4096

  function Lower(b: Byte): Byte {
    if 65 <= b <= 90 then b + 32 else b
  }

  /** The lines one after the other, each with a newline. */
  function WithEnds(lines: seq<Text>): Text {
    if lines == [] then [] else lines[0] + [NL] + WithEnds(lines[1..])
  }

  /** The byte a C program finds at s[i]: the terminating NUL stands after the last one. */
  function At(s: seq<Byte>, i: nat): Byte {
    if i < |s| then s[i] else 0
  }

  predicate StartsWith(s: seq<Byte>, t: seq<Byte>) {
    |t| <= |s| && s[..|t|] == t
  }

  predicate FoundAt(t: seq<Byte>, s: seq<Byte>, i: int) {
    0 <= i <= |s| - |t| && s[i..i + |t|] == t
  }

  /** strstr (s, t) != NULL. */
  predicate Contains(s: seq<Byte>, t: seq<Byte>) {
    exists i :: 0 <= i <= |s| && FoundAt(t, s, i)
  }

  lemma FoundByte(t: seq<Byte>, s: seq<Byte>, i: int, k: nat)
    requires FoundAt(t, s, i) && k < |t|
    ensures s[i + k] == t[k]
  {
    assert s[i..i + |t|][k] == s[i + k];
  }

  lemma StartByte(s: seq<Byte>, t: seq<Byte>, k: nat)
    requires StartsWith(s, t) && k < |t|
    ensures s[k] == t[k]
  {
    assert s[..|t|][k] == s[k];
  }

  /** The number of bytes before the first occurrence of b, or all of them. */
  function Until(s: seq<Byte>, b: Byte): (n: nat)
    ensures n <= |s| && (n < |s| ==> s[n] == b) && forall k :: 0 <= k < n ==> s[k] != b
  {
    if s == [] || s[0] == b then 0 else 1 + Until(s[1..], b)
  }

  /** fgets into a buffer of n bytes: up to and including the next newline, at most n - 1 bytes. */
  function FgetsLength(file: seq<Byte>, n: nat): (k: nat)
    requires n >= 2
    ensures k <= |file| && k < n && (file != [] ==> k > 0)
  {
    var u := Until(file, NL);
    var k := if u < |file| then u + 1 else u;
    if k < n then k else n - 1
  }

  /** _FP_fgets: the line as a C string, its ending turned into a single newline where the buffer has room for one. */
  function FpLine(raw: seq<Byte>, n: nat): seq<Byte>
    requires n >= 2
  {
    var s := raw[..Until(raw, 0)];
    var s1 := if s != [] && s[|s| - 1] == NL then s[..|s| - 1] else s;
    var s2 := if s1 != [] && s1[|s1| - 1] == CR then s1[..|s1| - 1] else s1;
    if |s2| <= n - 2 then s2 + [NL] else s
  }

  lemma {:induction false} UntilAt(s: seq<Byte>, t: seq<Byte>, b: Byte)
    requires forall k :: 0 <= k < |s| ==> s[k] != b
    requires t != [] && t[0] == b
    ensures Until(s + t, b) == |s|
  {
    if s != [] {
      UntilAt(s[1..], t, b);
      assert (s + t)[1..] == s[1..] + t;
    }
  }

  lemma {:induction false} UntilNone(s: seq<Byte>, b: Byte)
    requires forall k :: 0 <= k < |s| ==> s[k] != b
    ensures Until(s, b) == |s|
  {
    if s != [] { UntilNone(s[1..], b); }
  }

  /** A line end of two bytes is delivered as one, and what stands behind a NUL is not delivered. */
  lemma LineEnds(s: seq<Byte>, junk: seq<Byte>, n: nat)
    requires PlainLine(s) && |s| + 2 <= n
    ensures FpLine(s + [CR, NL], n) == s + [NL] && FpLine(s + [NL], n) == s + [NL]
    ensures FpLine(s + [0] + junk, n) == s + [NL]
  {
    UntilNone(s + [CR, NL], 0);
    UntilNone(s + [NL], 0);
    assert s + [0] + junk == s + ([0] + junk);
    UntilAt(s, [0] + junk, 0);
    var a, b := s + [CR, NL], s + [NL];
    assert a[..|a|] == a && a[..|a| - 1] == s + [CR] && (s + [CR])[..|s|] == s;
    assert b[..|b|] == b && b[..|b| - 1] == s;
    assert (s + [0] + junk)[..|s|] == s;
  }

  /** A line of text proper: no line ends and no NUL in it. */
  predicate PlainLine(s: seq<Byte>) {
    forall k :: 0 <= k < |s| ==> s[k] != NL && s[k] != CR && s[k] != 0
  }

  /** Reading back a plain line that fits the buffer yields it, and the rest of the file follows. */
  lemma ReadPlainLine(s: seq<Byte>, rest: seq<Byte>, n: nat)
    requires PlainLine(s) && |s| + 2 <= n
    ensures FgetsLength(s + [NL] + rest, n) == |s| + 1
    ensures FpLine((s + [NL] + rest)[..|s| + 1], n) == s + [NL]
    ensures (s + [NL] + rest)[|s| + 1..] == rest
  {
    var file := s + [NL] + rest;
    assert file == s + ([NL] + rest);
    UntilAt(s, [NL] + rest, NL);
    assert file[..|s| + 1] == s + [NL];
    UntilNone(s + [NL], 0);
    assert (s + [NL])[..|s| + 1] == s + [NL];
    assert (s + [NL])[..|s|] == s;
  }
}
