/** What UUDecodePart does with a line whatever the encoding is. */
module DecoderLines {
  import opened Prelude
  import opened ByteText

  /** The caller's options: FL_PROPER, and the MIME boundary to stop at. */
  datatype Options = Options(proper: bool, boundary: Option<seq<Byte>>)

  const UPPER_BEGIN: seq<Byte> := [66, 69, 71, 73, 78]
  const CUT_HERE: seq<Byte> := [67, 85, 84, 32, 72, 69, 82, 69]

  predicate StartsWithIgnoringCase(s: seq<Byte>, t: seq<Byte>) {
    |t| <= |s| && forall k :: 0 <= k < |t| ==> Lower(s[k]) == Lower(t[k])
  }

  /** The first 255 bytes: the decoder cuts the buffer there. */
  function Cut(line: seq<Byte>): seq<Byte> {
    if |line| > 255 then line[..255] else line
  }

  predicate HitsBoundary(options: Options, line: seq<Byte>) {
    options.boundary.Some? && StartsWith(line, [DASH, DASH] + options.boundary.value)
  }

  /** A boundary line: two dashes and the boundary. */
  lemma BoundaryMeans(options: Options, line: seq<Byte>)
    ensures options.boundary.None? ==> !HitsBoundary(options, line)
    ensures options.boundary.Some? ==>
      var b := options.boundary.value;
      HitsBoundary(options, line) <==>
        |line| >= 2 + |b| && line[0] as char == '-' && line[1] as char == '-' && line[2..2 + |b|] == b
  {
    if options.boundary.Some? {
      var b := options.boundary.value;
      var t := [DASH, DASH] + b;
      if |line| >= |t| {
        assert line[..|t|] == line[..2] + line[2..2 + |b|];
        assert line[..|t|] == t ==> line[..2] == t[..2] && line[2..2 + |b|] == t[2..];
        assert t[..2] == [DASH, DASH] && t[2..] == b;
        assert line[..2] == [line[0], line[1]];
      }
    }
  }

  /** The decoder looks at 255 bytes of a line. */
  lemma CutMeans(line: seq<Byte>)
    ensures |Cut(line)| == Min(|line|, 255) && Cut(line) <= line
  {
  }

  lemma FgetsProgress(file: seq<Byte>)
    ensures var k := FgetsLength(file, LINE_BUFFER); k <= |file| && (file != [] ==> k > 0)
  {
  }
}
