/**
 Reading a file line by line through a buffer that is compacted and doubled, and the reader over a string in memory.
 */
module LineReader {
  import opened Prelude
  import opened ByteText

  /** Where the first line ends: at its newline, or at the end of the text. */
  function Eoln(s: Text): (k: nat)
    ensures k <= |s| && NL !in s[..k]
    ensures k < |s| ==> s[k] == NL
    ensures k == |s| <==> NL !in s
  {
    if s == [] || s[0] == NL then 0
    else
      var k := Eoln(s[1..]);
      assert s[..1 + k] == [s[0]] + s[1..][..k];
      1 + k
  }

  lemma {:induction false} EolnUnique(s: Text, k: nat)
    requires k <= |s| && NL !in s[..k] && (k < |s| ==> s[k] == NL)
    ensures k == Eoln(s)
    decreases k
  {
    if k > 0 {
      assert s[..k] == [s[0]] + s[1..][..k - 1];
      EolnUnique(s[1..], k - 1);
    }
  }

  /** The text after the first line and its newline. */
  function Rest(s: Text): Text {
    if Eoln(s) < |s| then s[Eoln(s) + 1..] else []
  }

  /** All lines of a text. A newline at the very end does not begin another line. */
  function Lines(s: Text): seq<Text>
    decreases |s|
  {
    if s == [] then [] else [s[..Eoln(s)]] + Lines(Rest(s))
  }

  lemma EolnOfLine(line: Text, rest: Text)
    requires NL !in line
    ensures Eoln(line + [NL] + rest) == |line| && Rest(line + [NL] + rest) == rest
  {
    var s := line + [NL] + rest;
    assert s[..|line|] == line && s[|line| + 1..] == rest;
    EolnUnique(s, |line|);
  }

  /** Lines written one after the other read back as they were. */
  lemma {:induction false} LinesOfWrittenLines(lines: seq<Text>)
    requires forall l :: l in lines ==> NL !in l
    ensures Lines(WithEnds(lines)) == lines && Delivered(WithEnds(lines)) == lines
    decreases |lines|
  {
    if lines != [] {
      EolnOfLine(lines[0], WithEnds(lines[1..]));
      LinesOfWrittenLines(lines[1..]);
      hide Eoln, Rest;
      var s := WithEnds(lines);
      assert s[..|lines[0]|] == lines[0];
      NextLine(s);
    }
  }

  // ---------------------------------------------------------------- what the reader over a file delivers

  /** A last line without a newline that begins with NUL counts as empty, and the reader says that there is no more. */
  predicate Lost(s: Text) {
    s != [] && EmptyText(s) && NL !in s
  }

  /** The lines up to the first call that gives false. */
  function Delivered(s: Text): seq<Text>
    decreases |s|
  {
    if s == [] || Lost(s) then [] else [s[..Eoln(s)]] + Delivered(Rest(s))
  }

  /** The text ends in a line that is not delivered. */
  predicate TailLost(s: Text)
    decreases |s|
  {
    s != [] && if Eoln(s) == |s| then s[0] == 0 else TailLost(Rest(s))
  }

  /** All lines are delivered exactly when the last one ends with a newline or does not begin with NUL. */
  lemma {:induction false} DeliveredExactly(s: Text)
    ensures Delivered(s) == Lines(s) <==> !TailLost(s)
    ensures TailLost(s) ==> Delivered(s) <= Lines(s) && |Delivered(s)| + 1 == |Lines(s)|
    decreases |s|
  {
    if s != [] {
      LostIsTail(s);
      if Eoln(s) == |s| {
        EndOfLines(s);
      } else {
        RestIsShorter(s);
        DeliveredExactly(Rest(s));
        hide Eoln, Rest, Delivered, TailLost;
        SameFirst(s);
      }
    }
  }

  lemma LostIsTail(s: Text)
    requires s != []
    ensures Lost(s) <==> Eoln(s) == |s| && s[0] == 0
  {
  }

  lemma RestIsShorter(s: Text)
    requires s != []
    ensures |Rest(s)| < |s|
  {
  }

  lemma EndOfLines(s: Text)
    requires s != [] && Eoln(s) == |s|
    ensures Rest(s) == [] && Lines(s) == [s] && Delivered(s) == if s[0] == 0 then [] else [s]
  {
    LostIsTail(s);
    assert s[..|s|] == s;
  }

  lemma NextLine(s: Text)
    requires s != [] && Eoln(s) < |s|
    ensures Delivered(s) == [s[..Eoln(s)]] + Delivered(Rest(s)) && Lines(s) == [s[..Eoln(s)]] + Lines(Rest(s))
    ensures TailLost(s) <==> TailLost(Rest(s))
  {
    LostIsTail(s);
    hide Eoln, Rest, Lost;
  }

  lemma SameFirst(s: Text)
    requires s != [] && Eoln(s) < |s|
    ensures Delivered(s) == [s[..Eoln(s)]] + Delivered(Rest(s)) && Lines(s) == [s[..Eoln(s)]] + Lines(Rest(s))
    ensures TailLost(s) <==> TailLost(Rest(s))
    ensures Delivered(s) == Lines(s) <==> Delivered(Rest(s)) == Lines(Rest(s))
    ensures Delivered(Rest(s)) <= Lines(Rest(s)) ==> Delivered(s) <= Lines(s)
  {
    hide Eoln, Rest, TailLost, Delivered, Lines;
    NextLine(s);
    AfterFirst(s[..Eoln(s)], Delivered(Rest(s)), Lines(Rest(s)));
  }

  lemma AfterFirst(line: Text, a: seq<Text>, b: seq<Text>)
    ensures [line] + a == [line] + b <==> a == b
    ensures a <= b ==> [line] + a <= [line] + b
  {
    assert ([line] + a)[1..] == a && ([line] + b)[1..] == b;
  }

  /** A file of one NUL, or with one after its only newline, loses its last line. */
  lemma NulIsLost()
    ensures Lines([0]) == [[0]] && Delivered([0]) == []
    ensures Lines([97, NL, 0]) == [[97], [0]] && Delivered([97, NL, 0]) == [[97]]
  {
    EolnUnique([0], 1);
    EndOfLines([0]);
    var s: Text := [97, NL, 0];
    assert s[..1] == [97] && s[2..] == [0];
    EolnUnique(s, 1);
    assert Rest(s) == [0];
  }

  /**
   The lines delivered, written back, are the text with a newline at its end; or the text without its last line, when
   that is lost.
   */
  lemma {:induction false} LinesWriteBack(s: Text)
    ensures WithEnds(Lines(s)) == Ended(s)
    ensures !TailLost(s) ==> WithEnds(Delivered(s)) == Ended(s)
    ensures TailLost(s) ==> WithEnds(Delivered(s)) < s && Lost(s[|WithEnds(Delivered(s))|..])
    decreases |s|
  {
    if s != [] {
      if Eoln(s) == |s| {
        WriteLast(s);
      } else {
        hide Eoln, Rest, WithEnds, Lines, Ended, Delivered, TailLost, Lost;
        CutLine(s);
        RestIsShorter(s);
        LinesWriteBack(Rest(s));
        WriteFirst(s);
        SameFirst(s);
        EndedAfter(s[..Eoln(s)], Rest(s));
        if TailLost(s) { LostBehind(s[..Eoln(s)] + [NL], WithEnds(Delivered(Rest(s))), Rest(s)); }
      }
    }
  }

  lemma WriteLast(s: Text)
    requires s != [] && Eoln(s) == |s|
    ensures WithEnds(Lines(s)) == Ended(s)
    ensures !TailLost(s) ==> WithEnds(Delivered(s)) == Ended(s)
    ensures TailLost(s) ==> WithEnds(Delivered(s)) < s && Lost(s[|WithEnds(Delivered(s))|..])
  {
    EndOfLines(s);
    CutLine(s);
    LostIsTail(s);
    assert [s][1..] == [];
  }

  lemma LostBehind(line: Text, written: Text, rest: Text)
    requires written < rest && Lost(rest[|written|..])
    ensures line + written < line + rest && Lost((line + rest)[|line + written|..])
  {
    assert (line + rest)[|line + written|..] == rest[|written|..];
  }

  lemma EndedAfter(line: Text, rest: Text)
    ensures line + [NL] + Ended(rest) == Ended(line + [NL] + rest)
  {
    var s := line + [NL] + rest;
    if rest == [] {
      assert s == line + [NL];
    } else {
      assert s[|s| - 1] == rest[|rest| - 1];
      assert line + [NL] + (rest + [NL]) == s + [NL];
    }
  }

  /** The text with a newline at its end. */
  function Ended(s: Text): Text {
    if s == [] || s[|s| - 1] == NL then s else s + [NL]
  }

  lemma WriteFirst(s: Text)
    requires s != [] && Eoln(s) < |s|
    ensures WithEnds(Lines(s)) == s[..Eoln(s)] + [NL] + WithEnds(Lines(Rest(s)))
    ensures WithEnds(Delivered(s)) == s[..Eoln(s)] + [NL] + WithEnds(Delivered(Rest(s)))
  {
    SameFirst(s);
    hide Eoln, Lines, Delivered;
    assert ([s[..Eoln(s)]] + Lines(Rest(s)))[1..] == Lines(Rest(s));
    assert ([s[..Eoln(s)]] + Delivered(Rest(s)))[1..] == Delivered(Rest(s));
  }

  lemma CutLine(s: Text)
    requires s != []
    ensures Eoln(s) < |s| ==> s == s[..Eoln(s)] + [NL] + Rest(s)
    ensures Eoln(s) == |s| ==> s[..Eoln(s)] == s && Rest(s) == [] && Ended(s) == s + [NL]
    ensures Ended([]) == []
  {
    hide Eoln;
    var k := Eoln(s);
    if k < |s| {
      hide Ended;
      CutAt(s, k);
    } else {
      LastLine(s);
      assert s[|s| - 1] in s;
    }
  }

  lemma CutAt(s: Text, k: nat)
    requires k < |s|
    ensures s == s[..k] + [s[k]] + s[k + 1..]
  {
  }

  class FileLineReader {
    var buf: array<Byte>
    var pos: nat
    var end: nat
    /** What has not been read from the file yet; nothing if the file could not be opened. */
    var file: Text

    ghost predicate Valid()
      reads this
    {
      0 < buf.Length && pos <= end <= buf.Length
    }

    /** What is still to come: the part of the buffer in use and the rest of the file. */
    ghost function Ahead(): Text
      reads this, buf
      requires Valid()
    {
      buf[pos..end] + file
    }

    constructor (initialSize: nat, file: Text)
      requires initialSize > 0
      ensures Valid() && Ahead() == file && fresh(buf)
    {
      buf := new Byte[initialSize](_ => 0);
      pos, end := 0, 0;
      this.file := file;
    }

    /**
     getline: the next line, whatever the size of the buffer; false at the end of the file, and for a last line that
     counts as empty.
     */
    method GetLine() returns (ok: bool, line: Text)
      requires Valid()
      modifies this, buf
      ensures Valid() && (buf == old(buf) || fresh(buf))
      ensures ok == (old(Ahead()) != [] && !Lost(old(Ahead())))
      ensures line == old(Ahead())[..Eoln(old(Ahead()))] && Ahead() == Rest(old(Ahead()))
      decreases |file|
    {
      hide Eoln, Rest, Lost;
      var eoln := FindNewline();
      if eoln < end {
        LineInBuffer(buf[pos..end], file, eoln - pos);
        line := buf[pos..eoln];
        assert buf[pos..end][..eoln - pos] == line && buf[pos..end][eoln - pos + 1..] == buf[eoln + 1..end];
        pos := eoln + 1;
        return true, line;
      }
      var remainder := end - pos;
      if remainder != buf.Length {
        Compact();
      } else {
        Double();
      }
      var readval := Read();
      if readval > 0 {
        ok, line := GetLine();
      } else {
        line := buf[pos..end];
        assert old(Ahead()) == line;
        LastLine(line);
        pos := end;
        ok := !EmptyText(line);
      }
    }

    /** memchr. */
    method FindNewline() returns (eoln: nat)
      requires Valid()
      ensures pos <= eoln <= end && NL !in buf[pos..eoln]
      ensures eoln < end ==> buf[eoln] == NL
    {
      eoln := pos;
      while eoln < end && buf[eoln] != NL
        invariant pos <= eoln <= end && NL !in buf[pos..eoln]
      {
        assert buf[pos..eoln + 1] == buf[pos..eoln] + [buf[eoln]];
        eoln := eoln + 1;
      }
    }

    /** Moves what is in use to the front of the buffer. */
    method Compact()
      requires Valid() && end - pos != buf.Length
      modifies this, buf
      ensures Valid() && buf == old(buf) && pos == 0 && end < buf.Length && file == old(file)
      ensures buf[pos..end] == old(buf[pos..end])
    {
      var remainder := end - pos;
      forall i | 0 <= i < remainder {
        buf[i] := buf[pos + i];
      }
      pos, end := 0, remainder;
    }

    /** Moves what is in use to a buffer of twice the size. */
    method Double()
      requires Valid() && end - pos == buf.Length
      modifies this
      ensures Valid() && fresh(buf) && pos == 0 && end < buf.Length == 2 * old(buf.Length) && file == old(file)
      ensures buf[pos..end] == old(buf[pos..end])
    {
      var remainder := end - pos;
      var larger := new Byte[2 * buf.Length](_ => 0);
      forall i | 0 <= i < remainder {
        larger[i] := buf[pos + i];
      }
      buf, pos, end := larger, 0, remainder;
    }

    /** fread into the free part of the buffer. */
    method Read() returns (readval: nat)
      requires Valid() && end < buf.Length
      modifies this`end, this`file, buf
      ensures Valid() && Ahead() == old(Ahead()) && buf[pos..old(end)] == old(buf[pos..end])
      ensures |file| == |old(file)| - readval && end == old(end) + readval
      ensures readval == 0 ==> file == []
    {
      var room := buf.Length - end;
      readval := if |file| < room then |file| else room;
      forall i | 0 <= i < readval {
        buf[end + i] := file[i];
      }
      assert old(file) == file[..readval] + file[readval..];
      assert buf[pos..end + readval] == old(buf[pos..end]) + file[..readval];
      file := file[readval..];
      end := end + readval;
    }
  }

  lemma LastLine(line: Text)
    requires NL !in line
    ensures Eoln(line) == |line| && Rest(line) == [] && line[..|line|] == line
    ensures Lost(line) <==> line != [] && line[0] == 0
  {
  }

  lemma LineInBuffer(used: Text, file: Text, k: nat)
    requires k < |used| && used[k] == NL && NL !in used[..k]
    ensures used + file != [] && Eoln(used + file) == k && !Lost(used + file)
    ensures (used + file)[..k] == used[..k] && Rest(used + file) == used[k + 1..] + file
  {
    assert (used + file)[..k] == used[..k] && (used + file)[k] == NL;
    EolnUnique(used + file, k);
  }

  /** ScriptedLineReader, which holds the whole text. */
  class ScriptedLineReader {
    var buf: Text

    constructor (s: Text)
      ensures buf == s
    {
      buf := s;
    }

    method GetLine() returns (ok: bool, line: Text)
      modifies this
      ensures ok == (old(buf) != [])
      ensures line == old(buf)[..Eoln(old(buf))] && buf == Rest(old(buf))
    {
      if buf == [] { return false, []; }
      var pos := 0;
      while pos < |buf| && buf[pos] != NL
        invariant pos <= |buf| && NL !in buf[..pos]
      {
        assert buf[..pos + 1] == buf[..pos] + [buf[pos]];
        pos := pos + 1;
      }
      EolnUnique(buf, pos);
      line := buf[..pos];
      buf := if pos < |buf| then buf[pos + 1..] else [];
      ok := true;
    }
  }

  lemma FirstLine(s: Text, lines: seq<Text>)
    requires s != [] && !Lost(s)
    ensures lines + Delivered(s) == lines + [s[..Eoln(s)]] + Delivered(Rest(s)) && |Rest(s)| < |s|
  {
    DeliveredNext(s);
    RestIsShorter(s);
    hide Eoln, Rest, Delivered, Lost;
    assert lines + ([s[..Eoln(s)]] + Delivered(Rest(s))) == lines + [s[..Eoln(s)]] + Delivered(Rest(s));
  }

  lemma DeliveredNext(s: Text)
    requires s != [] && !Lost(s)
    ensures Delivered(s) == [s[..Eoln(s)]] + Delivered(Rest(s))
  {
    hide Eoln, Rest, Lost;
  }

  /** Reading until the reader gives false delivers the lines of the file but for a lost one, for every buffer size. */
  method ReadAll(initialSize: nat, file: Text) returns (lines: seq<Text>)
    requires initialSize > 0
    ensures lines == Delivered(file)
    ensures lines == Lines(file) <==> !TailLost(file)
    ensures TailLost(file) ==> lines <= Lines(file) && |lines| + 1 == |Lines(file)|
  {
    var reader := new FileLineReader(initialSize, file);
    lines := [];
    var ok := true;
    DeliveredExactly(file);
    while ok
      invariant reader.Valid() && fresh(reader) && fresh(reader.buf)
      invariant ok ==> lines + Delivered(reader.Ahead()) == Delivered(file)
      invariant !ok ==> lines == Delivered(file)
      decreases |reader.Ahead()|, ok
    {
      hide Eoln, Rest;
      ghost var ahead := reader.Ahead();
      var line;
      ok, line := reader.GetLine();
      if ok {
        FirstLine(ahead, lines);
        hide Delivered;
        lines := lines + [line];
      } else {
        assert Delivered(ahead) == [] && lines + [] == lines;
        assert |reader.Ahead()| <= |ahead|;
      }
    }
  }
}
