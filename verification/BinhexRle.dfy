/**
 The resumable run-length decoder of BinHex: a byte, then the marker 0x90 and a count, stands for a run of that
 byte.
 */
module BinhexRle {
  import opened Prelude

  const MARKER: Byte := 0x90

  /** The value of the repetition count that says: the marker has been read, its count has not. */
  const MARKED := -256

  function Copies(b: Byte, n: nat): seq<Byte> {
    seq(n, _ => b)
  }

  /** What a whole compressed stream stands for, one byte at a time, after the byte last. */
  function Expand(last: Byte, marked: bool, s: seq<Byte>): seq<Byte>
    decreases |s|
  {
    if s == [] then []
    else if marked then
      if s[0] == 0 then [MARKER] + Expand(MARKER, false, s[1..])
      else Copies(last, s[0] - 1) + Expand(last, false, s[1..])
    else if s[0] == MARKER then Expand(last, true, s[1..])
    else [s[0]] + Expand(s[0], false, s[1..])
  }

  /**
   Where the expansion of a stream leaves off: the byte that a further count would repeat, and a marker still open.
   */
  function After(last: Byte, marked: bool, s: seq<Byte>): (Byte, bool)
    decreases |s|
  {
    if s == [] then (last, marked)
    else if marked then After(if s[0] == 0 then MARKER else last, false, s[1..])
    else if s[0] == MARKER then After(last, true, s[1..])
    else After(s[0], false, s[1..])
  }

  /** Cutting a stream anywhere, even between a marker and its count, does not change what it stands for. */
  lemma {:induction false} ExpandSplit(last: Byte, marked: bool, a: seq<Byte>, b: seq<Byte>)
    ensures Expand(last, marked, a + b)
      == Expand(last, marked, a) + Expand(After(last, marked, a).0, After(last, marked, a).1, b)
    ensures After(last, marked, a + b) == After(After(last, marked, a).0, After(last, marked, a).1, b)
    decreases |a|
  {
    if a == [] {
      assert a + b == b;
    } else {
      hide Expand, After, Copies;
      var ab := a + b;
      assert ab[0] == a[0] && ab[1..] == a[1..] + b;
      var last1 := if marked then if a[0] == 0 then MARKER else last else if a[0] == MARKER then last else a[0];
      var marked1 := !marked && a[0] == MARKER;
      var out := ExpandNext(last, marked, a, ab);
      ExpandSplit(last1, marked1, a[1..], b);
      assert out + (Expand(last1, marked1, a[1..]) + Expand(After(last, marked, a).0, After(last, marked, a).1, b))
          == out + Expand(last1, marked1, a[1..]) + Expand(After(last, marked, a).0, After(last, marked, a).1, b);
    }
  }

  /** The first byte gives the same output and the same state in two streams that begin with it. */
  lemma ExpandNext(last: Byte, marked: bool, s: seq<Byte>, t: seq<Byte>) returns (out: seq<Byte>)
    requires s != [] && t != [] && s[0] == t[0]
    ensures var last1 := if marked then if s[0] == 0 then MARKER else last else if s[0] == MARKER then last else s[0];
      var marked1 := !marked && s[0] == MARKER;
      && Expand(last, marked, s) == out + Expand(last1, marked1, s[1..])
      && Expand(last, marked, t) == out + Expand(last1, marked1, t[1..])
      && After(last, marked, s) == After(last1, marked1, s[1..])
      && After(last, marked, t) == After(last1, marked1, t[1..])
  {
    hide Copies;
    out := if marked then if s[0] == 0 then [MARKER] else Copies(last, s[0] - 1)
           else if s[0] == MARKER then [] else [s[0]];
    assert [] + Expand(last, true, s[1..]) == Expand(last, true, s[1..]);
    assert [] + Expand(last, true, t[1..]) == Expand(last, true, t[1..]);
  }

  /** What is still to come out of a decoder that owes rpc copies of last (or a count) and has s left to read. */
  function Owed(last: Byte, rpc: int, s: seq<Byte>): seq<Byte> {
    if rpc == MARKED then Expand(last, true, s)
    else if rpc >= 0 then Copies(last, rpc) + Expand(last, false, s)
    else []
  }

  lemma PayCopies(last: Byte, rpc: nat, count: nat, s: seq<Byte>)
    requires count <= rpc
    ensures Owed(last, rpc, s) == Copies(last, count) + Owed(last, rpc - count, s)
  {
    assert Copies(last, rpc) == Copies(last, count) + Copies(last, rpc - count);
  }

  /** A count turns into copies owed. */
  lemma ReadCount(last: Byte, s: seq<Byte>)
    requires s != []
    ensures Owed(last, MARKED, s)
      == if s[0] == 0 then [MARKER] + Owed(MARKER, 0, s[1..]) else Owed(last, s[0] - 1, s[1..])
    ensures After(last, true, s) == After(if s[0] == 0 then MARKER else last, false, s[1..])
  {
    assert Copies(MARKER, 0) == [];
  }

  lemma ReadByte(last: Byte, s: seq<Byte>)
    requires s != []
    ensures Owed(last, 0, s) == if s[0] == MARKER then Owed(last, MARKED, s[1..]) else [s[0]] + Owed(s[0], 0, s[1..])
    ensures After(last, false, s)
      == if s[0] == MARKER then After(last, true, s[1..]) else After(s[0], false, s[1..])
  {
    assert Copies(last, 0) == [];
    if s[0] != MARKER { assert Copies(s[0], 0) == []; }
  }

  lemma NextByte(data: seq<Byte>, used: nat, out: seq<Byte>, last: Byte)
    requires used < |data|
    ensures out + Owed(last, 0, data[used..])
      == if data[used] == MARKER then out + Owed(last, MARKED, data[used + 1..])
         else out + [data[used]] + Owed(data[used], 0, data[used + 1..])
    ensures After(last, false, data[used..]) == if data[used] == MARKER then After(last, true, data[used + 1..])
      else After(data[used], false, data[used + 1..])
  {
    hide Owed, After;
    ReadByte(last, data[used..]);
    var rest := data[used + 1..];
    assert data[used..][1..] == rest;
    assert out + ([data[used]] + Owed(data[used], 0, rest)) == out + [data[used]] + Owed(data[used], 0, rest);
  }

  lemma NothingOwed(last: Byte, rpc: int)
    ensures rpc == 0 || rpc == MARKED ==> Owed(last, rpc, []) == []
  {
  }

  /** The static state of the writer of decompressed data. */
  class RunLengthDecoder {
    var last: Byte
    var rpc: int

    ghost predicate Valid()
      reads this
    {
      rpc == MARKED || 0 <= rpc <= 254
    }

    ghost function State(): (Byte, bool)
      reads this
    {
      (last, rpc == MARKED)
    }

    constructor ()
      ensures Valid() && last == 0 && rpc == 0
    {
      last, rpc := 0, 0;
    }

    /** The count read after a marker: zero stands for the marker itself, n for n - 1 more copies. */
    method TakeCount(data: seq<Byte>, used: nat, out: seq<Byte>) returns (used': nat, out': seq<Byte>)
      requires Valid() && used < |data|
      modifies this
      ensures Valid() && rpc != MARKED && used' == used + 1
      ensures out <= out' && |out'| == |out| + (if data[used] == 0 then 1 else 0) && (data[used] == 0 ==> rpc == 0)
      ensures out' + Owed(last, rpc, data[used'..]) == out + Owed(old(last), MARKED, data[used..])
      ensures After(last, false, data[used'..]) == After(old(last), true, data[used..])
    {
      hide Owed, After;
      ReadCount(last, data[used..]);
      assert data[used..][1..] == data[used + 1..];
      rpc, used', out' := data[used], used + 1, out;
      if rpc == 0 {
        last, out' := MARKER, out + [MARKER];
        assert out + ([MARKER] + Owed(MARKER, 0, data[used'..])) == out' + Owed(last, rpc, data[used'..]);
      } else {
        rpc := rpc - 1;
      }
    }

    /** Writes as many of the owed copies as there is room for. */
    method PutCopies(max: nat, ghost rest: seq<Byte>, out: seq<Byte>) returns (out': seq<Byte>)
      requires Valid() && rpc != MARKED && |out| <= max
      modifies this`rpc
      ensures Valid() && rpc != MARKED && out <= out' && |out'| <= max
      ensures |out'| == max || rpc == 0
      ensures if old(rpc) == 0 then out' == out else |out| < max ==> rpc < old(rpc)
      ensures out' + Owed(last, rpc, rest) == out + Owed(last, old(rpc), rest)
    {
      hide Owed;
      var room := max - |out|;
      var count := if room > rpc then rpc else room;
      PayCopies(last, rpc, count, rest);
      out' := out + Copies(last, count);
      rpc := rpc - count;
      assert out + (Copies(last, count) + Owed(last, rpc, rest)) == out' + Owed(last, rpc, rest);
    }

    /**
     UUbhdecomp: decompresses into at most max bytes and says how much input was eaten. What came out, and what the new
     state still owes on the rest of the input, is what the old state owed on all of it; and every call gets further.
     */
    method Decompress(data: seq<Byte>, max: nat) returns (used: nat, out: seq<Byte>)
      requires Valid() && max > 0
      modifies this
      ensures Valid() && used <= |data| && |out| <= max
      ensures out + Owed(last, rpc, data[used..]) == Owed(old(last), old(rpc), data)
      ensures After(last, rpc == MARKED, data[used..]) == After(old(last), old(rpc) == MARKED, data)
      ensures used > 0 || rpc < old(rpc) || (data == [] && (old(rpc) == 0 || old(rpc) == MARKED))
      ensures rpc == MARKED ==> used == |data|
    {
      hide Owed, After;
      used, out := 0, [];
      assert data[0..] == data && out + Owed(last, rpc, data) == Owed(last, rpc, data);
      if rpc == MARKED {
        if |data| == 0 { return; }
        used, out := TakeCount(data, used, out);
      }
      out := PutCopies(max, data[used..], out);
      while used < |data| && |out| < max
        invariant Valid() && rpc != MARKED && used <= |data| && |out| <= max
        invariant |out| == max || rpc == 0
        invariant out + Owed(last, rpc, data[used..]) == Owed(old(last), old(rpc), data)
        invariant After(last, false, data[used..]) == After(old(last), old(rpc) == MARKED, data)
        invariant used > 0 || rpc < old(rpc) || (old(rpc) == 0 && out == [])
        decreases |data| - used
      {
        var b := data[used];
        NextByte(data, used, out, last);
        used := used + 1;
        if b == MARKER {
          if used == |data| {
            rpc := MARKED;
            return;
          }
          used, out := TakeCount(data, used, out);
          out := PutCopies(max, data[used..], out);
        } else {
          last, out := b, out + [b];
        }
      }
    }

    /** UUbhwrite on no data: a new file begins. The byte a count would repeat is kept from the file before. */
    method Init()
      modifies this`rpc
      ensures Valid() && rpc == 0
    {
      rpc := 0;
    }

    /** UUbhwrite: decompresses until all input is eaten and no copies are owed, in buffers of max bytes. */
    method Write(data: seq<Byte>, max: nat) returns (out: seq<Byte>, tc: nat)
      requires Valid() && max > 0
      modifies this
      ensures Valid() && (rpc == 0 || rpc == MARKED) && tc == |data|
      ensures out == Owed(old(last), old(rpc), data)
      ensures State() == After(old(last), old(rpc) == MARKED, data)
    {
      hide Owed;
      out, tc := [], 0;
      assert data[0..] == data && out + Owed(last, rpc, data) == Owed(last, rpc, data);
      while tc < |data| || (rpc != 0 && rpc != MARKED)
        invariant Valid() && tc <= |data|
        invariant out + Owed(last, rpc, data[tc..]) == Owed(old(last), old(rpc), data)
        invariant After(last, rpc == MARKED, data[tc..]) == After(old(last), old(rpc) == MARKED, data)
        decreases |data| - tc, rpc
      {
        var count, part := Decompress(data[tc..], max);
        assert data[tc..][count..] == data[tc + count..];
        assert out + (part + Owed(last, rpc, data[tc + count..])) == out + part + Owed(last, rpc, data[tc + count..]);
        out, tc := out + part, tc + count;
      }
      assert data[tc..] == [];
      NothingOwed(last, rpc);
    }
  }

  /**
   Writing a new file in pieces, each with its own output bound, to a decoder in any state: Init, then one call for each
   piece. The output is what the whole stream stands for after the byte the file before ended with; where the stream was
   cut and how large the buffers were does not show.
   */
  method WriteFile(decoder: RunLengthDecoder, chunks: seq<seq<Byte>>, bounds: seq<nat>) returns (out: seq<Byte>)
    requires decoder.Valid()
    requires |bounds| == |chunks| && forall i :: 0 <= i < |bounds| ==> bounds[i] > 0
    modifies decoder
    ensures decoder.Valid() && out == Expand(old(decoder.last), false, Joined(chunks))
    ensures !RepeatsBefore(Joined(chunks)) ==> out == Expand(0, false, Joined(chunks))
  {
    ghost var last := decoder.last;
    decoder.Init();
    out := [];
    for i := 0 to |chunks|
      invariant decoder.Valid() && (decoder.rpc == 0 || decoder.rpc == MARKED)
      invariant out == Expand(last, false, Joined(chunks[..i]))
      invariant decoder.State() == After(last, false, Joined(chunks[..i]))
    {
      hide Expand, After;
      JoinedLast(chunks[..i], chunks[i]);
      assert chunks[..i + 1] == chunks[..i] + [chunks[i]];
      ExpandSplit(last, false, Joined(chunks[..i]), chunks[i]);
      OwedAtRest(decoder.last, decoder.rpc, chunks[i]);
      var part, tc := decoder.Write(chunks[i], bounds[i]);
      out := out + part;
    }
    assert chunks[..|chunks|] == chunks;
    if last != 0 { FileBeforeShows(last, 0, Joined(chunks)); }
  }

  /** The stream begins with a count that repeats a byte before it. */
  predicate RepeatsBefore(s: seq<Byte>)
    decreases |s|
  {
    |s| >= 2 && s[0] == MARKER && (s[1] >= 2 || (s[1] == 1 && RepeatsBefore(s[2..])))
  }

  /** The byte the file before ended with shows in the output exactly when the stream begins with a repeat count. */
  lemma {:induction false} FileBeforeShows(a: Byte, b: Byte, s: seq<Byte>)
    requires a != b
    ensures Expand(a, false, s) == Expand(b, false, s) <==> !RepeatsBefore(s)
    decreases |s|
  {
    if |s| >= 2 && s[0] == MARKER && s[1] != 0 {
      assert s[1..][0] == s[1] && s[1..][1..] == s[2..];
      RepeatFirst(a, s);
      RepeatFirst(b, s);
      hide Expand;
      if s[1] == 1 {
        FileBeforeShows(a, b, s[2..]);
        assert Copies(a, 0) + Expand(a, false, s[2..]) == Expand(a, false, s[2..]);
        assert Copies(b, 0) + Expand(b, false, s[2..]) == Expand(b, false, s[2..]);
      } else {
        assert Expand(a, false, s)[0] == a && Expand(b, false, s)[0] == b;
      }
    } else if |s| == 1 {
      OneByte(a, false, s[0]);
      OneByte(b, false, s[0]);
      assert s == [s[0]];
    } else if |s| >= 2 && s[0] == MARKER {
      assert s[1..][0] == s[1];
    }
  }

  lemma RepeatFirst(last: Byte, s: seq<Byte>)
    requires |s| >= 2 && s[0] == MARKER && s[1] != 0
    ensures Expand(last, false, s) == Copies(last, s[1] - 1) + Expand(last, false, s[2..])
  {
    assert s[1..][0] == s[1] && s[1..][1..] == s[2..];
  }

  lemma OwedAtRest(last: Byte, rpc: int, s: seq<Byte>)
    ensures rpc == 0 || rpc == MARKED ==> Owed(last, rpc, s) == Expand(last, rpc == MARKED, s)
  {
    assert Copies(last, 0) == [];
  }

  // ---------------------------------------------------------------- compressed streams

  /** A run as the format writes it (Appendix A of RFC 1741): the byte, and for more than one the marker and a count. */
  datatype Run = Run(b: Byte, n: nat)

  predicate Writable(runs: seq<Run>) {
    forall i :: 0 <= i < |runs| ==> 1 <= runs[i].n <= 255
  }

  function WriteRun(run: Run): seq<Byte>
    requires 1 <= run.n <= 255
  {
    (if run.b == MARKER then [MARKER, 0] else [run.b]) + (if run.n == 1 then [] else [MARKER, run.n])
  }

  function Compressed(runs: seq<Run>): seq<Byte>
    requires Writable(runs)
  {
    if runs == [] then [] else WriteRun(runs[0]) + Compressed(runs[1..])
  }

  function Plain(runs: seq<Run>): seq<Byte> {
    if runs == [] then [] else Copies(runs[0].b, runs[0].n) + Plain(runs[1..])
  }

  lemma OneByte(last: Byte, marked: bool, b: Byte)
    ensures Expand(last, marked, [b])
      == if marked then if b == 0 then [MARKER] else Copies(last, b - 1) else if b == MARKER then [] else [b]
    ensures After(last, marked, [b])
      == if marked then (if b == 0 then MARKER else last, false) else if b == MARKER then (last, true) else (b, false)
  {
    assert [b][1..] == [];
  }

  lemma ExpandRun(last: Byte, run: Run)
    requires 1 <= run.n <= 255
    ensures Expand(last, false, WriteRun(run)) == Copies(run.b, run.n)
    ensures After(last, false, WriteRun(run)) == (run.b, false)
  {
    var head: seq<Byte> := if run.b == MARKER then [MARKER, 0] else [run.b];
    var tail: seq<Byte> := if run.n == 1 then [] else [MARKER, run.n];
    assert Expand(last, false, head) == [run.b] && After(last, false, head) == (run.b, false) by {
      if run.b == MARKER {
        assert head[1..] == [0] && [0][1..] == [];
        OneByte(last, true, 0);
      } else {
        OneByte(last, false, run.b);
      }
    }
    assert Expand(run.b, false, tail) == Copies(run.b, run.n - 1) && After(run.b, false, tail) == (run.b, false) by {
      if run.n > 1 {
        assert tail[1..] == [run.n];
        OneByte(run.b, true, run.n);
      }
    }
    ExpandSplit(last, false, head, tail);
    assert [run.b] + Copies(run.b, run.n - 1) == Copies(run.b, run.n);
  }

  /** The decoder undoes every way of writing data as runs, the marker byte included. */
  lemma {:induction false} RunsRoundTrip(last: Byte, runs: seq<Run>)
    requires Writable(runs)
    ensures Expand(last, false, Compressed(runs)) == Plain(runs)
    decreases |runs|
  {
    if runs != [] {
      hide Expand, After, WriteRun, Copies;
      ExpandRun(last, runs[0]);
      ExpandSplit(last, false, WriteRun(runs[0]), Compressed(runs[1..]));
      RunsRoundTrip(runs[0].b, runs[1..]);
    }
  }

  /** The marker is 0x90: after a byte and the marker comes how often the byte stands, and 0 makes the marker a byte. */
  lemma MarkerExamples(last: Byte)
    ensures Expand(last, false, [65, 0x90, 4]) == [65, 65, 65, 65]
    ensures Expand(last, false, [65, 0x90, 0, 66]) == [65, 0x90, 66]
    ensures Expand(last, false, [65, 0x90, 1]) == [65]
  {
    OneByte(last, false, 65);
    var a, b, c: seq<Byte> := [65, 0x90, 4], [65, 0x90, 0, 66], [65, 0x90, 1];
    assert a[1..] == [0x90, 4] && a[1..][1..] == [4] && a[1..][1..][1..] == [];
    assert b[1..] == [0x90, 0, 66] && b[1..][1..] == [0, 66] && b[1..][1..][1..] == [66] && b[1..][1..][1..][1..] == [];
    assert c[1..] == [0x90, 1] && c[1..][1..] == [1] && c[1..][1..][1..] == [];
  }
}
