/** The ordered part lists of uulib: inserting scanned parts, and merging the lists of two files. */
module PartList {
  import opened Prelude

  datatype Encoding = NotEncoded | UuEncoded | B64Encoded | XxEncoded | BhEncoded | PtEncoded | QpEncoded | YencEncoded

  datatype Flag = Single | Partial | Proper | ToEnd

  /** One scanned part; mode is 0 where none was given, and length is the number of bytes it takes in the message. */
  datatype Part = Part(partno: int, begin: bool, end: bool, uudet: Encoding, flags: set<Flag>,
                       mimeid: Option<string>, subfname: string, filename: Option<string>,
                       mode: int, mimetype: Option<string>, length: nat)

  datatype Mark = MisPart | NoBegin | NoEnd | NoData | Complete

  /**
   A file of the global list. begin and end are part numbers, 0 when none was seen; size is estimated by the check.
   */
  datatype File = File(parts: seq<Part>, begin: int, end: int, uudet: Encoding, flags: set<Flag>,
                       mimeid: Option<string>, subfname: string, filename: Option<string>,
                       mode: int, mimetype: Option<string>,
                       state: set<Mark>, haveparts: seq<int>, misparts: seq<int>, size: Option<int>)

  /** Strictly ascending by part number. */
  ghost predicate Ascending(parts: seq<Part>) {
    forall i, j :: 0 <= i < j < |parts| ==> parts[i].partno < parts[j].partno
  }

  ghost predicate HasNumber(parts: seq<Part>, n: int) {
    exists i :: 0 <= i < |parts| && parts[i].partno == n
  }

  /** An ascending list is determined by the parts in it, whatever order they came in. */
  lemma {:induction false} AscendingUnique(a: seq<Part>, b: seq<Part>)
    requires Ascending(a) && Ascending(b)
    requires forall p :: p in a <==> p in b
    ensures a == b
    decreases |a|
  {
    if a == [] {
      assert forall i :: 0 <= i < |b| ==> b[i] in a;
    } else {
      assert a[|a| - 1] in b;
      var la, lb := a[|a| - 1], b[|b| - 1];
      assert lb in a;
      assert la == lb;
      var a', b' := a[..|a| - 1], b[..|b| - 1];
      AllButLast(a);
      AllButLast(b);
      forall p ensures p in a' <==> p in b' {
        assert p in a <==> p in b;
      }
      AscendingUnique(a', b');
    }
  }

  lemma AllButLast(a: seq<Part>)
    requires a != [] && Ascending(a)
    ensures Ascending(a[..|a| - 1])
    ensures forall p :: p in a[..|a| - 1] <==> p in a && p != a[|a| - 1]
  {
    assert a == a[..|a| - 1] + [a[|a| - 1]];
  }

  /** parts with p put in at position i. */
  function Spliced(parts: seq<Part>, i: nat, p: Part): seq<Part>
    requires i <= |parts|
  {
    parts[..i] + [p] + parts[i..]
  }

  lemma SplicedAt(parts: seq<Part>, i: nat, p: Part, j: nat)
    requires i <= |parts| && j <= |parts|
    ensures |Spliced(parts, i, p)| == |parts| + 1
    ensures Spliced(parts, i, p)[j] == if j < i then parts[j] else if j == i then p else parts[j - 1]
  {
  }

  /** Putting a part in between its neighbours keeps the order. */
  lemma SpliceAscending(parts: seq<Part>, i: nat, p: Part)
    requires Ascending(parts) && i <= |parts|
    requires i > 0 ==> parts[i - 1].partno < p.partno
    requires i < |parts| ==> p.partno < parts[i].partno
    ensures Ascending(Spliced(parts, i, p)) && !HasNumber(parts, p.partno)
  {
    var r := Spliced(parts, i, p);
    assert forall j :: 0 <= j < |parts| ==> if j < i then parts[j].partno < p.partno else p.partno < parts[j].partno;
    forall j, k | 0 <= j < k < |r| ensures r[j].partno < r[k].partno {
      SplicedAt(parts, i, p, j);
      SplicedAt(parts, i, p, k);
    }
  }

  lemma SpliceMembers(parts: seq<Part>, i: nat, p: Part)
    requires i <= |parts|
    ensures forall q :: q in Spliced(parts, i, p) <==> q in parts || q == p
  {
    assert parts == parts[..i] + parts[i..];
  }

  // ---------------------------------------------------------------- inserting

  /** A part without a number goes after the last one and gets the next number. */
  function Numbered(parts: seq<Part>, p: Part): Part
    requires parts != []
  {
    if p.partno == -1 then p.(partno := parts[|parts| - 1].partno + 1) else p
  }

  /**
   Splices a part that is not there yet into a file's list. The test for a part with the same number never succeeds.
   */
  method Place(parts: seq<Part>, p: Part) returns (r: seq<Part>, ghost at: nat)
    requires parts != [] && Ascending(parts) && !HasNumber(parts, p.partno)
    ensures at <= |parts| && r == Spliced(parts, at, Numbered(parts, p))
    ensures Ascending(r) && !HasNumber(parts, Numbered(parts, p).partno)
  {
    if p.partno != -1 && p.partno < parts[0].partno {
      SpliceAscending(parts, 0, p);
      return [p] + parts, 0;
    }
    var fiter := 0;
    while true
      invariant 0 <= fiter < |parts|
      invariant p.partno == -1 || parts[fiter].partno < p.partno
      decreases |parts| - fiter
    {
      hide Spliced, Ascending;
      assert parts[fiter].partno != p.partno;
      if fiter == |parts| - 1 || (p.partno != -1 && p.partno < parts[fiter + 1].partno) {
        var q := if p.partno == -1 then p.(partno := parts[fiter].partno + 1) else p;
        SpliceAscending(parts, fiter + 1, q);
        return Spliced(parts, fiter + 1, q), fiter + 1;
      }
      fiter := fiter + 1;
    }
  }

  function LowerCase(c: char): char {
    if 'A' <= c <= 'Z' then c - 'A' + 'a' else c
  }

  predicate SameIgnoringCase(s: string, t: string) {
    |s| == |t| && forall i :: 0 <= i < |s| ==> LowerCase(s[i]) == LowerCase(t[i])
  }

  /** Whether a part and a file belong together. */
  predicate Related(file: File, p: Part) {
    Single !in p.flags
    && ((p.mimeid.Some? && file.mimeid == p.mimeid)
        || (SameIgnoringCase(p.subfname, file.subfname)
            && !(file.begin != 0 && p.begin) && !(file.end != 0 && p.end)
            && !(p.mimeid.Some? && file.mimeid.Some? && p.mimeid != file.mimeid)
            && !(p.filename.Some? && file.filename.Some? && p.filename != file.filename)
            && Single !in file.flags))
  }

  /** A part that is already there, or lies beyond the end of a file without a MIME id, is not for that file. */
  predicate Bars(file: File, q: Part, p: Part) {
    p.partno == q.partno || (file.mimeid.None? && p.partno > q.partno && q.end)
  }

  ghost predicate Barred(file: File, p: Part) {
    exists i :: 0 <= i < |file.parts| && Bars(file, file.parts[i], p)
  }

  ghost predicate Accepts(file: File, p: Part) {
    Related(file, p) && !Barred(file, p)
  }

  /**
   Which parts go into which file. They have the same MIME id; or the same subject name but for case, and then they
   do not both have the begin line or both the end line, nor different MIME ids or file names, nor does the file
   stand alone. The number is not taken, and without a MIME id it does not lie behind a part with the end line. A
   part that stands alone goes nowhere.
   */
  lemma AcceptsMeans(file: File, p: Part)
    ensures Accepts(file, p) && p.mimeid.Some? && file.mimeid.Some? ==> p.mimeid == file.mimeid
    ensures Accepts(file, p) && !(p.mimeid.Some? && p.mimeid == file.mimeid) ==>
      && SameIgnoringCase(p.subfname, file.subfname) && Single !in file.flags
      && (p.begin ==> file.begin == 0) && (p.end ==> file.end == 0)
      && (p.filename.Some? && file.filename.Some? ==> p.filename == file.filename)
    ensures Accepts(file, p) ==> Single !in p.flags && !HasNumber(file.parts, p.partno)
    ensures Accepts(file, p) && file.mimeid.None? ==>
      forall i :: 0 <= i < |file.parts| && file.parts[i].end ==> p.partno < file.parts[i].partno
    ensures Single !in p.flags && !HasNumber(file.parts, p.partno) && p.mimeid.Some? && p.mimeid == file.mimeid ==>
      Accepts(file, p)
    ensures (Single !in p.flags && !HasNumber(file.parts, p.partno) && p.subfname == file.subfname
             && file.mimeid.None? && p.filename == file.filename && Single !in file.flags
             && (p.begin ==> file.begin == 0) && (p.end ==> file.end == 0)
             && forall i :: 0 <= i < |file.parts| && file.parts[i].end ==> p.partno < file.parts[i].partno)
      ==> Accepts(file, p)
  {
    forall i | 0 <= i < |file.parts| && Bars(file, file.parts[i], p)
      ensures HasNumber(file.parts, p.partno)
              || (file.mimeid.None? && file.parts[i].end && p.partno > file.parts[i].partno)
    {
    }
    if Accepts(file, p) {
      forall i | 0 <= i < |file.parts|
        ensures p.partno != file.parts[i].partno
        ensures file.mimeid.None? && file.parts[i].end ==> p.partno < file.parts[i].partno
      {
        assert !Bars(file, file.parts[i], p);
      }
    }
  }

  method IsBarred(file: File, p: Part) returns (barred: bool)
    ensures barred == Barred(file, p)
  {
    for i := 0 to |file.parts|
      invariant forall j :: 0 <= j < i ==> !Bars(file, file.parts[j], p)
    {
      if p.partno == file.parts[i].partno { return true; }
      if file.mimeid.None? {
        if p.partno > file.parts[i].partno && file.parts[i].end { return true; }
      }
    }
    return false;
  }

  /** What was tagged Base64 turns out to be XX when the part with the begin line says so. */
  function Retagged(p: Part): Part {
    p.(uudet := XxEncoded)
  }

  function RetagAll(parts: seq<Part>): (r: seq<Part>)
    ensures |r| == |parts| && forall i :: 0 <= i < |r| ==> r[i] == Retagged(parts[i])
  {
    if parts == [] then [] else [Retagged(parts[0])] + RetagAll(parts[1..])
  }

  /** The part as it enters the file. */
  function Incoming(file: File, p: Part): Part {
    if p.uudet == B64Encoded && file.uudet == XxEncoded && file.begin != 0 then Retagged(p) else p
  }

  /** The file as it is when the part enters: name, encoding, flags, mode, and where begin and end are. */
  function Updated(file: File, p: Part): File {
    var p' := Incoming(file, p);
    var retag := p.uudet == XxEncoded && p.begin && file.uudet == B64Encoded;
    var f1 := if retag then file.(uudet := XxEncoded, parts := RetagAll(file.parts)) else file;
    var f2 :=
      if Partial in p'.flags then
        if p'.partno == 1 then f1.(uudet := p'.uudet, flags := p'.flags) else f1
      else
        f1.(uudet := if p'.uudet != NotEncoded then p'.uudet else f1.uudet,
            flags := if p'.flags != {} then p'.flags else f1.flags);
    f2.(filename := if file.filename.None? then p.filename else file.filename,
        mode := if file.mode == 0 then p.mode else file.mode,
        mimetype := if p.mimetype.Some? then p.mimetype else file.mimetype,
        begin := if p.begin then Place0(p.partno) else file.begin,
        end := if p.end then Place0(p.partno) else file.end,
        state := {})
  }

  /** A part number as it is recorded for begin and end, where 0 means none. */
  function Place0(partno: int): int {
    if partno != 0 then partno else 1
  }

  lemma UpdatedKeepsNumbers(file: File, p: Part)
    ensures |Updated(file, p).parts| == |file.parts|
    ensures forall i :: 0 <= i < |file.parts| ==> Updated(file, p).parts[i].partno == file.parts[i].partno
    ensures forall i :: 0 <= i < |file.parts| ==> SamePart(file.parts[i], Updated(file, p).parts[i])
    ensures Incoming(file, p).partno == p.partno
  {
  }

  /**
   What a part changes in a file. The first file name and the first mode stay, the last MIME type counts. Begin and
   end are where the part has them; a part 0 counts as 1.
   */
  lemma UpdatedSays(file: File, p: Part)
    ensures var u := Updated(file, p);
      && u.filename == (if file.filename.Some? then file.filename else p.filename)
      && u.mode == (if file.mode != 0 then file.mode else p.mode)
      && u.mimetype == (if p.mimetype.Some? then p.mimetype else file.mimetype)
      && u.begin == (if !p.begin then file.begin else if p.partno == 0 then 1 else p.partno)
      && u.end == (if !p.end then file.end else if p.partno == 0 then 1 else p.partno)
      && u.state == {} && u.mimeid == file.mimeid && u.subfname == file.subfname
  {
    hide RetagAll;
  }

  /**
   The encoding of the file is that of the last part that has one, of parts of a Message/Partial that of part 1
   only; but XX with a begin line turns Base64 into XX, and Base64 after a begin line of XX counts as XX.
   */
  lemma UpdatedEncoding(file: File, p: Part)
    ensures Partial !in p.flags && p.uudet == XxEncoded && p.begin && file.uudet == B64Encoded ==>
      Updated(file, p).uudet == XxEncoded
      && forall i :: 0 <= i < |file.parts| ==> Updated(file, p).parts[i].uudet == XxEncoded
    ensures p.uudet == B64Encoded && file.uudet == XxEncoded && file.begin != 0 ==>
      Incoming(file, p).uudet == XxEncoded && Updated(file, p).uudet == XxEncoded
    ensures (!(p.uudet == XxEncoded && p.begin && file.uudet == B64Encoded)
             && !(p.uudet == B64Encoded && file.uudet == XxEncoded && file.begin != 0)) ==>
      && Updated(file, p).parts == file.parts && Incoming(file, p) == p
      && Updated(file, p).uudet == (if Partial in p.flags then (if p.partno == 1 then p.uudet else file.uudet)
                                    else if p.uudet == NotEncoded then file.uudet else p.uudet)
      && Updated(file, p).flags == (if Partial in p.flags then (if p.partno == 1 then p.flags else file.flags)
                                    else if p.flags == {} then file.flags else p.flags)
  {
  }

  /** A part that begins a file. */
  lemma NewFileSays(p: Part)
    ensures var f := NewFile(p);
      && f.parts == [p] && (f.begin == 0 <==> !p.begin) && (f.end == 0 <==> !p.end)
      && (p.begin && p.partno != 0 ==> f.begin == p.partno) && (p.end && p.partno != 0 ==> f.end == p.partno)
      && f.uudet == p.uudet && f.flags == p.flags && f.mimeid == p.mimeid && f.subfname == p.subfname
      && f.filename == p.filename && f.mode == p.mode && f.mimetype == p.mimetype && f.state == {}
  {
  }

  function NewFile(p: Part): File {
    File([p], if p.begin then Place0(p.partno) else 0, if p.end then Place0(p.partno) else 0,
         p.uudet, p.flags, p.mimeid, p.subfname, p.filename, p.mode, p.mimetype, {}, [], [], None)
  }

  /** Every file's list is strictly ascending and not empty. */
  ghost predicate InGoodOrder(files: seq<File>) {
    forall i :: 0 <= i < |files| ==> files[i].parts != [] && Ascending(files[i].parts)
  }

  datatype Return = Ok | NoPlace

  /** k is where a part goes: the first file that accepts it, or past the last file. */
  ghost predicate GoesTo(files: seq<File>, p: Part, k: nat) {
    k <= |files| && (forall i :: 0 <= i < k ==> !Accepts(files[i], p)) && (k < |files| ==> Accepts(files[k], p))
  }

  /** There is one such place, and no file in front of it accepts the part. */
  lemma GoesToFirst(files: seq<File>, p: Part, k: nat, i: nat)
    requires GoesTo(files, p, k) && i < |files| && Accepts(files[i], p)
    ensures k <= i && k < |files| && Accepts(files[k], p)
  {
    hide Accepts;
  }

  /** p itself, or p with XX for Base64. */
  predicate SamePart(p: Part, q: Part) {
    q == p || q == Retagged(p)
  }

  /** The list after is the list before, at most retagged, with one part more. */
  ghost predicate OneMore(before: seq<Part>, after: seq<Part>, p: Part) {
    exists at: nat :: at <= |before| && |after| == |before| + 1 && SamePart(p, after[at])
      && (forall i :: 0 <= i < at ==> SamePart(before[i], after[i]))
      && (forall i :: at <= i < |before| ==> SamePart(before[i], after[i + 1]))
  }

  /** The part enters a file that accepts it. */
  method InsertInto(file: File, p: Part) returns (f: File)
    requires file.parts != [] && Ascending(file.parts) && Accepts(file, p)
    ensures f == Updated(file, p).(parts := f.parts) && f.parts != [] && Ascending(f.parts)
    ensures OneMore(file.parts, f.parts, Numbered(file.parts, p))
  {
    UpdatedKeepsNumbers(file, p);
    var u, q := Updated(file, p), Incoming(file, p);
    assert Ascending(u.parts) && !HasNumber(u.parts, q.partno) by {
      forall i | 0 <= i < |u.parts| ensures u.parts[i].partno != q.partno {
        assert !Bars(file, file.parts[i], p);
      }
    }
    hide Updated, Incoming, Accepts, HasNumber, Ascending, Spliced, SamePart, Numbered;
    var parts, at := Place(u.parts, q);
    EntersAs(file, p);
    SplicedIsOneMore(file.parts, u.parts, at, Numbered(u.parts, q), Numbered(file.parts, p));
    f := u.(parts := parts);
  }

  lemma SplicedIsOneMore(before: seq<Part>, now: seq<Part>, at: nat, q: Part, p: Part)
    requires |now| == |before| && at <= |now| && SamePart(p, q)
    requires forall i :: 0 <= i < |before| ==> SamePart(before[i], now[i])
    ensures OneMore(before, Spliced(now, at, q), p) && Spliced(now, at, q) != []
  {
    hide SamePart;
    var after := Spliced(now, at, q);
    SplicedAt(now, at, q, at);
    forall i | 0 <= i < |before| ensures if i < at then after[i] == now[i] else after[i + 1] == now[i] {
      SplicedAt(now, at, q, i);
      SplicedAt(now, at, q, i + 1);
    }
    hide Spliced;
  }

  lemma EntersAs(file: File, p: Part)
    requires file.parts != []
    ensures Updated(file, p).parts != []
    ensures SamePart(Numbered(file.parts, p), Numbered(Updated(file, p).parts, Incoming(file, p)))
  {
    UpdatedKeepsNumbers(file, p);
  }

  // ---------------------------------------------------------------- merging two files

  /**
   The merge loop of UU_smparts_r: splices the parts of one list into another, dropping those whose number is taken. The
   result is the ascending list of all parts of the first and those of the second whose number the first lacks.
   */
  method MergeParts(into: seq<Part>, extra: seq<Part>) returns (r: seq<Part>)
    requires into != [] && Ascending(into) && Ascending(extra)
    ensures r != [] && Ascending(r) && MergeOf(r, into, extra)
  {
    r := into;
    var dest, k := 0, 0;
    while k < |extra|
      invariant 0 <= dest < |r| && Ascending(r) && k <= |extra|
      invariant k < |extra| && dest > 0 ==> r[dest].partno < extra[k].partno
      invariant MergeOf(r, into, extra[..k])
      decreases 2 * (|extra| - k) + |r| - dest
    {
      hide Ascending, HasNumber, MergeOf, Spliced;
      var fiter := extra[k];
      if fiter.partno == r[0].partno {
        DropTaken(into, extra, k, r, 0, dest);
        k := k + 1;
      } else if dest < |r| - 1 && fiter.partno == r[dest + 1].partno {
        DropTaken(into, extra, k, r, dest + 1, dest);
        k := k + 1;
      } else if fiter.partno < r[0].partno {
        TakeExtra(into, extra, k, r, 0);
        r, dest, k := Spliced(r, 0, fiter), 0, k + 1;
      } else if dest == |r| - 1 || fiter.partno < r[dest + 1].partno {
        TakeExtra(into, extra, k, r, dest + 1);
        r, k := Spliced(r, dest + 1, fiter), k + 1;
      } else {
        dest := dest + 1;
      }
    }
    assert extra[..k] == extra;
  }

  /** r holds all parts of the first list, and those of the second whose number the first lacks. */
  ghost predicate MergeOf(r: seq<Part>, into: seq<Part>, extra: seq<Part>) {
    forall p :: p in r <==> p in into || (p in extra && !HasNumber(into, p.partno))
  }

  /** Two lists without a common number merge into the same list, whichever is merged into the other. */
  lemma MergeCommutes(a: seq<Part>, b: seq<Part>, r: seq<Part>, s: seq<Part>)
    requires Ascending(r) && Ascending(s) && MergeOf(r, a, b) && MergeOf(s, b, a)
    requires forall p, q :: p in a && q in b ==> p.partno != q.partno
    ensures r == s
  {
    forall p ensures p in r <==> p in s {
      assert p in b ==> !HasNumber(a, p.partno);
      assert p in a ==> !HasNumber(b, p.partno);
    }
    AscendingUnique(r, s);
  }

  lemma NextExtra(extra: seq<Part>, k: nat)
    requires k < |extra| && Ascending(extra)
    ensures forall p :: p in extra[..k + 1] <==> p in extra[..k] || p == extra[k]
    ensures k + 1 < |extra| ==> extra[k].partno < extra[k + 1].partno
    ensures forall p :: p in extra[..k] ==> p.partno < extra[k].partno
  {
    assert extra[..k + 1] == extra[..k] + [extra[k]];
  }

  lemma DropTaken(into: seq<Part>, extra: seq<Part>, k: nat, r: seq<Part>, i: nat, dest: nat)
    requires k < |extra| && Ascending(extra) && i < |r| && r[i].partno == extra[k].partno
    requires MergeOf(r, into, extra[..k]) && dest < |r| && (dest > 0 ==> r[dest].partno < extra[k].partno)
    ensures MergeOf(r, into, extra[..k + 1])
    ensures k + 1 < |extra| && dest > 0 ==> r[dest].partno < extra[k + 1].partno
  {
    NextExtra(extra, k);
    assert r[i] in r;
    assert r[i] in into;
  }

  lemma TakeExtra(into: seq<Part>, extra: seq<Part>, k: nat, r: seq<Part>, i: nat)
    requires k < |extra| && Ascending(extra) && i <= |r| && Ascending(r)
    requires i > 0 ==> r[i - 1].partno < extra[k].partno
    requires i < |r| ==> extra[k].partno < r[i].partno
    requires MergeOf(r, into, extra[..k])
    ensures Ascending(Spliced(r, i, extra[k])) && |Spliced(r, i, extra[k])| == |r| + 1
    ensures i > 0 ==> Spliced(r, i, extra[k])[i - 1] == r[i - 1]
    ensures MergeOf(Spliced(r, i, extra[k]), into, extra[..k + 1])
    ensures k + 1 < |extra| ==> extra[k].partno < extra[k + 1].partno
  {
    SpliceAscending(r, i, extra[k]);
    SpliceMembers(r, i, extra[k]);
    if i > 0 { SplicedAt(r, i, extra[k], i - 1); }
    NextExtra(extra, k);
    forall j | 0 <= j < |into| ensures into[j].partno != extra[k].partno {
      assert into[j] in r;
    }
    hide Spliced, Ascending;
  }

  /** How many parts have smaller numbers: where a number would go. */
  function Position(parts: seq<Part>, n: int): (i: nat)
    ensures i <= |parts| && (forall j :: 0 <= j < i ==> parts[j].partno < n)
    ensures i < |parts| ==> parts[i].partno >= n
  {
    if parts == [] || parts[0].partno >= n then 0 else 1 + Position(parts[1..], n)
  }

  /** How many numbers lie between n and its neighbours in the list. */
  function GapAround(parts: seq<Part>, n: int): int {
    var i := Position(parts, n);
    (if i > 0 then n - parts[i - 1].partno - 1 else 0) + (if i < |parts| then parts[i].partno - n - 1 else 0)
  }

  /**
   Between two neighbours those are all numbers in between but n itself; at either end of the list nothing is
   missing.
   */
  lemma GapMeans(parts: seq<Part>, n: int, i: nat)
    requires Ascending(parts) && i <= |parts|
    requires (i > 0 ==> parts[i - 1].partno < n) && (i < |parts| ==> n <= parts[i].partno)
    ensures 0 < i < |parts| ==> GapAround(parts, n) == parts[i].partno - parts[i - 1].partno - 2
    ensures i == 0 < |parts| ==> GapAround(parts, n) == parts[0].partno - n - 1
    ensures 0 < i == |parts| ==> GapAround(parts, n) == n - parts[i - 1].partno - 1
  {
    PositionUnique(parts, n, i);
  }

  function GapsAround(parts: seq<Part>, extra: seq<Part>): int {
    if extra == [] then 0
    else
      var p := extra[|extra| - 1];
      GapsAround(parts, extra[..|extra| - 1]) + (if p.uudet == NotEncoded then 0 else GapAround(parts, p.partno))
  }

  /** Some part carries data, and none that does has a number that is taken. */
  ghost predicate Fits(parts: seq<Part>, extra: seq<Part>) {
    (exists k :: 0 <= k < |extra| && extra[k].uudet != NotEncoded)
    && (forall k :: 0 <= k < |extra| && extra[k].uudet != NotEncoded ==> !HasNumber(parts, extra[k].partno))
  }

  lemma PositionUnique(parts: seq<Part>, n: int, i: nat)
    requires i <= |parts| && (forall j :: 0 <= j < i ==> parts[j].partno < n)
    requires i < |parts| ==> parts[i].partno >= n
    ensures i == Position(parts, n)
  {
  }

  lemma NextPart(parts: seq<Part>, extra: seq<Part>, k: nat)
    requires k < |extra|
    ensures GapsAround(parts, extra[..k + 1])
      == GapsAround(parts, extra[..k])
         + (if extra[k].uudet == NotEncoded then 0 else GapAround(parts, extra[k].partno))
    ensures extra[k].uudet == NotEncoded ==> Fits(parts, extra[..k + 1]) == Fits(parts, extra[..k])
    ensures extra[k].uudet != NotEncoded && HasNumber(parts, extra[k].partno) ==> !Fits(parts, extra)
    ensures Fits(parts, extra[..k]) || NoData(extra[..k]) ==>
      extra[k].uudet != NotEncoded && !HasNumber(parts, extra[k].partno) ==> Fits(parts, extra[..k + 1])
    ensures extra[k].uudet == NotEncoded && NoData(extra[..k]) ==> NoData(extra[..k + 1])
  {
    hide HasNumber, GapAround;
    var now, next := extra[..k], extra[..k + 1];
    assert next == now + [extra[k]] && next[..k] == now;
    assert next[k] == extra[k];
    if Fits(parts, now) {
      var j :| 0 <= j < |now| && now[j].uudet != NotEncoded;
      assert next[j] == now[j];
    }
  }

  ghost predicate NoData(extra: seq<Part>) {
    forall j :: 0 <= j < |extra| ==> extra[j].uudet == NotEncoded
  }

  /** The first pass of UU_smparts_r over two lists: whether one fits into the other and how large the gaps would be. */
  method Compare(parts: seq<Part>, extra: seq<Part>) returns (flag: bool, count: int)
    requires Ascending(parts) && Ascending(extra)
    ensures flag == Fits(parts, extra)
    ensures flag ==> count == GapsAround(parts, extra)
  {
    hide Fits, NoData, GapsAround, GapAround, Position, HasNumber, Ascending;
    var fiter := 0;
    flag, count := false, 0;
    NoParts(parts, extra);
    for k := 0 to |extra|
      invariant 0 <= fiter <= |parts|
      invariant k < |extra| ==> fiter <= Position(parts, extra[k].partno)
      invariant flag == Fits(parts, extra[..k]) && (flag || NoData(extra[..k]))
      invariant count == GapsAround(parts, extra[..k])
    {
      if k + 1 < |extra| { NextPosition(parts, extra, k); }
      NextPart(parts, extra, k);
      var temp := extra[k];
      if temp.uudet != NotEncoded {
        fiter := Advance(parts, fiter, temp.partno);
        GapAt(parts, temp.partno);
        if fiter < |parts| && parts[fiter].partno == temp.partno {
          return false, count;
        }
        flag := true;
        count := count + ((if fiter > 0 then temp.partno - parts[fiter - 1].partno - 1 else 0)
          + (if fiter < |parts| then parts[fiter].partno - temp.partno - 1 else 0));
      }
    }
    assert extra[..|extra|] == extra;
  }

  lemma NoParts(parts: seq<Part>, extra: seq<Part>)
    ensures !Fits(parts, extra[..0]) && NoData(extra[..0]) && GapsAround(parts, extra[..0]) == 0
  {
  }

  lemma NextPosition(parts: seq<Part>, extra: seq<Part>, k: nat)
    requires Ascending(extra) && k + 1 < |extra|
    ensures Position(parts, extra[k].partno) <= Position(parts, extra[k + 1].partno)
  {
    hide Position;
    assert extra[k].partno < extra[k + 1].partno;
  }

  lemma GapAt(parts: seq<Part>, n: int)
    ensures var i := Position(parts, n);
      GapAround(parts, n) == (if i > 0 then n - parts[i - 1].partno - 1 else 0)
        + (if i < |parts| then parts[i].partno - n - 1 else 0)
  {
  }

  method Advance(parts: seq<Part>, start: nat, n: int) returns (fiter: nat)
    requires Ascending(parts) && start <= Position(parts, n)
    ensures fiter == Position(parts, n)
    ensures HasNumber(parts, n) <==> fiter < |parts| && parts[fiter].partno == n
  {
    fiter := start;
    while fiter < |parts| && parts[fiter].partno < n
      invariant fiter <= |parts|
      invariant forall j :: 0 <= j < fiter ==> parts[j].partno < n
    {
      fiter := fiter + 1;
    }
    PositionUnique(parts, n, fiter);
    assert HasNumber(parts, n) ==> fiter < |parts| && parts[fiter].partno == n;
  }
}
