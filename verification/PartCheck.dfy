/**
 The completeness check of uulib: which parts of a file are there, which are missing, and whether it can be decoded.
 */
module PartCheck {
  import opened Prelude
  import opened Numerals
  import opened PartList

  const MAXPLIST := 256

  /** The part lists shown to the user stop after MAXPLIST entries. */
  function Capped(s: seq<int>): (r: seq<int>)
    ensures |r| <= MAXPLIST && r <= s
  {
    if |s| <= MAXPLIST then s else s[..MAXPLIST]
  }

  lemma CappedSays(s: seq<int>)
    ensures |Capped(s)| == Min(|s|, 256) && forall i :: 0 <= i < |Capped(s)| ==> Capped(s)[i] == s[i]
  {
  }

  /** The numbers strictly between two numbers. */
  function Between(a: int, b: int): (r: seq<int>)
    ensures forall n :: n in r <==> a < n < b
    decreases b - a
  {
    if b <= a + 1 then [] else Between(a, b - 1) + [b - 1]
  }

  /** The numbers missing between part i and part j. */
  function Gaps(parts: seq<Part>, i: nat, j: nat): seq<int>
    requires i <= j < |parts|
  {
    if i == j then [] else Gaps(parts, i, j - 1) + Between(parts[j - 1].partno, parts[j].partno)
  }

  /** The numbers missing before the first part with data, unless that part has the begin line. */
  function Lead(p: Part): seq<int> {
    if p.partno > 1 && !p.begin then Between(0, p.partno) else []
  }

  function Numbers(parts: seq<Part>): (r: seq<int>)
    ensures |r| == |parts| && forall i :: 0 <= i < |r| ==> r[i] == parts[i].partno
  {
    if parts == [] then [] else Numbers(parts[..|parts| - 1]) + [parts[|parts| - 1].partno]
  }

  function FirstEncoded(parts: seq<Part>): (i: nat)
    ensures i <= |parts| && (forall j :: 0 <= j < i ==> parts[j].uudet == NotEncoded)
    ensures i < |parts| ==> parts[i].uudet != NotEncoded
  {
    if parts == [] || parts[0].uudet != NotEncoded then 0 else 1 + FirstEncoded(parts[1..])
  }

  /** The scan goes on from part i to the next part with an end line, or to the last part. */
  function LastScanned(parts: seq<Part>, i: nat): (j: nat)
    requires i < |parts|
    ensures i <= j < |parts|
    decreases |parts| - i
  {
    if i + 1 == |parts| then i
    else if parts[i + 1].end then i + 1
    else LastScanned(parts, i + 1)
  }

  /** It stops at the first part with an end line after part i, whatever part i itself has, or at the last part. */
  lemma {:induction false} ScanStops(parts: seq<Part>, i: nat, j: nat)
    requires i <= j < |parts|
    ensures j == LastScanned(parts, i)
      <==> (forall k :: i < k < j ==> !parts[k].end)
           && if j == i then i + 1 == |parts| else parts[j].end || j + 1 == |parts|
    decreases |parts| - i
  {
    if i + 1 < |parts| && !parts[i + 1].end && i < j {
      ScanStops(parts, i + 1, j);
    }
  }

  ghost predicate SomeBegin(parts: seq<Part>, i: int, j: int) {
    exists k :: 0 <= i <= k <= j < |parts| && parts[k].begin
  }

  ghost predicate SomeEnd(parts: seq<Part>, i: int, j: int) {
    exists k :: 0 <= i <= k <= j < |parts| && parts[k].end
  }

  predicate NeedsNoFrame(uudet: Encoding) {
    uudet == B64Encoded || uudet == QpEncoded || uudet == PtEncoded
  }

  predicate AloneAsText(file: File) {
    (file.uudet == QpEncoded || file.uudet == PtEncoded) && Single in file.flags
  }

  ghost predicate HasBegin(file: File, i: nat, j: nat) {
    NeedsNoFrame(file.uudet) || SomeBegin(file.parts, i, j)
  }

  /** Fast scanning does not see end lines, so for UU and XX a begin line is enough. */
  ghost predicate HasEnd(file: File, i: nat, j: nat, fast: bool) {
    NeedsNoFrame(file.uudet) || SomeEnd(file.parts, i, j)
    || (fast && HasBegin(file, i, j) && (file.uudet == UuEncoded || file.uudet == XxEncoded))
  }

  /** What is missing from the parts i to j of a file. */
  function Missing(parts: seq<Part>, i: nat, j: nat): seq<int>
    requires i <= j < |parts|
  {
    Lead(parts[i]) + Gaps(parts, i, j)
  }

  // ---------------------------------------------------------------- sizes and names

  /** The guess at the decoded size of a part; the line ends of full lines are taken off. */
  function Guess(p: Part): int {
    match p.uudet
    case UuEncoded => 3 * p.length / 4 - 3 * p.length / 124
    case XxEncoded => 3 * p.length / 4 - 3 * p.length / 124
    case B64Encoded => 3 * p.length / 4 - p.length / 52
    case QpEncoded => p.length
    case PtEncoded => p.length
    case _ => 0
  }

  function Estimate(parts: seq<Part>, i: nat, j: nat): int
    requires i <= j < |parts|
  {
    if i == j then Guess(parts[i]) else Estimate(parts, i, j - 1) + Guess(parts[j])
  }

  /** The guess is exact for full lines: 45 bytes on 61 characters and one of line end, or 57 bytes on 76 and two. */
  lemma GuessExact(p: Part, n: nat)
    ensures (p.uudet == UuEncoded || p.uudet == XxEncoded) && p.length == 62 * n ==>
      Guess(p) == 45 * n
    ensures p.uudet == B64Encoded && p.length == 78 * n ==> Guess(p) == 57 * n
  {
  }

  /**
   For any length the guess is 45 bytes for 62, or 57 for 78, to within one byte, and plain text is counted as it
   is.
   */
  lemma GuessRounds(p: Part)
    ensures p.uudet == UuEncoded || p.uudet == XxEncoded ==> -62 < 62 * Guess(p) - 45 * p.length < 62
    ensures p.uudet == B64Encoded ==> -78 < 78 * Guess(p) - 57 * p.length < 78
    ensures p.uudet == QpEncoded || p.uudet == PtEncoded ==> Guess(p) == p.length
  {
  }

  function SizeOf(file: File, fast: bool, size: int): int {
    if (fast && Proper !in file.flags) || size <= 0 then -1 else size
  }

  predicate Nameless(file: File) {
    file.filename == None || file.filename == Some("")
  }

  /** A subject name that can stand for a file name. */
  predicate Usable(name: string) {
    name != "" && forall i :: 0 <= i < |name| ==> name[i] !in "()[];: "
  }

  function Chars(s: Text): (r: string)
    ensures |r| == |s| && forall i :: 0 <= i < |r| ==> r[i] == s[i] as char
  {
    seq(|s|, i requires 0 <= i < |s| => s[i] as char)
  }

  function MadeUp(n: nat): string {
    "UNKNOWN." + Chars(Padded(n, 10, 3))
  }

  /** No made-up name is given twice. */
  lemma MadeUpDiffer(m: nat, n: nat)
    requires MadeUp(m) == MadeUp(n)
    ensures m == n
  {
    hide Padded, Value;
    var a, b := Padded(m, 10, 3), Padded(n, 10, 3);
    assert Chars(a) == MadeUp(m)[8..] == MadeUp(n)[8..] == Chars(b);
    assert forall i :: 0 <= i < |a| ==> a[i] as char == Chars(a)[i];
    assert a == b;
    assert a + [] == a && b + [] == b;
    ReadPadded(m, 10, 3, []);
    ReadPadded(n, 10, 3, []);
  }

  /** Made-up names count up from UNKNOWN.001. */
  lemma FirstMadeUp()
    ensures MadeUp(1) == "UNKNOWN.001" && MadeUp(12) == "UNKNOWN.012"
  {
    assert Printed(1, 10) == [49] && Printed(12, 10) == [49, 50];
    assert Padded(1, 10, 3) == [48, 48, 49] && Padded(12, 10, 3) == [48, 49, 50];
    assert Chars([48, 48, 49]) == "001" && Chars([48, 49, 50]) == "012";
  }

  /** The name of a file found complete; n names have been made up before. */
  function NameOf(file: File, n: nat): Option<string> {
    if !Nameless(file) then file.filename
    else if Usable(file.subfname) then Some(file.subfname)
    else Some(MadeUp(n + 1))
  }

  // ---------------------------------------------------------------- the verdict

  /** What the full check says of a file whose first part with data is i and whose scan stops at j. */
  ghost predicate Judged(file: File, fast: bool, f: File, i: nat, j: nat, n: nat)
    requires i <= j < |file.parts|
  {
    var missing := Missing(file.parts, i, j);
    f.haveparts == Capped(Numbers(file.parts[..j + 1])) && f.misparts == Capped(missing)
    && f.state == (
      if missing == [] && HasBegin(file, i, j) && HasEnd(file, i, j, fast) then {Complete}
      else Marks(missing == [], HasBegin(file, i, j), HasEnd(file, i, j, fast)))
    && f.size == Some(SizeOf(file, fast, Estimate(file.parts, i, j)))
    && f.filename == if f.state == {Complete} then NameOf(file, n) else file.filename
  }

  function Marks(whole: bool, begin: bool, end: bool): set<Mark> {
    (if whole then {} else {MisPart}) + (if begin then {} else {NoBegin}) + (if end then {} else {NoEnd})
  }

  /** What the check makes of a file; n names have been made up before. */
  ghost predicate Checked(file: File, fast: bool, f: File, n: nat) {
    f == file.(state := f.state, haveparts := f.haveparts, misparts := f.misparts, size := f.size,
               filename := f.filename)
    && if Complete in file.state then f == file
       else if AloneAsText(file) then f == file.(state := {Complete}, size := Some(TextSize(file)))
       else
         var i := FirstEncoded(file.parts);
         if i == |file.parts| then f == file.(state := {NoData})
         else if |Lead(file.parts[i])| >= MAXPLIST then f == file.(state := {MisPart})
         else Judged(file, fast, f, i, LastScanned(file.parts, i), n)
  }

  function TextSize(file: File): int {
    if Proper in file.flags && file.parts != [] then file.parts[0].length else -1
  }

  /** The check makes up a name. */
  predicate TakesNumber(file: File, f: File) {
    Complete !in file.state && !AloneAsText(file) && f.state == {Complete}
    && Nameless(file) && !Usable(file.subfname)
  }

  // ---------------------------------------------------------------- the loops of the check

  lemma {:induction false} BetweenPrefix(a: int, b: int, c: int)
    requires b <= c
    ensures Between(a, b) <= Between(a, c)
    decreases c - b
  {
    if b < c {
      BetweenPrefix(a, b, c - 1);
    }
  }

  lemma CappedAgain(s: seq<int>, t: seq<int>)
    ensures Capped(Capped(s) + t) == Capped(s + t)
  {
  }

  /** Notes missing numbers until the list is full. */
  method NoteMissing(misparts: seq<int>, lo: int, hi: int) returns (r: seq<int>)
    requires |misparts| <= MAXPLIST
    ensures r == Capped(misparts + Between(lo, hi))
  {
    r := misparts;
    var count := lo + 1;
    assert misparts + [] == misparts;
    while count < hi && |r| < MAXPLIST
      invariant lo < count && (count <= hi || count == lo + 1)
      invariant r == misparts + Between(lo, count) && |r| <= MAXPLIST
    {
      assert misparts + (Between(lo, count) + [count]) == r + [count];
      r, count := r + [count], count + 1;
    }
    if count < hi {
      BetweenPrefix(lo, count, hi);
      assert r <= misparts + Between(lo, hi);
    }
  }

  method NoteHave(haveparts: seq<int>, n: int) returns (r: seq<int>)
    requires |haveparts| <= MAXPLIST
    ensures r == Capped(haveparts + [n])
  {
    r := if |haveparts| < MAXPLIST then haveparts + [n] else haveparts;
  }

  /** The first loop: skips parts without data, noting that they are there. */
  method SkipNoData(parts: seq<Part>) returns (fiter: nat, haveparts: seq<int>)
    ensures fiter == FirstEncoded(parts)
    ensures haveparts == Capped(Numbers(parts[..fiter]))
  {
    fiter, haveparts := 0, [];
    while fiter < |parts| && parts[fiter].uudet == NotEncoded
      invariant fiter <= |parts| && forall j :: 0 <= j < fiter ==> parts[j].uudet == NotEncoded
      invariant haveparts == Capped(Numbers(parts[..fiter]))
    {
      NumbersNext(parts, fiter);
      haveparts := NoteHave(haveparts, parts[fiter].partno);
      fiter := fiter + 1;
    }
  }

  lemma NumbersNext(parts: seq<Part>, i: nat)
    requires i < |parts|
    ensures Capped(Numbers(parts[..i + 1])) == Capped(Capped(Numbers(parts[..i])) + [parts[i].partno])
  {
    assert parts[..i + 1][..i] == parts[..i];
    CappedAgain(Numbers(parts[..i]), [parts[i].partno]);
  }

  /** The second loop: from the part after the first with data to the next end line. */
  method ScanRest(parts: seq<Part>, first: nat, have0: seq<int>, mis0: seq<int>)
    returns (haveparts: seq<int>, misparts: seq<int>, begin: bool, end: bool, thesize: int)
    requires first < |parts| && have0 == Capped(Numbers(parts[..first + 1])) && mis0 == Capped(Lead(parts[first]))
    ensures var stop := LastScanned(parts, first);
      && haveparts == Capped(Numbers(parts[..stop + 1])) && misparts == Capped(Missing(parts, first, stop))
      && begin == SomeBegin(parts, first, stop) && end == SomeEnd(parts, first, stop)
      && thesize == Estimate(parts, first, stop)
  {
    hide Capped, Between, Numbers, Lead, Missing, SomeBegin, SomeEnd, LastScanned, Guess;
    haveparts, misparts := have0, mis0;
    thesize := Guess(parts[first]);
    begin, end := parts[first].begin, parts[first].end;
    var fiter := first + 1;
    ScanFirst(parts, first);
    while fiter < |parts|
      invariant first < fiter <= |parts| && LastScanned(parts, first) == LastScanned(parts, fiter - 1)
      invariant haveparts == Capped(Numbers(parts[..fiter])) && misparts == Capped(Missing(parts, first, fiter - 1))
      invariant begin == SomeBegin(parts, first, fiter - 1) && end == SomeEnd(parts, first, fiter - 1)
      invariant thesize == Estimate(parts, first, fiter - 1)
    {
      LastScannedNext(parts, fiter - 1);
      ScanNext(parts, first, fiter);
      MissingNext(parts, first, fiter);
      NumbersNext(parts, fiter);
      misparts := NoteMissing(misparts, parts[fiter - 1].partno, parts[fiter].partno);
      haveparts := NoteHave(haveparts, parts[fiter].partno);
      begin := begin || parts[fiter].begin;
      end := end || parts[fiter].end;
      thesize := thesize + Guess(parts[fiter]);
      fiter := fiter + 1;
      if parts[fiter - 1].end { break; }
    }
    if fiter == |parts| { LastScannedEnd(parts); }
  }

  lemma LastScannedNext(parts: seq<Part>, i: nat)
    requires i + 1 < |parts|
    ensures LastScanned(parts, i) == if parts[i + 1].end then i + 1 else LastScanned(parts, i + 1)
  {
  }

  lemma LastScannedEnd(parts: seq<Part>)
    requires parts != []
    ensures LastScanned(parts, |parts| - 1) == |parts| - 1
  {
  }

  lemma ScanNext(parts: seq<Part>, i: nat, j: nat)
    requires i < j < |parts|
    ensures SomeBegin(parts, i, j) <==> SomeBegin(parts, i, j - 1) || parts[j].begin
    ensures SomeEnd(parts, i, j) <==> SomeEnd(parts, i, j - 1) || parts[j].end
  {
  }

  lemma ScanFirst(parts: seq<Part>, i: nat)
    requires i < |parts|
    ensures SomeBegin(parts, i, i) <==> parts[i].begin
    ensures SomeEnd(parts, i, i) <==> parts[i].end
    ensures Missing(parts, i, i) == Lead(parts[i])
  {
  }

  lemma MissingNext(parts: seq<Part>, first: nat, fiter: nat)
    requires first < fiter < |parts|
    ensures Capped(Missing(parts, first, fiter))
      == Capped(Capped(Missing(parts, first, fiter - 1)) + Between(parts[fiter - 1].partno, parts[fiter].partno))
  {
    var b := Between(parts[fiter - 1].partno, parts[fiter].partno);
    CappedAgain(Missing(parts, first, fiter - 1), b);
    assert Lead(parts[first]) + (Gaps(parts, first, fiter - 1) + b) == Missing(parts, first, fiter - 1) + b;
  }

  /** One round of UUCheckGlobalList. nofnum counts the names made up. */
  method CheckFile(file: File, fast: bool, nofnum: nat) returns (f: File, nofnum': nat)
    requires AloneAsText(file) ==> file.parts != []
    ensures Checked(file, fast, f, nofnum)
    ensures nofnum' == nofnum + if TakesNumber(file, f) then 1 else 0
  {
    nofnum' := nofnum;
    if Complete in file.state { return file, nofnum; }
    if AloneAsText(file) {
      var size := if Proper !in file.flags then -1 else file.parts[0].length;
      return file.(state := {Complete}, size := Some(size)), nofnum;
    }
    var fiter, haveparts := SkipNoData(file.parts);
    if fiter == |file.parts| { return file.(state := {NoData}), nofnum; }
    var misparts: seq<int> := [];
    if file.parts[fiter].partno > 1 {
      if !file.parts[fiter].begin {
        assert [] + Between(0, file.parts[fiter].partno) == Between(0, file.parts[fiter].partno);
        misparts := NoteMissing(misparts, 0, file.parts[fiter].partno);
      }
    }
    if |misparts| >= MAXPLIST { return file.(state := {MisPart}), nofnum; }
    NumbersNext(file.parts, fiter);
    haveparts := NoteHave(haveparts, file.parts[fiter].partno);
    hide Capped, Numbers, Between, Judged, Usable, Nameless;
    CappedLead(file.parts[fiter]);
    f, nofnum' := Finish(file, fast, fiter, haveparts, misparts, nofnum);
  }

  lemma CappedLead(p: Part)
    ensures |Capped(Lead(p))| >= MAXPLIST <==> |Lead(p)| >= MAXPLIST
    ensures |Capped(Lead(p))| <= MAXPLIST
  {
  }

  method Finish(file: File, fast: bool, fiter: nat, have0: seq<int>, mis0: seq<int>, nofnum: nat)
    returns (f: File, nofnum': nat)
    requires fiter < |file.parts|
    requires have0 == Capped(Numbers(file.parts[..fiter + 1])) && mis0 == Capped(Lead(file.parts[fiter]))
    ensures f == file.(state := f.state, haveparts := f.haveparts, misparts := f.misparts, size := f.size,
                       filename := f.filename)
    ensures Judged(file, fast, f, fiter, LastScanned(file.parts, fiter), nofnum)
    ensures nofnum' == nofnum + if f.state == {Complete} && Nameless(file) && !Usable(file.subfname) then 1 else 0
  {
    hide Capped, Numbers, Missing, SomeBegin, SomeEnd, LastScanned, Lead, Judged, Estimate, Usable, MadeUp;
    var haveparts, misparts, begin, end, thesize := ScanRest(file.parts, fiter, have0, mis0);
    if NeedsNoFrame(file.uudet) { begin, end := true, true; }
    if fast && begin && (file.uudet == UuEncoded || file.uudet == XxEncoded) { end := true; }
    var state: set<Mark> := {};
    if |misparts| > 0 { state := state + {MisPart}; }
    if !begin { state := state + {NoBegin}; }
    if !end { state := state + {NoEnd}; }
    assert state == Marks(|misparts| == 0, begin, end);
    if begin && end && |misparts| == 0 { state := {Complete}; }
    CappedEmpty(Missing(file.parts, fiter, LastScanned(file.parts, fiter)));
    if (fast && Proper !in file.flags) || thesize <= 0 { thesize := -1; }
    var filename;
    filename, nofnum' := ChooseName(file, state, nofnum);
    f := file.(state := state, haveparts := haveparts, misparts := misparts, size := Some(thesize),
               filename := filename);
    assert begin == HasBegin(file, fiter, LastScanned(file.parts, fiter));
    assert end == HasEnd(file, fiter, LastScanned(file.parts, fiter), fast);
    IsJudged(file, fast, f, fiter, LastScanned(file.parts, fiter), begin, end, nofnum);
  }

  /** A complete file without a name gets one. */
  method ChooseName(file: File, state: set<Mark>, nofnum: nat) returns (filename: Option<string>, nofnum': nat)
    ensures filename == if state == {Complete} then NameOf(file, nofnum) else file.filename
    ensures nofnum' == nofnum + if state == {Complete} && Nameless(file) && !Usable(file.subfname) then 1 else 0
  {
    filename, nofnum' := file.filename, nofnum;
    if state == {Complete} && Nameless(file) {
      if Usable(file.subfname) {
        filename := Some(file.subfname);
      } else {
        nofnum' := nofnum + 1;
        filename := Some(MadeUp(nofnum'));
      }
    }
  }

  lemma IsJudged(file: File, fast: bool, f: File, i: nat, j: nat, begin: bool, end: bool,
                 n: nat)
    requires i <= j < |file.parts| && begin == HasBegin(file, i, j) && end == HasEnd(file, i, j, fast)
    requires f.haveparts == Capped(Numbers(file.parts[..j + 1])) && f.misparts == Capped(Missing(file.parts, i, j))
    requires var whole := Missing(file.parts, i, j) == [];
      f.state == if whole && begin && end then {Complete} else Marks(whole, begin, end)
    requires f.size == Some(SizeOf(file, fast, Estimate(file.parts, i, j)))
    requires f.filename == if f.state == {Complete} then NameOf(file, n) else file.filename
    ensures Judged(file, fast, f, i, j, n)
  {
    hide Capped, Numbers, Missing, HasBegin, HasEnd, Marks, Estimate, NameOf, SizeOf;
  }

  lemma CappedEmpty(s: seq<int>)
    ensures Capped(s) == [] <==> s == []
  {
  }

  // ---------------------------------------------------------------- what the verdict means

  /** The gaps between two parts of an ascending list are exactly the numbers in between that no part has. */
  lemma {:induction false} GapsExact(parts: seq<Part>, i: nat, j: nat, n: int)
    requires Ascending(parts) && i <= j < |parts|
    ensures n in Gaps(parts, i, j)
      <==> parts[i].partno < n < parts[j].partno && forall k :: i <= k <= j ==> parts[k].partno != n
    decreases j
  {
    if i < j {
      var a, b := parts[j - 1].partno, parts[j].partno;
      assert n in Gaps(parts, i, j) <==> n in Gaps(parts, i, j - 1) || a < n < b;
      assert a < b && parts[i].partno <= a && forall k :: i <= k < j ==> parts[k].partno <= a;
      hide Gaps, Between, Ascending;
      GapsExact(parts, i, j - 1, n);
    }
  }

  /**
   The full check marks a file complete exactly when its first part with data is part 1 (or earlier) or has the begin
   line, every number from there to the part where the scan stops is present, and begin and end were seen, or are not
   needed.
   */
  lemma CompleteMeansNoGap(file: File, fast: bool, f: File, n: nat)
    requires Checked(file, fast, f, n) && Complete !in file.state && !AloneAsText(file) && Ascending(file.parts)
    ensures f.state == {Complete} ==> !Nameless(f)
    ensures var i := FirstEncoded(file.parts); f.state == {Complete} <==>
      i < |file.parts|
      && var j := LastScanned(file.parts, i);
      && (file.parts[i].partno <= 1 || file.parts[i].begin)
      && (forall n :: file.parts[i].partno <= n <= file.parts[j].partno ==> NumberAmong(file.parts, i, j, n))
      && HasBegin(file, i, j) && HasEnd(file, i, j, fast)
  {
    hide Gaps, Lead, Estimate, NumberAmong, HasBegin, HasEnd, Ascending, Usable, MadeUp, SizeOf, Capped, Numbers;
    var i := FirstEncoded(file.parts);
    if i < |file.parts| {
      var j := LastScanned(file.parts, i);
      LeadEmpty(file.parts[i]);
      GapsEmpty(file.parts, i, j);
      NameGiven(file, n);
    }
  }

  /**
   The marks of a file that is not complete, in terms of its parts from the first with data to where the scan stops.
   */
  lemma MarksSay(file: File, fast: bool, f: File, n: nat, i: nat, j: nat)
    requires Checked(file, fast, f, n) && Complete !in file.state && !AloneAsText(file) && f.state != {Complete}
    requires i == FirstEncoded(file.parts) && i < |file.parts| && |Lead(file.parts[i])| < MAXPLIST
    requires j == LastScanned(file.parts, i)
    ensures NoBegin in f.state <==>
      file.uudet !in {B64Encoded, QpEncoded, PtEncoded} && forall k :: i <= k <= j ==> !file.parts[k].begin
    ensures NoEnd in f.state <==>
      && file.uudet !in {B64Encoded, QpEncoded, PtEncoded} && (forall k :: i <= k <= j ==> !file.parts[k].end)
      && !(fast && file.uudet in {UuEncoded, XxEncoded} && exists k :: i <= k <= j && file.parts[k].begin)
    ensures MisPart in f.state <==> Missing(file.parts, i, j) != []
    ensures NoData !in f.state && Complete !in f.state
  {
    hide Gaps, Lead, Estimate, Ascending, Usable, MadeUp, SizeOf, Capped, Numbers, Missing;
    assert Judged(file, fast, f, i, j, n);
    var whole := Missing(file.parts, i, j) == [];
    assert f.state == Marks(whole, HasBegin(file, i, j), HasEnd(file, i, j, fast));
    MarksAre(whole, HasBegin(file, i, j), HasEnd(file, i, j, fast));
  }

  lemma MarksAre(whole: bool, begin: bool, end: bool)
    ensures var s := Marks(whole, begin, end);
      && (MisPart in s <==> !whole) && (NoBegin in s <==> !begin) && (NoEnd in s <==> !end)
      && NoData !in s && Complete !in s
  {
  }

  /**
   What is missing: what lies in front of a first part without a begin line, and the numbers between that no part
   has.
   */
  lemma MissingSays(parts: seq<Part>, i: nat, j: nat, n: int)
    requires Ascending(parts) && i <= j < |parts|
    ensures n in Missing(parts, i, j) <==>
      (0 < n < parts[i].partno && !parts[i].begin)
      || (parts[i].partno < n < parts[j].partno && forall k :: i <= k <= j ==> parts[k].partno != n)
  {
    GapsExact(parts, i, j, n);
    hide Gaps, Ascending;
  }

  /**
   A file without data is marked so, and one of which 256 parts or more are missing in front is not looked at
   further.
   */
  lemma EarlyVerdicts(file: File, fast: bool, f: File, n: nat)
    requires Checked(file, fast, f, n) && Complete !in file.state && !AloneAsText(file)
    ensures (forall i :: 0 <= i < |file.parts| ==> file.parts[i].uudet == NotEncoded) ==> f == file.(state := {NoData})
    ensures var i := FirstEncoded(file.parts);
      i < |file.parts| && file.parts[i].partno > 256 && !file.parts[i].begin ==> f == file.(state := {MisPart})
  {
    var i := FirstEncoded(file.parts);
    if i < |file.parts| && file.parts[i].partno > 256 && !file.parts[i].begin {
      BetweenLength(0, file.parts[i].partno);
      hide Between, Judged;
    }
  }

  lemma {:induction false} BetweenLength(a: int, b: int)
    requires a < b
    ensures |Between(a, b)| == b - a - 1
    decreases b - a
  {
    if b > a + 1 { BetweenLength(a, b - 1); }
  }

  /**
   The size and the name of a file that has been looked at: no size while scanning is fast, but for mail known to be
   MIME, or if the guess is nothing; a complete file without a name is called by its subject unless that has a
   bracket, a semicolon, a colon or a space, and otherwise gets the next made-up name.
   */
  lemma SizeAndName(file: File, fast: bool, f: File, n: nat, i: nat, j: nat)
    requires Checked(file, fast, f, n) && Complete !in file.state && !AloneAsText(file)
    requires i == FirstEncoded(file.parts) && i < |file.parts| && |Lead(file.parts[i])| < MAXPLIST
    requires j == LastScanned(file.parts, i)
    ensures (fast && Proper !in file.flags) || Estimate(file.parts, i, j) <= 0 ==> f.size == Some(-1)
    ensures (!fast || Proper in file.flags) && Estimate(file.parts, i, j) > 0 ==>
      f.size == Some(Estimate(file.parts, i, j))
    ensures f.state != {Complete} || (file.filename.Some? && file.filename != Some("")) ==> f.filename == file.filename
    ensures f.state == {Complete} && (file.filename.None? || file.filename == Some("")) ==>
      f.filename == if file.subfname != "" && NoneOf(file.subfname, "()[];: ") then Some(file.subfname)
                    else Some(MadeUp(n + 1))
  {
    hide Gaps, Lead, Estimate, Ascending, MadeUp, Capped, Numbers, Missing, HasBegin, HasEnd, Marks;
    assert Judged(file, fast, f, i, j, n);
  }

  predicate NoneOf(s: string, these: string) {
    forall c :: c in these ==> c !in s
  }

  /** Text in a single part is complete as it is; its size is known only if the mail is known to be MIME. */
  lemma TextIsComplete(file: File, fast: bool, f: File, n: nat)
    requires Checked(file, fast, f, n) && Complete !in file.state && file.parts != []
    requires file.uudet in {QpEncoded, PtEncoded} && Single in file.flags
    ensures f.state == {Complete} && f.filename == file.filename
    ensures f.size == Some(if Proper in file.flags then file.parts[0].length else -1)
  {
  }

  lemma NameGiven(file: File, n: nat)
    ensures NameOf(file, n) != None && NameOf(file, n) != Some("")
  {
  }

  lemma LeadEmpty(p: Part)
    ensures Lead(p) == [] <==> p.partno <= 1 || p.begin
  {
    if p.partno > 1 { assert 1 in Between(0, p.partno); }
  }

  /** Some part from i to j has the number n. */
  ghost predicate NumberAmong(parts: seq<Part>, i: int, j: int, n: int) {
    exists k :: 0 <= i <= k <= j < |parts| && parts[k].partno == n
  }

  lemma GapsEmpty(parts: seq<Part>, i: nat, j: nat)
    requires Ascending(parts) && i <= j < |parts|
    ensures Gaps(parts, i, j) == []
      <==> forall n :: parts[i].partno <= n <= parts[j].partno ==> NumberAmong(parts, i, j, n)
  {
    forall n | parts[i].partno <= n <= parts[j].partno ensures n in Gaps(parts, i, j) <==> !NumberAmong(parts, i, j, n)
    {
      GapsExact(parts, i, j, n);
    }
    if Gaps(parts, i, j) != [] {
      var n := Gaps(parts, i, j)[0];
      GapsExact(parts, i, j, n);
      hide Gaps;
    }
  }
}
