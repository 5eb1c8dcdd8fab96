/** The global list of files of uulib: parts are inserted as they are scanned, files are checked and merged. */
module GlobalFileList {
  import opened Prelude
  import opened PartList
  import opened PartCheck

  /** The parts with data of all files. */
  ghost function DataParts(files: seq<File>): set<Part> {
    set i, p | 0 <= i < |files| && p in files[i].parts && p.uudet != NotEncoded :: p
  }

  /**
   Whether the parts of one file may be merged into another, on the first pass without gaps, on the second with few.
   */
  ghost predicate Mergeable(iter: File, addit: File, pass: int, knownExt: string -> int) {
    Complete !in iter.state && iter.uudet != NotEncoded
    && !(iter.begin != 0 && addit.begin != 0) && !(iter.end != 0 && addit.end != 0) && iter.uudet == addit.uudet
    && !DifferentKinds(iter, addit, knownExt)
    && Fits(iter.parts, addit.parts)
    && !(pass == 0 && GapsAround(iter.parts, addit.parts) > 0)
    && !(pass == 1 && GapsAround(iter.parts, addit.parts) > 5)
  }

  predicate DifferentKinds(iter: File, addit: File, knownExt: string -> int) {
    knownExt(addit.subfname) != -1 && knownExt(iter.subfname) != -1
    && knownExt(addit.subfname) != knownExt(iter.subfname)
  }

  /** The file after a merge, but for its parts. */
  function MergedHead(iter: File, addit: File): File {
    iter.(filename := if iter.filename.None? then addit.filename else iter.filename,
          mode := if iter.mode == 0 then addit.mode else iter.mode,
          begin := if addit.begin != 0 then 1 else iter.begin,
          end := if addit.end != 0 then 1 else iter.end)
  }

  /** res takes over the parts of addit, which is left with none. */
  ghost predicate MergedInto(before: seq<File>, after: seq<File>, res: nat, addit: nat)
    requires res < |before| && addit < |before|
  {
    res < |after| && res != addit
    && after == before[res := MergedHead(before[res], before[addit]).(parts := after[res].parts)]
                      [addit := before[addit].(parts := [])]
    && after[res].parts != [] && Ascending(after[res].parts)
    && MergeOf(after[res].parts, before[res].parts, before[addit].parts)
  }

  /**
   What keeps one file from being merged into another: it is complete or has no data; both have a begin line, or
   both an end line; the encodings or known extensions differ; a number with data is taken; or the numbers missing
   around its parts are too many, none on the first pass and five on the second. Nothing else does.
   */
  lemma MergeableMeans(iter: File, addit: File, pass: int, knownExt: string -> int)
    ensures Mergeable(iter, addit, pass, knownExt) ==>
      && Complete !in iter.state && iter.uudet == addit.uudet && iter.uudet != NotEncoded
      && (addit.begin != 0 ==> iter.begin == 0) && (addit.end != 0 ==> iter.end == 0)
      && (knownExt(iter.subfname) == knownExt(addit.subfname)
          || knownExt(iter.subfname) == -1 || knownExt(addit.subfname) == -1)
      && (forall p :: p in addit.parts && p.uudet != NotEncoded ==> !HasNumber(iter.parts, p.partno))
      && (pass == 0 ==> GapsAround(iter.parts, addit.parts) <= 0)
      && (pass == 1 ==> GapsAround(iter.parts, addit.parts) <= 5)
    ensures (Complete !in iter.state && iter.uudet == addit.uudet && iter.uudet != NotEncoded
             && (iter.begin == 0 || addit.begin == 0) && (iter.end == 0 || addit.end == 0)
             && knownExt(iter.subfname) == -1 && Fits(iter.parts, addit.parts) && pass !in {0, 1}) ==>
      Mergeable(iter, addit, pass, knownExt)
  {
    hide GapsAround, HasNumber;
  }

  /** The merged file keeps its own file name and mode where it has them; begin and end are only noted to be there. */
  lemma MergedHeadSays(iter: File, addit: File)
    ensures var h := MergedHead(iter, addit);
      && h.filename == (if iter.filename.Some? then iter.filename else addit.filename)
      && h.mode == (if iter.mode != 0 then iter.mode else addit.mode)
      && h.begin == (if addit.begin != 0 then 1 else iter.begin) && h.end == (if addit.end != 0 then 1 else iter.end)
      && h.state == iter.state && h.subfname == iter.subfname && h.uudet == iter.uudet
  {
  }

  /** A merge keeps every part with data: none of them has a number that is taken. */
  lemma MergeKeepsData(before: seq<File>, after: seq<File>, res: nat, addit: nat)
    requires res < |before| && addit < |before| && MergedInto(before, after, res, addit)
    requires Fits(before[res].parts, before[addit].parts)
    ensures DataParts(after) == DataParts(before)
  {
    hide Fits, MergeOf, HasNumber, Ascending;
    forall p: Part | p.uudet != NotEncoded
      ensures p in after[res].parts <==> p in before[res].parts || p in before[addit].parts
    {
      FitsInMerge(after[res].parts, before[res].parts, before[addit].parts, p);
    }
    forall p | p in DataParts(before) ensures p in DataParts(after) {
      var i :| 0 <= i < |before| && p in before[i].parts;
      assert p in after[if i == addit then res else i].parts;
    }
    forall p | p in DataParts(after) ensures p in DataParts(before) {
      var i :| 0 <= i < |after| && p in after[i].parts;
      assert p in before[i].parts || p in before[addit].parts;
    }
  }

  lemma FitsInMerge(r: seq<Part>, into: seq<Part>, extra: seq<Part>, p: Part)
    requires MergeOf(r, into, extra) && Fits(into, extra) && p.uudet != NotEncoded
    ensures p in r <==> p in into || p in extra
  {
  }

  /** A file without parts can go. */
  lemma DropEmptied(files: seq<File>, i: nat)
    requires i < |files| && files[i].parts == []
    ensures DataParts(files[..i] + files[i + 1..]) == DataParts(files)
  {
    var r := files[..i] + files[i + 1..];
    assert forall j :: 0 <= j < |r| ==> r[j] == files[if j < i then j else j + 1];
    forall p | p in DataParts(files) ensures p in DataParts(r) {
      var j :| 0 <= j < |files| && p in files[j].parts;
      assert r[if j < i then j else j - 1] == files[j];
    }
  }

  /** How many names a check of all files has made up. */
  function Taken(before: seq<File>, after: seq<File>): nat
    requires |after| == |before|
  {
    if before == [] then 0
    else
      var i := |before| - 1;
      Taken(before[..i], after[..i]) + if TakesNumber(before[i], after[i]) then 1 else 0
  }

  /** The first k files before and after they are checked; n names have been made up before. */
  ghost predicate CheckedUpTo(before: seq<File>, fast: bool, after: seq<File>, n: nat, k: nat)
    requires k <= |before| == |after|
  {
    forall i :: 0 <= i < k ==> Checked(before[i], fast, after[i], n + Taken(before[..i], after[..i]))
  }

  /** The files before and after a check of all of them. */
  ghost predicate AllChecked(before: seq<File>, fast: bool, after: seq<File>, n: nat) {
    |after| == |before| && CheckedUpTo(before, fast, after, n, |before|)
  }

  lemma CheckKeepsParts(before: seq<File>, fast: bool, after: seq<File>, n: nat)
    requires AllChecked(before, fast, after, n)
    ensures InGoodOrder(before) ==> InGoodOrder(after)
    ensures DataParts(after) == DataParts(before)
  {
    forall i | 0 <= i < |before| ensures after[i].parts == before[i].parts {
      assert Checked(before[i], fast, after[i], n + Taken(before[..i], after[..i]));
    }
  }

  lemma NoneChecked(files: seq<File>, fast: bool, n: nat)
    ensures Taken(files[..0], files[..0]) == 0 && CheckedUpTo(files, fast, files, n, 0)
  {
  }

  lemma NextChecked(before: seq<File>, fast: bool, now: seq<File>, n: nat, i: nat, f: File)
    requires i < |before| == |now| && CheckedUpTo(before, fast, now, n, i)
    requires Checked(before[i], fast, f, n + Taken(before[..i], now[..i]))
    ensures CheckedUpTo(before, fast, now[i := f], n, i + 1)
    ensures Taken(before[..i + 1], now[i := f][..i + 1])
      == Taken(before[..i], now[..i]) + if TakesNumber(before[i], f) then 1 else 0
  {
    hide TakesNumber, Checked, Taken;
    NextTaken(before, now, i, f);
    var after := now[i := f];
    forall j | 0 <= j <= i ensures after[..j] == now[..j] {}
  }

  lemma NextTaken(before: seq<File>, now: seq<File>, i: nat, f: File)
    requires i < |before| == |now|
    ensures Taken(before[..i + 1], now[i := f][..i + 1])
      == Taken(before[..i], now[..i]) + if TakesNumber(before[i], f) then 1 else 0
  {
    hide TakesNumber;
    var after := now[i := f];
    assert before[..i + 1][..i] == before[..i] && after[..i + 1][..i] == now[..i];
  }

  lemma {:induction false} TakenBefore(before: seq<File>, after: seq<File>, i: nat, j: nat)
    requires i < j <= |before| == |after| && TakesNumber(before[i], after[i])
    ensures Taken(before[..i], after[..i]) < Taken(before[..j], after[..j])
    decreases j
  {
    hide TakesNumber;
    assert before[..j][..j - 1] == before[..j - 1] && after[..j][..j - 1] == after[..j - 1];
    if i < j - 1 { TakenBefore(before, after, i, j - 1); }
  }

  /** A check never gives two files the same made-up name. */
  lemma MadeUpOnce(before: seq<File>, fast: bool, after: seq<File>, n: nat, i: nat, j: nat)
    requires AllChecked(before, fast, after, n) && i < j < |before|
    requires TakesNumber(before[i], after[i]) && TakesNumber(before[j], after[j])
    ensures after[i].filename.Some? && after[j].filename.Some? && after[i].filename != after[j].filename
  {
    hide Taken, MadeUp, TakesNumber, Checked;
    var a, b := n + Taken(before[..i], after[..i]), n + Taken(before[..j], after[..j]);
    TakenBefore(before, after, i, j);
    NamedBy(before[i], fast, after[i], a);
    NamedBy(before[j], fast, after[j], b);
    if after[i].filename == after[j].filename { MadeUpDiffer(a + 1, b + 1); }
  }

  lemma NamedBy(file: File, fast: bool, f: File, n: nat)
    requires Checked(file, fast, f, n) && TakesNumber(file, f)
    ensures f.filename == Some(MadeUp(n + 1))
  {
    hide MadeUp, Missing, HasBegin, HasEnd, Capped, Numbers, Estimate, Lead, Usable, LastScanned, FirstEncoded;
  }

  class GlobalFileList {
    var files: seq<File>
    /** How many file names have been made up. */
    var nofnum: nat
    /** The kind of file that the extension of a name is known for, or -1. */
    const knownExt: string -> int

    ghost predicate Valid()
      reads this
    {
      InGoodOrder(files)
    }

    constructor (knownExt: string -> int)
      ensures Valid() && files == [] && nofnum == 0 && this.knownExt == knownExt
    {
      files, nofnum := [], 0;
      this.knownExt := knownExt;
    }

    /**
     UUInsertPartToList: the part enters the first file that accepts it, or begins a file of its own; a part with no
     number and no encoding that could stand alone is refused. No other file changes.
     */
    method Insert(p: Part) returns (r: Return, ghost k: nat)
      requires Valid()
      modifies this`files
      ensures Valid() && GoesTo(old(files), p, k)
      ensures r == NoPlace <==>
        k == |old(files)| && p.partno == -1 && p.uudet != B64Encoded && p.uudet != BhEncoded
      ensures r == NoPlace ==> files == old(files)
      ensures r == Ok && k == |old(files)| ==>
        files == old(files) + [NewFile(if p.partno == -1 then p.(partno := 1) else p)]
      ensures k < |old(files)| ==>
        && k < |files|
        && files == old(files)[k := Updated(old(files)[k], p).(parts := files[k].parts)]
        && OneMore(old(files)[k].parts, files[k].parts, Numbered(old(files)[k].parts, p))
    {
      for iter := 0 to |files|
        invariant files == old(files)
        invariant forall i :: 0 <= i < iter ==> !Accepts(files[i], p)
      {
        hide Updated, OneMore, NewFile, Ascending, Barred;
        var barred := IsBarred(files[iter], p);
        if Related(files[iter], p) && !barred {
          var f := InsertInto(files[iter], p);
          files := files[iter := f];
          return Ok, iter;
        }
      }
      k := |files|;
      if p.partno == -1 {
        if p.uudet == B64Encoded || p.uudet == BhEncoded {
          files := files + [NewFile(p.(partno := 1))];
          return Ok, k;
        }
        return NoPlace, k;
      }
      files := files + [NewFile(p)];
      return Ok, k;
    }

    /** UUCheckGlobalList: every file is checked; its parts and what is known of it stay as they are. */
    method CheckAll(fast: bool)
      requires Valid()
      modifies this`files, `nofnum
      ensures Valid() && AllChecked(old(files), fast, files, old(nofnum))
      ensures nofnum == old(nofnum) + Taken(old(files), files)
      ensures DataParts(files) == DataParts(old(files))
    {
      hide Checked, TakesNumber, AloneAsText, DataParts, Ascending, CheckedUpTo, Taken;
      NoneChecked(files, fast, nofnum);
      for i := 0 to |files|
        invariant |files| == |old(files)|
        invariant nofnum == old(nofnum) + Taken(old(files)[..i], files[..i])
        invariant CheckedUpTo(old(files), fast, files, old(nofnum), i)
        invariant forall j :: i <= j < |files| ==> files[j] == old(files)[j]
      {
        ghost var now := files;
        var f;
        f, nofnum := CheckFile(files[i], fast, nofnum);
        NextChecked(old(files), fast, now, old(nofnum), i, f);
        files := files[i := f];
      }
      assert old(files)[..|files|] == old(files) && files[..|files|] == files;
      CheckKeepsParts(old(files), fast, files, old(nofnum));
    }

    /** UU_smparts_r: merges one file into the first other file that it fits into; -1 when there is none. */
    method MergeFile(addit: nat, pass: int) returns (res: int)
      requires Valid() && addit < |files|
      modifies this`files
      ensures -1 <= res < |old(files)| && |files| == |old(files)|
      ensures forall i :: 0 <= i < (if res == -1 then |files| else res) && i != addit ==>
        !Mergeable(old(files)[i], old(files)[addit], pass, knownExt)
      ensures res == -1 ==> files == old(files)
      ensures res >= 0 ==> Mergeable(old(files)[res], old(files)[addit], pass, knownExt)
      ensures res >= 0 ==> MergedInto(old(files), files, res, addit)
    {
      for iter := 0 to |files|
        invariant files == old(files)
        invariant forall i :: 0 <= i < iter && i != addit ==> !Mergeable(files[i], files[addit], pass, knownExt)
      {
        hide MergeOf, Fits, GapsAround, Ascending;
        var f, g := files[iter], files[addit];
        if Complete in f.state || f.uudet == NotEncoded || iter == addit { continue; }
        if (f.begin != 0 && g.begin != 0) || (f.end != 0 && g.end != 0) || f.uudet != g.uudet { continue; }
        if DifferentKinds(f, g, knownExt) { continue; }
        var flag, count := Compare(f.parts, g.parts);
        if !flag || (pass == 0 && count > 0) || (pass == 1 && count > 5) { continue; }
        var parts := MergeParts(f.parts, g.parts);
        files := files[iter := MergedHead(f, g).(parts := parts)][addit := g.(parts := [])];
        return iter;
      }
      return -1;
    }

    /**
     UUSmerge: merges incomplete files as far as they fit, one after the other, then checks all files. runs are the
     lists before, between and after the merges. Lists stay strictly ascending, every part with data stays in the
     list, and one file goes for every merge; nothing is merged only if no incomplete file fits into another.
     */
    method SmartMerge(pass: int, fast: bool) returns (flag: nat, ghost runs: seq<seq<File>>)
      requires Valid()
      modifies this`files, `nofnum
      ensures Valid() && |files| + flag == |old(files)|
      ensures DataParts(files) == DataParts(old(files))
      ensures |runs| == flag + 1 && runs[0] == old(files)
      ensures forall i :: 0 <= i < flag ==> MergeStep(runs[i], runs[i + 1], pass, knownExt)
      ensures AllChecked(runs[flag], fast, files, old(nofnum)) && nofnum == old(nofnum) + Taken(runs[flag], files)
      ensures flag == 0 <==> NothingMergeable(old(files), pass, knownExt)
    {
      var iter := 0;
      flag, runs := 0, [files];
      while iter < |files|
        invariant iter <= |files| && Valid() && |files| + flag == |old(files)| && nofnum == old(nofnum)
        invariant DataParts(files) == DataParts(old(files))
        invariant |runs| == flag + 1 && runs[0] == old(files) && runs[flag] == files
        invariant forall i :: 0 <= i < flag ==> MergeStep(runs[i], runs[i + 1], pass, knownExt)
        invariant flag == 0 ==> NoneBefore(files, iter, pass, knownExt)
        decreases |files| - iter
      {
        hide DataParts, Mergeable, Ascending, MergeStep;
        if Complete in files[iter].state || files[iter].uudet == NotEncoded {
          iter := iter + 1;
        } else {
          ghost var before := files;
          var res := MergeFile(iter, pass);
          if res >= 0 {
            MergeOnce(before, files, res, iter, pass, knownExt);
            files := files[..iter] + files[iter + 1..];
            flag, runs := flag + 1, runs + [files];
          } else {
            iter := iter + 1;
          }
        }
      }
      hide DataParts, Mergeable, Ascending, MergeStep, AllChecked, Taken;
      if flag > 0 { SomethingMergeable(runs[0], runs[1], pass, knownExt); }
      CheckAll(fast);
      hide Checked, CheckedUpTo;
      assert |files| == |runs[flag]| by { AllCheckedLength(runs[flag], fast, files, old(nofnum)); }
    }
  }

  /** The file is not complete and has data. */
  predicate Unfinished(f: File) {
    Complete !in f.state && f.uudet != NotEncoded
  }

  /** None of the first k files fits into another. */
  ghost predicate NoneBefore(files: seq<File>, k: int, pass: int, knownExt: string -> int) {
    forall i, j :: 0 <= i < k && i < |files| && 0 <= j < |files| && i != j && Unfinished(files[i]) ==>
      !Mergeable(files[j], files[i], pass, knownExt)
  }

  ghost predicate NothingMergeable(files: seq<File>, pass: int, knownExt: string -> int) {
    NoneBefore(files, |files|, pass, knownExt)
  }

  /** One unfinished file has been merged into another one that it fits into, and is gone. */
  ghost predicate MergeStep(before: seq<File>, after: seq<File>, pass: int, knownExt: string -> int) {
    exists res: nat, addit: nat, now: seq<File> ::
      res < |before| && addit < |before| && |now| == |before| && Unfinished(before[addit])
      && Mergeable(before[res], before[addit], pass, knownExt) && MergedInto(before, now, res, addit)
      && after == now[..addit] + now[addit + 1..]
  }

  lemma SomethingMergeable(before: seq<File>, after: seq<File>, pass: int, knownExt: string -> int)
    requires MergeStep(before, after, pass, knownExt)
    ensures !NothingMergeable(before, pass, knownExt)
  {
    hide Mergeable;
  }

  lemma AllCheckedLength(before: seq<File>, fast: bool, after: seq<File>, n: nat)
    requires AllChecked(before, fast, after, n)
    ensures |after| == |before|
  {
  }

  lemma MergeOnce(before: seq<File>, after: seq<File>, res: nat, addit: nat, pass: int, knownExt: string -> int)
    requires InGoodOrder(before) && res < |before| && addit < |before| && MergedInto(before, after, res, addit)
    requires Mergeable(before[res], before[addit], pass, knownExt) && Unfinished(before[addit]) && |after| == |before|
    ensures MergeStep(before, after[..addit] + after[addit + 1..], pass, knownExt)
    ensures InGoodOrder(after[..addit] + after[addit + 1..])
    ensures DataParts(after[..addit] + after[addit + 1..]) == DataParts(before)
  {
    hide DataParts, GapsAround, Ascending, Fits, MergeOf;
    MergeKeepsData(before, after, res, addit);
    DropEmptied(after, addit);
    var r := after[..addit] + after[addit + 1..];
    assert forall j :: 0 <= j < |r| ==> r[j] == after[if j < addit then j else j + 1];
  }
}
