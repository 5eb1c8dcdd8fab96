/** The parts of a multipart article: Message-IDs packed against a reference key, and binary search by part number. */
module MidStore {
  import opened Prelude

  // ---------------------------------------------------------------- packing

  /** How many bytes agree from the start, given that the first i do, up to bmax. */
  function Prefix(key: Text, mid: Text, i: nat, bmax: nat): (b: nat)
    requires i <= bmax <= |key| && bmax <= |mid|
    ensures i <= b <= bmax
    decreases bmax - i
  {
    if i == bmax || key[i] != mid[i] then i else Prefix(key, mid, i + 1, bmax)
  }

  /** How many bytes agree from the end, given that the last i do, up to emax. */
  function Suffix(key: Text, mid: Text, i: nat, emax: nat): (e: nat)
    requires i <= emax <= |key| && emax <= |mid|
    ensures i <= e <= emax
    decreases emax - i
  {
    if i == emax || key[|key| - 1 - i] != mid[|mid| - 1 - i] then i else Suffix(key, mid, i + 1, emax)
  }

  lemma {:induction false} PrefixAgrees(key: Text, mid: Text, i: nat, bmax: nat)
    requires i <= bmax <= |key| && bmax <= |mid|
    ensures forall k :: i <= k < Prefix(key, mid, i, bmax) ==> key[k] == mid[k]
    decreases bmax - i
  {
    if i < bmax && key[i] == mid[i] { PrefixAgrees(key, mid, i + 1, bmax); }
  }

  lemma {:induction false} SuffixAgrees(key: Text, mid: Text, i: nat, emax: nat)
    requires i <= emax <= |key| && emax <= |mid| && key[|key| - i..] == mid[|mid| - i..]
    ensures var e := Suffix(key, mid, i, emax); key[|key| - e..] == mid[|mid| - e..]
    decreases emax - i
  {
    if i < emax && key[|key| - 1 - i] == mid[|mid| - 1 - i] {
      assert key[|key| - (i + 1)..] == [key[|key| - 1 - i]] + key[|key| - i..];
      assert mid[|mid| - (i + 1)..] == [mid[|mid| - 1 - i]] + mid[|mid| - i..];
      SuffixAgrees(key, mid, i + 1, emax);
    }
  }

  function Head(mid: Text, key: Text): (b: Byte)
    ensures b <= |key| && b <= |mid|
  {
    Prefix(key, mid, 0, Min(Min(|key|, |mid|), UCHAR_MAX))
  }

  function Tail(mid: Text, key: Text): (e: Byte)
    ensures e <= |key| && e + Head(mid, key) <= |mid|
  {
    Suffix(key, mid, 0, Min(Min(|key|, |mid|) - Head(mid, key), UCHAR_MAX))
  }

  /** The characters of its own that a Message-ID keeps. */
  function Middle(mid: Text, key: Text): Text {
    mid[Head(mid, key)..|mid| - Tail(mid, key)]
  }

  function Packed(mid: Text, key: Text): Text {
    [Head(mid, key), Tail(mid, key)] + Middle(mid, key) + [0]
  }

  method CountPrefix(key: Text, mid: Text, bmax: nat) returns (b: nat)
    requires bmax <= |key| && bmax <= |mid|
    ensures b == Prefix(key, mid, 0, bmax)
  {
    b := 0;
    while b != bmax && key[b] == mid[b]
      invariant b <= bmax && Prefix(key, mid, b, bmax) == Prefix(key, mid, 0, bmax)
      decreases bmax - b
    {
      b := b + 1;
    }
  }

  method CountSuffix(key: Text, mid: Text, emax: nat) returns (e: nat)
    requires emax <= |key| && emax <= |mid|
    ensures e == Suffix(key, mid, 0, emax)
  {
    e := 0;
    while e != emax && key[|key| - 1 - e] == mid[|mid| - 1 - e]
      invariant e <= emax && Suffix(key, mid, e, emax) == Suffix(key, mid, 0, emax)
      decreases emax - e
    {
      e := e + 1;
    }
  }

  /** pack_message_id, and Packer.pack into a buffer of its own. */
  method Pack(mid: Text, key: Text) returns (rec: Text)
    ensures rec == Packed(mid, key)
  {
    hide Prefix, Suffix;
    var shorter := Min(|key|, |mid|);
    var b := CountPrefix(key, mid, Min(shorter, UCHAR_MAX));
    var e := CountSuffix(key, mid, Min(shorter - b, UCHAR_MAX));
    return [b, e] + mid[b..|mid| - e] + [0];
  }

  /** The text before the first NUL. */
  function UpToNul(s: Text): (r: Text)
    ensures r <= s && 0 !in r
    ensures r == s <==> 0 !in s
  {
    if s == [] || s[0] == 0 then [] else [s[0]] + UpToNul(s[1..])
  }

  /** What unpacking a packed Message-ID gives. */
  function Recovered(mid: Text, key: Text): Text {
    key[..Head(mid, key)] + UpToNul(Middle(mid, key)) + key[|key| - Tail(mid, key)..]
  }

  lemma HeadAgrees(mid: Text, key: Text)
    ensures key[..Head(mid, key)] == mid[..Head(mid, key)]
  {
    hide Prefix;
    PrefixAgrees(key, mid, 0, Min(Min(|key|, |mid|), UCHAR_MAX));
  }

  lemma TailAgrees(mid: Text, key: Text)
    ensures key[|key| - Tail(mid, key)..] == mid[|mid| - Tail(mid, key)..]
  {
    hide Suffix, Head;
    SuffixAgrees(key, mid, 0, Min(Min(|key|, |mid|) - Head(mid, key), UCHAR_MAX));
  }

  lemma PackedParts(mid: Text, key: Text)
    ensures key[..Head(mid, key)] == mid[..Head(mid, key)]
    ensures key[|key| - Tail(mid, key)..] == mid[|mid| - Tail(mid, key)..]
    ensures mid == mid[..Head(mid, key)] + Middle(mid, key) + mid[|mid| - Tail(mid, key)..]
  {
    HeadAgrees(mid, key);
    TailAgrees(mid, key);
    hide Head, Tail;
  }

  lemma {:induction false} PrefixEnds(key: Text, mid: Text, i: nat, bmax: nat)
    requires i <= bmax <= |key| && bmax <= |mid|
    ensures var b := Prefix(key, mid, i, bmax); b == bmax || key[b] != mid[b]
    decreases bmax - i
  {
    if i < bmax && key[i] == mid[i] { PrefixEnds(key, mid, i + 1, bmax); }
  }

  lemma {:induction false} SuffixEnds(key: Text, mid: Text, i: nat, emax: nat)
    requires i <= emax <= |key| && emax <= |mid|
    ensures var e := Suffix(key, mid, i, emax); e == emax || key[|key| - 1 - e] != mid[|mid| - 1 - e]
    decreases emax - i
  {
    if i < emax && key[|key| - 1 - i] == mid[|mid| - 1 - i] { SuffixEnds(key, mid, i + 1, emax); }
  }

  /**
   The prefix shared with the key is the longest of up to 255 bytes, and the suffix the longest that does not meet
   it.
   */
  lemma SharedLongest(mid: Text, key: Text)
    ensures var b := Head(mid, key);
      key[..b] == mid[..b] && (b == 255 || b == |key| || b == |mid| || key[b] != mid[b])
    ensures var b, e := Head(mid, key), Tail(mid, key);
      && b + e <= |key| && b + e <= |mid| && key[|key| - e..] == mid[|mid| - e..]
      && (e == 255 || b + e == |key| || b + e == |mid| || key[|key| - 1 - e] != mid[|mid| - 1 - e])
  {
    HeadAgrees(mid, key);
    TailAgrees(mid, key);
    HeadEnds(mid, key);
    TailEnds(mid, key);
    hide Head, Tail;
  }

  lemma HeadEnds(mid: Text, key: Text)
    ensures var b := Head(mid, key); b == 255 || b == |key| || b == |mid| || key[b] != mid[b]
  {
    PrefixEnds(key, mid, 0, Min(Min(|key|, |mid|), UCHAR_MAX));
    hide Prefix;
  }

  lemma TailEnds(mid: Text, key: Text)
    ensures var b, e := Head(mid, key), Tail(mid, key);
      && b + e <= |key| && b + e <= |mid|
      && (e == 255 || b + e == |key| || b + e == |mid| || key[|key| - 1 - e] != mid[|mid| - 1 - e])
  {
    SuffixEnds(key, mid, 0, Min(Min(|key|, |mid|) - Head(mid, key), UCHAR_MAX));
    hide Head, Suffix;
  }

  /** A record is the length of the prefix, that of the suffix, the bytes in between and a NUL. */
  lemma PackedLayout(mid: Text, key: Text)
    ensures var rec, b, e := Packed(mid, key), Head(mid, key), Tail(mid, key);
      && |rec| == |mid| - b - e + 3 && rec[0] == b && rec[1] == e && rec[|rec| - 1] == 0
      && rec[2..|rec| - 1] == mid[b..|mid| - e]
  {
    hide Head, Tail;
  }

  /**
   Unpacking gives back the Message-ID exactly when no NUL stands between the prefix and the suffix it shares with the
   key; so it always does for a Message-ID without NUL.
   */
  lemma PackUnpack(mid: Text, key: Text)
    ensures Recovered(mid, key) == mid <==> 0 !in Middle(mid, key)
    ensures 0 !in mid ==> Recovered(mid, key) == mid
  {
    hide Head, Tail;
    PackedParts(mid, key);
    assert |UpToNul(Middle(mid, key))| < |Middle(mid, key)| || UpToNul(Middle(mid, key)) == Middle(mid, key);
  }

  /** rec stands in the buffer at an offset. */
  ghost predicate RecordAt(buf: Text, offset: nat, rec: Text) {
    offset + |rec| <= |buf| && buf[offset..offset + |rec|] == rec
  }

  lemma RecordStays(buf: Text, more: Text, offset: nat, rec: Text)
    requires RecordAt(buf, offset, rec)
    ensures RecordAt(buf + more, offset, rec)
  {
    assert (buf + more)[offset..offset + |rec|] == buf[offset..offset + |rec|];
  }

  lemma RecordAdded(buf: Text, rec: Text)
    ensures RecordAt(buf + rec, |buf|, rec)
  {
  }

  lemma RecordBytes(buf: Text, offset: nat, rec: Text, i: nat)
    requires RecordAt(buf, offset, rec) && i < |rec|
    ensures buf[offset + i] == rec[i]
  {
    assert buf[offset..offset + |rec|][i] == rec[i];
  }

  method StrLen(s: Text, start: nat) returns (len: nat)
    requires exists k :: start <= k < |s| && s[k] == 0
    ensures start + len < |s| && s[start..start + len] == UpToNul(s[start..])
  {
    hide UpToNul;
    len := 0;
    ghost var rest := s[start..];
    assert rest[0..] == rest && rest[..0] + UpToNul(rest) == UpToNul(rest);
    while s[start + len] != 0
      invariant start + len < |s| && exists k :: start + len <= k < |s| && s[k] == 0
      invariant UpToNul(rest) == rest[..len] + UpToNul(rest[len..])
      decreases |s| - len
    {
      assert rest[len] == s[start + len];
      UpToNulAt(rest, len);
      len := len + 1;
    }
    assert rest[len..][0] == 0 && rest[..len] + [] == rest[..len];
    UpToNulStops(rest[len..]);
  }

  lemma UpToNulStops(s: Text)
    requires s != [] && s[0] == 0
    ensures UpToNul(s) == []
  {
  }

  lemma UpToNulAt(s: Text, i: nat)
    requires i < |s| && s[i] != 0 && UpToNul(s) == s[..i] + UpToNul(s[i..])
    ensures UpToNul(s) == s[..i + 1] + UpToNul(s[i + 1..])
  {
    hide UpToNul;
    UpToNulFirst(s[i..]);
    assert s[i..][1..] == s[i + 1..];
    assert s[..i + 1] == s[..i] + [s[i]];
    var rest := UpToNul(s[i + 1..]);
    assert s[..i] + ([s[i]] + rest) == s[..i] + [s[i]] + rest;
  }

  lemma UpToNulFirst(s: Text)
    requires s != [] && s[0] != 0
    ensures UpToNul(s) == [s[0]] + UpToNul(s[1..])
  {
  }

  lemma {:induction false} UpToNulEnds(s: Text, more: Text)
    ensures UpToNul(s + [0] + more) == UpToNul(s)
  {
    if s == [] {
      assert (s + [0] + more)[0] == 0;
    } else {
      assert (s + [0] + more)[1..] == s[1..] + [0] + more;
      UpToNulEnds(s[1..], more);
    }
  }

  /** A record's text ends with the first NUL after its two lengths, whatever comes after the record. */
  lemma RecordText(buf: Text, offset: nat, mid: Text, key: Text)
    requires RecordAt(buf, offset, Packed(mid, key))
    ensures offset + 2 < |buf| && buf[offset] == Head(mid, key) && buf[offset + 1] == Tail(mid, key)
    ensures exists k :: offset + 2 <= k < |buf| && buf[k] == 0
    ensures UpToNul(buf[offset + 2..]) == UpToNul(Middle(mid, key))
  {
    hide Head, Tail, Middle;
    var rec, middle := Packed(mid, key), Middle(mid, key);
    RecordBytes(buf, offset, rec, 0);
    RecordBytes(buf, offset, rec, 1);
    RecordBytes(buf, offset, rec, |rec| - 1);
    var more := buf[offset + |rec|..];
    assert buf[offset + 2..] == middle + [0] + more by {
      assert buf[offset..] == rec + more;
      assert buf[offset + 2..] == (rec + more)[2..];
    }
    UpToNulEnds(middle, more);
  }

  /** Parts.unpack_message_id: takes the two lengths, then the text up to the next NUL in the buffer. */
  method Unpack(buf: Text, offset: nat, ghost mid: Text, key: Text) returns (r: Text)
    requires RecordAt(buf, offset, Packed(mid, key))
    ensures r == Recovered(mid, key)
  {
    hide Head, Tail, Middle, RecordAt, UpToNul;
    RecordText(buf, offset, mid, key);
    var b, e := buf[offset], buf[offset + 1];
    var len := StrLen(buf, offset + 2);
    r := key[..b] + buf[offset + 2..offset + 2 + len] + key[|key| - e..];
  }

  // ---------------------------------------------------------------- lookup

  /** std::lower_bound on the numbers from lo to hi. */
  function LowerBound(numbers: seq<int>, n: int, lo: nat, hi: nat): (p: nat)
    requires lo <= hi <= |numbers|
    ensures lo <= p <= hi
    decreases hi - lo
  {
    if lo == hi then lo
    else
      var mid := lo + (hi - lo) / 2;
      if numbers[mid] < n then LowerBound(numbers, n, mid + 1, hi) else LowerBound(numbers, n, lo, mid)
  }

  ghost predicate Sorted(numbers: seq<int>) {
    forall i, j :: 0 <= i < j < |numbers| ==> numbers[i] <= numbers[j]
  }

  /** On sorted numbers the search finds the first that is not smaller. */
  lemma {:induction false} LowerBoundSorted(numbers: seq<int>, n: int, lo: nat, hi: nat)
    requires Sorted(numbers) && lo <= hi <= |numbers|
    ensures forall i :: lo <= i < LowerBound(numbers, n, lo, hi) ==> numbers[i] < n
    ensures forall i :: LowerBound(numbers, n, lo, hi) <= i < hi ==> numbers[i] >= n
    decreases hi - lo
  {
    if lo < hi {
      var mid := lo + (hi - lo) / 2;
      if numbers[mid] < n {
        LowerBoundSorted(numbers, n, mid + 1, hi);
      } else {
        LowerBoundSorted(numbers, n, lo, mid);
      }
    }
  }

  /** A search from lo to hi finds every number in it. */
  ghost predicate AllFound(numbers: seq<int>, lo: nat, hi: nat)
    requires lo <= hi <= |numbers|
  {
    forall i :: lo <= i < hi ==> LowerBound(numbers, numbers[i], lo, hi) == i
  }

  lemma {:induction false} FoundThenAscending(numbers: seq<int>, lo: nat, hi: nat)
    requires lo <= hi <= |numbers| && Distinct(numbers) && AllFound(numbers, lo, hi)
    ensures forall i, j :: lo <= i < j < hi ==> numbers[i] < numbers[j]
    decreases hi - lo
  {
    hide LowerBound, Distinct;
    if lo < hi {
      var mid := lo + (hi - lo) / 2;
      forall i | lo <= i < hi
        ensures i < mid ==> numbers[i] < numbers[mid] && LowerBound(numbers, numbers[i], lo, mid) == i
        ensures mid < i ==> numbers[mid] < numbers[i] && LowerBound(numbers, numbers[i], mid + 1, hi) == i
      {
        FoundOnItsSide(numbers, lo, hi, i);
      }
      FoundThenAscending(numbers, lo, mid);
      FoundThenAscending(numbers, mid + 1, hi);
    }
  }

  lemma FoundOnItsSide(numbers: seq<int>, lo: nat, hi: nat, i: nat)
    requires lo <= i < hi <= |numbers| && Distinct(numbers) && LowerBound(numbers, numbers[i], lo, hi) == i
    ensures var mid := lo + (hi - lo) / 2;
      && (i < mid ==> numbers[i] < numbers[mid] && LowerBound(numbers, numbers[i], lo, mid) == i)
      && (mid < i ==> numbers[mid] < numbers[i] && LowerBound(numbers, numbers[i], mid + 1, hi) == i)
  {
    var mid := lo + (hi - lo) / 2;
    assert i != mid ==> numbers[i] != numbers[mid];
  }

  /** Of distinct numbers, binary search finds every one exactly when they are ascending. */
  lemma FoundExactlyWhenSorted(numbers: seq<int>)
    requires Distinct(numbers)
    ensures AllFound(numbers, 0, |numbers|) <==> Sorted(numbers)
  {
    if AllFound(numbers, 0, |numbers|) {
      FoundThenAscending(numbers, 0, |numbers|);
    }
    if Sorted(numbers) {
      forall i | 0 <= i < |numbers| ensures LowerBound(numbers, numbers[i], 0, |numbers|) == i {
        assert forall j :: 0 <= j < i ==> numbers[j] < numbers[i];
        LowerBoundSorted(numbers, numbers[i], 0, |numbers|);
        assert numbers[LowerBound(numbers, numbers[i], 0, |numbers|)] >= numbers[i];
      }
    }
  }

  // ---------------------------------------------------------------- the store

  /** A part as the caller knows it. */
  datatype Entry = Entry(number: int, mid: Text, bytes: int)

  datatype PartRef = PartRef(midOffset: nat, number: int, bytes: int)

  /** What was added first under a number. */
  function Lookup(entries: seq<Entry>, n: int): Option<Entry> {
    if entries == [] then None
    else if entries[0].number == n then Some(entries[0])
    else Lookup(entries[1..], n)
  }

  lemma {:induction false} LookupFirst(entries: seq<Entry>, n: int, i: nat)
    requires i < |entries| && entries[i].number == n && forall j :: 0 <= j < i ==> entries[j].number != n
    ensures Lookup(entries, n) == Some(entries[i])
  {
    if i > 0 {
      LookupFirst(entries[1..], n, i - 1);
    }
  }

  lemma {:induction false} LookupNone(entries: seq<Entry>, n: int)
    ensures Lookup(entries, n).None? <==> forall j :: 0 <= j < |entries| ==> entries[j].number != n
  {
    if entries != [] {
      LookupNone(entries[1..], n);
      assert forall j :: 1 <= j < |entries| ==> entries[j] == entries[1..][j - 1];
    }
  }

  function PutAt(entries: seq<Entry>, i: nat, e: Entry): seq<Entry>
    requires i <= |entries|
  {
    entries[..i] + [e] + entries[i..]
  }

  /** Putting an entry with a new number anywhere changes what is found under that number only. */
  lemma {:induction false} LookupPut(entries: seq<Entry>, i: nat, e: Entry, n: int)
    requires i <= |entries| && Lookup(entries, e.number).None?
    ensures Lookup(PutAt(entries, i, e), n) == if n == e.number then Some(e) else Lookup(entries, n)
  {
    var r := PutAt(entries, i, e);
    if i == 0 {
      assert r[1..] == entries;
    } else {
      assert r[1..] == PutAt(entries[1..], i - 1, e);
      LookupPut(entries[1..], i - 1, e, n);
    }
  }

  function NumbersOf(entries: seq<Entry>): (r: seq<int>)
    ensures |r| == |entries| && forall i :: 0 <= i < |r| ==> r[i] == entries[i].number
  {
    seq(|entries|, i requires 0 <= i < |entries| => entries[i].number)
  }

  /** On sorted numbers, finding the lower bound and comparing is looking up the first. */
  lemma SearchIsLookup(entries: seq<Entry>, n: int, p: nat)
    requires Sorted(NumbersOf(entries)) && p == LowerBound(NumbersOf(entries), n, 0, |entries|)
    ensures Lookup(entries, n) == if p < |entries| && entries[p].number == n then Some(entries[p]) else None
  {
    hide LowerBound, Sorted, NumbersOf, Lookup;
    SortedIsOrdered(entries, n, p);
    if p < |entries| && entries[p].number == n {
      LookupFirst(entries, n, p);
    } else {
      LookupNone(entries, n);
    }
  }

  /** The part that the search ends at, if it has the number. */
  function Answer(entries: seq<Entry>, n: int): Option<Entry> {
    var p := LowerBound(NumbersOf(entries), n, 0, |entries|);
    if p < |entries| && entries[p].number == n then Some(entries[p]) else None
  }

  /** Of parts with distinct numbers every one is returned under its number exactly when they are in order. */
  lemma AnswersExactlyWhenSorted(entries: seq<Entry>)
    requires Distinct(NumbersOf(entries))
    ensures (forall i :: 0 <= i < |entries| ==> Answer(entries, entries[i].number) == Some(entries[i]))
      <==> Sorted(NumbersOf(entries))
  {
    var numbers := NumbersOf(entries);
    FoundExactlyWhenSorted(numbers);
    hide LowerBound, Sorted;
    forall i | 0 <= i < |entries|
      ensures Answer(entries, entries[i].number) == Some(entries[i])
        <==> LowerBound(numbers, numbers[i], 0, |entries|) == i
    {
      assert numbers[i] == entries[i].number;
      var p := LowerBound(numbers, numbers[i], 0, |entries|);
      assert p < |entries| && p != i ==> numbers[p] != numbers[i];
    }
  }

  /** A batch of parts on their way into the store. */
  class PartBatch {
    var referenceMid: Text
    var nPartsFound: nat
    var nPartsTotal: nat
    var parts: seq<(int, int, Text)>
    var packedMidsLen: nat
    ghost var entries: seq<Entry>

    ghost predicate Valid()
      reads this
    {
      |parts| == |entries| == nPartsFound
      && (forall i :: 0 <= i < |parts| ==>
            parts[i] == (entries[i].number, entries[i].bytes, Packed(entries[i].mid, referenceMid)))
    }

    constructor Init(mid: Text, nPartsTotal: nat)
      ensures Valid() && entries == [] && referenceMid == mid && this.nPartsTotal == nPartsTotal
    {
      referenceMid, packedMidsLen, this.nPartsTotal, nPartsFound := mid, 0, nPartsTotal, 0;
      parts, entries := [], [];
    }

    method AddPart(number: int, mid: Text, bytes: int)
      requires Valid()
      modifies this
      ensures Valid() && entries == old(entries) + [Entry(number, mid, bytes)] && referenceMid == old(referenceMid)
      ensures packedMidsLen == old(packedMidsLen) + |Packed(mid, referenceMid)|
      ensures nPartsTotal == if old(nPartsTotal) < nPartsFound then nPartsFound else old(nPartsTotal)
    {
      hide Packed;
      var rec := Pack(mid, referenceMid);
      packedMidsLen := packedMidsLen + |rec|;
      nPartsFound := nPartsFound + 1;
      if nPartsTotal < nPartsFound { nPartsTotal := nPartsFound; }
      parts := parts + [(number, bytes, rec)];
      entries := entries + [Entry(number, mid, bytes)];
    }
  }

  class Parts {
    var nPartsTotal: nat
    var parts: seq<PartRef>
    var partMidBuf: Text
    ghost var entries: seq<Entry>

    /** Every part's record stands in the buffer where its offset says. */
    ghost predicate Valid(key: Text)
      reads this
    {
      |parts| == |entries|
      && (forall i :: 0 <= i < |parts| ==> parts[i].number == entries[i].number && parts[i].bytes == entries[i].bytes)
      && (forall i :: 0 <= i < |parts| ==> RecordAt(partMidBuf, parts[i].midOffset, Packed(entries[i].mid, key)))
    }

    ghost predicate InOrder()
      reads this
    {
      Sorted(NumbersOf(entries))
    }

    constructor ()
      ensures forall key :: Valid(key)
      ensures entries == [] && nPartsTotal == 0
    {
      nPartsTotal, parts, partMidBuf, entries := 0, [], [], [];
    }

    method Search(n: int) returns (p: nat)
      requires |parts| == |entries|
      requires forall i :: 0 <= i < |parts| ==> parts[i].number == entries[i].number
      ensures p == LowerBound(NumbersOf(entries), n, 0, |entries|)
    {
      var lo, hi := 0, |parts|;
      while lo < hi
        invariant 0 <= lo <= hi <= |parts|
        invariant LowerBound(NumbersOf(entries), n, lo, hi) == LowerBound(NumbersOf(entries), n, 0, |entries|)
      {
        var mid := lo + (hi - lo) / 2;
        if parts[mid].number < n { lo := mid + 1; } else { hi := mid; }
      }
      return lo;
    }

    /** The Message-ID and size that the search gives for a part number: on parts in order, what was added first. */
    method GetPartInfo(n: int, key: Text) returns (r: Option<(Text, int)>)
      requires Valid(key)
      ensures var e := Answer(entries, n);
        r == if e.None? then None else Some((Recovered(e.value.mid, key), e.value.bytes))
      ensures InOrder() ==> Answer(entries, n) == Lookup(entries, n)
    {
      hide Packed, Recovered, RecordAt;
      var p := Search(n);
      if InOrder() { SearchIsLookup(entries, n, p); }
      if p == |parts| || parts[p].number != n { return None; }
      var mid := Unpack(partMidBuf, parts[p].midOffset, entries[p].mid, key);
      return Some((mid, parts[p].bytes));
    }

    /**
     Adds a part somewhere, unless the search finds one with its number. On parts in order that is exactly when there is
     none, the parts stay in order, and what is found under any other number stays.
     */
    method AddPart(num: int, mid: Text, bytes: int, key: Text) returns (added: bool)
      requires Valid(key)
      modifies this
      ensures Valid(key) && nPartsTotal == old(nPartsTotal)
      ensures !added ==> entries == old(entries)
      ensures added ==>
        exists p: nat :: p <= |old(entries)| && entries == PutAt(old(entries), p, Entry(num, mid, bytes))
      ensures old(InOrder()) ==> InOrder() && added == Lookup(old(entries), num).None?
      ensures old(InOrder()) && added ==> forall n :: (
        Lookup(entries, n) == if n == num then Some(Entry(num, mid, bytes)) else Lookup(old(entries), n))
    {
      hide Packed, RecordAt, Sorted, LowerBound, Lookup;
      var p := Search(num);
      ghost var before := entries;
      var e := Entry(num, mid, bytes);
      if InOrder() { SearchIsLookup(entries, num, p); }
      if p != |parts| && parts[p].number == num { return false; }
      if InOrder() { PutSorted(entries, p, e); }
      Store(p, e, key);
      if Sorted(NumbersOf(before)) {
        forall n ensures Lookup(PutAt(before, p, e), n) == if n == num then Some(e) else Lookup(before, n) {
          LookupPut(before, p, e, n);
        }
      }
      return true;
    }

    /** Inserts the part at position p and appends its packed id to the buffer. */
    method Store(p: nat, e: Entry, key: Text)
      requires Valid(key) && p <= |parts|
      modifies this
      ensures Valid(key) && nPartsTotal == old(nPartsTotal) && entries == PutAt(old(entries), p, e)
    {
      hide Packed, RecordAt;
      var rec := Pack(e.mid, key);
      forall i | 0 <= i < |parts|
        ensures RecordAt(partMidBuf + rec, parts[i].midOffset, Packed(entries[i].mid, key))
      {
        RecordStays(partMidBuf, rec, parts[i].midOffset, Packed(entries[i].mid, key));
      }
      RecordAdded(partMidBuf, rec);
      parts := parts[..p] + [PartRef(|partMidBuf|, e.number, e.bytes)] + parts[p..];
      entries := PutAt(entries, p, e);
      partMidBuf := partMidBuf + rec;
    }

    /** Replaces the contents by those of a batch, in the order of the batch. */
    method SetParts(batch: PartBatch)
      requires batch.Valid()
      modifies this
      ensures Valid(batch.referenceMid) && entries == batch.entries && nPartsTotal == batch.nPartsTotal
      ensures batch.Valid() && batch.entries == old(batch.entries)
    {
      parts, partMidBuf, entries, nPartsTotal := [], [], [], batch.nPartsTotal;
      for i := 0 to batch.nPartsFound
        invariant batch.Valid() && Valid(batch.referenceMid) && entries == batch.entries[..i]
        invariant nPartsTotal == batch.nPartsTotal
      {
        hide Packed, RecordAt;
        var rec := batch.parts[i].2;
        forall j | 0 <= j < |parts|
          ensures RecordAt(partMidBuf + rec, parts[j].midOffset, Packed(entries[j].mid, batch.referenceMid))
        {
          RecordStays(partMidBuf, rec, parts[j].midOffset, Packed(entries[j].mid, batch.referenceMid));
        }
        RecordAdded(partMidBuf, rec);
        parts := parts + [PartRef(|partMidBuf|, batch.parts[i].0, batch.parts[i].1)];
        partMidBuf := partMidBuf + rec;
        entries := entries + [batch.entries[i]];
      }
    }
  }

  lemma PutSorted(entries: seq<Entry>, p: nat, e: Entry)
    requires Sorted(NumbersOf(entries)) && p == LowerBound(NumbersOf(entries), e.number, 0, |entries|)
    ensures Sorted(NumbersOf(PutAt(entries, p, e)))
  {
    hide PutAt, LowerBound, NumbersOf;
    SortedIsOrdered(entries, e.number, p);
    hide Sorted;
    PutBetween(entries, p, e);
    OrderedIsSorted(PutAt(entries, p, e));
  }

  lemma SortedIsOrdered(entries: seq<Entry>, n: int, p: nat)
    requires Sorted(NumbersOf(entries)) && p == LowerBound(NumbersOf(entries), n, 0, |entries|)
    ensures forall i, j :: 0 <= i < j < |entries| ==> entries[i].number <= entries[j].number
    ensures forall i :: 0 <= i < |entries| ==> if i < p then entries[i].number < n else n <= entries[i].number
  {
    hide LowerBound;
    var numbers := NumbersOf(entries);
    LowerBoundSorted(numbers, n, 0, |entries|);
    forall i | 0 <= i < |entries| ensures if i < p then entries[i].number < n else n <= entries[i].number {
      assert numbers[i] == entries[i].number;
    }
    forall i, j | 0 <= i < j < |entries| ensures entries[i].number <= entries[j].number {
      assert numbers[i] <= numbers[j];
    }
  }

  lemma OrderedIsSorted(entries: seq<Entry>)
    requires forall i, j :: 0 <= i < j < |entries| ==> entries[i].number <= entries[j].number
    ensures Sorted(NumbersOf(entries))
  {
  }

  lemma PutBetween(entries: seq<Entry>, p: nat, e: Entry)
    requires p <= |entries| && forall i, j :: 0 <= i < j < |entries| ==> entries[i].number <= entries[j].number
    requires forall i :: 0 <= i < |entries| ==>
      if i < p then entries[i].number < e.number else e.number <= entries[i].number
    ensures forall i, j :: 0 <= i < j < |PutAt(entries, p, e)| ==>
      PutAt(entries, p, e)[i].number <= PutAt(entries, p, e)[j].number
  {
    var r := PutAt(entries, p, e);
    forall i, j | 0 <= i < j < |r| ensures r[i].number <= r[j].number {
      PutWhere(entries, p, e, i);
      PutWhere(entries, p, e, j);
      hide PutAt;
    }
  }

  lemma PutWhere(entries: seq<Entry>, p: nat, e: Entry, i: nat)
    requires p <= |entries| && i <= |entries|
    ensures |PutAt(entries, p, e)| == |entries| + 1
    ensures PutAt(entries, p, e)[i] == if i < p then entries[i] else if i == p then e else entries[i - 1]
  {
  }

  /** Adding any sequence of parts and then asking for a number gives what was added first under it. */
  method AddAll(given: seq<Entry>, key: Text) returns (store: Parts)
    ensures fresh(store) && store.Valid(key) && store.InOrder()
    ensures forall n :: Lookup(store.entries, n) == Lookup(given, n)
  {
    store := new Parts();
    for i := 0 to |given|
      invariant fresh(store) && store.Valid(key) && store.InOrder()
      invariant forall n :: Lookup(store.entries, n) == Lookup(given[..i], n)
    {
      hide Lookup;
      forall n ensures Lookup(given[..i + 1], n)
        == if Lookup(given[..i], n).None? && n == given[i].number then Some(given[i]) else Lookup(given[..i], n)
      {
        assert given[..i + 1] == given[..i] + [given[i]];
        LookupLast(given[..i], given[i], n);
      }
      var added := store.AddPart(given[i].number, given[i].mid, given[i].bytes, key);
    }
    assert given[..|given|] == given;
  }

  lemma {:induction false} LookupLast(entries: seq<Entry>, e: Entry, n: int)
    ensures Lookup(entries + [e], n)
      == if Lookup(entries, n).None? && n == e.number then Some(e) else Lookup(entries, n)
  {
    if entries != [] {
      assert (entries + [e])[1..] == entries[1..] + [e];
      LookupLast(entries[1..], e, n);
    }
  }
}
