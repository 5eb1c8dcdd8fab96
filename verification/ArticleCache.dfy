/** The cache of article bodies: byte accounting, locks, and eviction of the oldest articles. */
module ArticleCache {
  import opened Prelude
  import opened SortedRanges

  datatype MsgInfo = MsgInfo(messageId: Mid, size: nat, date: int)

  datatype CacheResponse = IoErr | DiskFull | CacheOk

  /** What the file system made of a save: no file, too few bytes written (with or without a full disk), or success. */
  datatype Disk = NotOpened | Short(full: bool) | Written

  /** What listeners are told. */
  datatype CacheEvent = Added(mid: Mid) | Removed(mids: set<Mid>)

  /** MsgInfoCompare. */
  predicate Older(a: MsgInfo, b: MsgInfo, address: Key) {
    if a.date != b.date then a.date < b.date else address(a.messageId) < address(b.messageId)
  }

  ghost predicate OldestFirst(s: seq<MsgInfo>, address: Key) {
    forall i, j :: 0 <= i < j < |s| ==> Older(s[i], s[j], address)
  }

  // ---------------------------------------------------------------- sizes

  function SumSizes(s: seq<MsgInfo>): nat {
    if s == [] then 0 else SumSizes(s[..|s| - 1]) + s[|s| - 1].size
  }

  /** The sizes of all cached articles together. */
  ghost function TotalSize(info: map<Mid, MsgInfo>): nat
    decreases |info|
  {
    if info == map[] then 0
    else
      var m :| m in info;
      info[m].size + TotalSize(info - {m})
  }

  lemma {:induction false} TotalWithout(info: map<Mid, MsgInfo>, m: Mid)
    requires m in info
    ensures TotalSize(info) == info[m].size + TotalSize(info - {m})
    decreases |info|
  {
    var n :| n in info && TotalSize(info) == info[n].size + TotalSize(info - {n});
    if n != m {
      TotalWithout(info - {n}, m);
      TotalWithout(info - {m}, n);
      assert info - {n} - {m} == info - {m} - {n};
    }
  }

  lemma TotalWith(info: map<Mid, MsgInfo>, x: MsgInfo)
    requires x.messageId !in info
    ensures TotalSize(info[x.messageId := x]) == TotalSize(info) + x.size
  {
    TotalWithout(info[x.messageId := x], x.messageId);
    assert info[x.messageId := x] - {x.messageId} == info;
  }

  // ---------------------------------------------------------------- locks

  /** How often an id is locked. */
  function Count(locks: map<Mid, int>, m: Mid): int {
    if m in locks then locks[m] else 0
  }

  function Reserve1(locks: map<Mid, int>, m: Mid): map<Mid, int> {
    locks[m := Count(locks, m) + 1]
  }

  function Release1(locks: map<Mid, int>, m: Mid): map<Mid, int> {
    if Count(locks, m) - 1 == 0 then locks - {m} else locks[m := Count(locks, m) - 1]
  }

  function Reserved(locks: map<Mid, int>, mids: seq<Mid>): map<Mid, int> {
    if mids == [] then locks else Reserve1(Reserved(locks, mids[..|mids| - 1]), mids[|mids| - 1])
  }

  function Released(locks: map<Mid, int>, mids: seq<Mid>): map<Mid, int> {
    if mids == [] then locks else Release1(Released(locks, mids[..|mids| - 1]), mids[|mids| - 1])
  }

  function Times(mids: seq<Mid>, m: Mid): nat {
    if mids == [] then 0 else Times(mids[..|mids| - 1], m) + if mids[|mids| - 1] == m then 1 else 0
  }

  /** Exactly what is still reserved is locked. */
  ghost predicate Balanced(locks: map<Mid, int>) {
    forall m :: m in locks ==> locks[m] > 0
  }

  lemma {:induction false} ReserveCounts(locks: map<Mid, int>, mids: seq<Mid>, m: Mid)
    ensures Count(Reserved(locks, mids), m) == Count(locks, m) + Times(mids, m)
    ensures m in Reserved(locks, mids) <==> m in locks || Times(mids, m) > 0
    decreases |mids|
  {
    if mids != [] {
      ReserveCounts(locks, mids[..|mids| - 1], m);
    }
  }

  lemma ReserveOne(locks: map<Mid, int>, m: Mid)
    ensures Reserved(locks, [m]) == locks[m := Count(locks, m) + 1]
  {
    assert [m][..0] == [];
  }

  lemma {:induction false} ReleaseCounts(locks: map<Mid, int>, mids: seq<Mid>, m: Mid)
    ensures Count(Released(locks, mids), m) == Count(locks, m) - Times(mids, m)
    decreases |mids|
  {
    if mids != [] {
      ReleaseCounts(locks, mids[..|mids| - 1], m);
    }
  }

  lemma {:induction false} ReleaseUnlocks(locks: map<Mid, int>, mids: seq<Mid>, m: Mid)
    requires Balanced(locks)
    ensures m in Released(locks, mids) <==> Count(locks, m) != Times(mids, m)
    decreases |mids|
  {
    if mids != [] {
      ReleaseUnlocks(locks, mids[..|mids| - 1], m);
      ReleaseCounts(locks, mids[..|mids| - 1], m);
    }
  }

  /**
   Releasing leaves exactly what is still reserved locked if and only if nothing is released more often than it is
   locked. An id released too often stays in the table, and so stays locked.
   */
  lemma ReleaseKeepsBalance(locks: map<Mid, int>, mids: seq<Mid>)
    requires Balanced(locks)
    ensures Balanced(Released(locks, mids)) <==> forall m :: m in mids ==> Times(mids, m) <= Count(locks, m)
    ensures forall m :: m in mids && Times(mids, m) > Count(locks, m) ==> m in Released(locks, mids)
  {
    hide Released, Times;
    forall m ensures m in Released(locks, mids) <==> Count(locks, m) != Times(mids, m)
             ensures Count(Released(locks, mids), m) == Count(locks, m) - Times(mids, m) {
      ReleaseUnlocks(locks, mids, m);
      ReleaseCounts(locks, mids, m);
    }
    forall m | m !in mids ensures Times(mids, m) == 0 { NotThere(mids, m); }
    forall m | m in mids && Times(mids, m) > Count(locks, m)
      ensures m in Released(locks, mids) && Released(locks, mids)[m] <= 0
    {
    }
  }

  lemma {:induction false} NotThere(mids: seq<Mid>, m: Mid)
    requires m !in mids
    ensures Times(mids, m) == 0
    decreases |mids|
  {
    if mids != [] { NotThere(mids[..|mids| - 1], m); }
  }

  /** What is reserved and then released in any order and grouping is as if it had never been. */
  lemma ReserveThenRelease(locks: map<Mid, int>, mids: seq<Mid>, others: seq<Mid>)
    requires Balanced(locks) && multiset(mids) == multiset(others)
    ensures Released(Reserved(locks, mids), others) == locks
  {
    hide Reserved, Released, Times, Count;
    forall m ensures m in Released(Reserved(locks, mids), others) <==> m in locks
             ensures Count(Released(Reserved(locks, mids), others), m) == Count(locks, m) {
      ReserveIsBalanced(locks, mids);
      SameTimes(mids, m);
      SameTimes(others, m);
      ReserveCounts(locks, mids, m);
      ReleaseCounts(Reserved(locks, mids), others, m);
      ReleaseUnlocks(Reserved(locks, mids), others, m);
      CountWhenBalanced(locks, m);
    }
    CountsDetermine(Released(Reserved(locks, mids), others), locks);
  }

  lemma CountsDetermine(a: map<Mid, int>, b: map<Mid, int>)
    requires forall m :: (m in a <==> m in b) && Count(a, m) == Count(b, m)
    ensures a == b
  {
  }

  lemma CountWhenBalanced(locks: map<Mid, int>, m: Mid)
    requires Balanced(locks)
    ensures m in locks <==> Count(locks, m) != 0
    ensures Count(locks, m) >= 0
  {
  }

  lemma ReserveIsBalanced(locks: map<Mid, int>, mids: seq<Mid>)
    requires Balanced(locks)
    ensures Balanced(Reserved(locks, mids))
  {
    hide Reserved, Times;
    forall m | m in Reserved(locks, mids) ensures Reserved(locks, mids)[m] > 0 {
      ReserveCounts(locks, mids, m);
    }
  }

  lemma {:induction false} SameTimes(mids: seq<Mid>, m: Mid)
    ensures Times(mids, m) == multiset(mids)[m]
    decreases |mids|
  {
    if mids != [] {
      SameTimes(mids[..|mids| - 1], m);
      assert mids == mids[..|mids| - 1] + [mids[|mids| - 1]];
    }
  }

  // ---------------------------------------------------------------- eviction

  /** The ids of some entries. */
  ghost function Ids(s: seq<MsgInfo>): set<Mid> {
    set x | x in s :: x.messageId
  }

  /** s lists the cached articles that are not locked, from oldest to youngest. */
  ghost predicate UnlockedOldestFirst(s: seq<MsgInfo>, info: map<Mid, MsgInfo>, locks: map<Mid, int>, address: Key) {
    OldestFirst(s, address)
    && forall x :: x in s <==> x.messageId in info && info[x.messageId] == x && x.messageId !in locks
  }

  /**
   Eviction down to a limit: nothing if the limit is met; otherwise the shortest prefix of the unlocked articles, oldest
   first, that meets it, or all of them when none does.
   */
  ghost predicate Evicted(info: map<Mid, MsgInfo>, bytes: nat, locks: map<Mid, int>, address: Key, limit: nat,
                          info': map<Mid, MsgInfo>, bytes': nat, gone: seq<MsgInfo>, kept: seq<MsgInfo>) {
    if bytes <= limit then gone == [] && info' == info && bytes' == bytes
    else
      UnlockedOldestFirst(gone + kept, info, locks, address)
      && info' == info - Ids(gone) && bytes' == bytes - SumSizes(gone)
      && (gone != [] ==> bytes - SumSizes(gone[..|gone| - 1]) > limit)
      && (bytes' <= limit || kept == [])
  }

  /** No locked article is evicted, and what is left over from the limit is locked. */
  lemma LockedStay(info: map<Mid, MsgInfo>, bytes: nat, locks: map<Mid, int>, address: Key, limit: nat,
                   info': map<Mid, MsgInfo>, bytes': nat, gone: seq<MsgInfo>, kept: seq<MsgInfo>)
    requires Evicted(info, bytes, locks, address, limit, info', bytes', gone, kept)
    ensures forall m :: m in info && m in locks ==> m in info' && info'[m] == info[m]
    ensures forall m :: m in info' ==> m in info && info'[m] == info[m]
    ensures bytes' > limit && (forall m :: m in info ==> info[m].messageId == m) ==>
      forall m :: m in info' ==> m in locks
  {
    if bytes > limit {
      forall m | m in info && m in locks ensures m !in Ids(gone) {
        assert forall x :: x in gone ==> x in gone + kept;
      }
      if bytes' > limit && forall m :: m in info ==> info[m].messageId == m {
        assert gone + kept == gone;
        forall m | m in info' ensures m in locks {
          assert info[m] in gone + kept || m in locks;
        }
      }
    }
  }

  /** What is evicted is older than every unlocked article that stays; between equal dates the address decides. */
  lemma EvictsOldest(info: map<Mid, MsgInfo>, bytes: nat, locks: map<Mid, int>, address: Key, limit: nat,
                     info': map<Mid, MsgInfo>, bytes': nat, gone: seq<MsgInfo>, kept: seq<MsgInfo>, m: Mid, k: Mid)
    requires Evicted(info, bytes, locks, address, limit, info', bytes', gone, kept)
    requires forall x :: x in info ==> info[x].messageId == x
    requires m in info && m !in info' && k in info' && k !in locks
    ensures info[m].date < info[k].date || (info[m].date == info[k].date && address(m) < address(k))
  {
    var all := gone + kept;
    var x :| x in gone && x.messageId == m;
    var i :| 0 <= i < |gone| && gone[i] == x;
    assert all[i] == x && x in all && info[m] == x;
    var y := info[k];
    assert y in all;
    var j :| 0 <= j < |all| && all[j] == y;
    assert y !in gone;
    assert forall n :: 0 <= n < |gone| ==> all[n] in gone;
    assert Older(all[i], all[j], address);
  }

  /**
   Nothing goes while the limit is met. Otherwise unlocked articles go until it is met or none is left, and not one
   more: with the youngest of those gone the limit would still be missed.
   */
  lemma EvictsUntilMet(info: map<Mid, MsgInfo>, bytes: nat, locks: map<Mid, int>, address: Key, limit: nat,
                       info': map<Mid, MsgInfo>, bytes': nat, gone: seq<MsgInfo>, kept: seq<MsgInfo>)
    requires Evicted(info, bytes, locks, address, limit, info', bytes', gone, kept)
    requires forall x :: x in info ==> info[x].messageId == x
    ensures bytes <= limit ==> info' == info && bytes' == bytes
    ensures bytes > limit ==> bytes' <= limit || forall m :: m in info' ==> m in locks
    ensures forall m :: m in info && m !in info' ==> m !in locks
    ensures gone != [] ==> bytes' + gone[|gone| - 1].size > limit
  {
    hide TotalSize, SumSizes;
    if bytes > limit {
      LockedStay(info, bytes, locks, address, limit, info', bytes', gone, kept);
      if gone != [] {
        SumSizesLast(gone);
      }
    }
  }

  lemma SumSizesLast(s: seq<MsgInfo>)
    requires s != []
    ensures SumSizes(s) == SumSizes(s[..|s| - 1]) + s[|s| - 1].size
  {
  }

  /** What a listener knows that was told everything from the start. */
  function Heard(start: set<Mid>, events: seq<CacheEvent>): set<Mid> {
    if events == [] then start else Hear(Heard(start, events[..|events| - 1]), events[|events| - 1])
  }

  function Hear(known: set<Mid>, e: CacheEvent): set<Mid> {
    match e
    case Added(m) => known + {m}
    case Removed(ms) => known - ms
  }

  lemma HeardOne(start: set<Mid>, events: seq<CacheEvent>, e: CacheEvent)
    ensures Heard(start, events + [e]) == Hear(Heard(start, events), e)
  {
    assert (events + [e])[..|events|] == events;
  }

  /** Some file stands for the id. */
  ghost predicate Among(files: seq<MsgInfo>, m: Mid) {
    exists i :: 0 <= i < |files| && files[i].messageId == m
  }

  /** A file that stands for the id of an earlier one is empty. */
  ghost predicate RepeatsAreEmpty(files: seq<MsgInfo>) {
    forall i, j :: 0 <= i < j < |files| && files[i].messageId == files[j].messageId ==> files[j].size == 0
  }

  lemma NextFile(files: seq<MsgInfo>, i: nat)
    requires i < |files|
    ensures forall m :: Among(files[..i + 1], m) <==> Among(files[..i], m) || m == files[i].messageId
    ensures RepeatsAreEmpty(files[..i + 1])
      <==> RepeatsAreEmpty(files[..i]) && (Among(files[..i], files[i].messageId) ==> files[i].size == 0)
  {
    var now, next := files[..i], files[..i + 1];
    assert forall j :: 0 <= j < i ==> now[j] == next[j];
    assert next[i] == files[i];
    forall m ensures Among(next, m) <==> Among(now, m) || m == files[i].messageId {
      if Among(now, m) {
        var j :| 0 <= j < |now| && now[j].messageId == m;
        assert next[j].messageId == m;
      }
    }
  }

  /** Puts an entry into its place. */
  method InsertByAge(s: seq<MsgInfo>, x: MsgInfo, address: Key) returns (r: seq<MsgInfo>)
    requires OldestFirst(s, address) && Injective(address) && forall y :: y in s ==> y.messageId != x.messageId
    ensures OldestFirst(r, address) && forall y :: y in r <==> y in s || y == x
  {
    var i := 0;
    while i < |s| && Older(s[i], x, address)
      invariant i <= |s| && forall j :: 0 <= j < i ==> Older(s[j], x, address)
    {
      i := i + 1;
    }
    r := s[..i] + [x] + s[i..];
    OlderThanRest(s, x, i, address);
    assert s == s[..i] + s[i..];
  }

  lemma OlderThanRest(s: seq<MsgInfo>, x: MsgInfo, i: nat, address: Key)
    requires OldestFirst(s, address) && Injective(address) && (forall y :: y in s ==> y.messageId != x.messageId)
    requires i <= |s| && (forall j :: 0 <= j < i ==> Older(s[j], x, address))
    requires i < |s| ==> !Older(s[i], x, address)
    ensures OldestFirst(s[..i] + [x] + s[i..], address)
  {
    var r := s[..i] + [x] + s[i..];
    forall j | i <= j < |s| ensures Older(x, s[j], address) {
      assert s[i] in s && address(s[i].messageId) != address(x.messageId);
      assert Older(x, s[i], address);
      assert i < j ==> Older(s[i], s[j], address);
    }
    forall j, k | 0 <= j < k < |r| ensures Older(r[j], r[k], address) {
      assert r[j] == if j < i then s[j] else if j == i then x else s[j - 1];
      assert r[k] == if k < i then s[k] else if k == i then x else s[k - 1];
    }
  }

  /** The std::set of all entries ordered by MsgInfoCompare. */
  method SortByAge(info: map<Mid, MsgInfo>, address: Key) returns (si: seq<MsgInfo>)
    requires Injective(address) && forall m :: m in info ==> info[m].messageId == m
    ensures OldestFirst(si, address) && forall x :: x in si <==> x.messageId in info && info[x.messageId] == x
  {
    si := [];
    var rest := info.Keys;
    while rest != {}
      invariant rest <= info.Keys && OldestFirst(si, address)
      invariant forall x :: x in si <==> x.messageId in info.Keys - rest && info[x.messageId] == x
      decreases |rest|
    {
      hide OldestFirst, Older;
      var m :| m in rest;
      si := InsertByAge(si, info[m], address);
      rest := rest - {m};
    }
  }

  /** The entries that are not locked. */
  function Unlocked(s: seq<MsgInfo>, locks: map<Mid, int>): (r: seq<MsgInfo>)
    ensures forall x :: x in r <==> x in s && x.messageId !in locks
  {
    if s == [] then []
    else
      var last := s[|s| - 1];
      Unlocked(s[..|s| - 1], locks) + if last.messageId in locks then [] else [last]
  }

  lemma {:induction false} UnlockedInOrder(s: seq<MsgInfo>, locks: map<Mid, int>, address: Key)
    requires OldestFirst(s, address)
    ensures OldestFirst(Unlocked(s, locks), address)
    decreases |s|
  {
    if s != [] {
      hide Older;
      var front, last := s[..|s| - 1], s[|s| - 1];
      UnlockedInOrder(front, locks, address);
      assert forall x :: x in front ==> Older(x, last, address);
      OneMoreInOrder(Unlocked(front, locks), last, address);
      hide OldestFirst;
    }
  }

  lemma OneMoreInOrder(s: seq<MsgInfo>, last: MsgInfo, address: Key)
    requires OldestFirst(s, address) && forall x :: x in s ==> Older(x, last, address)
    ensures OldestFirst(s + [last], address)
  {
    hide Older;
    assert forall i :: 0 <= i < |s| ==> s[i] in s;
  }

  lemma {:induction false} UnlockedPrefix(s: seq<MsgInfo>, i: nat, locks: map<Mid, int>)
    requires i <= |s|
    ensures Unlocked(s[..i], locks) <= Unlocked(s, locks)
    decreases |s| - i
  {
    if i < |s| {
      UnlockedPrefix(s, i + 1, locks);
      assert s[..i + 1][..i] == s[..i];
    } else {
      assert s[..i] == s;
    }
  }

  class ArticleCache {
    var locks: map<Mid, int>
    var midToInfo: map<Mid, MsgInfo>
    var maxMegs: nat
    var currentBytes: nat
    var published: seq<CacheEvent>
    const address: Key
    ghost const start: set<Mid>

    ghost predicate Valid()
      reads this
    {
      Injective(address)
      && (forall m :: m in midToInfo ==> midToInfo[m].messageId == m)
      && currentBytes >= TotalSize(midToInfo)
      && Heard(start, published) == midToInfo.Keys
    }

    /** By how much the byte count is off. */
    ghost function Drift(): int
      reads this
    {
      currentBytes - TotalSize(midToInfo)
    }

    /** Reads the cache directory. A file whose name stands for an id seen before is counted but not entered. */
    constructor (address: Key, files: seq<MsgInfo>, maxMegs: nat)
      requires Injective(address)
      ensures Valid() && locks == map[] && published == [] && this.maxMegs == maxMegs && this.address == address
      ensures forall m :: m in midToInfo <==> Among(files, m)
      ensures Drift() == 0 <==> RepeatsAreEmpty(files)
    {
      var info: map<Mid, MsgInfo> := map[];
      var bytes := 0;
      for i := 0 to |files|
        invariant forall m :: m in info ==> info[m].messageId == m
        invariant forall m :: m in info <==> Among(files[..i], m)
        invariant bytes >= TotalSize(info) && (bytes == TotalSize(info) <==> RepeatsAreEmpty(files[..i]))
      {
        hide TotalSize, Among, RepeatsAreEmpty;
        NextFile(files, i);
        bytes := bytes + files[i].size;
        if files[i].messageId !in info {
          TotalWith(info, files[i]);
          info := info[files[i].messageId := files[i]];
        }
      }
      assert files[..|files|] == files;
      locks, midToInfo, this.maxMegs, currentBytes, published := map[], info, maxMegs, bytes, [];
      this.address, start := address, info.Keys;
    }

    method ReserveAll(mids: seq<Mid>)
      requires Valid()
      modifies this`locks
      ensures Valid() && locks == Reserved(old(locks), mids)
    {
      for i := 0 to |mids|
        invariant locks == Reserved(old(locks), mids[..i])
      {
        assert mids[..i + 1][..i] == mids[..i];
        locks := locks[mids[i] := Count(locks, mids[i]) + 1];
      }
      assert mids[..|mids|] == mids;
    }

    method ReleaseAll(mids: seq<Mid>)
      requires Valid()
      modifies this`locks
      ensures Valid() && locks == Released(old(locks), mids)
    {
      for i := 0 to |mids|
        invariant locks == Released(old(locks), mids[..i])
      {
        assert mids[..i + 1][..i] == mids[..i];
        var n := Count(locks, mids[i]) - 1;
        if n == 0 { locks := locks - {mids[i]}; } else { locks := locks[mids[i] := n]; }
      }
      assert mids[..|mids|] == mids;
    }

    /** resize to a number of bytes. */
    method ResizeTo(limit: nat) returns (ghost gone: seq<MsgInfo>, ghost kept: seq<MsgInfo>)
      requires Valid()
      modifies this`midToInfo, this`currentBytes, this`published
      ensures Valid() && Drift() == old(Drift())
      ensures Evicted(old(midToInfo), old(currentBytes), locks, address, limit, midToInfo, currentBytes, gone, kept)
      ensures published == old(published) + (if gone == [] then [] else [Removed(Ids(gone))])
    {
      hide Evicted, TotalSize, OldestFirst, SumSizes, Injective, Unlocked, Heard;
      var removed: set<Mid> := {};
      gone, kept := [], [];
      if currentBytes > limit {
        var si := SortByAge(midToInfo, address);
        gone, kept, removed := EvictOldest(si, limit);
        FullList(si, old(midToInfo), locks, address);
        EvictedAs(old(midToInfo), old(currentBytes), locks, address, limit, midToInfo, currentBytes, gone, kept, si);
      } else {
        NothingEvicted(midToInfo, currentBytes, locks, address, limit);
      }
      if removed != {} {
        HeardOne(start, published, Removed(removed));
        published := published + [Removed(removed)];
      }
      assert gone == [] ==> removed == {};
    }

    method EvictOldest(si: seq<MsgInfo>, limit: nat)
      returns (ghost gone: seq<MsgInfo>, ghost kept: seq<MsgInfo>, removed: set<Mid>)
      requires OldestFirst(si, address) && currentBytes >= TotalSize(midToInfo)
      requires forall x :: x in si <==> x.messageId in midToInfo && midToInfo[x.messageId] == x
      modifies this`midToInfo, this`currentBytes
      ensures gone + kept == Unlocked(si, locks)
      ensures midToInfo == old(midToInfo) - Ids(gone) && currentBytes == old(currentBytes) - SumSizes(gone)
      ensures gone != [] ==> old(currentBytes) - SumSizes(gone[..|gone| - 1]) > limit
      ensures currentBytes <= limit || kept == []
      ensures Drift() == old(Drift())
      ensures removed == Ids(gone) && (gone != [] ==> removed != {})
    {
      hide OldestFirst, TotalSize, Ids, SumSizes, Unlocked;
      NoneGone(si, locks);
      var i := 0;
      removed := {};
      gone := [];
      while currentBytes > limit && i < |si|
        invariant i <= |si| && gone == Unlocked(si[..i], locks) && removed == Ids(gone)
        invariant midToInfo == old(midToInfo) - removed && currentBytes == old(currentBytes) - SumSizes(gone)
        invariant gone != [] ==> old(currentBytes) - SumSizes(gone[..|gone| - 1]) > limit
        invariant currentBytes >= TotalSize(midToInfo) && Drift() == old(Drift())
      {
        UnlockedNext(si, i, locks);
        var x := si[i];
        if x.messageId !in locks {
          StillThere(si, i, address, gone);
          GoneOne(gone, x);
          EvictOne(x);
          removed := removed + {x.messageId};
          gone := gone + [x];
        }
        i := i + 1;
      }
      UnlockedPrefix(si, i, locks);
      kept := Unlocked(si, locks)[|gone|..];
      assert si[..|si|] == si;
      SomeGone(gone);
    }

    /** One article goes. */
    method EvictOne(x: MsgInfo)
      requires x.messageId in midToInfo && midToInfo[x.messageId] == x && currentBytes >= TotalSize(midToInfo)
      modifies this`midToInfo, this`currentBytes
      ensures midToInfo == old(midToInfo) - {x.messageId} && currentBytes == old(currentBytes) - x.size
      ensures currentBytes >= TotalSize(midToInfo) && Drift() == old(Drift())
    {
      hide TotalSize;
      TotalWithout(midToInfo, x.messageId);
      currentBytes := currentBytes - x.size;
      midToInfo := midToInfo - {x.messageId};
    }

    /** resize: makes room down to 80 percent of the configured size. */
    method Resize() returns (ghost gone: seq<MsgInfo>, ghost kept: seq<MsgInfo>)
      requires Valid()
      modifies this`midToInfo, this`currentBytes, this`published
      ensures Valid() && Drift() == old(Drift())
      ensures Evicted(old(midToInfo), old(currentBytes), locks, address, Limit(maxMegs),
        midToInfo, currentBytes, gone, kept)
      ensures published == old(published) + (if gone == [] then [] else [Removed(Ids(gone))])
    {
      gone, kept := ResizeTo(Limit(maxMegs));
    }

    /** clear: everything goes that is not locked, unless the count is already down to nothing. */
    method Clear() returns (ghost gone: seq<MsgInfo>, ghost kept: seq<MsgInfo>)
      requires Valid()
      modifies this`midToInfo, this`currentBytes, this`published
      ensures Valid() && Drift() == old(Drift())
      ensures Evicted(old(midToInfo), old(currentBytes), locks, address, 0, midToInfo, currentBytes, gone, kept)
      ensures forall m :: m in midToInfo ==> m in old(midToInfo) && midToInfo[m] == old(midToInfo)[m]
      ensures forall m :: m in old(midToInfo) && m in locks ==> m in midToInfo
      ensures forall m :: m in midToInfo ==> m in locks || old(midToInfo)[m].size == 0
    {
      gone, kept := ResizeTo(0);
      LockedStay(old(midToInfo), old(currentBytes), locks, address, 0, midToInfo, currentBytes, gone, kept);
      if currentBytes == 0 {
        forall m | m in midToInfo ensures midToInfo[m].size == 0 {
          TotalWithout(midToInfo, m);
        }
      }
    }

    /**
     add: the article is entered unless its id is there already, counted in either case, and then room is made, which
     may be at the cost of the article itself. An article that begins with NUL counts as empty and is refused.
     */
    method Add(mid: Mid, article: Text, virtualFile: bool, disk: Disk, now: int)
      returns (res: CacheResponse, ghost gone: seq<MsgInfo>, ghost kept: seq<MsgInfo>)
      requires Valid()
      modifies this`midToInfo, this`currentBytes, this`published, this`locks
      ensures Valid()
      ensures res == CacheOk <==> mid != "" && !EmptyText(article) && disk == Written
      ensures res == DiskFull <==> mid != "" && !EmptyText(article) && disk == Short(true)
      ensures res != CacheOk ==>
        && midToInfo == old(midToInfo) && currentBytes == old(currentBytes)
        && locks == old(locks) && published == old(published)
      ensures res == CacheOk ==> var entered := Entered(old(midToInfo), MsgInfo(mid, |article|, now));
        && locks == (if virtualFile then Reserved(old(locks), [mid]) else old(locks))
        && Evicted(entered, old(currentBytes) + |article|, locks, address, Limit(maxMegs),
                   midToInfo, currentBytes, gone, kept)
        && Drift() == old(Drift()) + (if mid in old(midToInfo) then |article| else 0)
        && published == old(published) + [Added(mid)] + (if gone == [] then [] else [Removed(Ids(gone))])
    {
      gone, kept := [], [];
      if mid == "" || EmptyText(article) { return IoErr, gone, kept; }
      match disk {
        case NotOpened => return IoErr, gone, kept;
        case Short(full) => return if full then DiskFull else IoErr, gone, kept;
        case Written =>
      }
      hide TotalSize, Heard, Evicted, Injective, Ids, Reserved, Entered, Limit, Count;
      gone, kept := Save(MsgInfo(mid, |article|, now), virtualFile);
      res := CacheOk;
    }

    method Save(info: MsgInfo, virtualFile: bool) returns (ghost gone: seq<MsgInfo>, ghost kept: seq<MsgInfo>)
      requires Valid()
      modifies this`midToInfo, this`currentBytes, this`published, this`locks
      ensures Valid() && locks == (if virtualFile then Reserved(old(locks), [info.messageId]) else old(locks))
      ensures Evicted(Entered(old(midToInfo), info), old(currentBytes) + info.size, locks, address, Limit(maxMegs),
        midToInfo, currentBytes, gone, kept)
      ensures Drift() == old(Drift()) + (if info.messageId in old(midToInfo) then info.size else 0)
      ensures published
        == old(published) + [Added(info.messageId)] + (if gone == [] then [] else [Removed(Ids(gone))])
    {
      hide TotalSize, Heard, Evicted, Injective, Ids, Reserved, Entered, Limit, Count;
      Enter(info);
      if virtualFile {
        ReserveOne(locks, info.messageId);
        locks := locks[info.messageId := Count(locks, info.messageId) + 1];
      }
      gone, kept := Resize();
    }

    method Enter(info: MsgInfo)
      requires Valid()
      modifies this`midToInfo, this`currentBytes, this`published
      ensures Valid() && midToInfo == Entered(old(midToInfo), info) && currentBytes == old(currentBytes) + info.size
      ensures published == old(published) + [Added(info.messageId)]
      ensures Drift() == old(Drift()) + (if info.messageId in old(midToInfo) then info.size else 0)
    {
      hide TotalSize, Heard, Injective;
      if info.messageId !in midToInfo {
        TotalWith(midToInfo, info);
        midToInfo := midToInfo[info.messageId := info];
      }
      HeardOne(start, published, Added(info.messageId));
      published := published + [Added(info.messageId)];
      currentBytes := currentBytes + info.size;
    }
  }

  /** The table after an insertion, which does not replace an entry that is there. */
  function Entered(info: map<Mid, MsgInfo>, x: MsgInfo): map<Mid, MsgInfo> {
    if x.messageId in info then info else info[x.messageId := x]
  }

  /** 80 percent of the configured size, in bytes. */
  function Limit(megs: nat): nat {
    (megs * 1024 * 1024) * 8 / 10
  }

  /** The limit in bytes is the largest number that is no more than 80 percent of so many mebibytes. */
  lemma LimitIsFourFifths(megs: nat)
    ensures 5 * Limit(megs) <= 4 * (megs * 1048576) < 5 * Limit(megs) + 5
  {
  }

  lemma UnlockedNext(si: seq<MsgInfo>, i: nat, locks: map<Mid, int>)
    requires i < |si|
    ensures Unlocked(si[..i + 1], locks) == Unlocked(si[..i], locks) + if si[i].messageId in locks then [] else [si[i]]
    ensures forall x :: x in Unlocked(si[..i], locks) ==> x in si[..i]
  {
    assert si[..i + 1][..i] == si[..i];
  }

  lemma NoneGone(si: seq<MsgInfo>, locks: map<Mid, int>)
    ensures Unlocked(si[..0], locks) == [] && Ids([]) == {} && SumSizes([]) == 0
  {
  }

  lemma SomeGone(gone: seq<MsgInfo>)
    ensures gone != [] ==> Ids(gone) != {}
  {
    if gone != [] { assert gone[0].messageId in Ids(gone); }
  }

  lemma GoneOne(gone: seq<MsgInfo>, x: MsgInfo)
    ensures Ids(gone + [x]) == Ids(gone) + {x.messageId} && SumSizes(gone + [x]) == SumSizes(gone) + x.size
    ensures (gone + [x])[..|gone|] == gone
  {
    assert (gone + [x])[..|gone|] == gone;
  }

  lemma NothingEvicted(info: map<Mid, MsgInfo>, bytes: nat, locks: map<Mid, int>, address: Key, limit: nat)
    requires bytes <= limit
    ensures Evicted(info, bytes, locks, address, limit, info, bytes, [], [])
  {
  }

  lemma StillThere(si: seq<MsgInfo>, i: nat, address: Key, gone: seq<MsgInfo>)
    requires OldestFirst(si, address) && i < |si| && forall x :: x in gone ==> x in si[..i]
    requires forall x, y :: x in si && y in si && x.messageId == y.messageId ==> x == y
    ensures si[i].messageId !in Ids(gone)
  {
    forall x | x in gone ensures x.messageId != si[i].messageId {
      var j :| 0 <= j < i && si[j] == x;
      assert Older(si[j], si[i], address);
    }
  }

  lemma FullList(si: seq<MsgInfo>, info: map<Mid, MsgInfo>, locks: map<Mid, int>, address: Key)
    requires OldestFirst(si, address) && forall x :: x in si <==> x.messageId in info && info[x.messageId] == x
    ensures UnlockedOldestFirst(Unlocked(si, locks), info, locks, address)
  {
    UnlockedInOrder(si, locks, address);
  }

  lemma EvictedAs(info: map<Mid, MsgInfo>, bytes: nat, locks: map<Mid, int>, address: Key, limit: nat,
                  info': map<Mid, MsgInfo>, bytes': nat, gone: seq<MsgInfo>, kept: seq<MsgInfo>, si: seq<MsgInfo>)
    requires bytes > limit && gone + kept == Unlocked(si, locks)
    requires UnlockedOldestFirst(Unlocked(si, locks), info, locks, address)
    requires info' == info - Ids(gone) && bytes' == bytes - SumSizes(gone)
    requires gone != [] ==> bytes - SumSizes(gone[..|gone| - 1]) > limit
    requires bytes' <= limit || kept == []
    ensures Evicted(info, bytes, locks, address, limit, info', bytes', gone, kept)
  {
  }
}
