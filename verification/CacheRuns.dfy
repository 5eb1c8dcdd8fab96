/** The cache over runs of its operations: when its byte count is the size of what it holds. */
module CacheRuns {
  import opened Prelude
  import opened SortedRanges
  import opened ArticleCache

  datatype Op =
    | Adding(mid: Mid, article: Text, virtualFile: bool, disk: Disk, now: int)
    | Reserving(mids: seq<Mid>)
    | Releasing(mids: seq<Mid>)
    | Resizing
    | Clearing

  datatype State = State(info: map<Mid, MsgInfo>, bytes: nat, locks: map<Mid, int>)

  predicate Accepted(op: Op) {
    op.Adding? && op.mid != "" && !EmptyText(op.article) && op.disk == Written
  }

  /** An article is added whose id is there. */
  predicate Repeats(op: Op, info: map<Mid, MsgInfo>) {
    Accepted(op) && op.mid in info
  }

  ghost predicate Shrunk(s: State, t: State, address: Key, limit: nat) {
    t.locks == s.locks
    && exists gone, kept :: Evicted(s.info, s.bytes, s.locks, address, limit, t.info, t.bytes, gone, kept)
  }

  /** The state with an accepted article, before room is made. */
  function AfterAdding(s: State, op: Op): State
    requires op.Adding?
  {
    State(Entered(s.info, MsgInfo(op.mid, |op.article|, op.now)), s.bytes + |op.article|,
          if op.virtualFile then Reserved(s.locks, [op.mid]) else s.locks)
  }

  ghost predicate Step(s: State, op: Op, t: State, address: Key, limit: nat) {
    match op
    case Adding(_, _, _, _, _) => if Accepted(op) then Shrunk(AfterAdding(s, op), t, address, limit) else t == s
    case Reserving(mids) => t == s.(locks := Reserved(s.locks, mids))
    case Releasing(mids) => t == s.(locks := Released(s.locks, mids))
    case Resizing => Shrunk(s, t, address, limit)
    case Clearing => Shrunk(s, t, address, 0)
  }

  /** Entries stand under their own ids, and nothing that is there is left out of the count. */
  ghost predicate Sound(s: State) {
    (forall m :: m in s.info ==> s.info[m].messageId == m) && s.bytes >= TotalSize(s.info)
  }

  /** By how much the count is too high. */
  ghost function Excess(s: State): int {
    s.bytes - TotalSize(s.info)
  }

  // ---------------------------------------------------------------- one step

  /** What an eviction takes off the count is what goes. */
  lemma {:induction false} TotalWithoutAll(info: map<Mid, MsgInfo>, gone: seq<MsgInfo>)
    requires forall x :: x in gone ==> x.messageId in info && info[x.messageId] == x
    requires forall i, j :: 0 <= i < j < |gone| ==> gone[i] != gone[j]
    ensures TotalSize(info - Ids(gone)) == TotalSize(info) - SumSizes(gone)
    decreases |gone|
  {
    hide TotalSize, Ids, SumSizes;
    NoneGone([], map[]);
    if gone == [] {
      assert info - {} == info;
    } else {
      var most, x := gone[..|gone| - 1], gone[|gone| - 1];
      assert forall y :: y in most ==> y in gone;
      TotalWithoutAll(info, most);
      assert gone == most + [x];
      GoneOne(most, x);
      NotAmong(most, x);
      var left := info - Ids(most);
      TotalWithout(left, x.messageId);
      assert left - {x.messageId} == info - Ids(gone);
    }
  }

  lemma NotAmong(most: seq<MsgInfo>, x: MsgInfo)
    requires x !in most && forall y :: y in most && y.messageId == x.messageId ==> y == x
    ensures x.messageId !in Ids(most)
  {
  }

  lemma ShrunkExcess(s: State, t: State, address: Key, limit: nat)
    requires Sound(s) && Shrunk(s, t, address, limit)
    ensures Sound(t) && Excess(t) == Excess(s) && t.info.Keys <= s.info.Keys
  {
    hide TotalSize, Ids, SumSizes;
    var gone, kept :| Evicted(s.info, s.bytes, s.locks, address, limit, t.info, t.bytes, gone, kept);
    if s.bytes > limit {
      InOrderDiffer(gone, kept, address);
      assert forall x :: x in gone ==> x in gone + kept;
      TotalWithoutAll(s.info, gone);
    }
  }

  lemma InOrderDiffer(gone: seq<MsgInfo>, kept: seq<MsgInfo>, address: Key)
    requires OldestFirst(gone + kept, address)
    ensures forall i, j :: 0 <= i < j < |gone| ==> gone[i] != gone[j]
  {
    var all := gone + kept;
    forall i, j | 0 <= i < j < |gone| ensures gone[i] != gone[j] {
      assert Older(all[i], all[j], address);
    }
  }

  lemma AddingExcess(s: State, op: Op)
    requires Sound(s) && Accepted(op)
    ensures Sound(AfterAdding(s, op))
    ensures Excess(AfterAdding(s, op)) == Excess(s) + (if Repeats(op, s.info) then |op.article| else 0)
  {
    hide TotalSize;
    if op.mid !in s.info { TotalWith(s.info, MsgInfo(op.mid, |op.article|, op.now)); }
  }

  /** One operation: the count goes wrong by the size of an article added twice, and by nothing else. */
  lemma StepExcess(s: State, op: Op, t: State, address: Key, limit: nat)
    requires Sound(s) && Step(s, op, t, address, limit)
    ensures Sound(t) && Excess(t) == Excess(s) + (if Repeats(op, s.info) then |op.article| else 0)
  {
    hide TotalSize, Shrunk, AfterAdding;
    match op
    case Adding(_, _, _, _, _) =>
      if Accepted(op) {
        AddingExcess(s, op);
        ShrunkExcess(AfterAdding(s, op), t, address, limit);
      }
    case Reserving(_) =>
    case Releasing(_) =>
    case Resizing => ShrunkExcess(s, t, address, limit);
    case Clearing => ShrunkExcess(s, t, address, 0);
  }

  // ---------------------------------------------------------------- runs

  /** The states before, between and after the operations. */
  ghost predicate IsRun(states: seq<State>, ops: seq<Op>, address: Key, limit: nat) {
    |states| == |ops| + 1 && forall i :: 0 <= i < |ops| ==> Step(states[i], ops[i], states[i + 1], address, limit)
  }

  /** No article is added whose id is there at that time. */
  ghost predicate NoRepeats(states: seq<State>, ops: seq<Op>)
    requires |states| == |ops| + 1
  {
    forall i :: 0 <= i < |ops| ==> !Repeats(ops[i], states[i].info)
  }

  /**
   After any run of operations the count is exact if and only if it was so before and no article has been added whose
   id was there. What it is off by never gets smaller, not even when the cache is cleared.
   */
  lemma {:induction false} RunExcess(states: seq<State>, ops: seq<Op>, address: Key, limit: nat)
    requires IsRun(states, ops, address, limit) && Sound(states[0])
    ensures Sound(states[|ops|]) && Excess(states[|ops|]) >= Excess(states[0])
    ensures Excess(states[|ops|]) == 0 <==> Excess(states[0]) == 0 && NoRepeats(states, ops)
    decreases |ops|
  {
    if ops != [] {
      hide Sound, Excess, Step;
      var n := |ops| - 1;
      RunExcess(states[..n + 1], ops[..n], address, limit);
      StepExcess(states[n], ops[n], states[n + 1], address, limit);
      SoundExcess(states[0]);
      hide Repeats;
      RepeatCounts(ops[n], states[n].info);
      assert NoRepeats(states, ops) <==> NoRepeats(states[..n + 1], ops[..n]) && !Repeats(ops[n], states[n].info);
    }
  }

  lemma SoundExcess(s: State)
    requires Sound(s)
    ensures Excess(s) >= 0
  {
  }

  lemma RepeatCounts(op: Op, info: map<Mid, MsgInfo>)
    ensures Repeats(op, info) ==> |op.article| > 0
  {
  }

  // ---------------------------------------------------------------- the cache itself

  ghost function StateOf(cache: ArticleCache): State
    reads cache
  {
    State(cache.midToInfo, cache.currentBytes, cache.locks)
  }

  method Perform(cache: ArticleCache, op: Op)
    requires cache.Valid()
    modifies cache
    ensures cache.Valid() && cache.maxMegs == old(cache.maxMegs)
    ensures Step(old(StateOf(cache)), op, StateOf(cache), cache.address, Limit(cache.maxMegs))
  {
    hide TotalSize, Evicted, Heard, Injective, Entered, Reserved, Released, Limit;
    match op {
      case Adding(mid, article, virtualFile, disk, now) =>
        var res, gone, kept := cache.Add(mid, article, virtualFile, disk, now);
      case Reserving(mids) => cache.ReserveAll(mids);
      case Releasing(mids) => cache.ReleaseAll(mids);
      case Resizing => var gone, kept := cache.Resize();
      case Clearing => var gone, kept := cache.Clear();
    }
  }

  /** A cache over a directory, and then any operations: exactly when its count is right in the end. */
  method Run(files: seq<MsgInfo>, maxMegs: nat, address: Key, ops: seq<Op>)
    returns (cache: ArticleCache, ghost states: seq<State>)
    requires Injective(address)
    ensures cache.Valid() && fresh(cache) && IsRun(states, ops, address, Limit(maxMegs))
    ensures StateOf(cache) == states[|ops|]
    ensures cache.Drift() == 0 <==> RepeatsAreEmpty(files) && NoRepeats(states, ops)
  {
    hide TotalSize, Step, Limit, Injective, Heard, Repeats, RepeatsAreEmpty, Among;
    cache := new ArticleCache(address, files, maxMegs);
    states := [StateOf(cache)];
    ghost var first := StateOf(cache);
    for i := 0 to |ops|
      invariant cache.Valid() && cache.maxMegs == maxMegs && cache.address == address
      invariant IsRun(states, ops[..i], address, Limit(maxMegs))
      invariant states[0] == first && states[i] == StateOf(cache)
    {
      Perform(cache, ops[i]);
      states := states + [StateOf(cache)];
    }
    assert ops[..|ops|] == ops;
    RunExcess(states, ops, address, Limit(maxMegs));
  }
}
