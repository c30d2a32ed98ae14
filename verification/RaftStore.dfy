/** The log as Raft's own log store. */
module RaftStore {
  import opened Bytes
  import opened RecordCodec
  import opened Layout
  import opened Replay
  import opened Capacity
  import opened FlatLog
  import CommitLog

  type Uint8 = x: int | 0 <= x < 256

  datatype RaftLog = RaftLog(index: Uint64, term: Uint64, kind: Uint8, data: Slice)

  /** The offset Raft's own log starts at. */
  const FIRST_INDEX: nat := 1

  function ToRecord(log: RaftLog): Record {
    Record(log.data, 0, log.term, log.kind)
  }

  function FromRecord(r: Record): RaftLog {
    RaftLog(r.offset, r.term, r.kind % 256, r.value)
  }

  // ------------------------------------------------------------ operations

  /** Storing a batch: one append per entry, up to the first failure. */
  function StoreAll(l: Limits, segs: seq<Seg>, logs: seq<RaftLog>): (r: (seq<Seg>, bool))
    requires segs != [] && Layout.Next(segs) + |logs| < TWO_64
    ensures r.0 != []
    decreases |logs|
  {
    if logs == [] then (segs, true)
    else
      var segs' := LogAppend(l, segs, ToRecord(logs[0]));
      if AppendOk(l, segs) then StoreAll(l, segs', logs[1..]) else (segs', false)
  }

  /** The entries of a batch that are really stored: those before the first for
      which the active segment's index has no room. */
  function Taken(l: Limits, segs: seq<Seg>, logs: seq<RaftLog>): (taken: seq<RaftLog>)
    requires segs != [] && Layout.Next(segs) + |logs| < TWO_64
    ensures |taken| <= |logs| && taken == logs[..|taken|]
    decreases |logs|
  {
    if logs == [] || !AppendOk(l, segs) then []
    else [logs[0]] + Taken(l, LogAppend(l, segs, ToRecord(logs[0])), logs[1..])
  }

  function EntryAt(segs: seq<Seg>, index: nat): Option<RaftLog> {
    match Lookup(segs, index)
    case None => None
    case Some(r) => Some(FromRecord(r))
  }

  /** The caller's log entry, filled in by `LogStore.GetLog`. */
  class Entry {
    var value: RaftLog
    constructor (value: RaftLog)
      ensures this.value == value
    {
      this.value := value;
    }
  }

  class LogStore {
    const log: CommitLog.Log

    constructor (log: CommitLog.Log)
      ensures this.log == log
    {
      this.log := log;
    }

    method FirstIndex() returns (index: Uint64)
      requires log.Valid()
      ensures index == Lowest(log.view)
    {
      index := log.LowestOffset();
    }

    method LastIndex() returns (index: Uint64)
      requires log.Valid()
      ensures index == Highest(Layout.Next(log.view))
    {
      index := log.HighestOffset();
    }

    method GetLog(index: Uint64, out: Entry) returns (ok: bool)
      requires log.Valid() && out !in log.Repr
      modifies log.Repr, out
      ensures log.Valid() && log.view == old(log.view)
      ensures ok <==> EntryAt(old(log.view), index).Some?
      ensures out.value == if ok then EntryAt(old(log.view), index).value else old(out.value)
    {
      hide SegOk, Open, AllSealed, Contiguous, Lookup, CommitLog.Log.Parts, CommitLog.Names, Records;
      LookupIsFlatRead(log.view, index);
      var found := log.Read(index);
      if found.None? {
        return false;
      }
      var r := found.value;
      out.value := RaftLog(r.offset, r.term, r.kind % 256, r.value);
      return true;
    }

    method StoreLogs(logs: seq<RaftLog>) returns (ok: bool)
      requires log.Valid() && Layout.Next(log.view) + |logs| < TWO_64
      modifies log.Repr
      ensures log.Valid() && fresh(log.Repr - old(log.Repr))
      ensures (log.view, ok) == StoreAll(log.limits, old(log.view), logs)
    {
      hide SegOk, Open, AllSealed, Contiguous, LogAppend, AppendOk, CommitLog.Log.Parts, CommitLog.Names;
      var i := 0;
      assert logs[0..] == logs;
      while i < |logs|
        invariant i <= |logs| && log.Valid() && fresh(log.Repr - old(log.Repr))
        invariant Layout.Next(log.view) + |logs| - i < TWO_64
        invariant StoreAll(log.limits, old(log.view), logs) == StoreAll(log.limits, log.view, logs[i..])
      {
        assert logs[i..][0] == logs[i] && logs[i..][1..] == logs[i + 1..];
        var off := log.Append(Record(logs[i].data, 0, logs[i].term, logs[i].kind));
        if off.None? {
          return false;
        }
        i := i + 1;
      }
      return true;
    }

    /** The lower end of the range plays no part. */
    method DeleteRange(min: Uint64, max: Uint64)
      requires log.Valid()
      modifies log.Repr
      ensures log.Base() && log.view == Kept(old(log.view), Bound(max))
      ensures Bound(max) < Layout.Next(old(log.view)) ==> log.Valid()
    {
      log.Truncate(max);
    }
  }

  // ---------------------------------------------------------------- contract

  datatype StoreOp = Store(batch: seq<RaftLog>) | Delete(min: Uint64, max: Uint64)

  /** A run of the log store: the log, every entry that was ever stored in it, and
      the highest index a delete has named. */
  datatype StoreState = StoreState(segs: seq<Seg>, history: seq<RaftLog>, deleted: nat)

  ghost predicate Consecutive(batch: seq<RaftLog>, next: nat) {
    forall k | 0 <= k < |batch| :: batch[k].index == next + k
  }

  // What Raft does: entries follow the last index, and a delete leaves some.
  ghost predicate Allowed(s: StoreState, op: StoreOp)
    requires s.segs != []
  {
    match op
    case Store(batch) =>
      Layout.Next(s.segs) + |batch| < TWO_64 && Consecutive(batch, Layout.Next(s.segs))
    case Delete(_, max) => Bound(max) < Layout.Next(s.segs)
  }

  ghost function StoreStep(l: Limits, s: StoreState, op: StoreOp): StoreState
    requires s.segs != [] && Allowed(s, op)
  {
    match op
    case Store(batch) =>
      s.(segs := StoreAll(l, s.segs, batch).0, history := s.history + Taken(l, s.segs, batch))
    case Delete(_, max) =>
      s.(segs := Kept(s.segs, Bound(max)), deleted := if max > s.deleted then max else s.deleted)
  }

  ghost function StoreRun(l: Limits, ops: seq<StoreOp>): Option<StoreState> {
    if ops == [] then Some(StoreState([Fresh(FIRST_INDEX)], [], 0))
    else
      match StoreRun(l, ops[..|ops| - 1])
      case None => None
      case Some(s) =>
        if s.segs != [] && Allowed(s, ops[|ops| - 1]) then Some(StoreStep(l, s, ops[|ops| - 1])) else None
  }

  /** A run can be carried on by a batch of entries that follow the last index and by a
      delete that something reaches beyond, and by nothing else. */
  lemma StoreRunGoesOn(l: Limits, ops: seq<StoreOp>, op: StoreOp)
    requires StoreRun(l, ops).Some? && StoreRun(l, ops).value.segs != []
    ensures var s := StoreRun(l, ops).value;
            var next := Layout.Next(s.segs);
            (StoreRun(l, ops + [op]).Some? <==>
               match op
               case Store(batch) =>
                 next + |batch| <= 0xFFFF_FFFF_FFFF_FFFF && forall k | 0 <= k < |batch| :: batch[k].index == next + k
               case Delete(_, max) => (max + 1) % 0x1_0000_0000_0000_0000 < next)
    ensures op.Delete? && StoreRun(l, ops + [op]).Some? ==>
              StoreRun(l, ops + [op]).value.segs == Kept(StoreRun(l, ops).value.segs, Bound(op.max)) &&
              StoreRun(l, ops + [op]).value.history == StoreRun(l, ops).value.history &&
              StoreRun(l, ops + [op]).value.deleted ==
              if op.max > StoreRun(l, ops).value.deleted then op.max else StoreRun(l, ops).value.deleted
    ensures op.Store? && StoreRun(l, ops + [op]).Some? ==>
              StoreRun(l, ops + [op]).value.deleted == StoreRun(l, ops).value.deleted &&
              StoreRun(l, ops).value.history <= StoreRun(l, ops + [op]).value.history
  {
    hide StoreAll, Taken, Kept;
    assert (ops + [op])[..|ops|] == ops;
  }

  // The record kept for a stored entry.
  function Stored(log: RaftLog): Record {
    ToRecord(log).(offset := log.index)
  }

  ghost predicate Tracks(l: Limits, s: StoreState) {
    && LayoutOk(l, s.segs) && FIRST_INDEX <= Lowest(s.segs) <= s.deleted + 1
    && Consecutive(s.history, FIRST_INDEX)
    && Layout.Next(s.segs) == FIRST_INDEX + |s.history|
    && |Records(s.segs)| <= |s.history|
    && Records(s.segs) == Suffix(s)
  }

  ghost function Suffix(s: StoreState): seq<Record>
    requires s.segs != []
  {
    seq(|Records(s.segs)|, k requires 0 <= k < |Records(s.segs)| =>
      if |Records(s.segs)| <= |s.history| then Stored(s.history[|s.history| - |Records(s.segs)| + k]) else EMPTY)
  }

  lemma SuffixGrows(s: StoreState, segs: seq<Seg>, log: RaftLog)
    requires s.segs != [] && segs != [] && |Records(s.segs)| <= |s.history| && Records(s.segs) == Suffix(s)
    requires Records(segs) == Records(s.segs) + [Stored(log)]
    ensures Records(segs) == Suffix(s.(segs := segs, history := s.history + [log]))
  {
    hide Records, Stored;
  }

  lemma TracksAppend(l: Limits, s: StoreState, log: RaftLog)
    requires Tracks(l, s) && Layout.Next(s.segs) < TWO_64 - 1 && log.index == Layout.Next(s.segs)
    requires AppendOk(l, s.segs)
    ensures Tracks(l, s.(segs := LogAppend(l, s.segs, ToRecord(log)), history := s.history + [log]))
  {
    hide SegOk, Open, AllSealed, Contiguous, LogAppend, Records, AppendOk, Suffix;
    AppendKeepsLayout(l, s.segs, ToRecord(log));
    AppendRecords(l, s.segs, ToRecord(log));
    assert ToRecord(log).(offset := Layout.Next(s.segs)) == Stored(log);
    SuffixGrows(s, LogAppend(l, s.segs, ToRecord(log)), log);
  }

  // A refused entry shows nowhere.
  lemma TracksRefused(l: Limits, s: StoreState, log: RaftLog)
    requires Tracks(l, s) && Layout.Next(s.segs) < TWO_64 - 1 && !AppendOk(l, s.segs)
    ensures Tracks(l, s.(segs := LogAppend(l, s.segs, ToRecord(log))))
  {
    hide SegOk, Open, AllSealed, Contiguous, LogAppend, Records, AppendOk;
    AppendKeepsLayout(l, s.segs, ToRecord(log));
    AppendRecords(l, s.segs, ToRecord(log));
  }

  /** A batch is acknowledged if and only if all of it was stored. */
  lemma {:induction false} StoreAllIff(l: Limits, segs: seq<Seg>, batch: seq<RaftLog>)
    requires segs != [] && Layout.Next(segs) + |batch| < TWO_64
    ensures StoreAll(l, segs, batch).1 <==> Taken(l, segs, batch) == batch
    decreases |batch|
  {
    hide LogAppend, AppendOk;
    if batch != [] && AppendOk(l, segs) {
      StoreAllIff(l, LogAppend(l, segs, ToRecord(batch[0])), batch[1..]);
      assert batch == [batch[0]] + batch[1..];
    }
  }

  lemma {:induction false} TracksStore(l: Limits, s: StoreState, batch: seq<RaftLog>)
    requires Tracks(l, s) && Layout.Next(s.segs) + |batch| < TWO_64
    requires Consecutive(batch, Layout.Next(s.segs))
    ensures Tracks(l, StoreStep(l, s, Store(batch)))
    decreases |batch|
  {
    hide SegOk, Open, AllSealed, Contiguous, LogAppend, Records, AppendOk, Suffix;
    if batch == [] {
      assert s.history + [] == s.history;
    } else if AppendOk(l, s.segs) {
      var log := batch[0];
      var s' := s.(segs := LogAppend(l, s.segs, ToRecord(log)), history := s.history + [log]);
      TracksAppend(l, s, log);
      assert Layout.Next(s'.segs) == Layout.Next(s.segs) + 1;
      TracksStore(l, s', batch[1..]);
      assert s'.history + Taken(l, s'.segs, batch[1..]) == s.history + Taken(l, s.segs, batch);
    } else {
      TracksRefused(l, s, batch[0]);
      assert s.history + [] == s.history;
    }
  }

  lemma SuffixShrinks(s: StoreState, kept: seq<Seg>, deleted: nat, d: nat)
    requires s.segs != [] && kept != [] && d <= |Records(s.segs)| <= |s.history|
    requires Records(s.segs) == Suffix(s) && Records(kept) == Records(s.segs)[d..]
    ensures Records(kept) == Suffix(s.(segs := kept, deleted := deleted))
  {
    hide Records;
  }

  lemma TracksDelete(l: Limits, s: StoreState, max: Uint64)
    requires Tracks(l, s) && Bound(max) < Layout.Next(s.segs)
    ensures Tracks(l, s.(segs := Kept(s.segs, Bound(max)), deleted := if max > s.deleted then max else s.deleted))
  {
    hide SegOk, Open, AllSealed, Contiguous, Records, Kept, Suffix;
    var kept := Kept(s.segs, Bound(max));
    TruncationKeepsLayout(l, s.segs, max);
    RecordsLength(s.segs);
    RecordsLength(kept);
    SuffixShrinks(s, kept, if max > s.deleted then max else s.deleted, Lowest(kept) - Lowest(s.segs));
  }

  lemma {:induction false} RunTracks(l: Limits, ops: seq<StoreOp>)
    requires l.Valid()
    ensures StoreRun(l, ops).Some? ==> Tracks(l, StoreRun(l, ops).value)
  {
    hide SegOk, Open, AllSealed, Contiguous, Records, Kept, StoreAll, Taken, Tracks;
    if ops == [] {
      TracksNothing(l);
    } else if StoreRun(l, ops).Some? {
      RunTracks(l, ops[..|ops| - 1]);
      var s := StoreRun(l, ops[..|ops| - 1]).value;
      match ops[|ops| - 1] {
        case Store(batch) => TracksStore(l, s, batch);
        case Delete(_, max) => TracksDelete(l, s, max);
      }
    }
  }

  lemma TracksNothing(l: Limits)
    requires l.Valid()
    ensures Tracks(l, StoreState([Fresh(FIRST_INDEX)], [], 0))
  {
    hide SegOk, Open, AllSealed, Contiguous;
    FreshOk(l, FIRST_INDEX);
    assert [Fresh(FIRST_INDEX)][..0] == [];
    assert Records([Fresh(FIRST_INDEX)]) == [];
  }

  /** Over any run of batches of consecutive entries and deletes of a prefix, under
      any limits: the last index is the number of entries ever stored (0 for a new
      store); every index from the first to the last reads back the entry last
      stored under it; no other index reads anything; and nothing above the highest
      deleted index is lost. */
  lemma LogStoreContract(l: Limits, ops: seq<StoreOp>, index: Uint64)
    requires l.Valid() && StoreRun(l, ops).Some?
    ensures var s := StoreRun(l, ops).value;
            s.segs != [] &&
            var first, last := Lowest(s.segs), Highest(Layout.Next(s.segs));
            last == |s.history| && FIRST_INDEX <= first <= s.deleted + 1 &&
            (first <= index <= last ==>
               s.history[index - 1].index == index && EntryAt(s.segs, index) == Some(s.history[index - 1])) &&
            (index < first || last < index ==> EntryAt(s.segs, index) == None)
  {
    hide SegOk, Open, AllSealed, Contiguous, Records, Lookup, StoreRun;
    RunTracks(l, ops);
    var s := StoreRun(l, ops).value;
    LookupIsFlatRead(s.segs, index);
    RecordsLength(s.segs);
    if Lowest(s.segs) <= index < Layout.Next(s.segs) {
      var k := index - Lowest(s.segs);
      assert Suffix(s)[k] == Stored(s.history[index - 1]);
      assert FromRecord(Stored(s.history[index - 1])) == s.history[index - 1];
    }
  }

  // --------------------------------------------------- when nothing is refused

  /** Everything Raft asked to be stored, in order. */
  ghost function Submitted(ops: seq<StoreOp>): seq<RaftLog> {
    if ops == [] then []
    else
      Submitted(ops[..|ops| - 1]) + match ops[|ops| - 1] case Store(batch) => batch case Delete(_, _) => []
  }

  // Frames as large as `f`, or limits that need no such help.
  ghost predicate Roomy(l: Limits, f: nat, logs: seq<RaftLog>) {
    || (FIRST_INDEX + IndexSlots(l) <= TWO_64 && NeverSticks(l, FIRST_INDEX))
    || (IndexSlots(l) * f >= l.maxStore && forall k | 0 <= k < |logs| :: FrameAtLeast(ToRecord(logs[k]), f))
  }

  // What such a log keeps to.
  ghost predicate StaysRoomy(l: Limits, f: nat, segs: seq<Seg>)
    requires segs != []
  {
    || (FIRST_INDEX + IndexSlots(l) <= TWO_64 && NeverSticks(l, FIRST_INDEX))
    || (IndexSlots(l) * f >= l.maxStore && ActiveFramesAtLeast(segs, f))
  }

  lemma RoomForOne(l: Limits, f: nat, segs: seq<Seg>, log: RaftLog)
    requires LayoutOk(l, segs) && FIRST_INDEX <= Lowest(segs) && Layout.Next(segs) < TWO_64 - 1
    requires StaysRoomy(l, f, segs) && Roomy(l, f, [log])
    ensures AppendOk(l, segs) && StaysRoomy(l, f, LogAppend(l, segs, ToRecord(log)))
  {
    hide SegOk, Open, AllSealed, Contiguous, LogAppend, AppendOk, NeverSticks, FrameAtLeast, ActiveFramesAtLeast;
    if FIRST_INDEX + IndexSlots(l) <= TWO_64 && NeverSticks(l, FIRST_INDEX) {
      AppendNeverFails(l, segs, FIRST_INDEX);
    } else {
      LargeFramesHaveRoom(l, segs, f);
      assert FrameAtLeast(ToRecord([log][0]), f);
      AppendKeepsLarge(l, segs, ToRecord(log), f);
    }
  }

  lemma {:induction false} RoomForAll(l: Limits, f: nat, segs: seq<Seg>, batch: seq<RaftLog>)
    requires LayoutOk(l, segs) && FIRST_INDEX <= Lowest(segs) && Layout.Next(segs) + |batch| < TWO_64
    requires StaysRoomy(l, f, segs) && Roomy(l, f, batch)
    ensures Taken(l, segs, batch) == batch && StaysRoomy(l, f, StoreAll(l, segs, batch).0)
    decreases |batch|
  {
    hide SegOk, Open, AllSealed, Contiguous, LogAppend, AppendOk, NeverSticks, FrameAtLeast, StaysRoomy;
    if batch != [] {
      var next := LogAppend(l, segs, ToRecord(batch[0]));
      RoomForOne(l, f, segs, batch[0]);
      AppendKeepsLayout(l, segs, ToRecord(batch[0]));
      RoomForAll(l, f, next, batch[1..]);
      assert batch == [batch[0]] + batch[1..];
    }
  }

  /** Nothing is ever refused under limits that never stick, nor when `f` bytes a
      frame fill the store before the index and every entry's frame has as many:
      what is stored is then all that Raft submitted. */
  lemma {:induction false} NothingRefused(l: Limits, f: nat, ops: seq<StoreOp>)
    requires l.Valid() && StoreRun(l, ops).Some? && Roomy(l, f, Submitted(ops))
    ensures StoreRun(l, ops).value.history == Submitted(ops)
    ensures Tracks(l, StoreRun(l, ops).value) && StaysRoomy(l, f, StoreRun(l, ops).value.segs)
  {
    hide SegOk, Open, AllSealed, Contiguous, Records, Kept, NeverSticks, FrameAtLeast, ActiveFramesAtLeast, StoreAll,
         Taken, Suffix;
    RunTracks(l, ops);
    if ops == [] {
      NothingIsRoomy(l, f);
    } else {
      var front := ops[..|ops| - 1];
      RoomyFront(l, f, ops);
      NothingRefused(l, f, front);
      var s := StoreRun(l, front).value;
      match ops[|ops| - 1] {
        case Store(batch) => RoomForAll(l, f, s.segs, batch);
        case Delete(_, max) =>
          TruncationKeepsLayout(l, s.segs, max);
          SameActiveRoomy(l, f, s.segs, Kept(s.segs, Bound(max)));
      }
    }
  }

  lemma NothingIsRoomy(l: Limits, f: nat)
    requires Roomy(l, f, [])
    ensures StaysRoomy(l, f, [Fresh(FIRST_INDEX)])
  {
    hide NeverSticks;
  }

  lemma SameActiveRoomy(l: Limits, f: nat, segs: seq<Seg>, kept: seq<Seg>)
    requires segs != [] && kept != [] && Last(kept) == Last(segs) && StaysRoomy(l, f, segs)
    ensures StaysRoomy(l, f, kept)
  {
    hide NeverSticks, FrameAtLeast;
  }

  lemma RoomyFront(l: Limits, f: nat, ops: seq<StoreOp>)
    requires ops != [] && Roomy(l, f, Submitted(ops))
    ensures Roomy(l, f, Submitted(ops[..|ops| - 1]))
    ensures ops[|ops| - 1].Store? ==> Roomy(l, f, ops[|ops| - 1].batch)
  {
    hide Roomy;
    var front := Submitted(ops[..|ops| - 1]);
    if ops[|ops| - 1].Store? {
      RoomyPart(l, f, front, ops[|ops| - 1].batch);
    } else {
      assert Submitted(ops) == front;
    }
  }

  lemma RoomyPart(l: Limits, f: nat, a: seq<RaftLog>, b: seq<RaftLog>)
    requires Roomy(l, f, a + b)
    ensures Roomy(l, f, a) && Roomy(l, f, b)
  {
    hide NeverSticks, FrameAtLeast, ToRecord;
    assert forall k | 0 <= k < |a| :: a[k] == (a + b)[k];
    assert forall k | 0 <= k < |b| :: b[k] == (a + b)[|a| + k];
  }

  function ToRecords(logs: seq<RaftLog>): (rs: seq<Record>)
    ensures |rs| == |logs|
  {
    if logs == [] then [] else [ToRecord(logs[0])] + ToRecords(logs[1..])
  }

  /** A batch appends its entries up to and including the first that is refused. */
  lemma {:induction false} StoreAllAppends(l: Limits, segs: seq<Seg>, batch: seq<RaftLog>)
    requires segs != [] && Layout.Next(segs) + |batch| < TWO_64
    ensures StoreAll(l, segs, batch).0 ==
            AppendAll(l, segs, ToRecords(batch)[..Absorbed(l, segs, ToRecords(batch))])
    decreases |batch|
  {
    hide LogAppend, AppendOk, AppendAll;
    if batch == [] {
      AppendAllNone(l, segs);
    } else {
      var rs, next := ToRecords(batch), LogAppend(l, segs, ToRecord(batch[0]));
      assert rs[1..] == ToRecords(batch[1..]);
      if AppendOk(l, segs) {
        StoreAllAppends(l, next, batch[1..]);
        var n := Absorbed(l, next, rs[1..]);
        AppendAllFirst(l, segs, rs[..1 + n]);
        assert rs[..1 + n][1..] == rs[1..][..n];
      } else {
        assert rs[..1] == [rs[0]];
        AppendAllOne(l, segs, rs[0]);
      }
    }
  }

  // A batch that is stored whole is a sequence of appends none of which fails.
  lemma {:induction false} StoredWhole(l: Limits, segs: seq<Seg>, batch: seq<RaftLog>)
    requires LayoutOk(l, segs) && NoOrphans(segs) && Layout.Next(segs) + |batch| < TWO_64
    requires Taken(l, segs, batch) == batch
    ensures NoOrphans(AppendAll(l, segs, ToRecords(batch)))
    decreases |batch|
  {
    hide SegOk, Open, AllSealed, Contiguous, LogAppend, AppendOk, AppendAll, NoOrphans;
    if batch == [] {
      AppendAllNone(l, segs);
    } else {
      var next := LogAppend(l, segs, ToRecord(batch[0]));
      AppendKeepsLayout(l, segs, ToRecord(batch[0]));
      AppendSucceeded(l, segs, ToRecord(batch[0]));
      assert Taken(l, next, batch[1..]) == Taken(l, segs, batch)[1..];
      StoredWhole(l, next, batch[1..]);
      AppendAllFirst(l, segs, ToRecords(batch));
    }
  }

  // Entries that carry nothing.
  function EmptyLogs(next: nat, n: nat): (logs: seq<RaftLog>)
    requires next + n <= TWO_64
    ensures |logs| == n && Consecutive(logs, next)
  {
    if n == 0 then [] else EmptyLogs(next, n - 1) + [RaftLog(next + n - 1, 0, 0, [])]
  }

  lemma {:induction false} ToRecordsSnoc(logs: seq<RaftLog>, log: RaftLog)
    ensures ToRecords(logs + [log]) == ToRecords(logs) + [ToRecord(log)]
  {
    if logs == [] {
      assert ToRecords([log]) == [ToRecord(log)] + ToRecords([log][1..]);
    } else {
      assert (logs + [log])[1..] == logs[1..] + [log];
      ToRecordsSnoc(logs[1..], log);
    }
  }

  lemma {:induction false} EmptyLogsAreEmpty(next: nat, n: nat)
    requires next + n <= TWO_64
    ensures ToRecords(EmptyLogs(next, n)) == EmptyRecords(n)
  {
    if n > 0 {
      EmptyLogsAreEmpty(next, n - 1);
      ToRecordsSnoc(EmptyLogs(next, n - 1), RaftLog(next + n - 1, 0, 0, []));
    }
  }

  // The run that asks a new log store for one batch.
  lemma OneBatch(l: Limits, batch: seq<RaftLog>)
    requires l.Valid() && FIRST_INDEX + |batch| < TWO_64 && Consecutive(batch, FIRST_INDEX)
    ensures StoreRun(l, [Store(batch)]) ==
            Some(StoreState(StoreAll(l, [Fresh(FIRST_INDEX)], batch).0, Taken(l, [Fresh(FIRST_INDEX)], batch), 0))
    ensures Submitted([Store(batch)]) == batch
  {
    hide StoreAll, Taken;
    assert [Store(batch)][..0] == [];
    assert StoreRun(l, []) == Some(StoreState([Fresh(FIRST_INDEX)], [], 0));
    assert [] + Taken(l, [Fresh(FIRST_INDEX)], batch) == Taken(l, [Fresh(FIRST_INDEX)], batch);
    assert [] + batch == batch;
  }

  ghost predicate StoresAll(l: Limits, ops: seq<StoreOp>) {
    StoreRun(l, ops).Some? ==> StoreRun(l, ops).value.history == Submitted(ops)
  }

  /** Over all runs everything Raft submits is stored exactly under the limits that
      never stick from the first index on. */
  lemma NothingRefusedIff(l: Limits)
    requires l.Valid()
    ensures NeverSticks(l, FIRST_INDEX) <==> forall ops :: StoresAll(l, ops)
  {
    hide NeverSticks, StoreRun, Submitted, Taken, StoreAll, AppendAll, NoOrphans, LayoutOk;
    if NeverSticks(l, FIRST_INDEX) {
      forall ops
        ensures StoresAll(l, ops)
      {
        if StoreRun(l, ops).Some? {
          NothingRefused(l, 0, ops);
        }
      }
    } else {
      var n := IndexSlots(l) + 1;
      var batch := EmptyLogs(FIRST_INDEX, n);
      FreshOk(l, FIRST_INDEX);
      NewHasNone(FIRST_INDEX);
      EmptyLogsAreEmpty(FIRST_INDEX, n);
      EmptyRecordsStick(l, FIRST_INDEX);
      if Taken(l, [Fresh(FIRST_INDEX)], batch) == batch {
        StoredWhole(l, [Fresh(FIRST_INDEX)], batch);
        assert false;
      }
      OneBatch(l, batch);
      assert !StoresAll(l, [Store(batch)]);
    }
  }

  // ------------------------------------------------------ deleting a range

  // What Raft asks of a delete: exactly the entries from min to max go.
  ghost predicate DeletesExactly(segs: seq<Seg>, kept: seq<Seg>, min: nat, max: nat) {
    forall i: nat :: EntryAt(kept, i) == if min <= i <= max then None else EntryAt(segs, i)
  }

  // The first index that is left.
  function FirstLeft(segs: seq<Seg>, kept: seq<Seg>): nat
    requires segs != []
  {
    if kept == [] then Layout.Next(segs) else Lowest(kept)
  }

  lemma EntryAfterDelete(l: Limits, segs: seq<Seg>, max: Uint64, i: nat)
    requires LayoutOk(l, segs)
    ensures var kept := Kept(segs, Bound(max));
            Lowest(segs) <= FirstLeft(segs, kept) <= Layout.Next(segs) &&
            EntryAt(kept, i) == (if i >= FirstLeft(segs, kept) then EntryAt(segs, i) else None) &&
            (EntryAt(segs, i).Some? <==> Lowest(segs) <= i < Layout.Next(segs))
  {
    hide SegOk, Open, AllSealed, Contiguous, Records, Kept;
    LookupIsFlatRead(segs, i);
    RecordsLength(segs);
    TruncationEmptiesIff(segs, max);
    if Bound(max) < Layout.Next(segs) {
      TruncationKeepsLayout(l, segs, max);
      LookupIsFlatRead(Kept(segs, Bound(max)), i);
    }
  }

  // The condition, in terms of what is left.
  lemma DeleteByWhatIsLeft(l: Limits, segs: seq<Seg>, min: Uint64, max: Uint64)
    requires LayoutOk(l, segs) && min <= max
    ensures var kept := Kept(segs, Bound(max));
            var low, next, left := Lowest(segs), Layout.Next(segs), FirstLeft(segs, kept);
            DeletesExactly(segs, kept, min, max) <==>
              if left == low then low == next || max < low || next <= min
              else min <= low && left == Min(max + 1, next)
  {
    hide SegOk, Open, AllSealed, Contiguous, Records, Kept, EntryAt;
    var kept := Kept(segs, Bound(max));
    var low, next, left := Lowest(segs), Layout.Next(segs), FirstLeft(segs, kept);
    forall i: nat
      ensures EntryAt(kept, i) == (if i >= left then EntryAt(segs, i) else None)
      ensures EntryAt(segs, i).Some? <==> low <= i < next
    {
      EntryAfterDelete(l, segs, max, i);
    }
    EntryAfterDelete(l, segs, max, low);
    if DeletesExactly(segs, kept, min, max) {
      ExactAt(segs, kept, min, max, low);
      ExactAt(segs, kept, min, max, min);
      ExactAt(segs, kept, min, max, left);
      if left > low {
        ExactAt(segs, kept, min, max, left - 1);
      }
    } else {
      var i: nat :| EntryAt(kept, i) != if min <= i <= max then None else EntryAt(segs, i);
      assert EntryAt(kept, i) == (if i >= left then EntryAt(segs, i) else None);
      assert EntryAt(segs, i).Some? <==> low <= i < next;
    }
  }

  ghost predicate SegmentStartsAt(segs: seq<Seg>, index: nat) {
    exists i :: 0 < i < |segs| && segs[i].base == index
  }

  // The first segment that reaches beyond `bound` starts at it or before.
  lemma NextStart(segs: seq<Seg>, bound: nat, k: nat)
    requires Contiguous(segs) && 0 < k < |segs| && segs[k - 1].Next() <= bound
    ensures segs[k].base <= bound
  {
    hide Contiguous;
    ContiguousAt(segs, k - 1);
  }

  // No other segment can start right there.
  lemma StartsAtBound(segs: seq<Seg>, bound: nat, k: nat)
    requires Contiguous(segs) && 0 < k < |segs|
    requires forall i | 0 <= i < k :: segs[i].base < segs[k].base
    requires forall i | 0 <= i < |segs| :: segs[i].Next() <= bound <==> i < k
    ensures segs[k].base == bound <==> SegmentStartsAt(segs, bound)
  {
    hide Contiguous;
    NextStart(segs, bound, k);
    if SegmentStartsAt(segs, bound) {
      var i :| 0 < i < |segs| && segs[i].base == bound;
      ContiguousAt(segs, i - 1);
      assert segs[i - 1].Next() <= bound;
    }
  }

  // Where a delete leaves the first index.
  lemma FirstLeftAt(l: Limits, segs: seq<Seg>, max: Uint64)
    requires LayoutOk(l, segs)
    ensures var left := FirstLeft(segs, Kept(segs, Bound(max)));
            if segs[0].Next() > Bound(max) then left == Lowest(segs)
            else
              (Lowest(segs) < left || Lowest(segs) == Layout.Next(segs)) &&
              (left == Min(max + 1, Layout.Next(segs)) <==>
                 max + 1 >= Layout.Next(segs) || SegmentStartsAt(segs, max + 1))
  {
    hide SegOk, Open, AllSealed, Contiguous, Kept, SegmentStartsAt;
    var k := KeptSuffix(segs, Bound(max));
    LayoutBases(l, segs);
    if k == 0 {
      assert segs[0..] == segs;
    } else if k < |segs| {
      assert segs[0].Next() <= Bound(max);
      assert segs[k - 1].Next() <= Bound(max) && segs[|segs| - 1].Next() > Bound(max);
      NextStart(segs, Bound(max), k);
      StartsAtBound(segs, Bound(max), k);
      assert segs[k..][0] == segs[k];
    } else {
      assert segs[|segs| - 1].Next() <= Bound(max);
    }
  }

  lemma LayoutBases(l: Limits, segs: seq<Seg>)
    requires LayoutOk(l, segs)
    ensures forall i, j | 0 <= i < j < |segs| :: segs[i].base < segs[j].base
    ensures forall i | 0 <= i < |segs| :: segs[i].Next() <= Layout.Next(segs) < TWO_64
    ensures |segs| > 1 ==> segs[0].Next() > Lowest(segs)
  {
    hide Frames, SegOk, Open, AllSealed, Contiguous;
    CommitLog.LayoutDistinct(l, segs);
    CommitLog.BaseBound(l, Last(segs));
    forall i | 0 <= i < |segs|
      ensures segs[i].Next() <= Layout.Next(segs)
    {
      NextOrdered(segs, i);
    }
    if |segs| > 1 {
      ContiguousAt(segs, 0);
    }
  }

  /** A delete takes exactly the entries Raft names if and only if: there is none to
      take; or the first segment reaches beyond the range, which then must name no
      entry; or the range starts at or before the first entry and ends at or after
      the last one or just before the start of a segment. */
  lemma DeleteRangeIff(l: Limits, segs: seq<Seg>, min: Uint64, max: Uint64)
    requires LayoutOk(l, segs) && min <= max
    ensures DeletesExactly(segs, Kept(segs, Bound(max)), min, max) <==>
            Lowest(segs) == Layout.Next(segs) ||
            (if segs[0].Next() > Bound(max) then max < Lowest(segs) || Layout.Next(segs) <= min
             else min <= Lowest(segs) && (max + 1 >= Layout.Next(segs) || SegmentStartsAt(segs, max + 1)))
  {
    hide SegOk, Open, AllSealed, Contiguous, Records, Kept, EntryAt, DeletesExactly, SegmentStartsAt;
    DeleteByWhatIsLeft(l, segs, min, max);
    FirstLeftAt(l, segs, max);
    LayoutBases(l, segs);
  }

  lemma ExactAt(segs: seq<Seg>, kept: seq<Seg>, min: nat, max: nat, i: nat)
    requires DeletesExactly(segs, kept, min, max)
    ensures EntryAt(kept, i) == if min <= i <= max then None else EntryAt(segs, i)
  {
    hide EntryAt;
  }

  /** Deleting a conflicting suffix, as Raft does when a follower's log diverges,
      takes the whole log away, however high the lower end of the range is. */
  lemma SuffixDeleteTakesEverything(l: Limits, segs: seq<Seg>)
    requires LayoutOk(l, segs) && 0 < Layout.Next(segs) < TWO_64
    ensures Kept(segs, Bound(Highest(Layout.Next(segs)))) == []
  {
    hide SegOk, Open, AllSealed, Contiguous, Kept;
    TruncationEmptiesIff(segs, Highest(Layout.Next(segs)));
  }
}
