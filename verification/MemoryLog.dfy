/** The in-memory log of the server package, and its agreement with the
    segmented log. */
module MemoryLog {
  import opened Bytes
  import opened RecordCodec
  import opened Layout
  import opened Replay
  import opened Capacity
  import opened FlatLog

  datatype Entry = Entry(value: Slice, offset: Uint64)

  datatype ReadResult = Found(entry: Entry) | OffsetNotFound

  function ReadAt(entries: seq<Entry>, off: Uint64): ReadResult {
    if off >= |entries| then OffsetNotFound else Found(entries[off])
  }

  class Log {
    var entries: seq<Entry>

    constructor ()
      ensures entries == []
    {
      entries := [];
    }

    method Append(entry: Entry) returns (off: Uint64)
      requires |entries| < TWO_64
      modifies this
      ensures off == old(|entries|)
      ensures entries == old(entries) + [entry.(offset := off)]
    {
      var e := entry.(offset := |entries|);
      entries := entries + [e];
      off := e.offset;
    }

    method Read(off: Uint64) returns (result: ReadResult)
      ensures result == ReadAt(entries, off)
      ensures result.OffsetNotFound? <==> off >= |entries|
    {
      if off >= |entries| {
        return OffsetNotFound;
      }
      return Found(entries[off]);
    }
  }

  // ---------------------------------------------------------------- agreement

  datatype Reply = Assigned(off: nat) | Read(result: ReadResult) | NoReply

  // What a client of the in-memory log could see of a segmented log's answer.
  function Project(out: Out): Reply {
    match out
    case Offset(o) => Assigned(o)
    case Got(r) => Read(Found(Entry(r.value, r.offset)))
    case OutOfRange(_) => Read(OffsetNotFound)
    case _ => NoReply
  }

  predicate AppendOrRead(op: Op) {
    op.OpAppend? || op.OpRead?
  }

  // The in-memory log over a run of appends and reads (see `Log`).
  function MemoryRun(ops: seq<Op>): (run: (seq<Entry>, seq<Reply>))
    requires |ops| <= TWO_64
    requires forall k | 0 <= k < |ops| :: AppendOrRead(ops[k])
    ensures |run.0| <= |ops| == |run.1|
  {
    if ops == [] then ([], [])
    else
      assert AppendOrRead(ops[|ops| - 1]);
      var (entries, replies) := MemoryRun(ops[..|ops| - 1]);
      var op := ops[|ops| - 1];
      if op.OpAppend? then (entries + [Entry(op.r.value, |entries|)], replies + [Assigned(|entries|)])
      else (entries, replies + [Read(ReadAt(entries, op.off))])
  }

  ghost predicate SameContents(records: seq<Record>, entries: seq<Entry>) {
    |records| == |entries| &&
    forall k | 0 <= k < |records| :: entries[k] == Entry(records[k].value, records[k].offset)
  }

  /** The in-memory log does what `MemoryRun` says. */
  method RunMemory(log: Log, ops: seq<Op>) returns (replies: seq<Reply>)
    requires log.entries == [] && |ops| <= TWO_64
    requires forall k | 0 <= k < |ops| :: AppendOrRead(ops[k])
    modifies log
    ensures (log.entries, replies) == MemoryRun(ops)
  {
    hide ReadAt, MemoryRun;
    replies := [];
    var i := 0;
    MemoryStart();
    while i < |ops|
      invariant i <= |ops|
      invariant (log.entries, replies) == MemoryRun(ops[..i])
    {
      MemoryStep(ops, i);
      var reply := OneOperation(log, ops[i]);
      replies := replies + [reply];
      i := i + 1;
    }
    assert ops[..i] == ops;
  }

  lemma MemoryStart()
    ensures MemoryRun([]) == ([], [])
  {
  }

  lemma MemoryStep(ops: seq<Op>, i: nat)
    requires i < |ops| <= TWO_64
    requires forall k | 0 <= k < |ops| :: AppendOrRead(ops[k])
    ensures var (entries, replies) := MemoryRun(ops[..i]);
            |entries| < TWO_64 &&
            MemoryRun(ops[..i + 1]) ==
            if ops[i].OpAppend? then (entries + [Entry(ops[i].r.value, |entries|)], replies + [Assigned(|entries|)])
            else assert AppendOrRead(ops[i]); (entries, replies + [Read(ReadAt(entries, ops[i].off))])
  {
    assert ops[..i + 1][..i] == ops[..i];
  }

  method OneOperation(log: Log, op: Op) returns (reply: Reply)
    requires AppendOrRead(op) && |log.entries| < TWO_64
    modifies log
    ensures log.entries ==
            if op.OpAppend? then old(log.entries) + [Entry(op.r.value, |old(log.entries)|)] else old(log.entries)
    ensures reply == if op.OpAppend? then Assigned(|old(log.entries)|) else Read(ReadAt(log.entries, op.off))
  {
    match op {
      case OpAppend(r) =>
        var off := log.Append(Entry(r.value, 0));
        return Assigned(off);
      case OpRead(off) =>
        var result := log.Read(off);
        return Read(result);
    }
  }

  // One step of both logs from matching states.
  lemma StepAgrees(l: Limits, segs: seq<Seg>, entries: seq<Entry>, op: Op)
    requires LayoutOk(l, segs) && Lowest(segs) == 0
    requires AppendOrRead(op) && Enabled(Layout.Next(segs), op)
    ensures var (segs', out) := Step(l, segs, op);
            LayoutOk(l, segs') && Lowest(segs') == 0 && Layout.Next(segs') <= Layout.Next(segs) + 1 &&
            (SameContents(Records(segs), entries) && out != AppendFailed ==>
              match op
              case OpAppend(r) =>
                Project(out) == Assigned(|entries|) && |entries| < TWO_64 &&
                SameContents(Records(segs'), entries + [Entry(r.value, |entries|)])
              case OpRead(off) =>
                Project(out) == Read(ReadAt(entries, off)) && SameContents(Records(segs'), entries)
              case _ => true)
  {
    hide Contiguous, SegOk, AllSealed, Open, Records, Lookup, LogAppend, AppendOk;
    RecordsLength(segs);
    match op {
      case OpAppend(r) =>
        AppendKeepsLayout(l, segs, r);
        AppendRecords(l, segs, r);
      case OpRead(off) =>
        LookupIsFlatRead(segs, off);
      case _ =>
    }
  }

  // None of the first `n` answers is that an append failed.
  ghost predicate NoneFailed(outs: seq<Out>, n: nat)
    requires n <= |outs|
  {
    forall k | 0 <= k < n :: outs[k] != AppendFailed
  }

  lemma SameFailures(a: seq<Out>, b: seq<Out>, n: nat)
    requires n <= |a| && n <= |b| && a[..n] == b[..n]
    ensures NoneFailed(a, n) <==> NoneFailed(b, n)
  {
    assert forall k | 0 <= k < n :: a[k] == a[..n][k] == b[..n][k] == b[k];
  }

  lemma FailedFront(all: seq<Out>, outs: seq<Out>)
    requires all != [] && outs == all[..|all| - 1]
    ensures forall k | 0 <= k < |outs| :: all[k] == outs[k] && (NoneFailed(all, k + 1) <==> NoneFailed(outs, k + 1))
    ensures NoneFailed(all, |all|) <==> NoneFailed(outs, |outs|) && all[|outs|] != AppendFailed
  {
    forall k | 0 <= k < |outs|
      ensures all[k] == outs[k] && (NoneFailed(all, k + 1) <==> NoneFailed(outs, k + 1))
    {
      SameFailures(all, outs, k + 1);
    }
    SameFailures(all, outs, |outs|);
  }

  /** Without truncation and starting at offset 0, under any limits, the segmented
      log gives the same answer as the in-memory log to every operation of every
      run up to the first append that fails, out-of-range errors included. */
  lemma {:induction false} SegmentedAgreesWithMemory(l: Limits, ops: seq<Op>)
    requires l.Valid() && |ops| < TWO_64 - 1
    requires forall k | 0 <= k < |ops| :: AppendOrRead(ops[k])
    ensures var run := Run(l, [Fresh(0)], ops);
            run.Some? && |run.value.1| == |ops| &&
            LayoutOk(l, run.value.0) && Lowest(run.value.0) == 0 && Layout.Next(run.value.0) <= |ops| &&
            (NoneFailed(run.value.1, |ops|) ==> SameContents(Records(run.value.0), MemoryRun(ops).0)) &&
            forall k | 0 <= k < |ops| && NoneFailed(run.value.1, k + 1) ::
              Project(run.value.1[k]) == MemoryRun(ops).1[k]
  {
    hide Contiguous, SegOk, AllSealed, Open, Step, SameContents, Project, Records;
    if ops == [] {
      FreshOk(l, 0);
      EmptyAgrees();
    } else {
      var n := |ops| - 1;
      var front, op := ops[..n], ops[n];
      SegmentedAgreesWithMemory(l, front);
      var (mid, outs) := Run(l, [Fresh(0)], front).value;
      StepAgrees(l, mid, MemoryRun(front).0, op);
      var all := Run(l, [Fresh(0)], ops).value.1;
      assert all[..n] == outs;
      FailedFront(all, outs);
    }
  }

  lemma EmptyAgrees()
    ensures SameContents(Records([Fresh(0)]), [])
  {
    assert [Fresh(0)][..0] == [];
  }

  // The in-memory log answers everything.
  lemma {:induction false} MemoryAnswers(ops: seq<Op>, k: nat)
    requires |ops| <= TWO_64 && k < |ops|
    requires forall i | 0 <= i < |ops| :: AppendOrRead(ops[i])
    ensures MemoryRun(ops).1[k] != NoReply
  {
    if k < |ops| - 1 {
      MemoryAnswers(ops[..|ops| - 1], k);
    }
  }

  function AppendsIn(ops: seq<Op>): (rs: seq<Record>)
    ensures |rs| <= |ops|
  {
    if ops == [] then []
    else
      AppendsIn(ops[..|ops| - 1]) + if ops[|ops| - 1].OpAppend? then [ops[|ops| - 1].r] else []
  }

  // A run of appends and reads builds the log of what was appended, and none of its
  // appends fails exactly when that leaves no frame without an index entry.
  lemma {:induction false} RunIsBuild(l: Limits, ops: seq<Op>)
    requires l.Valid() && |ops| < TWO_64 - 1
    requires forall k | 0 <= k < |ops| :: AppendOrRead(ops[k])
    ensures var run := Run(l, [Fresh(0)], ops);
            run.Some? && |run.value.1| == |ops| && run.value.0 == Build(l, 0, AppendsIn(ops)) &&
            (NoOrphans(run.value.0) <==> NoneFailed(run.value.1, |ops|))
  {
    hide LogAppend, Lookup, Contiguous, SegOk, AllSealed, Open, NoOrphans, AppendOk, NoneFailed;
    if ops == [] {
      NewHasNone(0);
      NothingFailed();
    } else {
      var n := |ops| - 1;
      var front, op := ops[..n], ops[n];
      RunIsBuild(l, front);
      BuildOk(l, 0, AppendsIn(front));
      var (mid, outs) := Run(l, [Fresh(0)], front).value;
      var all := Run(l, [Fresh(0)], ops).value.1;
      assert all[..n] == outs;
      FailedFront(all, outs);
      if op.OpAppend? {
        AppendSucceeded(l, mid, op.r);
        assert AppendsIn(ops)[..|AppendsIn(ops)| - 1] == AppendsIn(front);
      } else {
        assert AppendsIn(ops) == AppendsIn(front);
      }
    }
  }

  lemma NothingFailed()
    ensures NoneFailed([], 0)
  {
  }

  /** The two logs give the same answers over a whole run. */
  ghost predicate Agree(l: Limits, ops: seq<Op>)
    requires l.Valid() && |ops| < TWO_64 - 1
    requires forall k | 0 <= k < |ops| :: AppendOrRead(ops[k])
  {
    SegmentedAgreesWithMemory(l, ops);
    forall k | 0 <= k < |ops| :: Project(Run(l, [Fresh(0)], ops).value.1[k]) == MemoryRun(ops).1[k]
  }

  /** They do if and only if the records that the run appends fit the index of every
      segment they come to. */
  lemma AgreementIff(l: Limits, ops: seq<Op>)
    requires l.Valid() && |ops| < TWO_64 - 1
    requires forall k | 0 <= k < |ops| :: AppendOrRead(ops[k])
    ensures Agree(l, ops) <==> NoOrphans(Build(l, 0, AppendsIn(ops)))
  {
    hide LayoutOk, Run, MemoryRun, SameContents, AppendOrRead, NoOrphans, Build;
    SegmentedAgreesWithMemory(l, ops);
    RunIsBuild(l, ops);
    var outs := Run(l, [Fresh(0)], ops).value.1;
    forall k | 0 <= k < |ops|
      ensures MemoryRun(ops).1[k] != NoReply
      ensures NoneFailed(outs, |ops|) ==> NoneFailed(outs, k + 1)
    {
      MemoryAnswers(ops, k);
    }
  }

  // The run that appends these records.
  function AppendOps(rs: seq<Record>): (ops: seq<Op>)
    ensures |ops| == |rs| && forall k | 0 <= k < |ops| :: AppendOrRead(ops[k])
  {
    if rs == [] then [] else AppendOps(rs[..|rs| - 1]) + [OpAppend(rs[|rs| - 1])]
  }

  lemma {:induction false} AppendsInAppendOps(rs: seq<Record>)
    ensures AppendsIn(AppendOps(rs)) == rs
  {
    if rs != [] {
      AppendsInAppendOps(rs[..|rs| - 1]);
      assert AppendOps(rs)[..|rs| - 1] == AppendOps(rs[..|rs| - 1]);
      assert rs[..|rs| - 1] + [rs[|rs| - 1]] == rs;
    }
  }

  ghost predicate AgreeOnAppendsAndReads(l: Limits, ops: seq<Op>)
    requires l.Valid()
  {
    |ops| < TWO_64 - 1 && (forall k | 0 <= k < |ops| :: AppendOrRead(ops[k])) ==> Agree(l, ops)
  }

  /** Over all runs they do exactly under the limits that never stick. */
  lemma AlwaysAgreeIff(l: Limits)
    requires l.Valid()
    ensures NeverSticks(l, 0) <==> forall ops :: AgreeOnAppendsAndReads(l, ops)
  {
    hide LayoutOk, Run, MemoryRun, NeverSticks, Build, AppendOrRead, NoOrphans, Agree;
    if NeverSticks(l, 0) {
      forall ops
        ensures AgreeOnAppendsAndReads(l, ops)
      {
        if |ops| < TWO_64 - 1 && (forall k | 0 <= k < |ops| :: AppendOrRead(ops[k])) {
          AgreementIff(l, ops);
          BuildOk(l, 0, AppendsIn(ops));
          AppendNeverFails(l, Build(l, 0, AppendsIn(ops)), 0);
        }
      }
    } else {
      var rs := EmptyRecords(IndexSlots(l) + 1);
      var ops := AppendOps(rs);
      EmptyRecordsStick(l, 0);
      AppendsInAppendOps(rs);
      AgreementIff(l, ops);
      assert !AgreeOnAppendsAndReads(l, ops);
    }
  }

  /** Under any limits they do when `f` bytes a frame fill the store before the index
      and every record has as many. */
  lemma LargeRecordsAgree(l: Limits, ops: seq<Op>, f: nat)
    requires l.Valid() && |ops| < TWO_64 - 1
    requires forall k | 0 <= k < |ops| :: AppendOrRead(ops[k])
    requires IndexSlots(l) * f >= l.maxStore && AllFramesAtLeast(AppendsIn(ops), f)
    ensures Agree(l, ops)
  {
    hide LayoutOk, Run, MemoryRun, AllFramesAtLeast, Build, AppendOrRead, Agree, NoOrphans, AppendOk;
    AgreementIff(l, ops);
    LargeFramesNeverFail(l, 0, AppendsIn(ops), f);
  }
}
