/** The segmented log seen from outside: a sequence of records with a moving
    lower bound. Every run of the segmented log is a run of this simple machine. */
module FlatLog {
  import opened Bytes
  import opened RecordCodec
  import opened Layout
  import opened Replay
  import opened Capacity

  datatype Flat = Flat(low: nat, records: seq<Record>) {
    function Next(): nat { low + |records| }
    function Read(off: nat): Option<Record> {
      if low <= off < Next() then Some(records[off - low]) else None
    }
  }

  function View(segs: seq<Seg>): Flat
    requires segs != []
  {
    Flat(Lowest(segs), Records(segs))
  }

  // ------------------------------------------------------------------ lookup

  /** The record in the first segment that covers `off`. */
  function Lookup(segs: seq<Seg>, off: nat): Option<Record> {
    if segs == [] then None
    else if segs[0].base <= off < segs[0].Next() then Some(segs[0].records[off - segs[0].base])
    else Lookup(segs[1..], off)
  }

  lemma {:induction false} LookupFirst(segs: seq<Seg>, off: nat, i: nat)
    requires i < |segs| && segs[i].base <= off < segs[i].Next()
    requires forall j | 0 <= j < i :: !(segs[j].base <= off < segs[j].Next())
    ensures Lookup(segs, off) == Some(segs[i].records[off - segs[i].base])
  {
    if i > 0 {
      LookupFirst(segs[1..], off, i - 1);
    }
  }

  lemma {:induction false} LookupNone(segs: seq<Seg>, off: nat)
    requires forall j | 0 <= j < |segs| :: !(segs[j].base <= off < segs[j].Next())
    ensures Lookup(segs, off) == None
  {
    if segs != [] {
      LookupNone(segs[1..], off);
    }
  }

  /** Looking an offset up segment by segment finds what the flat sequence holds
      there, and nothing exactly when the offset is out of range. */
  lemma LookupIsFlatRead(segs: seq<Seg>, off: nat)
    requires segs != [] && Contiguous(segs)
    ensures Lookup(segs, off) == View(segs).Read(off)
  {
    hide Contiguous, Lookup, Records;
    RecordsLength(segs);
    UniqueLocation(segs, off);
    if Lowest(segs) <= off < Layout.Next(segs) {
      var i := SegmentOf(segs, off);
      assert Holds(segs, i, off);
      forall j | 0 <= j < i
        ensures !(segs[j].base <= off < segs[j].Next())
      {
        BasesOrdered(segs, j, i);
      }
      LookupFirst(segs, off, i);
      RecordsAt(segs, i, off - segs[i].base);
    } else {
      forall j | 0 <= j < |segs|
        ensures !(segs[j].base <= off < segs[j].Next())
      {
        assert !Holds(segs, j, off);
      }
      LookupNone(segs, off);
    }
  }

  // -------------------------------------------------------------- truncation

  lemma {:induction false} NextOrdered(segs: seq<Seg>, i: nat)
    requires Contiguous(segs) && i < |segs|
    ensures segs[i].Next() <= Last(segs).Next()
  {
    if i < |segs| - 1 {
      BasesOrdered(segs, i, |segs| - 1);
    }
  }

  lemma KeptLast(segs: seq<Seg>, bound: nat)
    requires segs != []
    ensures Last(segs).Next() > bound ==> Kept(segs, bound) == Kept(segs[..|segs| - 1], bound) + [Last(segs)]
    ensures Last(segs).Next() <= bound ==> Kept(segs, bound) == Kept(segs[..|segs| - 1], bound)
  {
  }

  /** What truncation keeps is a suffix of the segments. */
  lemma {:induction false} KeptSuffix(segs: seq<Seg>, bound: nat) returns (k: nat)
    requires Contiguous(segs)
    ensures k <= |segs| && Kept(segs, bound) == segs[k..]
    ensures forall i | 0 <= i < |segs| :: segs[i].Next() <= bound <==> i < k
  {
    hide Contiguous, Kept;
    if segs == [] {
      k := 0;
      KeptNothing(bound);
    } else {
      var front := segs[..|segs| - 1];
      ContiguousFront(segs);
      k := KeptSuffix(front, bound);
      KeptLast(segs, bound);
      if Last(segs).Next() <= bound {
        forall i | 0 <= i < |segs|
          ensures segs[i].Next() <= bound
        {
          NextOrdered(segs, i);
        }
        assert k < |front| ==> front[k] == segs[k] && front[k].Next() > bound;
        k := |segs|;
      } else {
        assert segs[k..] == front[k..] + [Last(segs)];
        assert forall i | 0 <= i < |front| :: front[i] == segs[i];
      }
    }
  }

  lemma KeptNothing(bound: nat)
    ensures Kept([], bound) == []
  {
  }

  /** Truncation removes every segment, the active one included, exactly when
      nothing in the log reaches beyond `lowest`. */
  lemma TruncationEmptiesIff(segs: seq<Seg>, lowest: Uint64)
    requires segs != [] && Contiguous(segs)
    ensures Kept(segs, Bound(lowest)) == [] <==> Layout.Next(segs) <= Bound(lowest)
    ensures Bound(lowest) == if lowest == 0xFFFF_FFFF_FFFF_FFFF then 0 else lowest + 1
  {
    hide Contiguous, Kept;
    var k := KeptSuffix(segs, Bound(lowest));
    assert segs[|segs| - 1].Next() == Layout.Next(segs);
  }

  lemma {:induction false} RecordsSuffix(segs: seq<Seg>, k: nat)
    requires Contiguous(segs) && k < |segs|
    ensures Lowest(segs) <= segs[k].base
    ensures segs[k].base - Lowest(segs) <= |Records(segs)|
    ensures Records(segs[k..]) == Records(segs)[segs[k].base - Lowest(segs)..]
  {
    hide Records;
    assert segs[..k] + segs[k..] == segs;
    RecordsConcat(segs[..k], segs[k..]);
    if k > 0 {
      ContiguousPrefix(segs, k);
      RecordsLength(segs[..k]);
      ContiguousAt(segs, k - 1);
    } else {
      EmptyRecordsView(segs);
    }
  }

  lemma EmptyRecordsView(segs: seq<Seg>)
    ensures Records(segs[..0]) == []
  {
  }

  lemma {:induction false} ContiguousPrefix(segs: seq<Seg>, k: nat)
    requires Contiguous(segs) && k <= |segs|
    ensures Contiguous(segs[..k])
  {
    if k < |segs| {
      ContiguousPrefix(segs[..|segs| - 1], k);
      assert segs[..|segs| - 1][..k] == segs[..k];
    } else {
      assert segs[..k] == segs;
    }
  }

  /** As long as something reaches beyond `lowest`, truncation keeps the invariant
      and the active segment, drops a prefix of the flat view and nothing else,
      and moves the lowest offset to at most lowest+1. */
  lemma TruncationKeepsLayout(l: Limits, segs: seq<Seg>, lowest: Uint64)
    requires LayoutOk(l, segs) && Bound(lowest) < Layout.Next(segs)
    ensures var kept := Kept(segs, Bound(lowest));
            LayoutOk(l, kept) && Last(kept) == Last(segs) && Lowest(segs) <= Lowest(kept) &&
            (kept == segs || Lowest(kept) <= Bound(lowest)) &&
            |Records(segs)| >= Lowest(kept) - Lowest(segs) &&
            Records(kept) == Records(segs)[Lowest(kept) - Lowest(segs)..]
  {
    hide Contiguous, Kept, SegOk, AllSealed, Open, Records;
    var k := KeptSuffix(segs, Bound(lowest));
    assert segs[|segs| - 1].Next() == Layout.Next(segs);
    SuffixLayout(l, segs, k);
    RecordsSuffix(segs, k);
    if k > 0 {
      ContiguousAt(segs, k - 1);
      assert segs[k - 1].Next() <= Bound(lowest);
    } else {
      assert segs[0..] == segs;
    }
  }

  /** Every offset above `lowest` reads the same before and after. */
  lemma TruncationKeepsReads(l: Limits, segs: seq<Seg>, lowest: Uint64, off: nat)
    requires LayoutOk(l, segs) && Bound(lowest) < Layout.Next(segs) && lowest < off
    ensures var kept := Kept(segs, Bound(lowest));
            kept != [] && Lookup(kept, off) == Lookup(segs, off)
  {
    hide Contiguous, Kept, SegOk, AllSealed, Open, Records, Lookup;
    TruncationKeepsLayout(l, segs, lowest);
    LookupIsFlatRead(segs, off);
    LookupIsFlatRead(Kept(segs, Bound(lowest)), off);
    RecordsLength(segs);
  }

  /** Deleting up to the last offset of a log takes the whole log away. */
  lemma TruncationCanEmptyALog()
    ensures var segs := Build(Limits(1024, 1020), 0, [EMPTY]);
            LayoutOk(Limits(1024, 1020), segs) && Layout.Next(segs) == 1 && Kept(segs, Bound(0)) == []
  {
    hide Frames;
    BuildOk(Limits(1024, 1020), 0, [EMPTY]);
    var segs := Build(Limits(1024, 1020), 0, [EMPTY]);
    OneEmptyRecord();
    assert segs[..0] == [];
  }

  lemma OneEmptyRecord()
    ensures Build(Limits(1024, 1020), 0, [EMPTY]) == [Seg(0, [EMPTY], [])]
  {
    var l, s := Limits(1024, 1020), Seg(0, [EMPTY], []);
    assert [EMPTY][..0] == [];
    assert AppendAll(l, [Fresh(0)], []) == [Fresh(0)];
    assert SegAppend(l, Fresh(0), EMPTY) == s;
    assert |s.StoreBytes()| == 8 by {
      assert s.records + s.orphans == [EMPTY];
      assert Frames([EMPTY]) == Frames([]) + Frame(EMPTY);
    }
    assert [Fresh(0)][..0] + [s] == [s];
  }

  // ------------------------------------------------------------------- runs

  datatype Op =
    | OpAppend(r: Record)
    | OpRead(off: Uint64)
    | OpTruncate(lowest: Uint64)
    | OpReopen
    | OpLowest
    | OpHighest

  datatype Out =
    | Offset(o: nat)
    | Got(r: Record)
    | OutOfRange(off: nat)
    | AppendFailed
    | Done

  function Answer(found: Option<Record>, off: nat): Out {
    match found
    case Some(r) => Got(r)
    case None => OutOfRange(off)
  }

  function Highest(next: nat): nat {
    if next == 0 then 0 else next - 1
  }

  /** One operation of the segmented log. Closing and reopening shows as nothing:
      `Recovery.RunOps` proves of the log and its files that this is so. */
  function Step(l: Limits, segs: seq<Seg>, op: Op): (seq<Seg>, Out)
    requires segs != [] && (op.OpAppend? ==> Layout.Next(segs) < TWO_64 - 1)
  {
    match op
    case OpAppend(r) =>
      (LogAppend(l, segs, r), if AppendOk(l, segs) then Offset(Layout.Next(segs)) else AppendFailed)
    case OpRead(off) =>
      (segs, Answer(Lookup(segs, off), off))
    case OpTruncate(lowest) => (Kept(segs, Bound(lowest)), Done)
    case OpReopen => (segs, Done)
    case OpLowest => (segs, Offset(Lowest(segs)))
    case OpHighest => (segs, Offset(Highest(Layout.Next(segs))))
  }

  // What the source asks of its callers: offsets are not used up, and something
  // beyond the truncation point is left.
  ghost predicate Enabled(next: nat, op: Op) {
    match op
    case OpAppend(_) => next < TWO_64 - 1
    case OpTruncate(lowest) => Bound(lowest) < next
    case _ => true
  }

  /** One operation of the simple machine. Only truncation leaves it a choice:
      how much of what lies below the requested point to drop. */
  ghost predicate FlatStep(f: Flat, op: Op, f': Flat, out: Out, mayFail: bool) {
    match op
    case OpAppend(r) =>
      || (f.Next() < TWO_64 && out == Offset(f.Next()) &&
          f' == f.(records := f.records + [r.(offset := f.Next())]))
      || (mayFail && out == AppendFailed && f' == f)
    case OpRead(off) =>
      f' == f && out == Answer(f.Read(off), off)
    case OpTruncate(lowest) =>
      && out == Done
      && f.low <= f'.low <= f.Next() && (f'.low == f.low || f'.low <= Bound(lowest))
      && f'.records == f.records[f'.low - f.low..]
    case OpReopen => f' == f && out == Done
    case OpLowest => f' == f && out == Offset(f.low)
    case OpHighest => f' == f && out == Offset(Highest(f.Next()))
  }

  lemma AppendRefines(l: Limits, segs: seq<Seg>, r: Record, low: nat)
    requires LayoutOk(l, segs) && Layout.Next(segs) < TWO_64 - 1
    requires low <= Lowest(segs) && low + IndexSlots(l) <= TWO_64
    ensures var (segs', out) := Step(l, segs, OpAppend(r));
            LayoutOk(l, segs') && low <= Lowest(segs') &&
            FlatStep(View(segs), OpAppend(r), View(segs'), out, !NeverSticks(l, low))
  {
    hide Contiguous, SegOk, AllSealed, Open, Records, NeverSticks, LogAppend, AppendOk;
    RecordsLength(segs);
    AppendKeepsLayout(l, segs, r);
    AppendRecords(l, segs, r);
    if NeverSticks(l, low) {
      AppendNeverFails(l, segs, low);
    }
  }

  lemma TruncateRefines(l: Limits, segs: seq<Seg>, lowest: Uint64, mayFail: bool)
    requires LayoutOk(l, segs) && Bound(lowest) < Layout.Next(segs)
    ensures var (segs', out) := Step(l, segs, OpTruncate(lowest));
            LayoutOk(l, segs') && Lowest(segs) <= Lowest(segs') &&
            FlatStep(View(segs), OpTruncate(lowest), View(segs'), out, mayFail)
  {
    hide Contiguous, Kept, SegOk, AllSealed, Open, Records, LogAppend;
    RecordsLength(segs);
    TruncationKeepsLayout(l, segs, lowest);
  }

  /** The steps of the segmented log are steps of the simple machine. */
  lemma StepRefines(l: Limits, segs: seq<Seg>, op: Op, low: nat)
    requires LayoutOk(l, segs) && Enabled(Layout.Next(segs), op)
    requires low <= Lowest(segs) && low + IndexSlots(l) <= TWO_64
    ensures var (segs', out) := Step(l, segs, op);
            LayoutOk(l, segs') && low <= Lowest(segs') &&
            FlatStep(View(segs), op, View(segs'), out, !NeverSticks(l, low))
  {
    hide Contiguous, Kept, SegOk, AllSealed, Open, Records, Lookup, NeverSticks, LogAppend, AppendOk;
    match op {
      case OpAppend(r) => AppendRefines(l, segs, r, low);
      case OpRead(off) => LookupIsFlatRead(segs, off);
      case OpTruncate(lowest) => TruncateRefines(l, segs, lowest, !NeverSticks(l, low));
      case _ => RecordsLength(segs);
    }
  }

  // Running several operations; `None` when one of them is not enabled.
  ghost function Run(l: Limits, segs: seq<Seg>, ops: seq<Op>): Option<(seq<Seg>, seq<Out>)>
    requires segs != []
  {
    if ops == [] then Some((segs, []))
    else
      match Run(l, segs, ops[..|ops| - 1])
      case None => None
      case Some((mid, outs)) =>
        if mid == [] || !Enabled(Layout.Next(mid), ops[|ops| - 1]) then None
        else
          var (segs', out) := Step(l, mid, ops[|ops| - 1]);
          Some((segs', outs + [out]))
  }

  /** A run can be carried on by any operation: an append needs an offset to give, a
      truncation something that reaches beyond its bound, the others nothing. */
  lemma RunGoesOn(l: Limits, segs: seq<Seg>, ops: seq<Op>, op: Op)
    requires segs != [] && Run(l, segs, ops).Some? && Run(l, segs, ops).value.0 != []
    ensures var (mid, outs) := Run(l, segs, ops).value;
            var next := Layout.Next(mid);
            (Run(l, segs, ops + [op]).Some? <==>
               match op
               case OpAppend(_) => next < 0xFFFF_FFFF_FFFF_FFFF
               case OpTruncate(lowest) => (lowest + 1) % 0x1_0000_0000_0000_0000 < next
               case _ => true) &&
            (Run(l, segs, ops + [op]).Some? ==> Run(l, segs, ops + [op]).value.1[..|outs|] == outs)
    ensures Run(l, segs, []) == Some((segs, []))
  {
    hide LogAppend, Kept, Lookup;
    assert (ops + [op])[..|ops|] == ops;
  }

  ghost predicate FlatRun(f: Flat, ops: seq<Op>, f': Flat, outs: seq<Out>, mayFail: bool) {
    |outs| == |ops| &&
    if ops == [] then f' == f
    else
      var n := |ops| - 1;
      exists mid: Flat ::
        FlatRun(f, ops[..n], mid, outs[..n], mayFail) && FlatStep(mid, ops[n], f', outs[n], mayFail)
  }

  /** Over every run of appends, reads, truncations and reopenings the segmented
      log answers as the simple machine does. */
  lemma {:induction false} RunRefines(l: Limits, segs: seq<Seg>, ops: seq<Op>, low: nat)
    requires LayoutOk(l, segs) && low <= Lowest(segs) && low + IndexSlots(l) <= TWO_64
    ensures var run := Run(l, segs, ops);
            run.Some? ==>
              LayoutOk(l, run.value.0) && low <= Lowest(run.value.0) &&
              FlatRun(View(segs), ops, View(run.value.0), run.value.1, !NeverSticks(l, low))
  {
    hide Contiguous, SegOk, AllSealed, Open, Records, NeverSticks, Step, FlatStep;
    if ops != [] && Run(l, segs, ops).Some? {
      var front, op := ops[..|ops| - 1], ops[|ops| - 1];
      RunRefines(l, segs, front, low);
      var (mid, outs) := Run(l, segs, front).value;
      StepRefines(l, mid, op, low);
      var (segs', outs') := Run(l, segs, ops).value;
      assert outs'[..|ops| - 1] == outs;
      assert FlatRun(View(segs), front, View(mid), outs, !NeverSticks(l, low));
    }
  }
}
