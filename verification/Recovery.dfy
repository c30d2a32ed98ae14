/** Closing a log and opening its directory again, and why the files leave no
    doubt about what was closed. */
module Recovery {
  import opened Bytes
  import opened RecordCodec
  import opened Layout
  import opened Capacity
  import opened FileNames
  import opened Files
  import opened CommitLog
  import opened FlatLog
  import Stores

  /** NewLog on a directory: `segs` is what a clean close left in it, or the one
      empty segment an empty directory stands for. */
  method NewLog(dir: Directory, maxStore: nat, maxIndex: nat, initialOffset: Uint64, ghost segs: seq<Seg>)
    returns (log: Log, ok: bool)
    requires maxStore < TWO_64 && maxIndex <= ENT_WIDTH * TWO_32
    requires var l := Limits(if maxStore == 0 then DEFAULT_BYTES else maxStore,
                             if maxIndex == 0 then DEFAULT_BYTES else maxIndex);
             LayoutOk(l, segs) && (LeftBy(dir.files, segs) || (dir.files == map[] && segs == [Fresh(initialOffset)]))
    modifies dir`files
    ensures fresh(log) && fresh(log.Repr - {dir}) && log.dir == dir && log.initialOffset == initialOffset
    ensures log.limits == Limits(if maxStore == 0 then DEFAULT_BYTES else maxStore,
                                 if maxIndex == 0 then DEFAULT_BYTES else maxIndex)
    ensures ok == dir.present
    ensures ok ==> log.Valid() && log.view == segs && log.Unmoved(log.segments)
    ensures ok && old(dir.files) == map[] ==> log.MadeHere(log.segments)
  {
    hide LayoutOk, LeftBy, Log.Parts;
    log := new Log(dir, maxStore, maxIndex, initialOffset);
    ok := log.Setup(segs);
  }

  /** Close a log and open it again with the same configuration: the same segments
      in the same order with the same contents, and the same active segment. */
  method CloseAndReopen(log: Log) returns (again: Log)
    requires log.Valid()
    modifies log.Repr
    ensures fresh(again) && fresh(again.Repr - {log.dir}) && again.Valid() && again.view == old(log.view)
    ensures again.dir == log.dir && again.limits == log.limits && again.initialOffset == old(log.initialOffset)
    ensures again.Unmoved(again.segments)
  {
    hide SegOk, Open, AllSealed, Contiguous, LeftBy, Log.Parts;
    log.Close();
    again := new Log(log.dir, log.limits.maxStore, log.limits.maxIndex, log.initialOffset);
    var ok := again.Setup(log.view);
  }

  // -------------------------------------------------- runs of the real log

  /** Any run of operations on the log and its files, closing and reopening included,
      is the run of its value, and so a run of the simple machine. */
  method RunOps(log: Log, ops: seq<Op>) returns (last: Log, outs: seq<Out>)
    requires log.Valid() && Run(log.limits, log.view, ops).Some?
    modifies log.Repr
    ensures last.Valid() && last.limits == log.limits && last.dir == log.dir
    ensures fresh(last.Repr - old(log.Repr))
    ensures Run(log.limits, old(log.view), ops) == Some((last.view, outs))
    ensures FlatRun(View(old(log.view)), ops, View(last.view), outs, !NeverSticks(log.limits, 0))
  {
    hide SegOk, Open, AllSealed, Contiguous, Log.Parts, Names, Step, Run, Enabled, FlatRun,
         NeverSticks;
    last, outs := log, [];
    ghost var start := log.view;
    RunStart(log.limits, start, ops);
    var i := 0;
    while i < |ops|
      invariant i <= |ops|
      invariant last.Valid() && last.limits == log.limits && last.dir == log.dir
      invariant fresh(last.Repr - old(log.Repr))
      invariant Run(log.limits, start, ops[..i]) == Some((last.view, outs))
    {
      RunStep(log.limits, start, ops, i);
      var out;
      last, out := RunOne(last, ops[i]);
      outs := outs + [out];
      i := i + 1;
    }
    assert ops[..i] == ops;
    RunRefines(log.limits, start, ops, 0);
  }

  method RunOne(log: Log, op: Op) returns (next: Log, out: Out)
    requires log.Valid() && Enabled(Layout.Next(log.view), op)
    modifies log.Repr
    ensures next.Valid() && next.limits == log.limits && next.dir == log.dir
    ensures fresh(next.Repr - old(log.Repr))
    ensures (next.view, out) == Step(log.limits, old(log.view), op)
  {
    hide SegOk, Open, AllSealed, Contiguous, Log.Parts, Names, LogAppend, AppendOk, Kept, Records, Lookup;
    next := log;
    match op {
      case OpAppend(r) =>
        var off := log.Append(r);
        out := if off.Some? then Offset(off.value) else AppendFailed;
      case OpRead(off) =>
        LookupIsFlatRead(log.view, off);
        var found := log.Read(off);
        out := Answer(found, off);
      case OpTruncate(lowest) =>
        log.Truncate(lowest);
        out := Done;
      case OpReopen =>
        next := CloseAndReopen(log);
        out := Done;
      case OpLowest =>
        var off := log.LowestOffset();
        out := Offset(off);
      case OpHighest =>
        var off := log.HighestOffset();
        out := Offset(off);
    }
  }

  lemma RunStart(l: Limits, segs: seq<Seg>, ops: seq<Op>)
    requires segs != []
    ensures Run(l, segs, ops[..0]) == Some((segs, []))
  {
  }

  // A run that can be finished can be carried on from any point.
  lemma {:induction false} RunPrefix(l: Limits, segs: seq<Seg>, ops: seq<Op>, k: nat)
    requires segs != [] && k <= |ops| && Run(l, segs, ops).Some?
    ensures Run(l, segs, ops[..k]).Some?
  {
    hide Step, Enabled;
    if k < |ops| {
      RunPrefix(l, segs, ops[..|ops| - 1], k);
      assert ops[..|ops| - 1][..k] == ops[..k];
    } else {
      assert ops[..k] == ops;
    }
  }

  lemma RunStep(l: Limits, segs: seq<Seg>, ops: seq<Op>, i: nat)
    requires segs != [] && i < |ops| && Run(l, segs, ops).Some? && Run(l, segs, ops[..i]).Some?
    ensures var (mid, outs) := Run(l, segs, ops[..i]).value;
            mid != [] && Enabled(Layout.Next(mid), ops[i]) &&
            Run(l, segs, ops[..i + 1]) == Some((Step(l, mid, ops[i]).0, outs + [Step(l, mid, ops[i]).1]))
  {
    hide Step, Enabled;
    RunPrefix(l, segs, ops, i + 1);
    assert ops[..i + 1][..i] == ops[..i];
  }

  // ------------------------------------------------- the files say it all

  lemma FramesUncons(rs: seq<Record>)
    requires rs != []
    ensures Frames(rs) == Frame(rs[0]) + Frames(rs[1..])
    ensures Stores.FrameAt(Frames(rs), 0) == Some(Marshal(rs[0]))
    ensures |Frames(rs)| >= LEN_WIDTH
  {
    hide Frame, Frames, Marshal, Stores.FrameAt;
    FramesConcat([rs[0]], rs[1..]);
    assert [rs[0]] + rs[1..] == rs;
    FramesOne(rs[0]);
    FrameSize(rs[0]);
    Stores.FrameAtRecord(rs, 0, []);
    assert rs + [] == rs && rs[..0] == [];
  }

  /** A store's bytes determine its records. */
  lemma {:induction false} FramesInjective(a: seq<Record>, b: seq<Record>)
    requires Frames(a) == Frames(b)
    ensures a == b
  {
    hide Frame, Marshal, Stores.FrameAt;
    if a == [] || b == [] {
      if a != [] { FramesUncons(a); }
      if b != [] { FramesUncons(b); }
    } else {
      hide Frames;
      FramesUncons(a);
      FramesUncons(b);
      MarshalInjective(a[0], b[0]);
      CancelPrefix(Frame(a[0]), Frames(a[1..]), Frames(b[1..]));
      FramesInjective(a[1..], b[1..]);
      assert a == [a[0]] + a[1..] && b == [b[0]] + b[1..];
    }
  }

  lemma CancelPrefix(p: Bytes, a: Bytes, b: Bytes)
    requires p + a == p + b
    ensures a == b
  {
    assert a == (p + a)[|p|..];
    assert b == (p + b)[|p|..];
  }

  lemma SegmentFromFiles(s: Seg, t: Seg)
    requires s.base == t.base && s.StoreBytes() == t.StoreBytes() && s.IndexBytes() == t.IndexBytes()
    ensures s == t
  {
    hide Frames;
    assert ENT_WIDTH * |s.records| == ENT_WIDTH * |t.records|;
    FramesInjective(s.records + s.orphans, t.records + t.orphans);
    assert s.records == (s.records + s.orphans)[..|s.records|];
    assert s.orphans == (s.records + s.orphans)[|s.records|..];
    assert t.orphans == (t.records + t.orphans)[|t.records|..];
  }

  ghost predicate HasBase(segs: seq<Seg>, base: nat) {
    exists i :: 0 <= i < |segs| && segs[i].base == base
  }

  lemma BaseFromNames(segs: seq<Seg>, base: Uint64)
    requires DistinctBases(segs)
    ensures HasBase(segs, base) <==> StoreName(base) in Names(segs)
  {
    hide StoreName, IndexName, Names, NamesAt;
    StoreNameAt(base);
    if HasBase(segs, base) {
      var i :| 0 <= i < |segs| && segs[i].base == base;
      NamesIncludes(segs, i);
    } else {
      NamesAvoid(segs, base);
    }
  }

  // Ascending lists with the same members are the same.
  lemma {:induction false} SameBases(a: seq<Seg>, b: seq<Seg>)
    requires DistinctBases(a) && DistinctBases(b)
    requires forall base: Uint64 :: HasBase(a, base) <==> HasBase(b, base)
    ensures |a| == |b| && forall i | 0 <= i < |a| :: a[i].base == b[i].base
  {
    if a == [] || b == [] {
      if a != [] { assert HasBase(a, a[0].base); }
      if b != [] { assert HasBase(b, b[0].base); }
    } else {
      var m, n := |a| - 1, |b| - 1;
      assert HasBase(a, a[m].base) && HasBase(b, b[n].base);
      assert a[m].base == b[n].base;
      forall base: Uint64
        ensures HasBase(a[..m], base) <==> HasBase(b[..n], base)
      {
        FrontBase(a, base);
        FrontBase(b, base);
      }
      SameBases(a[..m], b[..n]);
    }
  }

  lemma FrontBase(segs: seq<Seg>, base: nat)
    requires DistinctBases(segs) && segs != []
    ensures HasBase(segs[..|segs| - 1], base) <==> HasBase(segs, base) && base != segs[|segs| - 1].base
  {
    var n := |segs| - 1;
    if HasBase(segs[..n], base) {
      var i :| 0 <= i < n && segs[..n][i].base == base;
      assert segs[i].base == base;
    }
    if HasBase(segs, base) && base != segs[n].base {
      var i :| 0 <= i < |segs| && segs[i].base == base;
      assert segs[..n][i].base == base;
    }
  }

  /** Two logs that leave the same files behind are the same log: recovery has
      only one possible answer. */
  lemma FilesDetermineLog(l: Limits, files: FileMap, a: seq<Seg>, b: seq<Seg>)
    requires LayoutOk(l, a) && LayoutOk(l, b) && LeftBy(files, a) && LeftBy(files, b)
    ensures a == b
  {
    hide StoreName, IndexName, Names, Frames, Entries, SegOk, Open, AllSealed, Contiguous, HasBase;
    LayoutDistinct(l, a);
    LayoutDistinct(l, b);
    forall base: Uint64
      ensures HasBase(a, base) <==> HasBase(b, base)
    {
      BaseFromNames(a, base);
      BaseFromNames(b, base);
    }
    SameBases(a, b);
    forall i | 0 <= i < |a|
      ensures a[i] == b[i]
    {
      assert FilesOf(files, a[i]) && FilesOf(files, b[i]);
      SegmentFromFiles(a[i], b[i]);
    }
  }

  lemma {:induction false} NameOfSegment(segs: seq<Seg>, name: string) returns (i: nat)
    requires name in Names(segs)
    ensures i < |segs| && name in NamesAt(segs[i].base)
  {
    hide StoreName, IndexName, NamesAt;
    if name in NamesAt(segs[|segs| - 1].base) {
      i := |segs| - 1;
    } else {
      i := NameOfSegment(segs[..|segs| - 1], name);
    }
  }

  lemma SameContent(files: FileMap, other: FileMap, s: Seg, name: string)
    requires FilesOf(files, s) && FilesOf(other, s) && name in NamesAt(s.base)
    requires name in files && name in other
    ensures files[name] == other[name]
  {
    hide StoreName, IndexName, Frames, Entries;
  }

  /** And the other way round: equal logs leave equal directories. */
  lemma SameLogSameFiles(files: FileMap, other: FileMap, segs: seq<Seg>)
    requires LeftBy(files, segs) && LeftBy(other, segs)
    ensures files == other
  {
    hide FilesOf, Names, NamesAt;
    forall name | name in files
      ensures files[name] == other[name]
    {
      var i := NameOfSegment(segs, name);
      SameContent(files, other, segs[i], name);
    }
  }
}
