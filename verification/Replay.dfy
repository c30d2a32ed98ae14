/** The layout of a log is canonical: segment boundaries and file contents are a
    function of the limits, the first base and the frames written, and of
    nothing else. */
module Replay {
  import opened Bytes
  import opened RecordCodec
  import opened Layout

  /** Append `rs` one after the other. */
  function AppendAll(l: Limits, segs: seq<Seg>, rs: seq<Record>): (segs': seq<Seg>)
    requires segs != [] && Layout.Next(segs) + |rs| < TWO_64
    ensures segs' != [] && Layout.Next(segs') <= Layout.Next(segs) + |rs|
  {
    if rs == [] then segs
    else LogAppend(l, AppendAll(l, segs, rs[..|rs| - 1]), rs[|rs| - 1])
  }

  /** The log that results from appending `rs` to an empty log at `base`. */
  function Build(l: Limits, base: nat, rs: seq<Record>): (segs: seq<Seg>)
    requires base + |rs| < TWO_64
    ensures segs != []
  {
    AppendAll(l, [Fresh(base)], rs)
  }

  lemma {:induction false} AppendAllConcat(l: Limits, segs: seq<Seg>, a: seq<Record>, b: seq<Record>)
    requires segs != [] && Layout.Next(segs) + |a| + |b| < TWO_64
    ensures AppendAll(l, segs, a + b) == AppendAll(l, AppendAll(l, segs, a), b)
  {
    hide LogAppend;
    if b == [] {
      assert a + b == a;
    } else {
      assert (a + b)[..|a + b| - 1] == a + b[..|b| - 1];
      AppendAllConcat(l, segs, a, b[..|b| - 1]);
    }
  }

  lemma AppendAllNone(l: Limits, segs: seq<Seg>)
    requires segs != [] && Layout.Next(segs) < TWO_64
    ensures AppendAll(l, segs, []) == segs
  {
  }

  lemma AppendAllOne(l: Limits, segs: seq<Seg>, r: Record)
    requires segs != [] && Layout.Next(segs) < TWO_64 - 1
    ensures AppendAll(l, segs, [r]) == LogAppend(l, segs, r)
  {
    hide LogAppend;
    assert [r][..0] == [];
    AppendAllNone(l, segs);
  }

  lemma AppendAllFirst(l: Limits, segs: seq<Seg>, rs: seq<Record>)
    requires segs != [] && Layout.Next(segs) + |rs| < TWO_64 && rs != []
    ensures AppendAll(l, segs, rs) == AppendAll(l, LogAppend(l, segs, rs[0]), rs[1..])
  {
    hide LogAppend, AppendAll;
    assert [rs[0]] + rs[1..] == rs;
    AppendAllConcat(l, segs, [rs[0]], rs[1..]);
    AppendAllOne(l, segs, rs[0]);
  }

  lemma {:induction false} AppendAllKeepsLayout(l: Limits, segs: seq<Seg>, rs: seq<Record>)
    requires LayoutOk(l, segs) && Layout.Next(segs) + |rs| < TWO_64
    ensures LayoutOk(l, AppendAll(l, segs, rs))
    ensures Lowest(AppendAll(l, segs, rs)) == Lowest(segs)
    ensures Layout.Next(segs) <= Layout.Next(AppendAll(l, segs, rs))
  {
    hide LogAppend, SegOk, Open, AllSealed, Contiguous;
    if rs != [] {
      AppendAllKeepsLayout(l, segs, rs[..|rs| - 1]);
      AppendKeepsLayout(l, AppendAll(l, segs, rs[..|rs| - 1]), rs[|rs| - 1]);
    }
  }

  /** Every log built by appends satisfies the invariant. */
  lemma BuildOk(l: Limits, base: nat, rs: seq<Record>)
    requires l.Valid() && base + |rs| < TWO_64
    ensures LayoutOk(l, Build(l, base, rs)) && Lowest(Build(l, base, rs)) == base
  {
    FreshOk(l, base);
    AppendAllKeepsLayout(l, [Fresh(base)], rs);
  }

  // ------------------------------------------------------ undoing an append

  // The state before the last frame was written.
  function Undo(segs: seq<Seg>): seq<Seg>
    requires segs != [] && (Last(segs).orphans == [] && Last(segs).records == [] ==>
                              |segs| > 1 && segs[|segs| - 2].records != [])
  {
    var n, s := |segs| - 1, Last(segs);
    if s.orphans != [] then segs[..n] + [s.(orphans := s.orphans[..|s.orphans| - 1])]
    else if s.records != [] then segs[..n] + [s.(records := s.records[..|s.records| - 1])]
    else
      var t := segs[n - 1];
      segs[..n - 1] + [t.(records := t.records[..|t.records| - 1])]
  }

  lemma ShrinkOrphans(l: Limits, s: Seg)
    requires l.Valid() && SegOk(l, s) && Open(l, s) && s.orphans != [] && s.Next() < TWO_64 - 1
    ensures var s' := s.(orphans := s.orphans[..|s.orphans| - 1]);
            SegOk(l, s') && Open(l, s') && !HasRoom(l, s') &&
            SegAppend(l, s', s.orphans[|s.orphans| - 1]) == s
  {
    hide Frames;
    var s' := s.(orphans := s.orphans[..|s.orphans| - 1]);
    var w := s.orphans[|s.orphans| - 1];
    assert s'.(orphans := []) == s.(orphans := []);
    assert w.(offset := s'.Next()) == w;
    assert s'.orphans + [w] == s.orphans;
  }

  lemma UndoOrphan(l: Limits, segs: seq<Seg>)
    requires LayoutOk(l, segs) && Last(segs).orphans != []
    requires Layout.Next(segs) < TWO_64 - 1
    ensures LayoutOk(l, Undo(segs)) && Lowest(Undo(segs)) == Lowest(segs)
    ensures LogAppend(l, Undo(segs), Last(segs).orphans[|Last(segs).orphans| - 1]) == segs
  {
    hide Frames, SegOk, SegAppend, Contiguous, AllSealed, Open;
    ShrinkOrphans(l, Last(segs));
    ReplacedLayout(l, segs, Last(Undo(segs)));
    assert Undo(segs)[..|segs| - 1] == segs[..|segs| - 1];
    assert segs[..|segs| - 1] + [Last(segs)] == segs;
  }

  // Taking the last record off a segment leaves room and is undone by an append.
  lemma ShrinkSegment(l: Limits, s: Seg)
    requires l.Valid() && SegOk(l, s) && s.orphans == [] && s.records != []
    ensures var s' := s.(records := s.records[..|s.records| - 1]);
            SegOk(l, s') && Open(l, s') && HasRoom(l, s') && s'.Next() < TWO_64 - 1 &&
            SegAppend(l, s', s.records[|s.records| - 1]) == s
  {
    hide Frame;
    var n := |s.records| - 1;
    var s' := s.(records := s.records[..n]);
    assert s'.records + s'.orphans == s.records[..n];
    assert s'.(orphans := []) == s';
    if n > 0 {
      FramesPrefix(s.records[..n], n - 1);
      assert s.records[..n][..n - 1] == s'.records[..n - 1];
    }
    assert s.records[n].(offset := s'.Next()) == s.records[n];
    assert s.records == s.records[..n] + [s.records[n]];
  }

  lemma UndoRecord(l: Limits, segs: seq<Seg>)
    requires LayoutOk(l, segs) && Last(segs).orphans == [] && Last(segs).records != []
    ensures LayoutOk(l, Undo(segs)) && Lowest(Undo(segs)) == Lowest(segs)
    ensures Layout.Next(Undo(segs)) < TWO_64 - 1
    ensures LogAppend(l, Undo(segs), Last(segs).records[|Last(segs).records| - 1]) == segs
  {
    hide Frames, SegOk, SegAppend, Contiguous, AllSealed;
    var s := Last(segs);
    ShrinkSegment(l, s);
    assert s.(orphans := []) == s;
    ReplacedLayout(l, segs, Last(Undo(segs)));
    assert Undo(segs)[..|segs| - 1] == segs[..|segs| - 1];
    assert segs[..|segs| - 1] + [s] == segs;
  }

  // What is left when an empty active segment is taken away and the last record
  // of the segment before it with it.
  lemma ReopenLast(l: Limits, front: seq<Seg>, t: Seg, t': Seg)
    requires l.Valid() && AllSealed(l, front + [t]) && Contiguous(front + [t])
    requires t'.base == t.base && SegOk(l, t') && Open(l, t')
    ensures LayoutOk(l, front + [t']) && Lowest(front + [t']) == Lowest(front + [t])
  {
    hide Frames, SegOk, Open, Sealed;
    assert (front + [t])[..|front|] == front && (front + [t'])[..|front|] == front;
  }

  lemma ContiguousFront(segs: seq<Seg>)
    requires segs != [] && Contiguous(segs)
    ensures Contiguous(segs[..|segs| - 1])
  {
  }

  lemma UndoRoll(l: Limits, segs: seq<Seg>)
    requires LayoutOk(l, segs) && Last(segs).orphans == [] && Last(segs).records == [] && |segs| > 1
    ensures segs[|segs| - 2].records != [] && segs[|segs| - 2].orphans == []
    ensures LayoutOk(l, Undo(segs)) && Lowest(Undo(segs)) == Lowest(segs)
    ensures Layout.Next(Undo(segs)) < TWO_64 - 1
    ensures LogAppend(l, Undo(segs), segs[|segs| - 2].records[|segs[|segs| - 2].records| - 1]) == segs
  {
    hide Frames, SegOk, SegAppend, AllSealed, Open, Contiguous;
    var n := |segs| - 2;
    var t := segs[n];
    LayoutAt(l, segs, n);
    ShrinkSegment(l, t);
    var u := Undo(segs);
    ContiguousFront(segs);
    assert segs[..n + 1] == segs[..n] + [t] && u == segs[..n] + [Last(u)];
    ReopenLast(l, segs[..n], t, Last(u));
    assert Last(segs) == Fresh(t.Next());
    assert segs[..n] + [t, Last(segs)] == segs;
    assert u[..n] == segs[..n];
  }

  lemma UndoOrphanWritten(segs: seq<Seg>)
    requires segs != [] && Last(segs).orphans != []
    ensures Written(segs) == Written(Undo(segs)) + [Last(segs).orphans[|Last(segs).orphans| - 1]]
  {
    hide Frames, Written, Records;
    var n, s, u := |segs| - 1, Last(segs), Undo(segs);
    SnocLast(segs);
    SnocLast(u);
    assert s.records + s.orphans == (s.records + s.orphans[..|s.orphans| - 1]) + [s.orphans[|s.orphans| - 1]];
    assert u[..n] == segs[..n];
  }

  lemma UndoRecordWritten(segs: seq<Seg>)
    requires segs != [] && Last(segs).orphans == [] && Last(segs).records != []
    ensures Written(segs) == Written(Undo(segs)) + [Last(segs).records[|Last(segs).records| - 1]]
  {
    hide Frames, Written, Records;
    LastRecordOff(segs, Last(Undo(segs)));
  }

  lemma UndoRollWritten(segs: seq<Seg>)
    requires |segs| > 1 && Last(segs).orphans == [] && Last(segs).records == []
    requires segs[|segs| - 2].records != [] && segs[|segs| - 2].orphans == []
    ensures var t := segs[|segs| - 2]; Written(segs) == Written(Undo(segs)) + [t.records[|t.records| - 1]]
  {
    hide Frames, Written, Records;
    var n := |segs| - 1;
    assert segs[..n][..n - 1] == segs[..n - 1] == Undo(segs)[..n - 1];
    SnocLast(segs);
    assert Last(segs).records + Last(segs).orphans == [];
    assert Written(segs) == Written(segs[..n]);
    LastRecordOff(segs[..n], Last(Undo(segs)));
    assert segs[..n - 1] + [Last(Undo(segs))] == Undo(segs);
  }

  lemma LastRecordOff(segs: seq<Seg>, s: Seg)
    requires segs != [] && Last(segs).orphans == [] && Last(segs).records != []
    requires s == Last(segs).(records := Last(segs).records[..|Last(segs).records| - 1])
    ensures Written(segs) == Written(segs[..|segs| - 1] + [s]) + [Last(segs).records[|Last(segs).records| - 1]]
  {
    hide Frames, Written, Records;
    var t := Last(segs);
    SnocLast(segs);
    SnocLast(segs[..|segs| - 1] + [s]);
    assert t.records + t.orphans == (s.records + s.orphans) + [t.records[|t.records| - 1]];
    assert (segs[..|segs| - 1] + [s])[..|segs| - 1] == segs[..|segs| - 1];
  }

  /** Every state but the empty log was reached by an append from a state that
      satisfies the invariant too. */
  lemma UndoLast(l: Limits, segs: seq<Seg>) returns (u: seq<Seg>, w: Record)
    requires LayoutOk(l, segs) && segs != [Fresh(Lowest(segs))] && Layout.Next(segs) < TWO_64 - 1
    ensures LayoutOk(l, u) && Lowest(u) == Lowest(segs) && Layout.Next(u) < TWO_64 - 1
    ensures LogAppend(l, u, w) == segs
    ensures Written(segs) == Written(u) + [w]
  {
    hide LogAppend, Frames, SegOk, Open, AllSealed, Contiguous;
    var s := Last(segs);
    if s.orphans != [] {
      UndoOrphan(l, segs);
      UndoOrphanWritten(segs);
      w := s.orphans[|s.orphans| - 1];
    } else if s.records != [] {
      UndoRecord(l, segs);
      UndoRecordWritten(segs);
      w := s.records[|s.records| - 1];
    } else {
      assert |segs| == 1 ==> segs == [s];
      UndoRoll(l, segs);
      UndoRollWritten(segs);
      w := segs[|segs| - 2].records[|segs[|segs| - 2].records| - 1];
    }
    u := Undo(segs);
  }

  /** Every log that satisfies the invariant is the one obtained by appending its
      frames, in order, to an empty log at its lowest offset. */
  lemma {:induction false} Canonical(l: Limits, segs: seq<Seg>)
    requires LayoutOk(l, segs) && Lowest(segs) + |Written(segs)| < TWO_64 - 1
    ensures segs == Build(l, Lowest(segs), Written(segs))
    decreases |Written(segs)|
  {
    hide LogAppend, SegOk, Open, AllSealed, Contiguous, Records, Frames;
    WrittenIsRecords(l, segs);
    RecordsLength(segs);
    if segs == [Fresh(Lowest(segs))] {
      assert segs[..0] == [];
      assert Written(segs) == [];
    } else {
      var u, w := UndoLast(l, segs);
      Canonical(l, u);
      assert Written(segs)[..|Written(segs)| - 1] == Written(u);
    }
  }

  /** Equal limits, lowest offsets and frames mean equal segments, hence equal
      boundaries and equal store and index bytes. */
  lemma SameFramesSameLayout(l: Limits, a: seq<Seg>, b: seq<Seg>)
    requires LayoutOk(l, a) && LayoutOk(l, b)
    requires Lowest(a) == Lowest(b) && Written(a) == Written(b) && Lowest(a) + |Written(a)| < TWO_64 - 1
    ensures a == b
  {
    Canonical(l, a);
    Canonical(l, b);
  }

  lemma {:induction false} SuffixSealed(l: Limits, segs: seq<Seg>, k: nat)
    requires AllSealed(l, segs) && k <= |segs|
    ensures AllSealed(l, segs[k..])
  {
    hide SegOk, Sealed;
    if k < |segs| {
      SuffixSealed(l, segs[..|segs| - 1], k);
      assert segs[k..][..|segs| - k - 1] == segs[..|segs| - 1][k..];
    }
  }

  lemma {:induction false} SuffixContiguous(segs: seq<Seg>, k: nat)
    requires Contiguous(segs) && k <= |segs|
    ensures Contiguous(segs[k..])
  {
    if k + 1 < |segs| {
      SuffixContiguous(segs[..|segs| - 1], k);
      assert segs[k..][..|segs| - k - 1] == segs[..|segs| - 1][k..];
    }
  }

  lemma SuffixLayout(l: Limits, segs: seq<Seg>, k: nat)
    requires LayoutOk(l, segs) && k < |segs|
    ensures LayoutOk(l, segs[k..])
  {
    hide SegOk, Open, AllSealed, Contiguous;
    SuffixContiguous(segs, k);
    SuffixSealed(l, segs[..|segs| - 1], k);
    assert segs[k..][..|segs| - k - 1] == segs[..|segs| - 1][k..];
  }

  /** Dropping a prefix of whole segments and replaying what is left from the new
      base reproduces the remaining layout. */
  lemma SuffixCanonical(l: Limits, segs: seq<Seg>, k: nat)
    requires LayoutOk(l, segs) && k < |segs|
    requires segs[k].base + |Written(segs[k..])| < TWO_64 - 1
    ensures segs[k..] == Build(l, segs[k].base, Written(segs[k..]))
  {
    SuffixLayout(l, segs, k);
    Canonical(l, segs[k..]);
  }

  // --------------------------------------------- offsets given by a replay

  /** The records as a log starting at `base` would number them. */
  function Renumber(base: nat, rs: seq<Record>): (ns: seq<Record>)
    requires base + |rs| <= TWO_64
    ensures |ns| == |rs|
  {
    if rs == [] then []
    else Renumber(base, rs[..|rs| - 1]) + [rs[|rs| - 1].(offset := base + |rs| - 1)]
  }

  /** An append that fails changes nothing a reader can see, and every append
      after it fails too: the active segment is never replaced. */
  lemma {:induction false} StuckForever(l: Limits, segs: seq<Seg>, rs: seq<Record>)
    requires LayoutOk(l, segs) && !AppendOk(l, segs) && Layout.Next(segs) + |rs| < TWO_64
    ensures !AppendOk(l, AppendAll(l, segs, rs))
    ensures Records(AppendAll(l, segs, rs)) == Records(segs)
    ensures Last(AppendAll(l, segs, rs)).records == Last(segs).records
    ensures |Last(AppendAll(l, segs, rs)).orphans| == |Last(segs).orphans| + |rs|
  {
    hide Frames, SegOk, Open, AllSealed, Contiguous;
    if rs != [] {
      var before := AppendAll(l, segs, rs[..|rs| - 1]);
      StuckForever(l, segs, rs[..|rs| - 1]);
      AppendAllKeepsLayout(l, segs, rs[..|rs| - 1]);
      AppendRecords(l, before, rs[|rs| - 1]);
    }
  }

  lemma OrphansStay(l: Limits, segs: seq<Seg>, rs: seq<Record>)
    requires LayoutOk(l, segs) && !NoOrphans(segs) && Layout.Next(segs) + |rs| < TWO_64
    ensures !NoOrphans(AppendAll(l, segs, rs))
  {
    hide Frames, AllSealed, Contiguous;
    assert SegOk(l, Last(segs));
    StuckForever(l, segs, rs);
  }

  lemma Unfold(l: Limits, segs: seq<Seg>, rs: seq<Record>)
    requires segs != [] && Layout.Next(segs) + |rs| < TWO_64
    ensures rs == [] ==> AppendAll(l, segs, rs) == segs && Renumber(Layout.Next(segs), rs) == []
    ensures rs != [] ==>
              AppendAll(l, segs, rs) == LogAppend(l, AppendAll(l, segs, rs[..|rs| - 1]), rs[|rs| - 1]) &&
              Renumber(Layout.Next(segs), rs) ==
              Renumber(Layout.Next(segs), rs[..|rs| - 1]) + [rs[|rs| - 1].(offset := Layout.Next(segs) + |rs| - 1)]
  {
    hide LogAppend;
  }

  /** As long as no append has failed, the flat view is what was appended, with
      consecutive offsets assigned. */
  lemma {:induction false} AppendAllRecords(l: Limits, segs: seq<Seg>, rs: seq<Record>)
    requires LayoutOk(l, segs) && Layout.Next(segs) + |rs| < TWO_64
    requires NoOrphans(AppendAll(l, segs, rs))
    ensures Records(AppendAll(l, segs, rs)) == Records(segs) + Renumber(Layout.Next(segs), rs)
    ensures Layout.Next(AppendAll(l, segs, rs)) == Layout.Next(segs) + |rs|
    ensures NoOrphans(segs)
  {
    hide SegOk, Open, AllSealed, Contiguous, LogAppend, NoOrphans, AppendAll, Renumber, Records, Layout.Next;
    Unfold(l, segs, rs);
    if rs != [] {
      var front, r := rs[..|rs| - 1], rs[|rs| - 1];
      var before := AppendAll(l, segs, front);
      AppendAllKeepsLayout(l, segs, front);
      AppendSucceeded(l, before, r);
      AppendAllRecords(l, segs, front);
      AppendRecords(l, before, r);
      AppendKeepsLayout(l, before, r);
      assert r.(offset := Layout.Next(before)) == r.(offset := Layout.Next(segs) + |rs| - 1);
    }
  }

  lemma AppendSucceeded(l: Limits, segs: seq<Seg>, r: Record)
    requires LayoutOk(l, segs) && Layout.Next(segs) < TWO_64 - 1
    ensures NoOrphans(LogAppend(l, segs, r)) <==> AppendOk(l, segs)
    ensures AppendOk(l, segs) ==> NoOrphans(segs)
  {
    hide Frames, AllSealed, Contiguous;
    assert SegOk(l, Last(segs));
  }

  /** Replaying records that already carry the offsets they get changes nothing. */
  lemma {:induction false} RenumberIdentity(base: nat, rs: seq<Record>)
    requires base + |rs| <= TWO_64
    requires forall k | 0 <= k < |rs| :: rs[k].offset == base + k
    ensures Renumber(base, rs) == rs
  {
    if rs != [] {
      RenumberIdentity(base, rs[..|rs| - 1]);
    }
  }

  lemma {:induction false} RenumberAt(base: nat, rs: seq<Record>, k: nat)
    requires base + |rs| <= TWO_64 && k < |rs|
    ensures Renumber(base, rs)[k] == rs[k].(offset := base + k)
  {
    if k < |rs| - 1 {
      RenumberAt(base, rs[..|rs| - 1], k);
    }
  }

  /** The offset a record carries when it is appended does not matter. */
  lemma {:induction false} AppendAllRenumber(l: Limits, segs: seq<Seg>, a: seq<Record>, b: seq<Record>)
    requires segs != [] && |a| == |b| && Layout.Next(segs) + |a| < TWO_64
    requires forall k | 0 <= k < |a| :: a[k].(offset := 0) == b[k].(offset := 0)
    ensures AppendAll(l, segs, a) == AppendAll(l, segs, b)
  {
    hide Frames;
    if a != [] {
      AppendAllRenumber(l, segs, a[..|a| - 1], b[..|b| - 1]);
      var x, y := a[|a| - 1], b[|b| - 1];
      assert x.(offset := 0) == y.(offset := 0);
    }
  }

  /** How many of `rs` reach the stores when they are appended up to the first that is
      refused, that one included: its frame is written all the same. */
  function Absorbed(l: Limits, segs: seq<Seg>, rs: seq<Record>): (n: nat)
    requires segs != [] && Layout.Next(segs) + |rs| < TWO_64
    ensures n <= |rs|
    decreases |rs|
  {
    if rs == [] then 0
    else if !AppendOk(l, segs) then 1
    else 1 + Absorbed(l, LogAppend(l, segs, rs[0]), rs[1..])
  }

  /** They all do if and only if none but perhaps the last is refused. */
  lemma {:induction false} AllAbsorbedIff(l: Limits, segs: seq<Seg>, rs: seq<Record>)
    requires LayoutOk(l, segs) && NoOrphans(segs) && Layout.Next(segs) + |rs| < TWO_64 && rs != []
    ensures Absorbed(l, segs, rs) == |rs| <==> NoOrphans(AppendAll(l, segs, rs[..|rs| - 1]))
    decreases |rs|
  {
    hide SegOk, Open, AllSealed, Contiguous, LogAppend, NoOrphans, AppendAll, AppendOk;
    if |rs| == 1 {
      assert rs[..0] == [];
      AppendAllNone(l, segs);
    } else {
      var next := LogAppend(l, segs, rs[0]);
      AppendKeepsLayout(l, segs, rs[0]);
      AppendSucceeded(l, segs, rs[0]);
      AppendAllFirst(l, segs, rs[..|rs| - 1]);
      assert rs[..|rs| - 1][1..] == rs[1..][..|rs| - 2];
      if AppendOk(l, segs) {
        AllAbsorbedIff(l, next, rs[1..]);
      } else {
        OrphansStay(l, next, rs[..|rs| - 1][1..]);
      }
    }
  }

  /** The first refusal, seen from the outside. */
  lemma {:induction false} AbsorbedAt(l: Limits, segs: seq<Seg>, rs: seq<Record>, n: nat)
    requires LayoutOk(l, segs) && NoOrphans(segs) && Layout.Next(segs) + |rs| < TWO_64 && n < |rs|
    requires NoOrphans(AppendAll(l, segs, rs[..n])) && !NoOrphans(AppendAll(l, segs, rs[..n + 1]))
    ensures Absorbed(l, segs, rs) == n + 1
    decreases |rs|
  {
    hide SegOk, Open, AllSealed, Contiguous, LogAppend, NoOrphans, AppendAll, AppendOk;
    var next := LogAppend(l, segs, rs[0]);
    AppendKeepsLayout(l, segs, rs[0]);
    AppendSucceeded(l, segs, rs[0]);
    AppendAllFirst(l, segs, rs[..n + 1]);
    assert rs[..n + 1][1..] == rs[1..][..n];
    if n > 0 {
      AppendAllFirst(l, segs, rs[..n]);
      assert rs[..n][1..] == rs[1..][..n - 1];
      if AppendOk(l, segs) {
        AbsorbedAt(l, next, rs[1..], n - 1);
      } else {
        OrphansStay(l, next, rs[1..][..n - 1]);
      }
    } else {
      assert rs[1..][..0] == [];
      AppendAllNone(l, next);
    }
  }
}
