/** What the log's files hold, as values: a segment is the records its index
    knows about plus the frames that were written to its store without an index
    entry; a log is the list of its segments. The classes of this project are
    proved against the functions of this module. */
module Layout {
  import opened Bytes
  import opened RecordCodec

  const LEN_WIDTH: nat := 8
  const OFF_WIDTH: nat := 4
  const POS_WIDTH: nat := 8
  const ENT_WIDTH: nat := 12

  datatype Limits = Limits(maxStore: nat, maxIndex: nat) {
    /** Sizes are uint64 and an index entry has 32 bits for its offset. */
    ghost predicate Valid() {
      0 < maxStore < TWO_64 && 0 < maxIndex <= ENT_WIDTH * TWO_32
    }
  }

  /** Either limit when none is configured. */
  const DEFAULT_BYTES: nat := 1024

  // ------------------------------------------------------- bytes of the files

  function Frame(r: Record): Bytes {
    PutUint(|Marshal(r)|, LEN_WIDTH) + Marshal(r)
  }

  /** The store file of a sequence of records. */
  function Frames(rs: seq<Record>): Bytes {
    if rs == [] then [] else Frames(rs[..|rs| - 1]) + Frame(rs[|rs| - 1])
  }

  function Entry(off: nat, pos: nat): (e: Bytes)
    ensures |e| == ENT_WIDTH
  {
    PutUint(off, OFF_WIDTH) + PutUint(pos, POS_WIDTH)
  }

  /** The index file of a sequence of records. */
  function Entries(rs: seq<Record>): (e: Bytes)
    ensures |e| == ENT_WIDTH * |rs|
  {
    if rs == [] then [] else Entries(rs[..|rs| - 1]) + Entry(|rs| - 1, |Frames(rs[..|rs| - 1])|)
  }

  lemma {:induction false} FramesConcat(a: seq<Record>, b: seq<Record>)
    ensures Frames(a + b) == Frames(a) + Frames(b)
  {
    hide Frame;
    if b == [] {
      assert a + b == a;
    } else {
      assert (a + b)[..|a + b| - 1] == a + b[..|b| - 1];
      FramesConcat(a, b[..|b| - 1]);
    }
  }

  lemma FramesOne(r: Record)
    ensures Frames([]) == [] && Frames([r]) == Frame(r)
  {
    hide Frame;
    assert [r][..0] == [];
  }

  lemma FramesPrefix(rs: seq<Record>, k: nat)
    requires k <= |rs|
    ensures Frames(rs) == Frames(rs[..k]) + Frames(rs[k..])
    ensures |Frames(rs[..k])| <= |Frames(rs)|
  {
    hide Frame;
    FramesConcat(rs[..k], rs[k..]);
    assert rs[..k] + rs[k..] == rs;
  }

  lemma FramesStep(rs: seq<Record>, k: nat)
    requires k < |rs|
    ensures Frames(rs[..k + 1]) == Frames(rs[..k]) + Frame(rs[k])
  {
    assert rs[..k + 1][..k] == rs[..k];
  }

  lemma FrameSize(r: Record)
    ensures LEN_WIDTH <= |Frame(r)| == LEN_WIDTH + |Marshal(r)| < TWO_64
    ensures Frame(r)[..LEN_WIDTH] == PutUint(|Marshal(r)|, LEN_WIDTH)
    ensures Frame(r)[LEN_WIDTH..] == Marshal(r)
    ensures GetUint(Frame(r)[..LEN_WIDTH]) == |Marshal(r)| < TWO_63
  {
    MarshalLength(r);
    Pow256Widths();
    GetPutUint(|Marshal(r)|, LEN_WIDTH);
  }

  // ---------------------------------------------------------------- segments

  datatype Seg = Seg(base: nat, records: seq<Record>, orphans: seq<Record>) {
    function Next(): nat { base + |records| }
    function StoreBytes(): Bytes { Frames(records + orphans) }
    function IndexBytes(): Bytes { Entries(records) }
  }

  function Last(segs: seq<Seg>): Seg
    requires segs != []
  {
    segs[|segs| - 1]
  }

  function Fresh(base: nat): Seg {
    Seg(base, [], [])
  }

  predicate HasRoom(l: Limits, s: Seg) {
    ENT_WIDTH * (|s.records| + 1) <= l.maxIndex
  }

  predicate IsMaxed(l: Limits, s: Seg) {
    |s.StoreBytes()| >= l.maxStore || ENT_WIDTH * |s.records| >= l.maxIndex
  }

  /** The effect of a segment's append: when the index has no room the frame has
      already reached the store and stays there. */
  function SegAppend(l: Limits, s: Seg, r: Record): Seg
    requires s.Next() < TWO_64
  {
    var rec := r.(offset := s.Next());
    if HasRoom(l, s) then s.(records := s.records + [rec]) else s.(orphans := s.orphans + [rec])
  }

  ghost predicate SegOk(l: Limits, s: Seg) {
    && s.Next() < TWO_64
    && (forall k | 0 <= k < |s.records| :: s.records[k].offset == s.base + k)
    && (forall k | 0 <= k < |s.orphans| :: s.orphans[k].offset == s.Next())
    && ENT_WIDTH * |s.records| <= l.maxIndex
    && (s.orphans != [] ==> !HasRoom(l, s))
    && (s.records != [] ==> |Frames(s.records[..|s.records| - 1])| < l.maxStore)
  }

  // Every segment but the last: it was left because it was full.
  ghost predicate Sealed(l: Limits, s: Seg) {
    s.records != [] && s.orphans == [] && IsMaxed(l, s)
  }

  // The active segment: what its index knows about does not fill it.
  ghost predicate Open(l: Limits, s: Seg) {
    !IsMaxed(l, s.(orphans := []))
  }

  // -------------------------------------------------------------------- logs

  /** Segments that follow one another without a gap. */
  ghost predicate Contiguous(segs: seq<Seg>) {
    |segs| <= 1 || (Contiguous(segs[..|segs| - 1]) && Last(segs).base == segs[|segs| - 2].Next())
  }

  ghost predicate AllSealed(l: Limits, segs: seq<Seg>) {
    segs == [] || (AllSealed(l, segs[..|segs| - 1]) && SegOk(l, Last(segs)) && Sealed(l, Last(segs)))
  }

  /** The invariant of every reachable log. */
  ghost predicate LayoutOk(l: Limits, segs: seq<Seg>) {
    && l.Valid()
    && segs != []
    && Contiguous(segs)
    && AllSealed(l, segs[..|segs| - 1])
    && SegOk(l, Last(segs))
    && Open(l, Last(segs))
  }

  lemma {:induction false} AllSealedAt(l: Limits, segs: seq<Seg>, i: nat)
    requires AllSealed(l, segs) && i < |segs|
    ensures SegOk(l, segs[i]) && Sealed(l, segs[i])
  {
    hide SegOk, Sealed;
    if i < |segs| - 1 {
      AllSealedAt(l, segs[..|segs| - 1], i);
    }
  }

  lemma {:induction false} ContiguousAt(segs: seq<Seg>, i: nat)
    requires Contiguous(segs) && i + 1 < |segs|
    ensures segs[i + 1].base == segs[i].Next()
  {
    if i + 1 < |segs| - 1 {
      ContiguousAt(segs[..|segs| - 1], i);
    }
  }

  /** The invariant, one segment at a time. */
  lemma LayoutAt(l: Limits, segs: seq<Seg>, i: nat)
    requires LayoutOk(l, segs) && i < |segs|
    ensures SegOk(l, segs[i])
    ensures i < |segs| - 1 ==> Sealed(l, segs[i]) && segs[i + 1].base == segs[i].Next()
    ensures i == |segs| - 1 ==> Open(l, segs[i])
  {
    hide SegOk, Sealed, Open;
    if i < |segs| - 1 {
      AllSealedAt(l, segs[..|segs| - 1], i);
      ContiguousAt(segs, i);
    }
  }

  function Lowest(segs: seq<Seg>): nat
    requires segs != []
  {
    segs[0].base
  }

  function Next(segs: seq<Seg>): nat
    requires segs != []
  {
    Last(segs).Next()
  }

  ghost predicate NoOrphans(segs: seq<Seg>)
    requires segs != []
  {
    Last(segs).orphans == []
  }

  predicate AppendOk(l: Limits, segs: seq<Seg>)
    requires segs != []
  {
    HasRoom(l, Last(segs))
  }

  function LogAppend(l: Limits, segs: seq<Seg>, r: Record): (segs': seq<Seg>)
    requires segs != [] && Next(segs) < TWO_64 - 1
    ensures segs' != [] && Next(segs') <= Next(segs) + 1
  {
    var s := SegAppend(l, Last(segs), r);
    if AppendOk(l, segs) && IsMaxed(l, s) then segs[..|segs| - 1] + [s, Fresh(s.Next())]
    else segs[..|segs| - 1] + [s]
  }

  /** Truncation keeps the segments that reach beyond `bound`. */
  function Kept(segs: seq<Seg>, bound: nat): seq<Seg> {
    if segs == [] then []
    else Kept(segs[..|segs| - 1], bound) + if segs[|segs| - 1].Next() <= bound then [] else [segs[|segs| - 1]]
  }

  // lowest+1 as the source computes it, in 64 bits.
  function Bound(lowest: Uint64): Uint64 {
    (lowest + 1) % TWO_64
  }

  /** All indexed records, oldest first. */
  function Records(segs: seq<Seg>): seq<Record> {
    if segs == [] then [] else Records(segs[..|segs| - 1]) + segs[|segs| - 1].records
  }

  /** All frames in the stores, oldest first. */
  function Written(segs: seq<Seg>): seq<Record> {
    if segs == [] then [] else Written(segs[..|segs| - 1]) + (segs[|segs| - 1].records + segs[|segs| - 1].orphans)
  }

  /** What a reader over the whole log yields. */
  function StreamBytes(segs: seq<Seg>): Bytes {
    if segs == [] then [] else StreamBytes(segs[..|segs| - 1]) + segs[|segs| - 1].StoreBytes()
  }

  // -------------------------------------------------- the invariant is kept

  lemma FreshOk(l: Limits, base: nat)
    requires l.Valid() && base < TWO_64
    ensures LayoutOk(l, [Fresh(base)])
  {
  }

  lemma SegAppendKeeps(l: Limits, s: Seg, r: Record)
    requires l.Valid() && SegOk(l, s) && s.Next() < TWO_64 - 1
    requires HasRoom(l, s) ==> |s.StoreBytes()| < l.maxStore
    ensures SegOk(l, SegAppend(l, s, r))
    ensures HasRoom(l, s) ==> SegAppend(l, s, r).orphans == []
  {
    hide Frames;
    var s' := SegAppend(l, s, r);
    assert s.records + [] == s.records;
    if HasRoom(l, s) {
      assert s'.records[..|s'.records| - 1] == s.records;
    }
  }

  lemma SegAppendOk(l: Limits, s: Seg, r: Record)
    requires l.Valid() && SegOk(l, s) && Open(l, s) && s.Next() < TWO_64 - 1
    ensures SegOk(l, SegAppend(l, s, r))
    ensures !HasRoom(l, s) ==> Open(l, SegAppend(l, s, r))
    ensures HasRoom(l, s) ==> SegAppend(l, s, r).orphans == [] && s.orphans == []
    ensures HasRoom(l, s) && !IsMaxed(l, SegAppend(l, s, r)) ==> Open(l, SegAppend(l, s, r))
    ensures HasRoom(l, s) ==> |s.StoreBytes()| < l.maxStore
  {
    hide Frames;
    var s' := SegAppend(l, s, r);
    if HasRoom(l, s) {
      assert s.(orphans := []) == s;
      SegAppendKeeps(l, s, r);
      assert s'.(orphans := []) == s';
    } else {
      SegAppendKeeps(l, s, r);
      assert s'.(orphans := []) == s.(orphans := []);
    }
  }

  lemma SegAppendShape(l: Limits, s: Seg, r: Record)
    requires s.Next() < TWO_64
    ensures SegAppend(l, s, r).base == s.base
    ensures SegAppend(l, s, r).Next() == s.Next() + if HasRoom(l, s) then 1 else 0
    ensures HasRoom(l, s) ==> SegAppend(l, s, r).records != []
  {
  }

  // Replacing the last segment keeps what precedes it in order.
  lemma ReplaceLast(segs: seq<Seg>, s: Seg)
    requires segs != [] && Contiguous(segs) && s.base == Last(segs).base
    ensures Contiguous(segs[..|segs| - 1] + [s])
    ensures (segs[..|segs| - 1] + [s])[..|segs| - 1] == segs[..|segs| - 1]
    ensures Lowest(segs[..|segs| - 1] + [s]) == Lowest(segs)
  {
    hide Contiguous;
    var n := |segs| - 1;
    var t := segs[..n] + [s];
    assert t[..n] == segs[..n];
    ContiguousLast(segs);
    ContiguousLast(t);
    if n > 0 {
      assert t[n - 1] == segs[..n][n - 1] == segs[n - 1];
    }
  }

  lemma ContiguousLast(segs: seq<Seg>)
    requires segs != []
    ensures Contiguous(segs) <==>
            |segs| == 1 || (Contiguous(segs[..|segs| - 1]) && Last(segs).base == segs[|segs| - 2].Next())
  {
  }

  lemma AddLast(segs: seq<Seg>, s: Seg)
    requires segs != [] && Contiguous(segs) && s.base == Next(segs)
    ensures Contiguous(segs + [s]) && (segs + [s])[..|segs|] == segs
  {
    var t := segs + [s];
    assert t[..|t| - 1] == segs;
  }

  lemma ReplacedLayout(l: Limits, segs: seq<Seg>, s: Seg)
    requires LayoutOk(l, segs) && s.base == Last(segs).base && SegOk(l, s) && Open(l, s)
    ensures LayoutOk(l, segs[..|segs| - 1] + [s])
    ensures Lowest(segs[..|segs| - 1] + [s]) == Lowest(segs)
  {
    hide SegOk, Sealed, Open, Contiguous;
    ReplaceLast(segs, s);
  }

  lemma FreshSegOk(l: Limits, s: Seg)
    requires l.Valid() && SegOk(l, s)
    ensures SegOk(l, Fresh(s.Next())) && Open(l, Fresh(s.Next()))
  {
  }

  lemma RolledLayout(l: Limits, segs: seq<Seg>, s: Seg)
    requires LayoutOk(l, segs) && s.base == Last(segs).base && SegOk(l, s) && Sealed(l, s)
    ensures LayoutOk(l, segs[..|segs| - 1] + [s, Fresh(s.Next())])
    ensures Lowest(segs[..|segs| - 1] + [s, Fresh(s.Next())]) == Lowest(segs)
  {
    hide SegOk, Sealed, Open, Contiguous;
    FreshSegOk(l, s);
    var t := segs[..|segs| - 1] + [s];
    ReplaceLast(segs, s);
    AddLast(t, Fresh(s.Next()));
    var u := segs[..|segs| - 1] + [s, Fresh(s.Next())];
    assert AllSealed(l, t);
    assert u == t + [Fresh(s.Next())] && u[..|u| - 1] == t;
  }

  /** An append keeps the invariant, whether it succeeds or not. */
  lemma AppendKeepsLayout(l: Limits, segs: seq<Seg>, r: Record)
    requires LayoutOk(l, segs) && Next(segs) < TWO_64 - 1
    ensures LayoutOk(l, LogAppend(l, segs, r))
    ensures Lowest(LogAppend(l, segs, r)) == Lowest(segs)
    ensures Next(LogAppend(l, segs, r)) == Next(segs) + if AppendOk(l, segs) then 1 else 0
  {
    hide Frames, SegOk, Open, Contiguous, AllSealed;
    var s, s' := Last(segs), SegAppend(l, Last(segs), r);
    SegAppendOk(l, s, r);
    SegAppendShape(l, s, r);
    if AppendOk(l, segs) && IsMaxed(l, s') {
      RolledLayout(l, segs, s');
    } else {
      ReplacedLayout(l, segs, s');
    }
  }

  // -------------------------------------------------------- flat view of a log

  lemma {:induction false} RecordsConcat(a: seq<Seg>, b: seq<Seg>)
    ensures Records(a + b) == Records(a) + Records(b)
  {
    if b == [] {
      assert a + b == a;
    } else {
      assert (a + b)[..|a + b| - 1] == a + b[..|b| - 1];
      RecordsConcat(a, b[..|b| - 1]);
    }
  }

  lemma {:induction false} WrittenConcat(a: seq<Seg>, b: seq<Seg>)
    ensures Written(a + b) == Written(a) + Written(b)
  {
    if b == [] {
      assert a + b == a;
    } else {
      assert (a + b)[..|a + b| - 1] == a + b[..|b| - 1];
      WrittenConcat(a, b[..|b| - 1]);
    }
  }

  lemma {:induction false} StreamIsFrames(segs: seq<Seg>)
    ensures StreamBytes(segs) == Frames(Written(segs))
  {
    hide Frame;
    if segs != [] {
      StreamIsFrames(segs[..|segs| - 1]);
      FramesConcat(Written(segs[..|segs| - 1]), Last(segs).records + Last(segs).orphans);
    }
  }

  lemma {:induction false} SealedWritten(l: Limits, segs: seq<Seg>)
    requires AllSealed(l, segs)
    ensures Written(segs) == Records(segs)
  {
    hide SegOk;
    if segs != [] {
      SealedWritten(l, segs[..|segs| - 1]);
      assert Last(segs).records + Last(segs).orphans == Last(segs).records;
    }
  }

  lemma WrittenIsRecords(l: Limits, segs: seq<Seg>)
    requires LayoutOk(l, segs)
    ensures Written(segs) == Records(segs) + Last(segs).orphans
  {
    hide SegOk, Open, Contiguous;
    SealedWritten(l, segs[..|segs| - 1]);
  }

  lemma {:induction false} RecordsLength(segs: seq<Seg>)
    requires segs != [] && Contiguous(segs)
    ensures |Records(segs)| == Next(segs) - Lowest(segs)
  {
    if |segs| > 1 {
      RecordsLength(segs[..|segs| - 1]);
    } else {
      assert Records(segs[..0]) == [];
    }
  }

  /** Record `off - lowest` of the flat view is record `off - base` of the
      segment that holds it. */
  lemma {:induction false} RecordsAt(segs: seq<Seg>, i: nat, k: nat)
    requires i < |segs| && k < |segs[i].records| && Contiguous(segs)
    ensures Lowest(segs) <= segs[i].base
    ensures segs[i].base + k - Lowest(segs) < |Records(segs)|
    ensures Records(segs)[segs[i].base + k - Lowest(segs)] == segs[i].records[k]
  {
    var front := segs[..|segs| - 1];
    if front == [] {
      assert Records(front) == [];
    } else {
      RecordsLength(front);
      if i < |segs| - 1 {
        RecordsAt(front, i, k);
      }
    }
  }

  // Segment bases grow with their position.
  lemma {:induction false} BasesOrdered(segs: seq<Seg>, i: nat, j: nat)
    requires Contiguous(segs) && i < j < |segs|
    ensures segs[i].Next() <= segs[j].base
  {
    var front := segs[..|segs| - 1];
    if j < |segs| - 1 {
      BasesOrdered(front, i, j);
    } else if i < j - 1 {
      BasesOrdered(front, i, j - 1);
    }
  }

  lemma {:induction false} SegmentOf(segs: seq<Seg>, off: nat) returns (i: nat)
    requires segs != [] && Contiguous(segs) && Lowest(segs) <= off < Next(segs)
    ensures i < |segs| && segs[i].base <= off < segs[i].Next()
  {
    if Last(segs).base <= off {
      i := |segs| - 1;
    } else {
      i := SegmentOf(segs[..|segs| - 1], off);
    }
  }

  ghost predicate Holds(segs: seq<Seg>, i: int, off: nat) {
    0 <= i < |segs| && segs[i].base <= off < segs[i].Next()
  }

  /** Each offset from the lowest up to the next one lies in exactly one segment,
      and no other offset lies in any: the first match of a lookup is the only one. */
  lemma UniqueLocation(segs: seq<Seg>, off: nat)
    requires segs != [] && Contiguous(segs)
    ensures Lowest(segs) <= off < Next(segs) <==> exists i :: Holds(segs, i, off)
    ensures forall i, j | Holds(segs, i, off) && Holds(segs, j, off) :: i == j
  {
    hide Contiguous;
    if Lowest(segs) <= off < Next(segs) {
      var i := SegmentOf(segs, off);
      assert Holds(segs, i, off);
    }
    forall i, j | Holds(segs, i, off) && Holds(segs, j, off)
      ensures i == j
    {
      if i < j {
        BasesOrdered(segs, i, j);
      } else if j < i {
        BasesOrdered(segs, j, i);
      }
    }
    forall i | Holds(segs, i, off)
      ensures Lowest(segs) <= off < Next(segs)
    {
      if i > 0 {
        BasesOrdered(segs, 0, i);
      }
      if i < |segs| - 1 {
        BasesOrdered(segs, i, |segs| - 1);
      }
    }
  }

  /** Bases are strictly increasing: only the active segment can be empty. */
  lemma BasesIncrease(l: Limits, segs: seq<Seg>, i: nat, j: nat)
    requires LayoutOk(l, segs) && i < j < |segs|
    ensures segs[i].base < segs[i].Next() <= segs[j].base
  {
    hide Frames, SegOk, Open, AllSealed, Contiguous;
    LayoutAt(l, segs, i);
    BasesOrdered(segs, i, j);
  }

  /** The records of a log carry consecutive offsets, starting at the lowest. */
  lemma RecordsCarryOffsets(l: Limits, segs: seq<Seg>)
    requires LayoutOk(l, segs)
    ensures |Records(segs)| == Next(segs) - Lowest(segs)
    ensures forall k | 0 <= k < |Records(segs)| :: Records(segs)[k].offset == Lowest(segs) + k
  {
    hide Frames, Records, Open, AllSealed, Contiguous;
    RecordsLength(segs);
    forall k | 0 <= k < |Records(segs)|
      ensures Records(segs)[k].offset == Lowest(segs) + k
    {
      var i := SegmentOf(segs, Lowest(segs) + k);
      RecordsAt(segs, i, Lowest(segs) + k - segs[i].base);
      LayoutAt(l, segs, i);
    }
  }

  lemma Snoc(segs: seq<Seg>, s: Seg)
    ensures Records(segs + [s]) == Records(segs) + s.records
    ensures Written(segs + [s]) == Written(segs) + (s.records + s.orphans)
    ensures StreamBytes(segs + [s]) == StreamBytes(segs) + s.StoreBytes()
  {
    hide Frames;
    var t := segs + [s];
    assert t[..|t| - 1] == segs;
  }

  lemma NewHoldsNothing(base: nat)
    ensures Written([Fresh(base)]) == [] && Records([Fresh(base)]) == []
  {
    assert [Fresh(base)][..0] == [];
  }

  lemma NewHasNone(base: nat)
    ensures NoOrphans([Fresh(base)])
  {
  }

  lemma SnocLast(segs: seq<Seg>)
    requires segs != []
    ensures Records(segs) == Records(segs[..|segs| - 1]) + Last(segs).records
    ensures Written(segs) == Written(segs[..|segs| - 1]) + (Last(segs).records + Last(segs).orphans)
  {
    hide Frames, Records, Written;
    Snoc(segs[..|segs| - 1], Last(segs));
    assert segs[..|segs| - 1] + [Last(segs)] == segs;
  }

  // An append replaces the last segment and may add an empty one.
  lemma AppendShape(l: Limits, segs: seq<Seg>, r: Record)
    requires segs != [] && Next(segs) < TWO_64 - 1
    ensures var s := SegAppend(l, Last(segs), r);
            Records(LogAppend(l, segs, r)) == Records(segs[..|segs| - 1]) + s.records &&
            Written(LogAppend(l, segs, r)) == Written(segs[..|segs| - 1]) + (s.records + s.orphans)
  {
    hide Frames, Records, Written, SegAppend;
    var s := SegAppend(l, Last(segs), r);
    var front := segs[..|segs| - 1];
    Snoc(front, s);
    Snoc(front + [s], Fresh(s.Next()));
    assert front + [s] + [Fresh(s.Next())] == front + [s, Fresh(s.Next())];
    assert Records(front) + s.records + [] == Records(front) + s.records;
    assert Written(front) + (s.records + s.orphans) + ([] + []) == Written(front) + (s.records + s.orphans);
  }

  /** A successful append adds one record at the end of the flat view; a failed
      one changes nothing there. */
  lemma AppendRecords(l: Limits, segs: seq<Seg>, r: Record)
    requires LayoutOk(l, segs) && Next(segs) < TWO_64 - 1
    ensures Records(LogAppend(l, segs, r)) ==
            if AppendOk(l, segs) then Records(segs) + [r.(offset := Next(segs))] else Records(segs)
  {
    hide Frames, Records, LogAppend, Open, AllSealed, Contiguous, SegOk;
    AppendShape(l, segs, r);
    SnocLast(segs);
  }

  /** Either way the frame reaches the store. */
  lemma AppendWritten(l: Limits, segs: seq<Seg>, r: Record)
    requires LayoutOk(l, segs) && Next(segs) < TWO_64 - 1
    ensures Written(LogAppend(l, segs, r)) == Written(segs) + [r.(offset := Next(segs))]
  {
    hide Frames, Written, LogAppend, Open, AllSealed, Contiguous;
    AppendShape(l, segs, r);
    SnocLast(segs);
    var s, s' := Last(segs), SegAppend(l, Last(segs), r);
    assert SegOk(l, s);
    assert s'.records + s'.orphans == (s.records + s.orphans) + [r.(offset := Next(segs))];
  }
}
