/** When can an append fail? `segment.Append` writes the store before it finds
    out that the index is full, and a segment is only rolled after a successful
    append. This module says for exactly which limits that happens. */
module Capacity {
  import opened Bytes
  import opened RecordCodec
  import opened Layout
  import opened Replay

  /** Entries the index file has room for. */
  function IndexSlots(l: Limits): nat {
    l.maxIndex / ENT_WIDTH
  }

  // The shortest frame that can carry offset `o`: an otherwise empty record.
  function ShortestFrame(o: Uint64): nat {
    LEN_WIDTH + |PutVarintField(2, o)|
  }

  /** The least number of bytes `n` frames at offsets `o`, `o`+1, ... take. */
  function LeastBytes(o: nat, n: nat): nat
    requires o + n <= TWO_64
  {
    if n == 0 then 0 else LeastBytes(o, n - 1) + ShortestFrame(o + n - 1)
  }

  /** Either the index file is a whole number of entries, or its slots cannot be
      used up before the store is full. */
  predicate NeverSticks(l: Limits, base: nat)
    requires base + IndexSlots(l) <= TWO_64
  {
    l.maxIndex % ENT_WIDTH == 0 || LeastBytes(base, IndexSlots(l)) >= l.maxStore
  }

  lemma ShortestFrameBound(r: Record)
    ensures |Frame(r)| >= ShortestFrame(r.offset)
    ensures r == EMPTY.(offset := r.offset) ==> |Frame(r)| == ShortestFrame(r.offset)
  {
    hide Marshal, PutVarintField;
    FrameSize(r);
    MarshalLength(r);
  }

  lemma ShortestFrameMonotone(o: Uint64, o': Uint64)
    requires o <= o'
    ensures ShortestFrame(o) <= ShortestFrame(o')
  {
    hide PutVarint, PutVarintField;
    VarintFieldLength(2, o);
    VarintFieldLength(2, o');
    VarintLengthMonotone(o, o');
  }

  lemma {:induction false} LeastBytesMonotone(o: nat, o': nat, n: nat)
    requires o <= o' && o' + n <= TWO_64
    ensures LeastBytes(o, n) <= LeastBytes(o', n)
  {
    hide ShortestFrame;
    if n > 0 {
      LeastBytesMonotone(o, o', n - 1);
      ShortestFrameMonotone(o + n - 1, o' + n - 1);
    }
  }

  lemma {:induction false} LeastBytesBound(o: nat, rs: seq<Record>)
    requires o + |rs| <= TWO_64
    requires forall k | 0 <= k < |rs| :: rs[k].offset == o + k
    ensures |Frames(rs)| >= LeastBytes(o, |rs|)
  {
    hide ShortestFrame, Frame;
    if rs != [] {
      LeastBytesBound(o, rs[..|rs| - 1]);
      ShortestFrameBound(rs[|rs| - 1]);
    }
  }

  // A log that starts later is no easier to get stuck.
  lemma NeverSticksLater(l: Limits, base: nat, base': nat)
    requires base <= base' && base' + IndexSlots(l) <= TWO_64 && NeverSticks(l, base)
    ensures NeverSticks(l, base')
  {
    hide LeastBytes;
    LeastBytesMonotone(base, base', IndexSlots(l));
  }

  lemma SegmentHasRoom(l: Limits, s: Seg, low: nat)
    requires l.Valid() && SegOk(l, s) && Open(l, s)
    requires low <= s.base && low + IndexSlots(l) <= TWO_64 && NeverSticks(l, low)
    ensures HasRoom(l, s) && s.orphans == []
  {
    hide LeastBytes, Frames;
    var n := |s.records|;
    assert s.(orphans := []).records + s.(orphans := []).orphans == s.records;
    if !HasRoom(l, s) {
      assert n == IndexSlots(l);
      LeastBytesBound(s.base, s.records);
      LeastBytesMonotone(low, s.base, n);
      assert false;
    }
  }

  /** Under such limits the active segment of every reachable log has room for
      another index entry: no append ever fails, and no frame is left in a store
      without an index entry. */
  lemma AppendNeverFails(l: Limits, segs: seq<Seg>, low: nat)
    requires LayoutOk(l, segs)
    requires low <= Lowest(segs) && low + IndexSlots(l) <= TWO_64 && NeverSticks(l, low)
    ensures AppendOk(l, segs) && NoOrphans(segs)
  {
    hide SegOk, Open, AllSealed, Contiguous, NeverSticks;
    if |segs| > 1 {
      BasesOrdered(segs, 0, |segs| - 1);
    }
    SegmentHasRoom(l, Last(segs), low);
  }

  // ------------------------------------------------ frames that are not small

  /** A record whose frame has at least `f` bytes wherever it is appended. */
  predicate FrameAtLeast(r: Record, f: nat) {
    |Frame(r.(offset := 0))| >= f
  }

  predicate AllFramesAtLeast(rs: seq<Record>, f: nat) {
    forall k | 0 <= k < |rs| :: FrameAtLeast(rs[k], f)
  }

  // The records of the active segment are among those appended.
  ghost predicate ActiveFramesAtLeast(segs: seq<Seg>, f: nat)
    requires segs != []
  {
    AllFramesAtLeast(Last(segs).records, f)
  }

  lemma FrameGrowsWithOffset(r: Record)
    ensures |Frame(r)| >= |Frame(r.(offset := 0))|
  {
    hide VarintSize, MarshalFields;
    FrameSize(r);
    FrameSize(r.(offset := 0));
  }

  lemma {:induction false} FramesAtLeast(rs: seq<Record>, f: nat)
    requires AllFramesAtLeast(rs, f)
    ensures |Frames(rs)| >= f * |rs|
  {
    hide Frame;
    if rs != [] {
      FramesAtLeast(rs[..|rs| - 1], f);
      FrameGrowsWithOffset(rs[|rs| - 1]);
    }
  }

  lemma LargeFramesHaveRoom(l: Limits, segs: seq<Seg>, f: nat)
    requires LayoutOk(l, segs) && ActiveFramesAtLeast(segs, f) && IndexSlots(l) * f >= l.maxStore
    ensures AppendOk(l, segs) && NoOrphans(segs)
  {
    hide Frames, FrameAtLeast, AllSealed, Contiguous;
    var s := Last(segs);
    FramesAtLeast(s.records, f);
    assert s.(orphans := []).records + s.(orphans := []).orphans == s.records;
    assert |s.records| >= IndexSlots(l) ==> f * |s.records| >= f * IndexSlots(l);
  }

  lemma AppendKeepsLarge(l: Limits, segs: seq<Seg>, r: Record, f: nat)
    requires LayoutOk(l, segs) && Layout.Next(segs) < TWO_64 - 1
    requires ActiveFramesAtLeast(segs, f) && FrameAtLeast(r, f)
    ensures ActiveFramesAtLeast(LogAppend(l, segs, r), f)
  {
    hide Frames, Frame, AllSealed, Contiguous, SegOk, Open, Layout.IsMaxed;
    var rec := r.(offset := Layout.Next(segs));
    assert rec.(offset := 0) == r.(offset := 0);
  }

  lemma {:induction false} AppendAllKeepsLarge(l: Limits, segs: seq<Seg>, rs: seq<Record>, f: nat)
    requires LayoutOk(l, segs) && Layout.Next(segs) + |rs| < TWO_64 && ActiveFramesAtLeast(segs, f)
    requires AllFramesAtLeast(rs, f)
    ensures ActiveFramesAtLeast(AppendAll(l, segs, rs), f)
  {
    hide LogAppend, FrameAtLeast, AllSealed, Contiguous, SegOk, Open, ActiveFramesAtLeast;
    if rs != [] {
      AppendAllKeepsLarge(l, segs, rs[..|rs| - 1], f);
      AppendAllKeepsLayout(l, segs, rs[..|rs| - 1]);
      AppendKeepsLarge(l, AppendAll(l, segs, rs[..|rs| - 1]), rs[|rs| - 1], f);
    }
  }

  /** Whatever the limits, a log never gets stuck on records whose frames have at
      least `f` bytes each when that many frames fill the store before the index. */
  lemma LargeFramesNeverFail(l: Limits, base: nat, rs: seq<Record>, f: nat)
    requires l.Valid() && base + |rs| < TWO_64 && IndexSlots(l) * f >= l.maxStore
    requires AllFramesAtLeast(rs, f)
    ensures NoOrphans(Build(l, base, rs)) && AppendOk(l, Build(l, base, rs))
  {
    hide FrameAtLeast, AllSealed, Contiguous, SegOk, Open, AppendOk, NoOrphans;
    FreshOk(l, base);
    AppendAllKeepsLarge(l, [Fresh(base)], rs, f);
    BuildOk(l, base, rs);
    LargeFramesHaveRoom(l, Build(l, base, rs), f);
  }

  // ------------------------------------------------------- how large a segment

  /** The store is overshot by less than one frame. */
  predicate StoreBounded(l: Limits, s: Seg) {
    var written := s.records + s.orphans;
    written != [] ==> |Frames(written[..|written| - 1])| < l.maxStore
  }

  predicate StoresBounded(l: Limits, segs: seq<Seg>) {
    forall i | 0 <= i < |segs| :: StoreBounded(l, segs[i])
  }

  /** Every segment of every reachable log has no more entries than the index has
      slots, and, unless it is active, has reached one of the two limits. While no
      append to it has failed its store is overshot by less than one frame. */
  lemma BoundedSegments(l: Limits, segs: seq<Seg>, i: nat)
    requires LayoutOk(l, segs) && i < |segs|
    ensures var s := segs[i];
            |s.records| <= IndexSlots(l) &&
            (s.orphans == [] ==> StoreBounded(l, s)) &&
            (i < |segs| - 1 ==> s.orphans == [] && (|s.StoreBytes()| >= l.maxStore || |s.records| == IndexSlots(l)))
  {
    hide Frame, Frames, AllSealed, Contiguous;
    LayoutAt(l, segs, i);
    var s := segs[i];
    if s.orphans == [] {
      assert s.records + s.orphans == s.records;
    }
  }

  // ------------------------------------------------- the other direction

  function EmptyRecords(n: nat): (rs: seq<Record>)
    ensures |rs| == n
  {
    if n == 0 then [] else EmptyRecords(n - 1) + [EMPTY]
  }

  // Empty records fill the index of the first segment but not its store.
  lemma {:induction false} EmptyRecordsFill(l: Limits, base: nat, n: nat)
    requires l.Valid() && n <= IndexSlots(l) && base + n < TWO_64
    requires base + IndexSlots(l) <= TWO_64 && !NeverSticks(l, base)
    ensures var segs := Build(l, base, EmptyRecords(n));
            |segs| == 1 && segs[0].base == base && |segs[0].records| == n && segs[0].orphans == [] &&
            |Frames(segs[0].records)| == LeastBytes(base, n)
  {
    hide ShortestFrame, Frame;
    if n > 0 {
      EmptyRecordsFill(l, base, n - 1);
      assert EmptyRecords(n)[..n - 1] == EmptyRecords(n - 1);
      EmptyRecordFits(l, Build(l, base, EmptyRecords(n - 1)), n);
    }
  }

  lemma {:induction false} LeastBytesGrows(o: nat, m: nat, n: nat)
    requires m <= n && o + n <= TWO_64
    ensures LeastBytes(o, m) <= LeastBytes(o, n)
  {
    if m < n {
      LeastBytesGrows(o, m, n - 1);
    }
  }

  lemma EmptyRecordFits(l: Limits, segs: seq<Seg>, n: nat)
    requires 0 < n <= IndexSlots(l)
    requires |segs| == 1 && segs[0].orphans == [] && |segs[0].records| == n - 1
    requires segs[0].base + IndexSlots(l) <= TWO_64 && !NeverSticks(l, segs[0].base)
    requires segs[0].base + n < TWO_64
    requires |Frames(segs[0].records)| == LeastBytes(segs[0].base, n - 1)
    ensures var segs' := LogAppend(l, segs, EMPTY);
            |segs'| == 1 && segs'[0].base == segs[0].base && |segs'[0].records| == n &&
            segs'[0].orphans == [] && |Frames(segs'[0].records)| == LeastBytes(segs[0].base, n)
  {
    hide ShortestFrame, Frame;
    var s, base := segs[0], segs[0].base;
    var rec := EMPTY.(offset := s.Next());
    ShortestFrameBound(rec);
    var s' := SegAppend(l, s, EMPTY);
    assert s'.records == s.records + [rec];
    assert s'.records[..n - 1] == s.records;
    assert s'.records + s'.orphans == s'.records;
    LeastBytesGrows(base, n, IndexSlots(l));
  }

  /** For any other limits the empty records, one more than there are index
      slots, leave the last one in the store without an index entry. */
  lemma EmptyRecordsStick(l: Limits, base: nat)
    requires l.Valid() && base + IndexSlots(l) + 1 < TWO_64 && !NeverSticks(l, base)
    ensures !NoOrphans(Build(l, base, EmptyRecords(IndexSlots(l) + 1)))
  {
    hide Frames, LeastBytes, AllSealed, Contiguous, Open, SegOk;
    var n := IndexSlots(l);
    EmptyRecordsFill(l, base, n);
    BuildOk(l, base, EmptyRecords(n));
    assert EmptyRecords(n + 1)[..n] == EmptyRecords(n);
    AppendSucceeded(l, Build(l, base, EmptyRecords(n)), EMPTY);
  }

  /** The limits under which no sequence of appends to a new log ever fails are
      exactly those of `NeverSticks`. */
  lemma NeverSticksIff(l: Limits, base: nat)
    requires l.Valid() && base + IndexSlots(l) + 1 < TWO_64
    ensures NeverSticks(l, base) <==>
            forall rs: seq<Record> | base + |rs| < TWO_64 :: NoOrphans(Build(l, base, rs))
  {
    hide NeverSticks, Build, NoOrphans, LayoutOk;
    if NeverSticks(l, base) {
      forall rs: seq<Record> | base + |rs| < TWO_64
        ensures NoOrphans(Build(l, base, rs))
      {
        BuildOk(l, base, rs);
        AppendNeverFails(l, Build(l, base, rs), base);
      }
    } else {
      EmptyRecordsStick(l, base);
      var rs := EmptyRecords(IndexSlots(l) + 1);
      assert base + |rs| < TWO_64 && !NoOrphans(Build(l, base, rs));
    }
  }

  // ------------------------------------------------ stores that keep growing

  lemma {:induction false} FramesAtLeastHeaders(rs: seq<Record>)
    ensures |Frames(rs)| >= LEN_WIDTH * |rs|
  {
    hide Frame;
    if rs != [] {
      FramesAtLeastHeaders(rs[..|rs| - 1]);
      FrameSize(rs[|rs| - 1]);
    }
  }

  // Once an append has failed every further record goes to the same store.
  lemma StuckStoreGrows(l: Limits, base: nat, n: nat)
    requires l.Valid() && base + IndexSlots(l) + 1 + n < TWO_64 && !NeverSticks(l, base)
    ensures var segs := Build(l, base, EmptyRecords(IndexSlots(l) + 1) + EmptyRecords(n));
            LayoutOk(l, segs) && |Last(segs).orphans| > n
  {
    hide Frames, LeastBytes, AllSealed, Contiguous, Open, SegOk, NeverSticks, AppendAll;
    var first, more := EmptyRecords(IndexSlots(l) + 1), EmptyRecords(n);
    BuildOk(l, base, first + more);
    BuildOk(l, base, first);
    EmptyRecordsStick(l, base);
    var stuck := Build(l, base, first);
    assert SegOk(l, Last(stuck));
    AppendAllConcat(l, [Fresh(base)], first, more);
    OrphansMeanFull(l, stuck);
    StuckForever(l, stuck, more);
  }

  lemma OrphansMeanFull(l: Limits, segs: seq<Seg>)
    requires LayoutOk(l, segs) && !NoOrphans(segs)
    ensures !AppendOk(l, segs)
  {
    hide Frames, AllSealed, Contiguous, Open;
  }

  lemma StoreOfOrphans(s: Seg)
    ensures |s.StoreBytes()| >= LEN_WIDTH * |s.orphans|
    ensures var written := s.records + s.orphans;
            written != [] ==> |Frames(written[..|written| - 1])| >= LEN_WIDTH * (|s.orphans| - 1)
  {
    hide Frames;
    var written := s.records + s.orphans;
    FramesAtLeastHeaders(written);
    if written != [] {
      FramesAtLeastHeaders(written[..|written| - 1]);
    }
  }

  /** The store of every segment stays within one frame of its limit, over every
      sequence of appends to a new log, under exactly the limits that never stick. */
  lemma StoresBoundedIff(l: Limits, base: nat)
    requires l.Valid() && base + IndexSlots(l) + l.maxStore / LEN_WIDTH + 2 < TWO_64
    ensures NeverSticks(l, base) <==>
            forall rs: seq<Record> | base + |rs| < TWO_64 :: StoresBounded(l, Build(l, base, rs))
  {
    hide NeverSticks, Build, NoOrphans, LayoutOk, StoreBounded;
    if NeverSticks(l, base) {
      forall rs: seq<Record> | base + |rs| < TWO_64
        ensures StoresBounded(l, Build(l, base, rs))
      {
        BuildOk(l, base, rs);
        AppendNeverFails(l, Build(l, base, rs), base);
        UnfailedStoresBounded(l, Build(l, base, rs));
      }
    } else {
      var n := l.maxStore / LEN_WIDTH + 1;
      StuckStoreGrows(l, base, n);
      var rs := EmptyRecords(IndexSlots(l) + 1) + EmptyRecords(n);
      var segs := Build(l, base, rs);
      OverfullStore(l, Last(segs), n);
      assert !StoreBounded(l, segs[|segs| - 1]);
    }
  }

  lemma UnfailedStoresBounded(l: Limits, segs: seq<Seg>)
    requires LayoutOk(l, segs) && NoOrphans(segs)
    ensures StoresBounded(l, segs)
  {
    hide LayoutOk, StoreBounded;
    forall i | 0 <= i < |segs|
      ensures StoreBounded(l, segs[i])
    {
      BoundedSegments(l, segs, i);
    }
  }

  lemma OverfullStore(l: Limits, s: Seg, n: nat)
    requires |s.orphans| > n >= l.maxStore / LEN_WIDTH + 1
    ensures !StoreBounded(l, s)
  {
    hide Frames;
    StoreOfOrphans(s);
  }

  // ------------------------------------------------------------ the defaults

  const DEFAULT_LIMITS: Limits := Limits(DEFAULT_BYTES, DEFAULT_BYTES)

  lemma {:induction false} LeastBytesSmall(n: nat)
    requires 1 <= n <= 128
    ensures LeastBytes(0, n) == 10 * n - 2
  {
    if n > 1 {
      LeastBytesSmall(n - 1);
      assert |PutVarintField(2, n - 1)| == 2;
    } else {
      assert LeastBytes(0, 0) == 0;
    }
  }

  /** The limits a log gets when none are configured are not safe: 86 empty
      records leave an un-indexed frame behind. */
  lemma DefaultsStick()
    ensures IndexSlots(DEFAULT_LIMITS) == 85
    ensures !NeverSticks(DEFAULT_LIMITS, 0)
    ensures !NoOrphans(Build(DEFAULT_LIMITS, 0, EmptyRecords(86)))
  {
    hide LeastBytes, Build, NoOrphans;
    LeastBytesSmall(85);
    EmptyRecordsStick(DEFAULT_LIMITS, 0);
  }

  /** Among the reachable logs with these limits is one whose active store is as
      large as one likes. */
  lemma DefaultStoreGrows(n: nat)
    requires n + 86 < TWO_64
    ensures var segs := Build(DEFAULT_LIMITS, 0, EmptyRecords(86) + EmptyRecords(n));
            LayoutOk(DEFAULT_LIMITS, segs) && |Last(segs).StoreBytes()| > LEN_WIDTH * n
  {
    hide Build, NeverSticks, LayoutOk;
    DefaultsStick();
    StuckStoreGrows(DEFAULT_LIMITS, 0, n);
    StoreOfOrphans(Last(Build(DEFAULT_LIMITS, 0, EmptyRecords(86) + EmptyRecords(n))));
  }

  /** They are safe for records that carry at least three bytes. */
  lemma DefaultsTakeLargeRecords(base: nat, rs: seq<Record>)
    requires base + |rs| < TWO_64
    requires forall k | 0 <= k < |rs| :: |rs[k].value| >= 3
    ensures NoOrphans(Build(DEFAULT_LIMITS, base, rs)) && AppendOk(DEFAULT_LIMITS, Build(DEFAULT_LIMITS, base, rs))
  {
    hide Build, AppendOk, NoOrphans, FrameAtLeast;
    forall k | 0 <= k < |rs|
      ensures FrameAtLeast(rs[k], 13)
    {
      ValueFrame(rs[k], 3);
    }
    LargeFramesNeverFail(DEFAULT_LIMITS, base, rs, 13);
  }

  // A header, a field tag, a length and the value.
  lemma ValueFrame(r: Record, n: nat)
    requires 0 < n <= |r.value|
    ensures FrameAtLeast(r, LEN_WIDTH + 2 + n)
  {
    hide MarshalFields;
    FrameSize(r.(offset := 0));
  }
}
