/** The log: a list of segments in one directory, of which the last is active. */
module CommitLog {
  import opened Bytes
  import opened RecordCodec
  import opened Layout
  import opened Replay
  import opened FlatLog
  import opened FileNames
  import opened Files
  import opened Segments
  import Stores

  // ------------------------------------------------- a directory of segments

  ghost function Names(segs: seq<Seg>): set<string> {
    if segs == [] then {} else Names(segs[..|segs| - 1]) + NamesAt(segs[|segs| - 1].base)
  }

  ghost predicate DistinctBases(segs: seq<Seg>) {
    && (forall i | 0 <= i < |segs| :: segs[i].base < TWO_64)
    && (forall i, j | 0 <= i < j < |segs| :: segs[i].base < segs[j].base)
  }

  ghost predicate FilesOf(files: FileMap, s: Seg) {
    && FileOr(files, StoreName(s.base)) == s.StoreBytes()
    && FileOr(files, IndexName(s.base)) == s.IndexBytes()
  }

  /** The directory holds the files of these segments and nothing else. */
  ghost predicate LeftBy(files: FileMap, segs: seq<Seg>) {
    files.Keys == Names(segs) && forall i | 0 <= i < |segs| :: FilesOf(files, segs[i])
  }

  lemma FilesKept(a: FileMap, b: FileMap, names: set<string>, s: Seg)
    requires SameExcept(a, b, names) && NamesAt(s.base) !! names && FilesOf(b, s)
    ensures FilesOf(a, s)
  {
    hide StoreName, IndexName, Frames, Entries;
    assert StoreName(s.base) in NamesAt(s.base) && IndexName(s.base) in NamesAt(s.base);
  }

  lemma LayoutDistinct(l: Limits, segs: seq<Seg>)
    requires LayoutOk(l, segs)
    ensures DistinctBases(segs)
    ensures forall i | 0 <= i < |segs| :: SegOk(l, segs[i]) && segs[i].base <= Layout.Next(segs)
  {
    hide Frames, SegOk, Open, AllSealed, Contiguous;
    forall i, j | 0 <= i < j < |segs|
      ensures segs[i].base < segs[j].base
    {
      BasesIncrease(l, segs, i, j);
    }
    forall i | 0 <= i < |segs|
      ensures SegOk(l, segs[i]) && segs[i].base < TWO_64 && segs[i].base <= Layout.Next(segs)
    {
      LayoutAt(l, segs, i);
      BaseBound(l, segs[i]);
      NextOrdered(segs, i);
    }
  }

  lemma BaseBound(l: Limits, s: Seg)
    requires SegOk(l, s)
    ensures s.base <= s.Next() < TWO_64
  {
    hide Frames;
  }

  lemma NamesApart(b: Uint64, c: Uint64)
    requires b != c
    ensures NamesAt(b) !! NamesAt(c)
  {
    hide StoreName, IndexName;
    NamesDistinct(b, c);
    NamesDistinct(c, b);
  }

  lemma {:induction false} NamesIncludes(segs: seq<Seg>, i: nat)
    requires i < |segs|
    ensures NamesAt(segs[i].base) <= Names(segs)
  {
    hide StoreName, IndexName, NamesAt;
    if i < |segs| - 1 {
      NamesIncludes(segs[..|segs| - 1], i);
    }
  }

  lemma {:induction false} NamesAvoid(segs: seq<Seg>, base: Uint64)
    requires forall i | 0 <= i < |segs| :: segs[i].base < TWO_64 && segs[i].base != base
    ensures NamesAt(base) !! Names(segs)
  {
    hide StoreName, IndexName, NamesAt;
    if segs != [] {
      NamesAvoid(segs[..|segs| - 1], base);
      NamesApart(base, segs[|segs| - 1].base);
    }
  }

  lemma {:induction false} NamesConcat(a: seq<Seg>, b: seq<Seg>)
    ensures Names(a + b) == Names(a) + Names(b)
  {
    hide StoreName, IndexName, NamesAt;
    if b == [] {
      assert a + b == a;
    } else {
      assert (a + b)[..|a + b| - 1] == a + b[..|b| - 1];
      NamesConcat(a, b[..|b| - 1]);
    }
  }

  lemma NamesOne(s: Seg)
    ensures Names([s]) == NamesAt(s.base)
  {
    hide StoreName, IndexName, NamesAt;
    assert [s][..0] == [];
  }

  // Names depend on the bases alone.
  lemma NamesReplaceLast(segs: seq<Seg>, s: Seg)
    requires segs != [] && s.base == Last(segs).base
    ensures Names(segs[..|segs| - 1] + [s]) == Names(segs)
  {
    hide StoreName, IndexName, NamesAt;
    assert (segs[..|segs| - 1] + [s])[..|segs| - 1] == segs[..|segs| - 1];
  }

  lemma StoreNameAt(base: nat)
    ensures StoreName(base) in NamesAt(base) && IndexName(base) in NamesAt(base)
  {
    hide StoreName, IndexName;
  }

  lemma SameExceptMore(a: FileMap, b: FileMap, fewer: set<string>, more: set<string>)
    requires SameExcept(a, b, fewer) && fewer <= more
    ensures SameExcept(a, b, more)
  {
  }

  lemma SameKeys(a: FileMap, b: FileMap, names: set<string>)
    requires SameExcept(a, b, names) && names <= a.Keys && names <= b.Keys
    ensures a.Keys == b.Keys
  {
  }

  lemma KeysGrow(a: FileMap, b: FileMap, names: set<string>)
    requires SameExcept(a, b, names) && names <= a.Keys
    ensures a.Keys == b.Keys + names
  {
    assert forall n :: n in a.Keys <==> n in b.Keys + names;
  }

  // The files of a segment that does not exist yet.
  lemma FreshFiles(l: Limits, files: FileMap, base: Uint64)
    requires l.Valid() && NamesAt(base) !! files.Keys
    ensures SegOk(l, Fresh(base))
    ensures FileOr(files, StoreName(base)) == Fresh(base).StoreBytes()
    ensures FileOr(files, IndexName(base)) == Fresh(base).IndexBytes()
  {
    hide StoreName, IndexName, Frame;
    assert StoreName(base) in NamesAt(base) && IndexName(base) in NamesAt(base);
  }

  lemma FreshStore(base: nat)
    ensures Fresh(base).StoreBytes() == []
  {
  }

  // The result of an append, one segment at a time.
  lemma AppendedView(l: Limits, segs: seq<Seg>, r: Record)
    requires LayoutOk(l, segs) && Layout.Next(segs) < TWO_64 - 1
    ensures var s := SegAppend(l, Last(segs), r);
            var replaced := segs[..|segs| - 1] + [s];
            LogAppend(l, segs, r) ==
            if AppendOk(l, segs) && Layout.IsMaxed(l, s) then replaced + [Fresh(Layout.Next(segs) + 1)]
            else replaced
  {
    hide Frames, SegOk, Open, AllSealed, Contiguous, SegAppend, Layout.IsMaxed;
    SegAppendShape(l, Last(segs), r);
  }

  lemma SegmentSpan(l: Limits, s: Seg)
    requires l.Valid() && SegOk(l, s)
    ensures |s.records| <= TWO_32
  {
    hide Frames;
  }

  ghost predicate BasesBelow(segs: seq<Seg>, bound: nat) {
    forall i | 0 <= i < |segs| :: segs[i].base < bound
  }

  // After a successful append the next base is new.
  lemma RollIsSafe(l: Limits, segs: seq<Seg>, r: Record)
    requires LayoutOk(l, segs) && Layout.Next(segs) < TWO_64 - 1 && AppendOk(l, segs)
    ensures var s := SegAppend(l, Last(segs), r);
            s.Next() == Layout.Next(segs) + 1 && BasesBelow(segs[..|segs| - 1] + [s], s.Next())
  {
    hide Frames, SegOk, Open, AllSealed, Contiguous, SegAppend;
    LayoutDistinct(l, segs);
    SegAppendShape(l, Last(segs), r);
  }

  // The active segment takes another frame while its index has room for it.
  lemma ActiveHasSpace(l: Limits, segs: seq<Seg>)
    requires LayoutOk(l, segs)
    ensures SegOk(l, Last(segs)) && Last(segs).base < TWO_64
    ensures HasRoom(l, Last(segs)) ==> |Last(segs).StoreBytes()| < l.maxStore
  {
    hide Frames, AllSealed, Contiguous;
    if HasRoom(l, Last(segs)) {
      assert Last(segs).(orphans := []) == Last(segs);
    }
  }

  function Bases(segs: seq<Seg>): (bases: seq<nat>)
    ensures |bases| == |segs|
  {
    if segs == [] then [] else Bases(segs[..|segs| - 1]) + [segs[|segs| - 1].base]
  }

  lemma {:induction false} BasesAreBases(segs: seq<Seg>)
    ensures forall i | 0 <= i < |segs| :: Bases(segs)[i] == segs[i].base
  {
    if segs != [] {
      BasesAreBases(segs[..|segs| - 1]);
    }
  }

  lemma BasesAt(segs: seq<Seg>)
    requires DistinctBases(segs)
    ensures forall i | 0 <= i < |segs| :: Bases(segs)[i] == segs[i].base < TWO_64
    ensures Ascending(Bases(segs))
  {
    hide Bases;
    BasesAreBases(segs);
  }

  lemma NamesEmpty()
    ensures Names([]) == {}
  {
  }

  lemma TruncationStart(segs: seq<Seg>, bound: nat)
    ensures Kept(segs[..0], bound) == []
  {
  }

  lemma MoveOne<T>(kept: seq<T>, all: seq<T>, i: nat)
    requires i < |all|
    ensures var s := kept + all[i..];
            |kept| < |s| && s[|kept|] == all[i] && s == (kept + [all[i]]) + all[i + 1..] &&
            s[..|kept|] + s[|kept| + 1..] == kept + all[i + 1..]
  {
  }

  lemma Nothing<T>(all: seq<T>)
    ensures [] + all[0..] == all
  {
  }

  ghost predicate EndsWith<T>(s: seq<T>, x: T) {
    s != [] && s[|s| - 1] == x
  }

  lemma Finished<T>(kept: seq<T>, all: seq<T>)
    ensures kept + all[|all|..] == kept && all[..|all|] == all
  {
  }

  lemma KeptStep(segs: seq<Seg>, i: nat, bound: nat)
    requires i < |segs|
    ensures segs[i].Next() <= bound ==> Kept(segs[..i + 1], bound) == Kept(segs[..i], bound)
    ensures segs[i].Next() > bound ==> Kept(segs[..i + 1], bound) == Kept(segs[..i], bound) + [segs[i]]
  {
    hide Kept;
    KeptLast(segs[..i + 1], bound);
    assert segs[..i + 1][..i] == segs[..i];
  }

  lemma AfterTruncation(l: Limits, segs: seq<Seg>, lowest: Uint64)
    requires LayoutOk(l, segs)
    ensures Bound(lowest) < Layout.Next(segs) ==>
              LayoutOk(l, Kept(segs, Bound(lowest))) && Last(segs).Next() > Bound(lowest)
    ensures Layout.Next(segs) <= Bound(lowest) ==> Kept(segs, Bound(lowest)) == [] && Names([]) == {}
  {
    hide SegOk, Open, AllSealed, Contiguous, Kept, Names;
    TruncationEmptiesIff(segs, lowest);
    NamesEmpty();
    if Bound(lowest) < Layout.Next(segs) {
      TruncationKeepsLayout(l, segs, lowest);
    }
  }

  lemma NamesRemove(segs: seq<Seg>, p: nat)
    requires DistinctBases(segs) && p < |segs|
    ensures var rest := segs[..p] + segs[p + 1..];
            Names(segs) == Names(rest) + NamesAt(segs[p].base) && NamesAt(segs[p].base) !! Names(rest) &&
            DistinctBases(rest)
  {
    hide Names, NamesAt;
    var rest := segs[..p] + segs[p + 1..];
    NamesConcat(segs[..p] + [segs[p]], segs[p + 1..]);
    NamesConcat(segs[..p], [segs[p]]);
    NamesConcat(segs[..p], segs[p + 1..]);
    NamesOne(segs[p]);
    assert segs == segs[..p] + [segs[p]] + segs[p + 1..];
    forall i | 0 <= i < |rest|
      ensures rest[i].base < TWO_64 && rest[i].base != segs[p].base
    {
      assert rest[i] == segs[if i < p then i else i + 1];
    }
    NamesAvoid(rest, segs[p].base);
  }

  lemma KeysShrink(a: FileMap, b: FileMap, base: nat, rest: set<string>)
    requires SameExcept(a, b, NamesAt(base)) && b.Keys == rest + NamesAt(base) && NamesAt(base) !! rest
    requires StoreName(base) !in a && IndexName(base) !in a
    ensures a.Keys == rest
  {
    hide StoreName, IndexName;
    assert forall n :: n in a.Keys <==> n in rest;
  }

  // Each file of the log occurs once among the names of its segments.
  lemma {:induction false} NamesMultiset(segs: seq<Seg>)
    requires DistinctBases(segs)
    ensures multiset(NamesOf(Bases(segs))) == multiset(Names(segs))
  {
    hide StoreName, IndexName;
    if segs != [] {
      var front, base := segs[..|segs| - 1], segs[|segs| - 1].base;
      NamesMultiset(front);
      NamesAvoid(front, base);
      BaseOfNames(base);
      assert Bases(segs)[..|front|] == Bases(front);
      assert multiset(NamesAt(base)) == multiset{IndexName(base), StoreName(base)};
      DisjointUnion(Names(front), NamesAt(base));
    }
  }

  lemma DisjointUnion(a: set<string>, b: set<string>)
    requires a !! b
    ensures multiset(a + b) == multiset(a) + multiset(b)
  {
  }

  // The sorted listing of a closed log names its segments at the even positions.
  lemma ListingNamesSegments(names: seq<string>, segs: seq<Seg>)
    requires DistinctBases(segs) && multiset(names) == multiset(Names(segs))
    ensures |FileNames.Sort(BasesOf(names))| == 2 * |segs|
    ensures forall k | 0 <= k < |segs| :: FileNames.Sort(BasesOf(names))[2 * k] == segs[k].base
  {
    hide Names, Bases, FileNames.Sort, BasesOf, NamesOf, Ascending, DistinctBases;
    NamesMultiset(segs);
    BasesAt(segs);
    ListingRecoversBases(Bases(segs), names);
  }

  method ListedBases(names: seq<string>) returns (bases: seq<nat>)
    ensures bases == BasesOf(names)
  {
    hide BaseOf;
    bases := [];
    var i := 0;
    while i < |names|
      invariant i <= |names| && bases == BasesOf(names[..i])
    {
      assert names[..i + 1][..i] == names[..i];
      bases := bases + [BaseOf(names[i])];
      i := i + 1;
    }
    assert names[..i] == names;
  }

  // --------------------------------------------------------------- the class

  class Log {
    const dir: Directory
    const limits: Limits
    var initialOffset: Uint64
    var segments: seq<Segment>
    var activeSegment: Segment?
    ghost var view: seq<Seg>
    ghost var Repr: set<object>

    /** Segment objects `ss` hold `vs`, each on its own. */
    ghost predicate Parts(ss: seq<Segment>, vs: seq<Seg>)
      reads this, Repr, dir
    {
      && |ss| == |vs|
      && (forall i | 0 <= i < |ss| ::
            ss[i].Repr() <= Repr && ss[i].dir == dir && ss[i].limits == limits &&
            ss[i].Valid() && ss[i].view == vs[i])
      && (forall i, j | 0 <= i < j < |ss| :: ss[i].Repr() !! ss[j].Repr())
    }

    ghost predicate Base()
      reads this
    {
      this in Repr && dir in Repr && limits.Valid()
    }

    ghost predicate Valid()
      reads this, Repr, dir
    {
      && Base() && dir.present
      && LayoutOk(limits, view)
      && Parts(segments, view)
      && activeSegment == segments[|segments| - 1]
      && dir.files.Keys == Names(view)
    }

    /** Store files that were empty when they were opened. */
    ghost predicate MadeHere(ss: seq<Segment>) {
      forall i | 0 <= i < |ss| :: ss[i].store.sizeAtOpen == 0
    }

    /** Stores whose descriptors stand at the start and whose buffers are empty:
        nothing was written to them or copied from them since they were opened. */
    ghost predicate Unmoved(ss: seq<Segment>)
      reads set s | s in ss :: s.store
    {
      forall i | 0 <= i < |ss| :: ss[i].store.buf == [] && ss[i].store.cursor == 0
    }

    /** A log without segments; `Setup` fills it. Zero limits mean the default. */
    constructor (dir: Directory, maxStore: nat, maxIndex: nat, initialOffset: Uint64)
      requires maxStore < TWO_64 && maxIndex <= ENT_WIDTH * TWO_32
      ensures Base() && Repr == {this, dir} && this.dir == dir && this.initialOffset == initialOffset
      ensures limits.maxStore == (if maxStore == 0 then 1024 else maxStore)
      ensures limits.maxIndex == (if maxIndex == 0 then 1024 else maxIndex)
      ensures segments == [] && view == []
    {
      this.dir, this.initialOffset := dir, initialOffset;
      this.limits := Limits(if maxStore == 0 then DEFAULT_BYTES else maxStore,
                            if maxIndex == 0 then DEFAULT_BYTES else maxIndex);
      this.segments, this.activeSegment := [], null;
      this.view := [];
      this.Repr := {this, dir};
    }

    /** Objects and files that nobody touched are as they were. */
    twostate lemma KeepParts(ss: seq<Segment>, new vs: seq<Seg>, new names: set<string>)
      requires old(Base()) && Base() && old(Repr) <= Repr
      requires forall s | s in ss :: allocated(s) && allocated(s.store) && allocated(s.index) && allocated(s.index.mmap)
      requires allocated(dir)
      requires old(Parts(ss, vs))
      requires forall i | 0 <= i < |ss| :: ss[i].State() == old(ss[i].State())
      requires SameExcept(dir.files, old(dir.files), names)
      requires forall i | 0 <= i < |ss| :: names !! ss[i].FileNamesUsed()
      ensures Parts(ss, vs)
    {
      hide Frames, Entries, StoreName, IndexName, SegOk, SameExcept, Segment.Valid, Segment.FileNamesUsed;
      forall i | 0 <= i < |ss|
        ensures ss[i].Valid()
      {
        ss[i].Untouched(names);
      }
    }

    // A segment's file names follow from its place in the view.
    lemma PartNames(ss: seq<Segment>, vs: seq<Seg>, i: nat)
      requires Parts(ss, vs) && i < |ss|
      ensures ss[i].baseOffset == vs[i].base && ss[i].FileNamesUsed() == NamesAt(vs[i].base)
      ensures ss[i].store.name == StoreName(vs[i].base) && ss[i].index.name == IndexName(vs[i].base)
    {
      hide Frames, Entries, StoreName, IndexName, SegOk;
    }

    /** Open the segment with base `off` and make it the active one. */
    method NewSegment(off: Uint64, ghost s: Seg)
      requires Base() && Parts(segments, view)
      requires SegOk(limits, s) && s.base == off
      requires FileOr(dir.files, StoreName(off)) == s.StoreBytes()
      requires FileOr(dir.files, IndexName(off)) == s.IndexBytes()
      requires forall i | 0 <= i < |view| :: view[i].base < TWO_64 && view[i].base != off
      modifies this`segments, this`activeSegment, this`view, this`Repr, dir`files
      ensures Base() && Parts(segments, view)
      ensures view == old(view) + [s] && |segments| == |old(segments)| + 1
      ensures segments[..|old(segments)|] == old(segments)
      ensures old(MadeHere(segments)) && s.StoreBytes() == [] ==> MadeHere(segments)
      ensures old(Unmoved(segments)) ==> Unmoved(segments)
      ensures activeSegment == segments[|segments| - 1]
      ensures fresh(Repr - old(Repr)) && old(Repr) <= Repr
      ensures SameExcept(dir.files, old(dir.files), NamesAt(off)) && NamesAt(off) <= dir.files.Keys
    {
      hide Frames, Entries, StoreName, IndexName, SegOk, SameExcept, Segment.Valid, MadeHere, Unmoved;
      var seg := new Segment.Open(dir, off, limits, s);
      forall i | 0 <= i < |segments|
        ensures NamesAt(off) !! segments[i].FileNamesUsed()
      {
        OldPartNames(i);
        NamesApart(off, view[i].base);
      }
      OneMore(segments, seg);
      Repr := Repr + seg.Repr();
      segments := segments + [seg];
      view := view + [s];
      activeSegment := seg;
      KeepParts(old(segments), old(view), NamesAt(off));
      PartsSnoc(old(segments), old(view), seg, s);
    }

    lemma OneMore(ss: seq<Segment>, seg: Segment)
      ensures (ss + [seg])[..|ss|] == ss
      ensures MadeHere(ss) && seg.store.sizeAtOpen == 0 ==> MadeHere(ss + [seg])
      ensures Unmoved(ss) && seg.store.buf == [] && seg.store.cursor == 0 ==> Unmoved(ss + [seg])
    {
    }

    lemma ViewOfPart(i: nat)
      requires Parts(segments, view) && i < |segments|
      ensures segments[i].Valid() && segments[i].view == view[i]
      ensures segments[i].nextOffset == view[i].Next() && segments[i].baseOffset == view[i].base
      ensures segments[i].limits == limits
      ensures segments[i].store.name in dir.files && segments[i].index.name in dir.files
      ensures segments[i].store.name == StoreName(view[i].base)
      ensures segments[i].index.name == IndexName(view[i].base)
    {
      hide Frames, Entries, StoreName, IndexName, SegOk;
    }

    lemma StoreStillThere(seg: Segment)
      requires seg.Valid() && seg.dir == dir
      ensures seg.store.name in dir.files && seg.index.name in dir.files
    {
      hide Frames, Entries, StoreName, IndexName, SegOk;
    }

    twostate lemma OtherPartNames(i: nat, new j: nat)
      requires old(Valid()) && i < |old(segments)| && j < |old(segments)| && i != j
      ensures {old(segments)[j].store.name} !! old(segments)[i].FileNamesUsed()
      ensures old(segments)[j].FileNamesUsed() !! old(segments)[i].FileNamesUsed()
    {
      hide Frames, Entries, StoreName, IndexName, SegOk, Open, AllSealed, Contiguous, Names;
      LayoutDistinct(limits, old(view));
      OldPartNames(i);
      OldPartNames(j);
      var b, c := old(view)[i].base, old(view)[j].base;
      assert b != c by {
        if i < j { assert b < c; } else { assert c < b; }
      }
      NamesApart(b, c);
    }

    twostate lemma OldPartNames(i: nat)
      requires old(Parts(segments, view)) && i < |old(segments)|
      ensures old(segments)[i].FileNamesUsed() == NamesAt(old(view)[i].base)
      ensures old(segments)[i].store.name in old(segments)[i].FileNamesUsed()
    {
      hide Frames, Entries, StoreName, IndexName, SegOk;
    }

    lemma PartsPrefix(ss: seq<Segment>, vs: seq<Seg>, n: nat)
      requires Parts(ss, vs) && n <= |ss|
      ensures Parts(ss[..n], vs[..n])
    {
      hide Segment.Valid, Frames, SegOk;
    }

    lemma PartsSnoc(ss: seq<Segment>, vs: seq<Seg>, seg: Segment, v: Seg)
      requires Parts(ss, vs)
      requires seg.Repr() <= Repr && seg.dir == dir && seg.limits == limits && seg.Valid() && seg.view == v
      requires forall i | 0 <= i < |ss| :: ss[i].Repr() !! seg.Repr()
      ensures Parts(ss + [seg], vs + [v])
    {
      hide Segment.Valid, Frames, SegOk;
    }

    // The append itself, before the segment may be rolled.
    method AppendActive(record: Record) returns (off: Option<Uint64>)
      requires Valid() && Layout.Next(view) < TWO_64 - 1
      modifies Repr
      ensures Base() && Repr == old(Repr) && dir.present && initialOffset == old(initialOffset)
      ensures segments == old(segments) && activeSegment == old(activeSegment)
      ensures view == old(view)[..|old(view)| - 1] + [SegAppend(limits, Last(old(view)), record)]
      ensures Parts(segments, view) && dir.files.Keys == Names(view)
      ensures off == if AppendOk(limits, old(view)) then Some(Layout.Next(old(view))) else None
    {
      hide Frames, Entries, StoreName, IndexName, SegOk, Open, AllSealed, Contiguous, SameExcept,
           Segment.Valid, SegAppend, Names;
      var n := |segments| - 1;
      var seg := segments[n];
      ActiveHasSpace(limits, view);
      ViewOfPart(n);
      PartsPrefix(segments, view, n);
      SegAppendShape(limits, Last(view), record);
      off := activeSegment.Append(record);
      NamesReplaceLast(view, seg.view);
      view := view[..n] + [seg.view];
      forall i | 0 <= i < n
        ensures {seg.store.name} !! segments[i].FileNamesUsed()
      {
        OtherPartNames(i, n);
      }
      KeepParts(segments[..n], old(view)[..n], {seg.store.name});
      PartsSnoc(segments[..n], old(view)[..n], seg, seg.view);
      assert segments[..n] + [seg] == segments;
      StoreStillThere(seg);
      SameKeys(dir.files, old(dir.files), {seg.store.name});
    }

    /** Append to the active segment and roll when that fills it. */
    method Append(record: Record) returns (off: Option<Uint64>)
      requires Valid() && Layout.Next(view) < TWO_64 - 1
      modifies Repr
      ensures Valid() && fresh(Repr - old(Repr)) && initialOffset == old(initialOffset)
      ensures view == LogAppend(limits, old(view), record)
      ensures old(MadeHere(segments)) ==> MadeHere(segments)
      ensures off == if AppendOk(limits, old(view)) then Some(Layout.Next(old(view))) else None
    {
      hide Frames, Entries, StoreName, IndexName, SegOk, Open, AllSealed, Contiguous, SameExcept,
           Segment.Valid, SegAppend, Names, NamesAt, LogAppend, Layout.IsMaxed, MadeHere;
      AppendKeepsLayout(limits, view, record);
      AppendedView(limits, view, record);
      if AppendOk(limits, view) {
        RollIsSafe(limits, view, record);
      }
      off := AppendActive(record);
      ViewOfPart(|segments| - 1);
      if off.Some? {
        var maxed := activeSegment.IsMaxed();
        if maxed {
          Roll(off.value + 1);
        }
      }
    }

    // Start a new, empty active segment.
    method Roll(off: Uint64)
      requires Base() && dir.present && Parts(segments, view) && dir.files.Keys == Names(view)
      requires BasesBelow(view, off)
      modifies Repr
      ensures Base() && dir.present && Parts(segments, view) && dir.files.Keys == Names(view)
      ensures segments != [] && activeSegment == segments[|segments| - 1]
      ensures view == old(view) + [Fresh(off)]
      ensures old(MadeHere(segments)) ==> MadeHere(segments)
      ensures fresh(Repr - old(Repr)) && initialOffset == old(initialOffset)
    {
      hide Frames, Entries, StoreName, IndexName, SegOk, SameExcept, Segment.Valid, Names, NamesAt;
      NamesAvoid(view, off);
      FreshFiles(limits, dir.files, off);
      FreshStore(off);
      NewSegment(off, Fresh(off));
      NamesConcat(old(view), [Fresh(off)]);
      NamesOne(Fresh(off));
      KeysGrow(dir.files, old(dir.files), NamesAt(off));
    }

    /** Working on one segment leaves the others as they were. */
    twostate lemma KeepAllBut(ss: seq<Segment>, new vs: seq<Seg>, new i: nat)
      requires old(Base()) && Base() && old(Repr) <= Repr && allocated(dir)
      requires forall s | s in ss :: allocated(s) && allocated(s.store) && allocated(s.index) && allocated(s.index.mmap)
      requires old(Parts(ss, vs)) && i < |ss| && DistinctBases(vs)
      requires forall j | 0 <= j < |ss| && j != i :: ss[j].State() == old(ss[j].State())
      requires SameExcept(dir.files, old(dir.files), NamesAt(vs[i].base))
      ensures forall j | 0 <= j < |ss| && j != i :: ss[j].Valid() && ss[j].view == vs[j]
    {
      hide Frames, Entries, StoreName, IndexName, SegOk, SameExcept, Segment.Valid, NamesAt, Segment.FileNamesUsed;
      forall j | 0 <= j < |ss| && j != i
        ensures ss[j].Valid() && ss[j].view == vs[j]
      {
        OldNames(ss, vs, j);
        assert j < i ==> vs[j].base < vs[i].base;
        assert i < j ==> vs[i].base < vs[j].base;
        NamesApart(vs[i].base, vs[j].base);
        ss[j].Untouched(NamesAt(vs[i].base));
      }
    }

    twostate lemma OldNames(ss: seq<Segment>, new vs: seq<Seg>, new j: nat)
      requires old(Parts(ss, vs)) && j < |ss|
      ensures ss[j].FileNamesUsed() == NamesAt(vs[j].base)
    {
      hide Frames, Entries, StoreName, IndexName, SegOk;
    }

    // Putting the worked-on segment back.
    lemma PartsWith(ss: seq<Segment>, vs: seq<Seg>, i: nat)
      requires Base() && |ss| == |vs| && i < |ss|
      requires forall j | 0 <= j < |ss| :: ss[j].Repr() <= Repr && ss[j].dir == dir && ss[j].limits == limits
      requires forall j, k | 0 <= j < k < |ss| :: ss[j].Repr() !! ss[k].Repr()
      requires forall j | 0 <= j < |ss| && j != i :: ss[j].Valid() && ss[j].view == vs[j]
      requires ss[i].Valid() && ss[i].view == vs[i]
      ensures Parts(ss, vs)
    {
      hide Segment.Valid;
    }

    /** The first segment that covers `off`, or the number of segments. */
    method Locate(off: Uint64) returns (i: nat)
      requires Valid()
      ensures i <= |segments| == |view|
      ensures forall j | 0 <= j < i :: !(view[j].base <= off < view[j].Next())
      ensures i < |segments| ==> view[i].base <= off < view[i].Next()
    {
      hide Frames, Entries, StoreName, IndexName, SegOk, LayoutOk, SameExcept, Segment.Valid, Names;
      i := 0;
      while i < |segments| && !(segments[i].baseOffset <= off < segments[i].nextOffset)
        invariant i <= |segments| == |view|
        invariant forall j | 0 <= j < i :: !(view[j].base <= off < view[j].Next())
      {
        ViewOfPart(i);
        i := i + 1;
      }
      if i < |segments| {
        ViewOfPart(i);
      }
    }

    /** The record at `off`, if the log has it. */
    method Read(off: Uint64) returns (record: Option<Record>)
      requires Valid()
      modifies Repr
      ensures Valid() && Repr == old(Repr) && view == old(view) && initialOffset == old(initialOffset)
      ensures record == View(view).Read(off)
      ensures segments == old(segments) && (old(Unmoved(segments)) ==> Unmoved(segments))
    {
      hide Frames, Entries, StoreName, IndexName, SegOk, Open, AllSealed, Contiguous, SameExcept,
           Segment.Valid, Names, NamesAt, Records, Lookup;
      var i := Locate(off);
      LookupIsFlatRead(view, off);
      if i == |segments| {
        LookupNone(view, off);
        return None;
      }
      LookupFirst(view, off, i);
      record := ReadSegment(i, off);
    }

    method ReadSegment(i: nat, off: Uint64) returns (record: Option<Record>)
      requires Valid() && i < |segments| == |view| && view[i].base <= off < view[i].Next()
      modifies Repr
      ensures Valid() && Repr == old(Repr) && view == old(view) && initialOffset == old(initialOffset)
      ensures record == Some(view[i].records[off - view[i].base])
      ensures segments == old(segments) && (old(Unmoved(segments)) ==> Unmoved(segments))
    {
      hide Frames, Entries, StoreName, IndexName, SegOk, Open, AllSealed, Contiguous, SameExcept,
           Segment.Valid, Names, NamesAt;
      LayoutDistinct(limits, view);
      ViewOfPart(i);
      SegmentSpan(limits, view[i]);
      record := segments[i].Read(off);
      StoreNameAt(view[i].base);
      SameExceptMore(dir.files, old(dir.files), {segments[i].store.name}, NamesAt(view[i].base));
      AfterOneSegment(i);
    }

    /** One read of the snapshot reader that stands at `off` in segment i's store. */
    method ReadStore(i: nat, n: nat, off: nat) returns (data: Bytes, eof: bool)
      requires Valid() && i < |segments| == |view|
      modifies Repr
      ensures Valid() && Repr == old(Repr) && view == old(view) && segments == old(segments)
      ensures initialOffset == old(initialOffset)
      ensures data == Stores.Chunk(view[i].StoreBytes(), off, n)
      ensures old(Unmoved(segments)) ==> Unmoved(segments)
      ensures eof <==> n > 0 && off + n > |view[i].StoreBytes()|
    {
      hide Frames, Entries, StoreName, IndexName, SegOk, Open, AllSealed, Contiguous, SameExcept,
           Segment.Valid, Names, NamesAt, Stores.Chunk;
      ViewOfPart(i);
      data, eof := segments[i].ReadStore(n, off);
      StoreNameAt(view[i].base);
      SameExceptMore(dir.files, old(dir.files), {segments[i].store.name}, NamesAt(view[i].base));
      AfterOneSegment(i);
    }

    ghost function Remainder(i: nat): Bytes
      reads this, Repr, dir
      requires Valid() && i < |segments|
    {
      segments[i].store.Remainder()
    }

    /** The frames the copying method of segment i's file yields: those it held when
        it was opened, as long as its descriptor has not moved. */
    ghost function Left(i: nat): seq<Record>
      reads this, Repr, dir
      requires Valid() && i < |segments|
    {
      if segments[i].store.AtEnd() then [] else segments[i].heldAtOpen
    }

    ghost function AllLeft(n: nat): seq<Record>
      reads this, Repr, dir
      requires Valid() && n <= |segments|
    {
      if n == 0 then [] else AllLeft(n - 1) + Left(n - 1)
    }

    lemma RemainderIsLeft(i: nat)
      requires Valid() && i < |segments| == |view|
      ensures Remainder(i) == Frames(Left(i))
    {
      hide Entries, StoreName, IndexName, SegOk, Open, AllSealed, Contiguous, Names, Frame;
      var seg := segments[i];
      LeftOfSegment(seg);
    }

    lemma LeftOfSegment(seg: Segment)
      requires seg.Valid()
      ensures seg.store.Remainder() == if seg.store.AtEnd() then [] else Frames(seg.heldAtOpen)
    {
      hide Frames, Entries, StoreName, IndexName, SegOk;
      var written, held := seg.view.records + seg.view.orphans, seg.heldAtOpen;
      var file := seg.dir.files[seg.store.name];
      FramesPrefix(written, |held|);
      assert written[..|held|] == held;
      if !seg.store.AtEnd() {
        assert file == (file + seg.store.buf)[..|file|] == Frames(written)[..|file|];
      }
    }

    /** The file of segment i's store copies itself (see `Store.WriteTo`). */
    method WriteStoreTo(i: nat) returns (data: Bytes)
      requires Valid() && i < |segments| == |view|
      modifies segments[i].store`cursor
      ensures Valid()
      ensures data == old(Remainder(i))
      ensures forall j | 0 <= j < |segments| && j != i :: Remainder(j) == old(Remainder(j))
    {
      hide Frames, Entries, StoreName, IndexName, SegOk, Open, AllSealed, Contiguous, SameExcept,
           Segment.Valid, Names, NamesAt;
      ViewOfPart(i);
      data := segments[i].WriteStoreTo();
      SameExceptSelf(dir.files, NamesAt(view[i].base));
      AfterOneSegment(i);
    }

    lemma StoresHere()
      requires Valid()
      ensures |segments| == |view| && forall i | 0 <= i < |segments| :: segments[i].store in Repr
    {
      hide Frames, SegOk, Open, AllSealed, Contiguous, Names, Segment.Valid;
      assert forall i | 0 <= i < |segments| :: segments[i].Repr() <= Repr;
    }

    // All of the store, or part of it; nothing when the file is new.
    lemma RemainderFacts(i: nat)
      requires Valid() && i < |segments| == |view|
      ensures |Remainder(i)| <= |view[i].StoreBytes()|
      ensures Remainder(i) == view[i].StoreBytes() <==> segments[i].store.buf == [] && segments[i].store.cursor == 0
      ensures segments[i].store.sizeAtOpen == 0 ==> Remainder(i) == []
    {
      hide Frames, Entries, StoreName, IndexName, SegOk, Open, AllSealed, Contiguous, Names;
      var store := segments[i].store;
      var file := dir.files[store.name];
      assert view[i].StoreBytes() == file + store.buf;
      assert |Remainder(i)| == |file| - store.cursor;
      if store.buf == [] {
        assert file + store.buf == file && file[0..] == file;
      }
    }

    // A method that touched only segment i and its files kept the whole log.
    twostate lemma AfterOneSegment(i: nat)
      requires old(Valid()) && i < |old(segments)|
      requires segments == old(segments) && view == old(view) && Repr == old(Repr) && dir.present
      requires activeSegment == old(activeSegment)
      requires forall j | 0 <= j < |segments| && j != i :: segments[j].State() == old(segments[j].State())
      requires segments[i].Valid() && segments[i].view == view[i]
      requires SameExcept(dir.files, old(dir.files), NamesAt(view[i].base))
      ensures Valid()
    {
      hide Frames, Entries, StoreName, IndexName, SegOk, Open, AllSealed, Contiguous, SameExcept,
           Segment.Valid, Names, NamesAt;
      LayoutDistinct(limits, view);
      KeepAllBut(segments, view, i);
      PartsWith(segments, view, i);
      OldFilesThere(segments, view, i);
      FilesThere(segments, view, i);
      SameKeys(dir.files, old(dir.files), NamesAt(view[i].base));
    }

    lemma FilesThere(ss: seq<Segment>, vs: seq<Seg>, i: nat)
      requires Parts(ss, vs) && i < |ss|
      ensures NamesAt(vs[i].base) <= dir.files.Keys
    {
      hide Frames, Entries, StoreName, IndexName, SegOk;
    }

    twostate lemma OldFilesThere(ss: seq<Segment>, new vs: seq<Seg>, new i: nat)
      requires old(Parts(ss, vs)) && i < |ss|
      ensures NamesAt(vs[i].base) <= old(dir.files).Keys
    {
      hide Frames, Entries, StoreName, IndexName, SegOk;
    }

    method LowestOffset() returns (off: Uint64)
      requires Valid()
      ensures view != [] && off == view[0].base
    {
      hide Frames, Entries, StoreName, IndexName, SegOk, Open, AllSealed, Contiguous, Segment.Valid, Names;
      ViewOfPart(0);
      off := segments[0].baseOffset;
    }

    method HighestOffset() returns (off: Uint64)
      requires Valid()
      ensures off == if Layout.Next(view) == 0 then 0 else Layout.Next(view) - 1
    {
      hide Frames, Entries, StoreName, IndexName, SegOk, Open, AllSealed, Contiguous, Segment.Valid, Names;
      ViewOfPart(|segments| - 1);
      var next := segments[|segments| - 1].nextOffset;
      if next == 0 {
        return 0;
      }
      return next - 1;
    }

    /** Closing leaves every segment's content in its two files, and no other
        file in the directory. */
    method Close()
      requires Valid()
      modifies Repr
      ensures Valid() && Repr == old(Repr) && view == old(view) && segments == old(segments)
      ensures initialOffset == old(initialOffset)
      ensures LeftBy(dir.files, view)
    {
      hide Frames, Entries, StoreName, IndexName, SegOk, Open, AllSealed, Contiguous, SameExcept,
           Segment.Valid, Names, NamesAt, FilesOf;
      var i := 0;
      LayoutDistinct(limits, view);
      while i < |segments|
        invariant i <= |segments| == |view|
        invariant Valid() && Repr == old(Repr) && view == old(view) && segments == old(segments)
        invariant initialOffset == old(initialOffset)
        invariant forall j | 0 <= j < i :: FilesOf(dir.files, view[j])
      {
        ghost var before := dir.files;
        CloseSegment(i);
        forall j | 0 <= j < i
          ensures FilesOf(dir.files, view[j])
        {
          NamesApart(view[j].base, view[i].base);
          FilesKept(dir.files, before, NamesAt(view[i].base), view[j]);
        }
        i := i + 1;
      }
    }

    method CloseSegment(i: nat)
      requires Valid() && i < |segments| == |view|
      modifies Repr
      ensures Valid() && Repr == old(Repr) && view == old(view) && segments == old(segments)
      ensures initialOffset == old(initialOffset)
      ensures FilesOf(dir.files, view[i])
      ensures SameExcept(dir.files, old(dir.files), NamesAt(view[i].base))
    {
      hide Frames, Entries, StoreName, IndexName, SegOk, Open, AllSealed, Contiguous, SameExcept,
           Segment.Valid, Names, NamesAt;
      ViewOfPart(i);
      OldNames(segments, view, i);
      segments[i].Close();
      AfterOneSegment(i);
    }

    // What `Setup` may find: nothing, or what a clean close left.
    ghost predicate Found(files: FileMap, segs: seq<Seg>)
      reads this
    {
      LayoutOk(limits, segs) && (LeftBy(files, segs) || (files == map[] && segs == [Fresh(initialOffset)]))
    }

    /** Rebuild the log from its directory. A directory that a clean close left
        gives back the same segments in the same order, with the same contents and
        the last one active; an empty directory gives one empty segment. */
    method Setup(ghost segs: seq<Seg>) returns (ok: bool)
      requires Base()
      requires dir.present ==> segments == [] && view == [] && Found(dir.files, segs)
      modifies this`segments, this`activeSegment, this`view, this`Repr, dir`files
      ensures ok == dir.present
      ensures ok ==> Valid() && view == segs && Unmoved(segments)
      ensures ok && old(dir.files) == map[] ==> MadeHere(segments)
      ensures !ok ==> segments == old(segments) && activeSegment == old(activeSegment)
      ensures !ok ==> view == old(view) && dir.files == old(dir.files)
      ensures fresh(Repr - old(Repr)) && old(Repr) <= Repr
    {
      hide Frames, Entries, StoreName, IndexName, SegOk, Open, AllSealed, Contiguous, SameExcept,
           Segment.Valid, Names, NamesAt, FilesOf, DistinctBases, FileNames.Sort, BasesOf;
      var names := dir.ReadDir();
      if names.None? {
        return false;
      }
      ghost var found := if dir.files == map[] then [] else segs;
      FoundDistinct(dir.files, segs);
      var baseOffsets := ListedBases(names.value);
      ListingNamesSegments(names.value, found);
      baseOffsets := FileNames.Sort(baseOffsets);
      OpenAll(baseOffsets, found);
      if segments == [] {
        Bootstrap();
      }
      return true;
    }

    // A new log gets its first segment.
    method Bootstrap()
      requires Base() && segments == [] && view == [] && dir.files.Keys == {}
      modifies this`segments, this`activeSegment, this`view, this`Repr, dir`files
      ensures Base() && Parts(segments, view) && view == [Fresh(initialOffset)]
      ensures MadeHere(segments) && Unmoved(segments)
      ensures segments != [] && activeSegment == segments[|segments| - 1]
      ensures dir.files.Keys == Names(view)
      ensures fresh(Repr - old(Repr)) && old(Repr) <= Repr
    {
      hide Frames, Entries, StoreName, IndexName, SegOk, SameExcept, Segment.Valid, Names, NamesAt;
      FreshFiles(limits, dir.files, initialOffset);
      FreshStore(initialOffset);
      NewSegment(initialOffset, Fresh(initialOffset));
      NamesOne(Fresh(initialOffset));
      KeysGrow(dir.files, old(dir.files), NamesAt(initialOffset));
    }

    lemma FoundDistinct(files: FileMap, segs: seq<Seg>)
      requires Found(files, segs)
      ensures var found := if files == map[] then [] else segs;
              LeftBy(files, found) && DistinctBases(found) && DistinctBases(segs) &&
              (forall i | 0 <= i < |found| :: SegOk(limits, found[i])) &&
              (files == map[] ==> segs == [Fresh(initialOffset)])
    {
      hide Frames, Entries, StoreName, IndexName, SegOk, Open, AllSealed, Contiguous, FilesOf;
      LayoutDistinct(limits, segs);
      NamesIncludes(segs, 0);
      StoreNameAt(segs[0].base);
    }

    // One segment for every other base offset.
    method OpenAll(baseOffsets: seq<nat>, ghost found: seq<Seg>)
      requires Base() && segments == [] && view == []
      requires LeftBy(dir.files, found) && DistinctBases(found)
      requires forall i | 0 <= i < |found| :: SegOk(limits, found[i])
      requires |baseOffsets| == 2 * |found|
      requires forall k | 0 <= k < |found| :: baseOffsets[2 * k] == found[k].base
      modifies this`segments, this`activeSegment, this`view, this`Repr, dir`files
      ensures Base() && Parts(segments, view) && view == found && Unmoved(segments)
      ensures segments != [] ==> activeSegment == segments[|segments| - 1]
      ensures dir.files.Keys == old(dir.files).Keys
      ensures fresh(Repr - old(Repr)) && old(Repr) <= Repr
    {
      hide Frames, Entries, StoreName, IndexName, SegOk, SameExcept, Segment.Valid, Names, NamesAt, FilesOf;
      var i := 0;
      while i < |baseOffsets|
        invariant i % 2 == 0 && i <= |baseOffsets|
        invariant Base() && Parts(segments, view) && view == found[..i / 2] && Unmoved(segments)
        invariant segments != [] ==> activeSegment == segments[|segments| - 1]
        invariant dir.files.Keys == old(dir.files).Keys
        invariant forall j | i / 2 <= j < |found| :: FilesOf(dir.files, found[j])
        invariant fresh(Repr - old(Repr)) && old(Repr) <= Repr
      {
        OpenNext(baseOffsets[i], i / 2, found);
        i := i + 1;
        i := i + 1;
      }
    }

    method OpenNext(off: nat, ghost k: nat, ghost found: seq<Seg>)
      requires Base() && Parts(segments, view) && k < |found| && view == found[..k]
      requires DistinctBases(found) && off == found[k].base && SegOk(limits, found[k])
      requires dir.files.Keys == Names(found)
      requires forall j | k <= j < |found| :: FilesOf(dir.files, found[j])
      modifies this`segments, this`activeSegment, this`view, this`Repr, dir`files
      ensures Base() && Parts(segments, view) && view == found[..k + 1]
      ensures old(Unmoved(segments)) ==> Unmoved(segments)
      ensures segments != [] && activeSegment == segments[|segments| - 1]
      ensures dir.files.Keys == Names(found)
      ensures forall j | k < j < |found| :: FilesOf(dir.files, found[j])
      ensures fresh(Repr - old(Repr)) && old(Repr) <= Repr
    {
      hide Frames, Entries, StoreName, IndexName, SegOk, SameExcept, Segment.Valid, Names, NamesAt;
      ghost var before := dir.files;
      NamesIncludes(found, k);
      NewSegment(off, found[k]);
      SameKeys(dir.files, before, NamesAt(found[k].base));
      forall j | k < j < |found|
        ensures FilesOf(dir.files, found[j])
      {
        NamesApart(found[j].base, found[k].base);
        FilesKept(dir.files, before, NamesAt(found[k].base), found[j]);
      }
    }

    /** The offset the next reset or setup starts from. */
    method SetInitialOffset(off: Uint64)
      requires Valid()
      modifies this`initialOffset
      ensures Valid() && initialOffset == off
    {
      hide LayoutOk, Segment.Valid, Names;
      initialOffset := off;
    }

    /** Resetting as the source does it: the directory is removed and then read
        again, which fails. The log is left with its closed segments and no files. */
    method Reset() returns (ok: bool)
      requires Valid()
      modifies Repr
      ensures !ok && Base() && dir.files == map[] && !dir.present
      ensures segments == old(segments) && activeSegment == old(activeSegment) && initialOffset == old(initialOffset)
    {
      hide Frames, Entries, StoreName, IndexName, LayoutOk, Segment.Valid, Names, FilesOf;
      Close();
      dir.RemoveAll();
      ok := Setup([]);
    }

    /** What resetting is for: an empty directory and one empty segment at the
        configured initial offset. */
    method ResetRepaired()
      requires Valid()
      modifies Repr
      ensures Valid() && view == [Fresh(initialOffset)] && initialOffset == old(initialOffset)
      ensures fresh(Repr - old(Repr))
    {
      hide Frames, Entries, StoreName, IndexName, SegOk, Open, AllSealed, Contiguous, Segment.Valid, Names, FilesOf;
      Close();
      dir.files := map[];
      segments, activeSegment := [], null;
      view := [];
      FreshOk(limits, initialOffset);
      var ok := Setup([Fresh(initialOffset)]);
    }

    /** Remove every segment that ends at or below lowest+1. When something lies
        beyond, the log stays valid; otherwise nothing is left of it. */
    method Truncate(lowest: Uint64)
      requires Valid()
      modifies Repr
      ensures Base() && Repr == old(Repr) && dir.present && initialOffset == old(initialOffset)
      ensures view == Kept(old(view), Bound(lowest)) && activeSegment == old(activeSegment)
      ensures Bound(lowest) < Layout.Next(old(view)) ==> Valid()
      ensures Layout.Next(old(view)) <= Bound(lowest) ==> segments == [] && dir.files.Keys == {}
    {
      hide Frames, Entries, StoreName, IndexName, SegOk, Open, AllSealed, Contiguous, SameExcept,
           Segment.Valid, Names, NamesAt, Kept, DistinctBases, Parts, Bound;
      var kept: seq<Segment> := [];
      ghost var keptView: seq<Seg> := [];
      var i := 0;
      ghost var objects, all := segments, view;
      TruncationStart(view, Bound(lowest));
      StartPartway();
      while i < |segments|
        invariant i <= |segments| && Partway(kept, keptView, i)
        invariant Repr == old(Repr) && dir.present && initialOffset == old(initialOffset)
        invariant segments == old(segments) && view == old(view) && activeSegment == old(activeSegment)
        invariant segments == objects && view == all && keptView == Kept(all[..i], Bound(lowest))
        invariant i > 0 && all[i - 1].Next() > Bound(lowest) ==> EndsWith(kept, objects[i - 1])
      {
        KeptStep(all, i, Bound(lowest));
        kept, keptView := TruncateOne(kept, keptView, i, lowest);
        i := i + 1;
      }
      Finished(keptView, all);
      FinishTruncation(kept, keptView, lowest);
    }

    // The segments that stay become the log.
    method FinishTruncation(kept: seq<Segment>, ghost keptView: seq<Seg>, lowest: Uint64)
      requires Partway(kept, keptView, |segments|) && LayoutOk(limits, view) && dir.present
      requires keptView == Kept(view, Bound(lowest))
      requires activeSegment == segments[|segments| - 1]
      requires Last(view).Next() > Bound(lowest) ==> EndsWith(kept, activeSegment)
      modifies this`segments, this`view
      ensures view == Kept(old(view), Bound(lowest))
      ensures Bound(lowest) < Layout.Next(old(view)) ==> Valid()
      ensures Layout.Next(old(view)) <= Bound(lowest) ==> segments == [] && dir.files.Keys == {}
      ensures Base()
    {
      hide Frames, Entries, StoreName, IndexName, SegOk, Open, AllSealed, Contiguous, SameExcept,
           Segment.Valid, Names, NamesAt, Kept, DistinctBases, Bound;
      Finished(kept, segments);
      Finished(keptView, view);
      AfterTruncation(limits, view, lowest);
      segments, view := kept, keptView;
    }

    // Segments before `i` have been dealt with; `kept` are those that stay.
    ghost predicate Partway(kept: seq<Segment>, keptView: seq<Seg>, i: nat)
      reads this, Repr, dir
    {
      && Base() && i <= |segments| == |view| && |kept| == |keptView|
      && Parts(kept + segments[i..], keptView + view[i..])
      && DistinctBases(keptView + view[i..])
      && dir.files.Keys == Names(keptView + view[i..])
    }

    lemma StartPartway()
      requires Valid()
      ensures Partway([], [], 0) && |segments| == |view|
    {
      hide Frames, Entries, StoreName, IndexName, SegOk, Open, AllSealed, Contiguous, Segment.Valid, Names, DistinctBases;
      LayoutDistinct(limits, view);
      Nothing(segments);
      Nothing(view);
    }

    // Remove or keep segment `i`.
    method TruncateOne(kept: seq<Segment>, ghost keptView: seq<Seg>, i: nat, lowest: Uint64)
      returns (kept': seq<Segment>, ghost keptView': seq<Seg>)
      requires i < |segments| && Partway(kept, keptView, i)
      modifies Repr
      ensures Repr == old(Repr) && dir.present == old(dir.present) && initialOffset == old(initialOffset)
      ensures segments == old(segments) && view == old(view) && activeSegment == old(activeSegment)
      ensures Partway(kept', keptView', i + 1)
      ensures view[i].Next() <= Bound(lowest) ==> kept' == kept && keptView' == keptView
      ensures view[i].Next() > Bound(lowest) ==>
                kept' == kept + [segments[i]] && keptView' == keptView + [view[i]] &&
                EndsWith(kept', segments[i])
    {
      hide Frames, Entries, StoreName, IndexName, SegOk, SameExcept, Segment.Valid, Names, NamesAt, DistinctBases;
      ghost var ss, vs := kept + segments[i..], keptView + view[i..];
      MoveOne(kept, segments, i);
      MoveOne(keptView, view, i);
      PartFacts(ss, vs, |kept|);
      kept', keptView' := kept, keptView;
      if segments[i].nextOffset <= (lowest + 1) % TWO_64 {
        RemoveOne(segments[i], ss, vs, |kept|);
      } else {
        kept', keptView' := kept + [segments[i]], keptView + [view[i]];
      }
    }

    lemma PartFacts(ss: seq<Segment>, vs: seq<Seg>, i: nat)
      requires Parts(ss, vs) && i < |ss|
      ensures ss[i].nextOffset == vs[i].Next() && ss[i].Valid() && ss[i].dir == dir && ss[i].store in Repr
    {
      hide Frames, Entries, StoreName, IndexName, SegOk;
    }

    // Remove segment p of the list and keep the others.
    method RemoveOne(seg: Segment, ghost ss: seq<Segment>, ghost vs: seq<Seg>, ghost p: nat)
      requires Base() && Parts(ss, vs) && DistinctBases(vs) && p < |ss| && ss[p] == seg
      requires dir.files.Keys == Names(vs)
      modifies seg.store`buf, seg.store`cursor, dir`files
      ensures Parts(ss[..p] + ss[p + 1..], vs[..p] + vs[p + 1..])
      ensures DistinctBases(vs[..p] + vs[p + 1..])
      ensures dir.files.Keys == Names(vs[..p] + vs[p + 1..])
    {
      hide Frames, Entries, StoreName, IndexName, SegOk, SameExcept, Segment.Valid, Names, NamesAt;
      ghost var before := dir.files;
      PartFacts(ss, vs, p);
      OldNames(ss, vs, p);
      PartNames(ss, vs, p);
      seg.Remove();
      KeepAllBut(ss, vs, p);
      PartsWithout(ss, vs, p);
      NamesRemove(vs, p);
      KeysShrink(dir.files, before, vs[p].base, Names(vs[..p] + vs[p + 1..]));
    }

    lemma PartsWithout(ss: seq<Segment>, vs: seq<Seg>, p: nat)
      requires |ss| == |vs| && p < |ss|
      requires forall j | 0 <= j < |ss| :: ss[j].Repr() <= Repr && ss[j].dir == dir && ss[j].limits == limits
      requires forall j, k | 0 <= j < k < |ss| :: ss[j].Repr() !! ss[k].Repr()
      requires forall j | 0 <= j < |ss| && j != p :: ss[j].Valid() && ss[j].view == vs[j]
      ensures Parts(ss[..p] + ss[p + 1..], vs[..p] + vs[p + 1..])
    {
      hide Segment.Valid;
    }
  }
}
