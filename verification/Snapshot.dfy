/** The snapshot reader: a reader per store, one after the other. How it is copied as
    the source has it and as it is meant, and what its reads deliver when they
    interleave with appends. */
module Snapshots {
  import opened Bytes
  import opened RecordCodec
  import opened Layout
  import opened Replay
  import opened Capacity
  import opened StreamParser
  import CommitLog
  import Files
  import Recovery
  import Stores

  // -------------------------------------------------------- without appends

  lemma ChunkEnd(file: Bytes, off: nat, n: nat)
    requires off <= |file|
    ensures file[..off] + Stores.Chunk(file, off, n) == file[..off + |Stores.Chunk(file, off, n)|]
    ensures off + |Stores.Chunk(file, off, n)| <= |file|
    ensures if off + n > |file| then off + |Stores.Chunk(file, off, n)| == |file|
            else |Stores.Chunk(file, off, n)| == n
  {
  }

  /** The copy that is meant, by reads of the reader, `chunk` bytes at a time, with no
      append in between: the sink gets the stores of all segments, one after the
      other. */
  method PersistRepaired(log: CommitLog.Log, chunk: nat) returns (sink: Bytes)
    requires log.Valid() && chunk > 0
    modifies log.Repr
    ensures log.Valid() && log.Repr == old(log.Repr) && log.view == old(log.view)
    ensures sink == StreamBytes(log.view)
  {
    hide SegOk, Open, AllSealed, Contiguous, Frames, CommitLog.Names, StreamBytes;
    sink := [];
    StreamStart(log.view);
    var i := 0;
    while i < |log.segments|
      invariant i <= |log.segments| == |log.view|
      invariant log.Valid() && log.Repr == old(log.Repr) && log.view == old(log.view)
      invariant sink == StreamBytes(log.view[..i])
    {
      var data := CopyStore(log, i, chunk);
      StreamStep(log.view, i);
      sink := sink + data;
      i := i + 1;
    }
    assert log.view[..i] == log.view;
  }

  lemma StreamStart(segs: seq<Seg>)
    ensures StreamBytes(segs[..0]) == []
  {
  }

  lemma StreamStep(segs: seq<Seg>, i: nat)
    requires i < |segs|
    ensures StreamBytes(segs[..i + 1]) == StreamBytes(segs[..i]) + segs[i].StoreBytes()
  {
    hide Frames;
    assert segs[..i + 1][..i] == segs[..i];
  }

  /** A reader over the store of one segment. */
  class OriginReader {
    const log: CommitLog.Log
    const segment: nat
    var off: nat

    constructor (log: CommitLog.Log, segment: nat)
      ensures this.log == log && this.segment == segment && off == 0
    {
      this.log, this.segment, this.off := log, segment, 0;
    }

    /** The next bytes of the store, as many as fit and as there are. */
    method Read(n: nat) returns (data: Bytes, eof: bool)
      requires log.Valid() && segment < |log.segments| == |log.view| && this !in log.Repr
      modifies this`off, log.Repr
      ensures log.Valid() && log.Repr == old(log.Repr) && log.view == old(log.view)
      ensures log.segments == old(log.segments)
      ensures data == Stores.Chunk(log.view[segment].StoreBytes(), old(off), n)
      ensures eof <==> n > 0 && old(off) + n > |log.view[segment].StoreBytes()|
      ensures off == old(off) + |data|
      ensures old(log.Unmoved(log.segments)) ==> log.Unmoved(log.segments)
    {
      hide LayoutOk, Frames, CommitLog.Names, CommitLog.Log.Parts, Stores.Chunk;
      data, eof := log.ReadStore(segment, n, off);
      off := off + |data|;
    }
  }

  method CopyStore(log: CommitLog.Log, i: nat, chunk: nat) returns (data: Bytes)
    requires log.Valid() && chunk > 0 && i < |log.segments| == |log.view|
    modifies log.Repr
    ensures log.Valid() && log.Repr == old(log.Repr) && log.view == old(log.view)
    ensures log.segments == old(log.segments)
    ensures data == log.view[i].StoreBytes()
  {
    hide LayoutOk, Frames, CommitLog.Names, CommitLog.Log.Parts, Stores.Chunk;
    data := [];
    var eof := false;
    var reader := new OriginReader(log, i);
    ghost var file := log.view[i].StoreBytes();
    while !eof
      invariant log.Valid() && log.Repr == old(log.Repr) && log.view == old(log.view)
      invariant log.segments == old(log.segments) && reader !in log.Repr
      invariant reader.log == log && reader.segment == i
      invariant reader.off <= |file| && data == file[..reader.off]
      invariant eof ==> reader.off == |file|
      decreases !eof, |file| - reader.off
    {
      var got;
      ChunkEnd(file, reader.off, chunk);
      got, eof := reader.Read(chunk);
      data := data + got;
    }
    assert file[..|file|] == file;
  }

  // ------------------------------------------------ the copy as it is written

  function Concat(parts: seq<Bytes>): Bytes {
    if parts == [] then [] else Concat(parts[..|parts| - 1]) + parts[|parts| - 1]
  }

  // Each part is what is left of a store from its descriptor on, or less.
  ghost predicate PartsOf(parts: seq<Bytes>, segs: seq<Seg>) {
    |parts| == |segs| && forall i | 0 <= i < |parts| :: |parts[i]| <= |segs[i].StoreBytes()|
  }

  lemma {:induction false} PartsShorter(parts: seq<Bytes>, segs: seq<Seg>)
    requires PartsOf(parts, segs)
    ensures |Concat(parts)| <= |StreamBytes(segs)|
  {
    hide Frames;
    if parts != [] {
      PartsShorter(parts[..|parts| - 1], segs[..|segs| - 1]);
    }
  }

  /** Parts that are no longer than the stores make up the whole stream only if
      each of them is a whole store. */
  lemma {:induction false} WholeIff(parts: seq<Bytes>, segs: seq<Seg>)
    requires PartsOf(parts, segs)
    ensures Concat(parts) == StreamBytes(segs) <==> forall i | 0 <= i < |parts| :: parts[i] == segs[i].StoreBytes()
  {
    hide Frames;
    if parts != [] {
      var n := |parts| - 1;
      var front, frontSegs := parts[..n], segs[..n];
      PartsShorter(front, frontSegs);
      WholeIff(front, frontSegs);
      if Concat(parts) == StreamBytes(segs) {
        SplitEqual(Concat(front), parts[n], StreamBytes(frontSegs), segs[n].StoreBytes());
      }
      assert forall i | 0 <= i < n :: front[i] == parts[i] && frontSegs[i] == segs[i];
    }
  }

  lemma SplitEqual(a: Bytes, b: Bytes, c: Bytes, d: Bytes)
    requires a + b == c + d && |a| <= |c| && |b| <= |d|
    ensures a == c && b == d
  {
    assert |a + b| == |c + d|;
    assert a == (a + b)[..|a|] && c == (c + d)[..|c|];
    assert b == (a + b)[|a|..] && d == (c + d)[|c|..];
  }

  lemma NoParts()
    ensures Concat([]) == []
  {
  }

  lemma OnePartMore(parts: seq<Bytes>, part: Bytes)
    ensures Concat(parts + [part]) == Concat(parts) + part
  {
    assert (parts + [part])[..|parts|] == parts;
  }

  lemma {:induction false} NothingCopied(parts: seq<Bytes>)
    requires forall i | 0 <= i < |parts| :: parts[i] == []
    ensures Concat(parts) == []
  {
    if parts != [] {
      NothingCopied(parts[..|parts| - 1]);
    }
  }

  /** Copying the reader to a sink as the source does it. The reader of a store
      inherits the copying method of the store's file, and that is what the library
      calls, so no read of the reader takes place. The sink gets the frames each
      store held when it was opened, as long as its descriptor has not moved since:
      the whole log if and only if every buffer was empty and every descriptor
      unmoved, and nothing from a log whose files were all created since it was
      opened. */
  method Persist(log: CommitLog.Log) returns (sink: Bytes)
    requires log.Valid()
    modifies log.Repr
    ensures log.Valid() && log.Repr == old(log.Repr) && log.view == old(log.view) && log.segments == old(log.segments)
    ensures sink == Frames(old(log.AllLeft(|log.segments|)))
    ensures sink == StreamBytes(log.view) <==> old(log.Unmoved(log.segments))
    ensures log.MadeHere(log.segments) ==> sink == []
  {
    hide SegOk, Open, AllSealed, Contiguous, Frames, CommitLog.Names, CommitLog.Log.Parts, CommitLog.Log.Remainder, CommitLog.Log.Left,
         StreamBytes, Concat;
    sink := [];
    ghost var parts: seq<Bytes> := [];
    log.StoresHere();
    forall i | 0 <= i < |log.segments|
      ensures |log.Remainder(i)| <= |log.view[i].StoreBytes()|
      ensures log.Remainder(i) == log.view[i].StoreBytes() <==>
              log.segments[i].store.buf == [] && log.segments[i].store.cursor == 0
      ensures log.segments[i].store.sizeAtOpen == 0 ==> log.Remainder(i) == []
      ensures log.Remainder(i) == Frames(log.Left(i))
    {
      log.RemainderFacts(i);
      log.RemainderIsLeft(i);
    }
    NoFrames();
    NoParts();
    var i := 0;
    while i < |log.segments|
      invariant i <= |log.segments| == |log.view|
      invariant log.Valid() && log.Repr == old(log.Repr) && log.view == old(log.view)
      invariant log.segments == old(log.segments)
      invariant |parts| == i && sink == Concat(parts) == Frames(old(log.AllLeft(i)))
      invariant forall j | 0 <= j < i :: parts[j] == old(log.Remainder(j))
      invariant forall j | i <= j < |log.segments| :: log.Remainder(j) == old(log.Remainder(j))
    {
      log.StoresHere();
      var data := log.WriteStoreTo(i);
      OnePartMore(parts, data);
      FramesConcat(old(log.AllLeft(i)), old(log.Left(i)));
      sink, parts := sink + data, parts + [data];
      i := i + 1;
    }
    WholeIff(parts, log.view);
    if log.MadeHere(log.segments) {
      NothingCopied(parts);
    }
  }

  /** The first snapshot after a clean reopening holds the whole log, also when records
      were read in between. */
  method ReopenReadAndPersist(log: CommitLog.Log, offsets: seq<Uint64>) returns (sink: Bytes)
    requires log.Valid()
    modifies log.Repr
    ensures sink == StreamBytes(old(log.view))
  {
    hide SegOk, Open, AllSealed, Contiguous, Frames, CommitLog.Names, CommitLog.Log.Parts, StreamBytes,
         CommitLog.Log.Unmoved, CommitLog.Log.MadeHere, Records;
    var again := Recovery.CloseAndReopen(log);
    var i := 0;
    while i < |offsets|
      invariant i <= |offsets| && again.Valid() && again.view == old(log.view) && again.Unmoved(again.segments)
      invariant fresh(again.Repr - old(log.Repr))
    {
      var _ := again.Read(offsets[i]);
      i := i + 1;
    }
    sink := Persist(again);
  }

  /** In particular the first one at all. */
  method ReopenAndPersist(log: CommitLog.Log) returns (sink: Bytes)
    requires log.Valid()
    modifies log.Repr
    ensures sink == StreamBytes(old(log.view))
  {
    sink := ReopenReadAndPersist(log, []);
  }

  /** A snapshot of a new log is empty, whatever was appended to it. */
  method AppendAndPersist(dir: Files.Directory, limits: Limits, base: Uint64, rs: seq<Record>)
    returns (log: CommitLog.Log, sink: Bytes)
    requires limits.Valid() && dir.present && dir.files == map[] && base + |rs| < TWO_64
    modifies dir
    ensures log.Valid() && log.view == Build(limits, base, rs)
    ensures sink == []
  {
    hide SegOk, Open, AllSealed, Contiguous, Frames, CommitLog.Names, CommitLog.Log.Parts, StreamBytes, LogAppend;
    FreshOk(limits, base);
    var ok;
    log, ok := Recovery.NewLog(dir, limits.maxStore, limits.maxIndex, base, [Fresh(base)]);
    assert AppendAll(limits, [Fresh(base)], rs[..0]) == [Fresh(base)];
    var i := 0;
    while i < |rs|
      invariant i <= |rs| && log.Valid() && log.limits == limits && log.dir == dir
      invariant fresh(log.Repr - {dir})
      invariant log.MadeHere(log.segments)
      invariant log.view == AppendAll(limits, [Fresh(base)], rs[..i])
    {
      assert rs[..i + 1][..i] == rs[..i];
      var _ := log.Append(rs[i]);
      i := i + 1;
    }
    assert rs[..i] == rs;
    sink := Persist(log);
  }

  // --------------------------------- appends while a file copies itself

  /** The copying method reads its file piece by piece through the descriptor that
      appends write through: a write in between moves it to the end. */
  datatype FileCopy = FileCopy(file: Bytes, cursor: nat, sink: Bytes)

  datatype FileEvent = Get(n: nat) | Put(data: Bytes)

  function CopyStep(c: FileCopy, e: FileEvent): FileCopy {
    match e
    case Get(n) =>
      var got := Stores.Chunk(c.file, c.cursor, n);
      FileCopy(c.file, c.cursor + |got|, c.sink + got)
    case Put(data) =>
      if data == [] then c else FileCopy(c.file + data, |c.file + data|, c.sink)
  }

  function CopyRun(c: FileCopy, events: seq<FileEvent>): FileCopy
    decreases |events|
  {
    if events == [] then c else CopyRun(CopyStep(c, events[0]), events[1..])
  }

  /** How many of `size` bytes are read before the first write. */
  function ReadBeforeWrite(size: nat, events: seq<FileEvent>): (n: nat)
    ensures n <= size
    decreases |events|
  {
    if events == [] then 0
    else
      match events[0]
      case Get(n) => Min(n, size) + ReadBeforeWrite(size - Min(n, size), events[1..])
      case Put(data) => if data == [] then ReadBeforeWrite(size, events[1..]) else 0
  }

  lemma {:induction false} NothingAfterWrite(c: FileCopy, events: seq<FileEvent>)
    requires c.cursor == |c.file|
    ensures CopyRun(c, events).sink == c.sink
    decreases |events|
  {
    if events != [] {
      NothingAfterWrite(CopyStep(c, events[0]), events[1..]);
    }
  }

  /** In every interleaving with writes the copy yields what it read before the
      first of them, and nothing after it. */
  lemma {:induction false} CopyStopsAtWrite(c: FileCopy, events: seq<FileEvent>)
    requires c.cursor <= |c.file|
    ensures CopyRun(c, events).sink ==
            c.sink + c.file[c.cursor..c.cursor + ReadBeforeWrite(|c.file| - c.cursor, events)]
    decreases |events|
  {
    if events != [] {
      var c' := CopyStep(c, events[0]);
      match events[0] {
        case Get(n) => CopyStopsAtWrite(c', events[1..]);
        case Put(data) =>
          if data == [] {
            CopyStopsAtWrite(c, events[1..]);
          } else {
            NothingAfterWrite(c', events[1..]);
          }
      }
    }
  }

  function Gets(k: nat, n: nat): (events: seq<FileEvent>)
    ensures |events| == k
  {
    if k == 0 then [] else [Get(n)] + Gets(k - 1, n)
  }

  lemma TimesStep(k: nat, n: nat)
    requires k > 0
    ensures k * n == n + (k - 1) * n
  {
  }

  lemma {:induction false} GetsRead(size: nat, k: nat, n: nat)
    ensures ReadBeforeWrite(size, Gets(k, n)) == Min(k * n, size)
    decreases k
  {
    if k > 0 {
      TimesStep(k, n);
      assert Gets(k, n)[1..] == Gets(k - 1, n);
      GetsRead(size - Min(n, size), k - 1, n);
    }
  }

  /** Without a write the copy goes on to the end of the file. */
  lemma GetsTakeAll(c: FileCopy, k: nat, n: nat)
    requires c.cursor <= |c.file| && k * n >= |c.file| - c.cursor
    ensures CopyRun(c, Gets(k, n)).sink == c.sink + c.file[c.cursor..]
  {
    hide CopyRun, ReadBeforeWrite, Gets;
    GetsRead(|c.file| - c.cursor, k, n);
    CopyStopsAtWrite(c, Gets(k, n));
    assert c.file[c.cursor..|c.file|] == c.file[c.cursor..];
  }

  /** Only a write that writes something stops it. */
  lemma EmptyWrite(c: FileCopy, size: nat, events: seq<FileEvent>)
    ensures CopyRun(c, [Put([])] + events) == CopyRun(c, events)
    ensures ReadBeforeWrite(size, [Put([])] + events) == ReadBeforeWrite(size, events)
  {
    assert ([Put([])] + events)[1..] == events;
  }

  ghost predicate FrameEndsAt(rs: seq<Record>, n: nat) {
    exists m :: 0 <= m <= |rs| && |Frames(rs[..m])| == n
  }

  lemma CutFrame(r: Record, n: nat)
    requires 0 < n < |Frame(r)|
    ensures !Parse(Frame(r)[..n]).clean
  {
    hide Marshal, PutUint, GetUint, Unmarshal;
    FrameSize(r);
    if n >= LEN_WIDTH {
      assert Frame(r)[..n][..LEN_WIDTH] == Frame(r)[..LEN_WIDTH];
    }
  }

  lemma BoundaryStep(rs: seq<Record>, n: nat)
    requires rs != [] && n >= |Frame(rs[0])|
    ensures FrameEndsAt(rs, n) <==> FrameEndsAt(rs[1..], n - |Frame(rs[0])|)
  {
    hide Frame, Frames;
    var f := |Frame(rs[0])|;
    FrameSize(rs[0]);
    NoFrames();
    forall m | 0 < m <= |rs|
      ensures |Frames(rs[..m])| == f + |Frames(rs[1..][..m - 1])|
    {
      Recovery.FramesUncons(rs[..m]);
      assert rs[..m][1..] == rs[1..][..m - 1];
    }
    if FrameEndsAt(rs, n) {
      var m :| 0 <= m <= |rs| && |Frames(rs[..m])| == n;
      assert m > 0 by { assert rs[..0] == []; }
      assert |Frames(rs[1..][..m - 1])| == n - f;
    }
    if FrameEndsAt(rs[1..], n - f) {
      var m :| 0 <= m <= |rs| - 1 && |Frames(rs[1..][..m])| == n - f;
      assert |Frames(rs[..m + 1])| == f + |Frames(rs[1..][..m + 1 - 1])|;
    }
  }

  /** The first `n` bytes of a store parse without a problem exactly when a frame
      ends there. */
  lemma {:induction false} PrefixCleanIff(rs: seq<Record>, n: nat)
    requires n <= |Frames(rs)|
    ensures Parse(Frames(rs)[..n]).clean <==> FrameEndsAt(rs, n)
  {
    hide Frame, Frames, Parse, FrameEndsAt;
    NoFrames();
    if n == 0 {
      EmptyPrefix(rs);
    } else {
      assert rs != [];
      Recovery.FramesUncons(rs);
      FrameSize(rs[0]);
      var f := Frame(rs[0]);
      if n < |f| {
        assert Frames(rs)[..n] == f[..n];
        CutFrame(rs[0], n);
        InsideFirst(rs, n);
      } else {
        var rest := Frames(rs[1..])[..n - |f|];
        assert Frames(rs)[..n] == f + rest;
        ParseFirst(rs[0], rest);
        PrefixCleanIff(rs[1..], n - |f|);
        BoundaryStep(rs, n);
      }
    }
  }

  lemma EmptyPrefix(rs: seq<Record>)
    ensures Parse(Frames(rs)[..0]).clean && FrameEndsAt(rs, 0)
  {
    hide Frame, Frames;
    NoFrames();
    EndOfStream();
    assert rs[..0] == [] && Frames(rs)[..0] == [];
  }

  lemma InsideFirst(rs: seq<Record>, n: nat)
    requires rs != [] && 0 < n < |Frame(rs[0])|
    ensures !FrameEndsAt(rs, n)
  {
    hide Frame, Frames;
    NoFrames();
    forall m | 0 <= m <= |rs|
      ensures |Frames(rs[..m])| != n
    {
      if m == 0 {
        assert rs[..0] == [];
      } else {
        Recovery.FramesUncons(rs[..m]);
      }
    }
  }

  lemma ParseFirst(r: Record, rest: Bytes)
    ensures Parse(Frame(r) + rest).clean == Parse(rest).clean
  {
    hide Frame, NextFrame;
    FrameNext(r, rest);
  }

  /** A copy taken while the log is written to ends inside a frame unless what was
      read before the first write happens to end with one. */
  lemma TornCopyIff(rs: seq<Record>, events: seq<FileEvent>)
    ensures Parse(CopyRun(FileCopy(Frames(rs), 0, []), events).sink).clean <==>
            FrameEndsAt(rs, ReadBeforeWrite(|Frames(rs)|, events))
  {
    hide Frames, Parse, CopyRun, FrameEndsAt;
    var n := ReadBeforeWrite(|Frames(rs)|, events);
    CopyStopsAtWrite(FileCopy(Frames(rs), 0, []), events);
    assert [] + Frames(rs)[0..0 + n] == Frames(rs)[..n];
    PrefixCleanIff(rs, n);
  }

  /** For instance a frame that is longer than one read, and a write after it. */
  lemma CopyCanTear(r: Record, n: nat, data: Bytes)
    requires 0 < n < |Frame(r)| && data != []
    ensures CopyRun(FileCopy(Frames([r]), 0, []), [Get(n), Put(data), Get(n)]).sink == Frame(r)[..n]
    ensures !Parse(Frame(r)[..n]).clean
  {
    hide Frame, Frames, Parse;
    FramesOne(r);
    CutFrame(r, n);
    var events := [Get(n), Put(data), Get(n)];
    var c := FileCopy(Frames([r]), 0, []);
    CopyStopsAtWrite(c, events);
    assert events[1..] == [Put(data), Get(n)];
    assert ReadBeforeWrite(|Frame(r)| - n, events[1..]) == 0;
    assert ReadBeforeWrite(|Frame(r)|, events) == n;
  }

  // ---------------------------------------- reads interleaved with appends

  /** A snapshot in progress: the log as it is now, the stores the reader was
      given, where it stands, and what it has delivered. */
  datatype Snap = Snap(segs: seq<Seg>, stores: nat, cur: nat, off: nat, sink: Bytes)

  function Start(segs: seq<Seg>): Snap {
    Snap(segs, |segs|, 0, 0, [])
  }

  datatype Event = Appended(r: Record) | Pulled(n: nat)

  /** One read, under the lock of the store it reads; a short read moves the reader
      on to the next store. */
  function Pull(s: Snap, n: nat): Snap
    requires s.cur < s.stores <= |s.segs|
  {
    var got := Stores.Chunk(s.segs[s.cur].StoreBytes(), s.off, n);
    if |got| < n then s.(sink := s.sink + got, cur := s.cur + 1, off := 0)
    else s.(sink := s.sink + got, off := s.off + |got|)
  }

  function Happen(l: Limits, s: Snap, e: Event): (s': Snap)
    requires s.segs != [] && s.stores <= |s.segs| && Layout.Next(s.segs) < TWO_64 - 1
    ensures s'.segs != [] && s'.stores <= |s'.segs| && Layout.Next(s'.segs) <= Layout.Next(s.segs) + 1
  {
    match e
    case Appended(r) => s.(segs := LogAppend(l, s.segs, r))
    case Pulled(n) => if s.cur < s.stores then Pull(s, n) else s
  }

  /** Any interleaving of reads of any size with appends and the segment rolls
      they cause. */
  function Interleave(l: Limits, s: Snap, events: seq<Event>): (s': Snap)
    requires s.segs != [] && s.stores <= |s.segs| && Layout.Next(s.segs) + |events| < TWO_64
    ensures s'.segs != [] && s'.stores <= |s'.segs| && Layout.Next(s'.segs) <= Layout.Next(s.segs) + |events|
  {
    if events == [] then s
    else Happen(l, Interleave(l, s, events[..|events| - 1]), events[|events| - 1])
  }

  // ----- the same on the log itself

  /** One reader for each segment, at the start of its store. */
  method MakeReaders(log: CommitLog.Log) returns (readers: seq<OriginReader>)
    requires log.Valid()
    ensures |readers| == |log.view| == |log.segments|
    ensures ReadersOf(log, readers, 0) && fresh(readers)
    ensures forall i | 0 <= i < |readers| :: readers[i].off == 0
  {
    hide SegOk, Open, AllSealed, Contiguous, CommitLog.Log.Parts, CommitLog.Names;
    log.StoresHere();
    readers := [];
    var i := 0;
    while i < |log.segments|
      invariant i <= |log.segments| && |readers| == i && fresh(readers)
      invariant ReadersOf(log, readers, 0)
      invariant forall j | 0 <= j < i :: readers[j].off == 0
    {
      var reader := new OriginReader(log, i);
      readers := readers + [reader];
      i := i + 1;
    }
  }

  // The readers from `from` on are objects of their own, reader i for segment i.
  ghost predicate ReadersOf(log: CommitLog.Log, readers: seq<OriginReader>, from: nat)
    reads log
  {
    && (forall i | 0 <= i < |readers| ::
          readers[i].log == log && readers[i].segment == i && readers[i] !in log.Repr)
    && (forall i, j | from <= i < j < |readers| :: readers[i] != readers[j])
  }

  /** Reads of the readers and appends to the log, in any order, on the log and its
      files: a run of `Interleave`. */
  method RunReader(log: CommitLog.Log, events: seq<Event>) returns (cur: nat, off: nat, sink: Bytes)
    requires log.Valid() && Layout.Next(log.view) + |events| < TWO_64
    modifies log.Repr
    ensures log.Valid() && fresh(log.Repr - old(log.Repr))
    ensures Interleave(log.limits, Start(old(log.view)), events) == Snap(log.view, |old(log.view)|, cur, off, sink)
  {
    hide SegOk, Open, AllSealed, Contiguous, CommitLog.Log.Parts, CommitLog.Names, CommitLog.Log.MadeHere, LogAppend,
         Interleave, Stores.Chunk, Frames, CommitLog.Log.Unmoved;
    ghost var start := log.view;
    var readers := MakeReaders(log);
    cur, off, sink := 0, 0, [];
    NoEvents(log.limits, Start(start));
    var i := 0;
    while i < |events|
      invariant i <= |events| && cur <= |readers| == |start|
      invariant log.Valid() && fresh(log.Repr - old(log.Repr)) && fresh(readers)
      invariant |readers| <= |log.segments| == |log.view| && ReadersOf(log, readers, 0)
      invariant cur < |readers| ==> readers[cur].off == off
      invariant forall j | cur < j < |readers| :: readers[j].off == 0
      invariant cur == |readers| ==> off == 0
      invariant Layout.Next(log.view) + |events| - i < TWO_64
      invariant Interleave(log.limits, Start(start), events[..i]) == Snap(log.view, |start|, cur, off, sink)
    {
      OneMore(log.limits, Start(start), events, i);
      match events[i] {
        case Appended(r) =>
          LogsGrow(log.limits, log.view, r);
          var _ := log.Append(r);
          log.StoresHere();
        case Pulled(n) =>
          if cur < |readers| {
            var got, _ := readers[cur].Read(n);
            sink := sink + got;
            if |got| < n {
              cur, off := cur + 1, 0;
            } else {
              off := readers[cur].off;
            }
          }
      }
      i := i + 1;
    }
    assert events[..i] == events;
  }

  lemma LogsGrow(l: Limits, segs: seq<Seg>, r: Record)
    requires segs != [] && Layout.Next(segs) < TWO_64 - 1
    ensures |LogAppend(l, segs, r)| >= |segs|
    ensures Layout.Next(LogAppend(l, segs, r)) <= Layout.Next(segs) + 1
  {
    hide Frames;
  }

  lemma OneMore(l: Limits, s: Snap, events: seq<Event>, i: nat)
    requires s.segs != [] && s.stores <= |s.segs| && Layout.Next(s.segs) + |events| < TWO_64 && i < |events|
    ensures Layout.Next(Interleave(l, s, events[..i]).segs) < TWO_64 - 1
    ensures Interleave(l, s, events[..i + 1]) == Happen(l, Interleave(l, s, events[..i]), events[i])
  {
    hide Happen;
    assert events[..i + 1][..i] == events[..i];
  }

  lemma NoEvents(l: Limits, s: Snap)
    requires s.segs != [] && s.stores <= |s.segs| && Layout.Next(s.segs) < TWO_64
    ensures Interleave(l, s, []) == s
  {
  }

  ghost predicate Prefix<T>(a: seq<T>, b: seq<T>) {
    |a| <= |b| && a == b[..|a|]
  }

  /** What holds at every point of every interleaving until the reader is done. */
  ghost predicate Going(l: Limits, s: Snap) {
    && LayoutOk(l, s.segs) && 1 <= s.stores <= |s.segs| && s.cur <= s.stores
    && (s.cur < s.stores ==>
          s.off <= |s.segs[s.cur].StoreBytes()| &&
          s.sink == StreamBytes(s.segs[..s.cur]) + s.segs[s.cur].StoreBytes()[..s.off])
  }

  // ----- the effect of an append on what the reader sees

  /** An append writes its frame to the store of the active segment, whether it
      succeeds or not, and to no other. */
  lemma AppendShapes(l: Limits, segs: seq<Seg>, r: Record)
    requires LayoutOk(l, segs) && Layout.Next(segs) < TWO_64 - 1
    ensures var segs' := LogAppend(l, segs, r);
            var n := |segs| - 1;
            |segs'| >= |segs| && segs'[..n] == segs[..n] &&
            segs'[n].StoreBytes() == segs[n].StoreBytes() + Frame(r.(offset := Layout.Next(segs)))
  {
    hide Frames, SegOk, Open, AllSealed, Contiguous, Layout.IsMaxed, SegAppend, Frame;
    assert SegOk(l, Last(segs));
    ActiveAppend(l, Last(segs), r);
    CommitLog.AppendedView(l, segs, r);
    AppendKeepsLayout(l, segs, r);
  }

  lemma ActiveAppend(l: Limits, s: Seg, r: Record)
    requires s.Next() < TWO_64 && SegOk(l, s)
    ensures SegAppend(l, s, r).StoreBytes() == s.StoreBytes() + Frame(r.(offset := s.Next()))
  {
    hide Frames, Frame;
    var rec, s' := r.(offset := s.Next()), SegAppend(l, s, r);
    assert s'.records + s'.orphans == (s.records + s.orphans) + [rec];
    FramesConcat(s.records + s.orphans, [rec]);
    FramesOne(rec);
  }

  lemma AppendGoes(l: Limits, s: Snap, r: Record)
    requires Going(l, s) && Layout.Next(s.segs) < TWO_64 - 1
    ensures Going(l, s.(segs := LogAppend(l, s.segs, r)))
  {
    hide Frames, SegOk, Open, AllSealed, Contiguous, LogAppend, Records, StreamBytes, AppendOk, Frame;
    var segs, segs' := s.segs, LogAppend(l, s.segs, r);
    AppendKeepsLayout(l, segs, r);
    AppendShapes(l, segs, r);
    var n := |segs| - 1;
    if s.cur < s.stores {
      assert segs'[..s.cur] == segs'[..n][..s.cur] == segs[..s.cur];
      if s.cur < n {
        assert segs'[s.cur] == segs'[..n][s.cur] == segs[s.cur];
      }
    }
  }

  // ----- the effect of a read

  /** The read that brings the reader to its end leaves in the sink exactly what
      the stores it was given hold at that moment. */
  lemma PullGoes(l: Limits, s: Snap, n: nat)
    requires Going(l, s) && s.cur < s.stores
    ensures Going(l, Pull(s, n))
    ensures Pull(s, n).cur == s.stores ==> Pull(s, n).sink == StreamBytes(s.segs[..s.stores])
  {
    hide Frames, SegOk, Open, AllSealed, Contiguous, Records, StreamBytes, Stores.Chunk;
    var file := s.segs[s.cur].StoreBytes();
    var got := Stores.Chunk(file, s.off, n);
    ChunkEnd(file, s.off, n);
    var done := StreamBytes(s.segs[..s.cur]);
    assert (done + file[..s.off]) + got == done + (file[..s.off] + got);
    if |got| < n {
      assert file[..|file|] == file;
      StreamStep(s.segs, s.cur);
      if s.cur + 1 < s.stores {
        var next := s.segs[s.cur + 1].StoreBytes();
        assert next[..0] == [] && StreamBytes(s.segs[..s.cur + 1]) + [] == StreamBytes(s.segs[..s.cur + 1]);
      }
    }
  }

  lemma StartGoes(l: Limits, segs: seq<Seg>)
    requires LayoutOk(l, segs)
    ensures Going(l, Start(segs))
  {
    hide Frames, SegOk, Open, AllSealed, Contiguous;
    StreamStart(segs);
    assert segs[0].StoreBytes()[..0] == [];
  }

  lemma {:induction false} InterleaveGoes(l: Limits, segs: seq<Seg>, events: seq<Event>)
    requires LayoutOk(l, segs) && Layout.Next(segs) + |events| < TWO_64
    ensures Going(l, Interleave(l, Start(segs), events))
    ensures Interleave(l, Start(segs), events).stores == |segs|
  {
    hide SegOk, Open, AllSealed, Contiguous, Going, LogAppend;
    if events == [] {
      StartGoes(l, segs);
    } else {
      var front, e := events[..|events| - 1], events[|events| - 1];
      InterleaveGoes(l, segs, front);
      var s := Interleave(l, Start(segs), front);
      match e {
        case Appended(r) => AppendGoes(l, s, r);
        case Pulled(n) => if s.cur < s.stores { PullGoes(l, s, n); }
      }
    }
  }

  // ----- what the appends among the events do to the log

  function Appends(events: seq<Event>): (rs: seq<Record>)
    ensures |rs| <= |events|
  {
    if events == [] then []
    else
      Appends(events[..|events| - 1]) +
      (match events[|events| - 1] case Appended(r) => [r] case Pulled(_) => [])
  }

  lemma {:induction false} InterleaveAppends(l: Limits, s: Snap, events: seq<Event>)
    requires s.segs != [] && s.stores <= |s.segs| && Layout.Next(s.segs) + |events| < TWO_64
    ensures Interleave(l, s, events).segs == AppendAll(l, s.segs, Appends(events))
  {
    hide LogAppend;
    if events != [] {
      var front := events[..|events| - 1];
      InterleaveAppends(l, s, front);
      match events[|events| - 1] {
        case Appended(r) =>
          assert Appends(events)[..|Appends(events)| - 1] == Appends(front);
        case Pulled(_) =>
          assert Appends(events) == Appends(front);
      }
    }
  }

  lemma {:induction false} WrittenGrows(l: Limits, segs: seq<Seg>, rs: seq<Record>)
    requires LayoutOk(l, segs) && Layout.Next(segs) + |rs| < TWO_64
    ensures var segs' := AppendAll(l, segs, rs);
            |Written(segs')| == |Written(segs)| + |rs| && Prefix(Written(segs), Written(segs'))
  {
    hide LogAppend, SegOk, Open, AllSealed, Contiguous, Written;
    if rs != [] {
      WrittenGrows(l, segs, rs[..|rs| - 1]);
      AppendAllKeepsLayout(l, segs, rs[..|rs| - 1]);
      AppendWritten(l, AppendAll(l, segs, rs[..|rs| - 1]), rs[|rs| - 1]);
    }
  }

  lemma {:induction false} InterleaveConcat(l: Limits, s: Snap, a: seq<Event>, b: seq<Event>)
    requires s.segs != [] && s.stores <= |s.segs| && Layout.Next(s.segs) + |a| + |b| < TWO_64
    ensures Interleave(l, s, a + b) == Interleave(l, Interleave(l, s, a), b)
  {
    hide Happen;
    if b == [] {
      assert a + b == a;
    } else {
      assert (a + b)[..|a + b| - 1] == a + b[..|b| - 1];
      InterleaveConcat(l, s, a, b[..|b| - 1]);
    }
  }

  // The log `k` events into an interleaving that starts from `segs`.
  function LogAfter(l: Limits, segs: seq<Seg>, events: seq<Event>, k: nat): (moment: seq<Seg>)
    requires segs != [] && k <= |events| && Layout.Next(segs) + |events| < TWO_64
    ensures moment != [] && |segs| <= |moment|
  {
    InterleaveStores(l, segs, events[..k]);
    Interleave(l, Start(segs), events[..k]).segs
  }

  lemma LogAfterOk(l: Limits, segs: seq<Seg>, events: seq<Event>, k: nat)
    requires LayoutOk(l, segs) && k <= |events| && Layout.Next(segs) + |events| < TWO_64
    ensures LayoutOk(l, LogAfter(l, segs, events, k)) && Lowest(LogAfter(l, segs, events, k)) == Lowest(segs)
  {
    hide SegOk, Open, AllSealed, Contiguous, Interleave, AppendAll;
    InterleaveAppends(l, Start(segs), events[..k]);
    AppendAllKeepsLayout(l, segs, Appends(events[..k]));
  }

  lemma {:induction false} InterleaveStores(l: Limits, segs: seq<Seg>, events: seq<Event>)
    requires segs != [] && Layout.Next(segs) + |events| < TWO_64
    ensures Interleave(l, Start(segs), events).stores == |segs|
  {
    hide LogAppend;
    if events != [] {
      InterleaveStores(l, segs, events[..|events| - 1]);
    }
  }

  // ----- the reader gets to its end

  function Pulls(k: nat, n: nat): (events: seq<Event>)
    ensures |events| == k
  {
    if k == 0 then [] else Pulls(k - 1, n) + [Pulled(n)]
  }

  /** Reads that are longer than any store take one store each, in order. */
  lemma {:induction false} PullsTakeStores(l: Limits, segs: seq<Seg>, k: nat, n: nat)
    requires LayoutOk(l, segs) && k <= |segs| && Layout.Next(segs) + k < TWO_64
    requires forall i | 0 <= i < |segs| :: |segs[i].StoreBytes()| < n
    ensures Interleave(l, Start(segs), Pulls(k, n)) == Snap(segs, |segs|, k, 0, StreamBytes(segs[..k]))
  {
    hide LayoutOk, Frames, StreamBytes;
    if k == 0 {
      StreamStart(segs);
    } else {
      PullsTakeStores(l, segs, k - 1, n);
      assert Pulls(k, n)[..k - 1] == Pulls(k - 1, n);
      StreamStep(segs, k - 1);
      var file := segs[k - 1].StoreBytes();
      assert file[0..|file|] == file;
    }
  }

  // Reads among the events.
  function CountPulls(events: seq<Event>): (n: nat)
    ensures n <= |events|
  {
    if events == [] then 0 else CountPulls(events[..|events| - 1]) + if events[|events| - 1].Pulled? then 1 else 0
  }

  ghost predicate PullsSomething(events: seq<Event>) {
    forall i | 0 <= i < |events| && events[i].Pulled? :: events[i].n > 0
  }

  // Until it is done every read delivers something or moves on.
  lemma {:induction false} ReadsProgress(l: Limits, segs: seq<Seg>, events: seq<Event>)
    requires LayoutOk(l, segs) && Layout.Next(segs) + |events| < TWO_64 && PullsSomething(events)
    ensures var s := Interleave(l, Start(segs), events);
            s.cur < |segs| ==> CountPulls(events) <= |s.sink| + s.cur
  {
    hide SegOk, Open, AllSealed, Contiguous, Going, LogAppend, Stores.Chunk;
    if events != [] {
      var front, e := events[..|events| - 1], events[|events| - 1];
      var s := Interleave(l, Start(segs), front);
      ReadsProgress(l, segs, front);
      InterleaveStores(l, segs, front);
      assert PullsSomething(front);
      if e.Pulled? && s.cur < s.stores {
        assert events[|events| - 1].n > 0;
        assert |Pull(s, e.n).sink| == |s.sink| + |Stores.Chunk(s.segs[s.cur].StoreBytes(), s.off, e.n)|;
      }
    }
  }

  lemma {:induction false} StreamPrefixShorter(segs: seq<Seg>, k: nat)
    requires k <= |segs|
    ensures |StreamBytes(segs[..k])| <= |StreamBytes(segs)|
    decreases |segs|
  {
    hide Frames;
    if k < |segs| {
      StreamPrefixShorter(segs[..|segs| - 1], k);
      assert segs[..|segs| - 1][..k] == segs[..k];
    } else {
      assert segs[..k] == segs;
    }
  }

  lemma SinkBounded(l: Limits, s: Snap)
    requires Going(l, s) && s.cur < s.stores
    ensures |s.sink| <= |StreamBytes(s.segs[..s.stores])|
  {
    hide LayoutOk, Frames, StreamBytes;
    StreamStep(s.segs, s.cur);
    StreamPrefixShorter(s.segs[..s.stores], s.cur + 1);
    assert s.segs[..s.stores][..s.cur + 1] == s.segs[..s.cur + 1];
  }

  /** Whatever is appended in between, a reader has reached its end after as many
      reads as its stores have bytes, and one more for each store. */
  lemma ReaderFinishes(l: Limits, segs: seq<Seg>, events: seq<Event>)
    requires LayoutOk(l, segs) && Layout.Next(segs) + |events| < TWO_64 && PullsSomething(events)
    ensures |segs| <= |Interleave(l, Start(segs), events).segs|
    ensures CountPulls(events) >= |StreamBytes(Interleave(l, Start(segs), events).segs[..|segs|])| + |segs| ==>
              Interleave(l, Start(segs), events).cur == |segs|
  {
    hide SegOk, Open, AllSealed, Contiguous, Going, StreamBytes, Interleave;
    InterleaveGoes(l, segs, events);
    ReadsProgress(l, segs, events);
    var s := Interleave(l, Start(segs), events);
    CurBounded(l, s);
    if s.cur < |segs| {
      SinkBounded(l, s);
    }
  }

  // ----- what the reader has delivered when it is done

  /** Event `k`, counted from 1, is the read that brings the reader to its end. */
  ghost predicate LastRead(l: Limits, segs: seq<Seg>, events: seq<Event>, k: nat)
    requires segs != [] && Layout.Next(segs) + |events| < TWO_64
  {
    0 < k <= |events| &&
    Interleave(l, Start(segs), events[..k - 1]).cur < |segs| == Interleave(l, Start(segs), events[..k]).cur
  }

  /** A reader that has reached its end has delivered a picture of one moment: what
      the stores it was given held at its last read, `k` events in. */
  lemma {:induction false} DeliveredIsOneMoment(l: Limits, segs: seq<Seg>, events: seq<Event>) returns (k: nat)
    requires LayoutOk(l, segs) && Layout.Next(segs) + |events| < TWO_64
    requires Interleave(l, Start(segs), events).cur == |segs|
    ensures LastRead(l, segs, events, k)
    ensures Interleave(l, Start(segs), events).sink == StreamBytes(LogAfter(l, segs, events, k)[..|segs|])
  {
    hide SegOk, Open, AllSealed, Contiguous, Going, LogAppend, StreamBytes;
    var n := |events| - 1;
    assert events != [];
    var s := Interleave(l, Start(segs), events[..n]);
    InterleaveGoes(l, segs, events[..n]);
    if s.cur == |segs| {
      k := DeliveredIsOneMoment(l, segs, events[..n]);
      assert events[..n][..k] == events[..k] && events[..n][..k - 1] == events[..k - 1];
    } else {
      k := |events|;
      assert events[..k] == events;
      CurBounded(l, s);
      PullGoes(l, s, events[n].n);
    }
  }

  lemma CurBounded(l: Limits, s: Snap)
    requires Going(l, s)
    ensures s.cur <= s.stores
  {
    hide LayoutOk, StreamBytes;
  }

  // The stores of the first `n` segments: indexed records, then, if the last of
  // them is where appends failed, the frames those left.
  lemma StoresHold(l: Limits, segs: seq<Seg>, n: nat)
    requires LayoutOk(l, segs) && 1 <= n <= |segs|
    ensures Prefix(Written(segs[..n]), Written(segs))
    ensures StreamBytes(segs[..n]) == Frames(Written(segs[..n]))
    ensures |Written(segs[..n])| <= |Records(segs)| <==> segs[n - 1].orphans == []
  {
    hide Frames, SegOk, Open, AllSealed, Contiguous, Records, StreamBytes, Written, Sealed;
    StreamIsFrames(segs[..n]);
    assert segs == segs[..n] + segs[n..];
    WrittenConcat(segs[..n], segs[n..]);
    WrittenIsRecords(l, segs);
    if n == |segs| {
      assert segs[..n] == segs;
    } else {
      LayoutAt(l, segs, n - 1);
      RecordsConcat(segs[..n], segs[n..]);
      PrefixSealed(l, segs[..|segs| - 1], n);
      assert segs[..|segs| - 1][..n] == segs[..n];
      SealedWritten(l, segs[..n]);
      SealedNoOrphans(l, segs[n - 1]);
    }
  }

  lemma SealedNoOrphans(l: Limits, s: Seg)
    requires Sealed(l, s)
    ensures s.orphans == []
  {
    hide Frames;
  }

  lemma {:induction false} PrefixSealed(l: Limits, segs: seq<Seg>, m: nat)
    requires AllSealed(l, segs) && m <= |segs|
    ensures AllSealed(l, segs[..m])
  {
    hide SegOk, Sealed;
    if m < |segs| {
      PrefixSealed(l, segs[..|segs| - 1], m);
      assert segs[..|segs| - 1][..m] == segs[..m];
    } else {
      assert segs[..m] == segs;
    }
  }

  // The first stores of a log hold no less later.
  lemma {:induction false} StoresGrow(l: Limits, segs: seq<Seg>, rs: seq<Record>, n: nat)
    requires LayoutOk(l, segs) && Layout.Next(segs) + |rs| < TWO_64 && 1 <= n <= |segs|
    ensures n <= |AppendAll(l, segs, rs)|
    ensures |Written(segs[..n])| <= |Written(AppendAll(l, segs, rs)[..n])|
  {
    hide LogAppend, SegOk, Open, AllSealed, Contiguous, Written, Frames, Frame;
    if rs != [] {
      var before := AppendAll(l, segs, rs[..|rs| - 1]);
      StoresGrow(l, segs, rs[..|rs| - 1], n);
      AppendAllKeepsLayout(l, segs, rs[..|rs| - 1]);
      FirstStoresGrow(l, before, rs[|rs| - 1], n);
    }
  }

  // The next frame goes to the last of the stores the reader was given.
  lemma ActiveStoreGrows(l: Limits, segs: seq<Seg>, r: Record)
    requires LayoutOk(l, segs) && Layout.Next(segs) < TWO_64 - 1
    ensures |LogAppend(l, segs, r)| >= |segs|
    ensures |Written(LogAppend(l, segs, r)[..|segs|])| == |Written(segs)| + 1
  {
    hide SegOk, Open, AllSealed, Contiguous, Written, Frames, Frame, Layout.IsMaxed;
    var segs', m := LogAppend(l, segs, r), |segs| - 1;
    SnocLast(segs);
    SnocLast(segs'[..m + 1]);
    assert segs'[..m + 1][..m] == segs[..m];
  }

  /** The stores the reader was given hold more than they did at its start exactly
      when something was appended since. */
  lemma NothingNewIff(l: Limits, segs: seq<Seg>, rs: seq<Record>)
    requires LayoutOk(l, segs) && Layout.Next(segs) + |rs| < TWO_64
    ensures |segs| <= |AppendAll(l, segs, rs)|
    ensures |Written(segs)| <= |Written(AppendAll(l, segs, rs)[..|segs|])|
    ensures |Written(AppendAll(l, segs, rs)[..|segs|])| == |Written(segs)| <==> rs == []
  {
    hide LogAppend, SegOk, Open, AllSealed, Contiguous, Written, Frames, Frame;
    if rs == [] {
      assert segs[..|segs|] == segs;
    } else {
      var next := LogAppend(l, segs, rs[0]);
      ActiveStoreGrows(l, segs, rs[0]);
      AppendKeepsLayout(l, segs, rs[0]);
      AppendAllOne(l, segs, rs[0]);
      AppendAllConcat(l, segs, [rs[0]], rs[1..]);
      assert [rs[0]] + rs[1..] == rs;
      StoresGrow(l, next, rs[1..], |segs|);
    }
  }

  lemma FirstStoresGrow(l: Limits, segs: seq<Seg>, r: Record, n: nat)
    requires LayoutOk(l, segs) && Layout.Next(segs) < TWO_64 - 1 && 1 <= n <= |segs|
    ensures |LogAppend(l, segs, r)| >= |segs|
    ensures |Written(segs[..n])| <= |Written(LogAppend(l, segs, r)[..n])|
  {
    hide SegOk, Open, AllSealed, Contiguous, Written, Frames, Frame, Layout.IsMaxed;
    var segs' := LogAppend(l, segs, r);
    var m := |segs| - 1;
    assert segs'[..m] == segs[..m];
    if n <= m {
      assert segs'[..n] == segs'[..m][..n] == segs[..n];
    } else {
      SnocLast(segs[..n]);
      SnocLast(segs'[..n]);
      assert segs[..n][..m] == segs[..m] && segs'[..n][..m] == segs[..m];
    }
  }

  /** In every interleaving of reads of any size with appends and rolls, under any
      limits, a reader that has reached its end has delivered whole frames of one
      contiguous run of what was written: it starts with the first frame of the
      log, contains every frame that was there when the reader was made, and ends
      between two frames. It contains no later one exactly when nothing was appended
      before the last read. They are indexed records, all of them, exactly when at
      the last read no append to the last store the reader was given had failed. */
  lemma SnapshotUnderAppends(l: Limits, segs: seq<Seg>, events: seq<Event>) returns (j: nat, k: nat)
    requires LayoutOk(l, segs) && Layout.Next(segs) + |events| < TWO_64
    requires Interleave(l, Start(segs), events).cur == |segs|
    ensures LastRead(l, segs, events, k)
    ensures var s := Interleave(l, Start(segs), events);
            var moment := LogAfter(l, segs, events, k);
            LayoutOk(l, s.segs) && Lowest(s.segs) == Lowest(segs) &&
            |Written(segs)| <= j <= |Written(s.segs)| &&
            Written(segs) == Written(s.segs)[..|Written(segs)|] &&
            s.sink == Frames(Written(s.segs)[..j]) &&
            Parse(s.sink) == Parsed(Written(s.segs)[..j], true) &&
            Written(moment[..|segs|]) == Written(s.segs)[..j] &&
            (j == |Written(segs)| <==> Appends(events[..k]) == []) &&
            (moment[|segs| - 1].orphans == [] <==> j <= |Records(s.segs)|) &&
            (j <= |Records(s.segs)| ==> Written(s.segs)[..j] == Records(s.segs)[..j])
  {
    hide SegOk, Open, AllSealed, Contiguous, Records, Written, Frames, Interleave, Parse, StreamBytes, AppendAll;
    k := DeliveredIsOneMoment(l, segs, events);
    var s, moment := Interleave(l, Start(segs), events), LogAfter(l, segs, events, k);
    assert events[..k] + events[k..] == events;
    InterleaveAppends(l, Start(segs), events);
    InterleaveAppends(l, Start(segs), events[..k]);
    InterleaveConcat(l, Start(segs), events[..k], events[k..]);
    InterleaveAppends(l, Interleave(l, Start(segs), events[..k]), events[k..]);
    AppendAllKeepsLayout(l, segs, Appends(events));
    AppendAllKeepsLayout(l, segs, Appends(events[..k]));
    WrittenGrows(l, segs, Appends(events));
    WrittenGrows(l, moment, Appends(events[k..]));
    NothingNewIff(l, segs, Appends(events[..k]));
    StoresHold(l, moment, |segs|);
    WrittenIsRecords(l, s.segs);
    IndexedLater(l, moment, Appends(events[k..]), |segs|);
    j := |Written(moment[..|segs|])|;
    assert Written(s.segs)[..j] == Written(moment)[..j] == Written(moment[..|segs|]);
    ParseFrames(Written(s.segs)[..j]);
  }

  // Frames without an index entry never get one.
  lemma IndexedLater(l: Limits, segs: seq<Seg>, rs: seq<Record>, n: nat)
    requires LayoutOk(l, segs) && Layout.Next(segs) + |rs| < TWO_64 && 1 <= n <= |segs|
    ensures |Written(segs[..n])| <= |Records(AppendAll(l, segs, rs))| <==> segs[n - 1].orphans == []
  {
    hide SegOk, Open, AllSealed, Contiguous, Records, Written, Frames, AppendAll, Sealed;
    StoresHold(l, segs, n);
    RecordsGrow(l, segs, rs);
    if segs[n - 1].orphans != [] {
      if n < |segs| {
        LayoutAt(l, segs, n - 1);
        SealedNoOrphans(l, segs[n - 1]);
      }
      assert n == |segs|;
      OrphansMeanFull(l, segs);
      StuckForever(l, segs, rs);
    }
  }

  lemma {:induction false} RecordsGrow(l: Limits, segs: seq<Seg>, rs: seq<Record>)
    requires LayoutOk(l, segs) && Layout.Next(segs) + |rs| < TWO_64
    ensures |Records(segs)| <= |Records(AppendAll(l, segs, rs))|
  {
    hide SegOk, Open, AllSealed, Contiguous, Records, LogAppend, AppendOk;
    if rs != [] {
      RecordsGrow(l, segs, rs[..|rs| - 1]);
      AppendAllKeepsLayout(l, segs, rs[..|rs| - 1]);
      AppendRecords(l, AppendAll(l, segs, rs[..|rs| - 1]), rs[|rs| - 1]);
    }
  }

  /** As long as no append has failed, the default limits included, the run is one
      of the log's records. */
  lemma SnapshotOfRecords(l: Limits, segs: seq<Seg>, events: seq<Event>) returns (j: nat)
    requires LayoutOk(l, segs) && Layout.Next(segs) + |events| < TWO_64
    requires Interleave(l, Start(segs), events).cur == |segs|
    requires NoOrphans(Interleave(l, Start(segs), events).segs)
    ensures var s := Interleave(l, Start(segs), events);
            |Records(segs)| <= j <= |Records(s.segs)| &&
            Records(segs) == Records(s.segs)[..|Records(segs)|] &&
            s.sink == Frames(Records(s.segs)[..j]) &&
            Parse(s.sink) == Parsed(Records(s.segs)[..j], true)
  {
    hide SegOk, Open, AllSealed, Contiguous, Records, Written, Frames, Interleave, Parse, StreamBytes, AppendAll;
    var k;
    j, k := SnapshotUnderAppends(l, segs, events);
    InterleaveAppends(l, Start(segs), events);
    if !NoOrphans(segs) {
      OrphansStay(l, segs, Appends(events));
    }
    WrittenIsRecords(l, segs);
    WrittenIsRecords(l, Interleave(l, Start(segs), events).segs);
  }

  /** That is so for every log that was filled with records of at least `f` bytes a
      frame, when that many fill the store before the index, whatever is appended
      to it in the meantime, if its frames are as large. */
  lemma LargeRecordsAreIndexed(l: Limits, base: nat, rs: seq<Record>, events: seq<Event>, f: nat)
    requires l.Valid() && base + |rs| + |events| < TWO_64 && IndexSlots(l) * f >= l.maxStore
    requires AllFramesAtLeast(rs, f)
    requires AllFramesAtLeast(Appends(events), f)
    ensures Layout.Next(Build(l, base, rs)) <= base + |rs|
    ensures NoOrphans(Interleave(l, Start(Build(l, base, rs)), events).segs)
  {
    hide LogAppend, FrameAtLeast, Interleave, AppendAll, NoOrphans;
    var segs, more := Build(l, base, rs), Appends(events);
    InterleaveAppends(l, Start(segs), events);
    AppendAllConcat(l, [Fresh(base)], rs, more);
    LargeFramesNeverFail(l, base, rs + more, f);
  }

  // ------------------------------------------- a finer look at the append

  /** Snapshot reads take only the store's lock, so one can fall between the store
      write of an append and the rest of it. `pending` is the record of an append
      that has written its frame and not yet its index entry. */
  datatype FineSnap = FineSnap(snap: Snap, pending: Option<Record>)

  datatype FineEvent = Begin(r: Record) | Finish | Fetch(n: nat)

  // What the store of segment i holds right now.
  function StoreNow(s: FineSnap, i: nat): Bytes
    requires i < |s.snap.segs| && Layout.Next(s.snap.segs) < TWO_64
  {
    var held := s.snap.segs[i].StoreBytes();
    if s.pending.Some? && i == |s.snap.segs| - 1
    then held + Frame(s.pending.value.(offset := Layout.Next(s.snap.segs)))
    else held
  }

  ghost predicate CanHappen(s: FineSnap, e: FineEvent) {
    match e
    case Begin(_) => s.pending.None?
    case Finish => s.pending.Some?
    case Fetch(_) => true
  }

  function FineStep(l: Limits, s: FineSnap, e: FineEvent): FineSnap
    requires s.snap.segs != [] && s.snap.stores <= |s.snap.segs| && Layout.Next(s.snap.segs) < TWO_64 - 1
  {
    match e
    case Begin(r) => s.(pending := Some(r))
    case Finish =>
      if s.pending.None? then s
      else FineSnap(s.snap.(segs := LogAppend(l, s.snap.segs, s.pending.value)), None)
    case Fetch(n) =>
      if s.snap.cur >= s.snap.stores then s
      else
        var got := Stores.Chunk(StoreNow(s, s.snap.cur), s.snap.off, n);
        s.(snap := if |got| < n then s.snap.(sink := s.snap.sink + got, cur := s.snap.cur + 1, off := 0)
                   else s.snap.(sink := s.snap.sink + got, off := s.snap.off + |got|))
  }

  // The same situation with every append taken to happen at its store write.
  function AtStoreWrite(l: Limits, s: FineSnap): Snap
    requires s.snap.segs != [] && Layout.Next(s.snap.segs) < TWO_64 - 1
  {
    if s.pending.None? then s.snap else s.snap.(segs := LogAppend(l, s.snap.segs, s.pending.value))
  }

  function Coarse(e: FineEvent): (coarse: seq<Event>)
    ensures |coarse| <= 1
  {
    match e
    case Begin(r) => [Appended(r)]
    case Finish => []
    case Fetch(n) => [Pulled(n)]
  }

  /** Splitting the append changes nothing for the reader: each fine step is a step,
      or no step, of the machine in which appends are atomic, so everything proved
      of that machine's interleavings holds of these. */
  lemma FineStepsAreSteps(l: Limits, s: FineSnap, e: FineEvent)
    requires LayoutOk(l, s.snap.segs) && CanHappen(s, e)
    requires s.snap.stores <= |s.snap.segs| && Layout.Next(s.snap.segs) < TWO_64 - 3
    ensures var s' := FineStep(l, s, e);
            s'.snap.segs != [] && Layout.Next(s'.snap.segs) < TWO_64 - 1 &&
            AtStoreWrite(l, s').stores <= |AtStoreWrite(l, s').segs| &&
            AtStoreWrite(l, s') == Interleave(l, AtStoreWrite(l, s), Coarse(e))
  {
    hide Frames, Frame, SegOk, Open, AllSealed, Contiguous, LogAppend, Stores.Chunk, AppendOk;
    var before := AtStoreWrite(l, s);
    if s.pending.Some? {
      AppendKeepsLayout(l, s.snap.segs, s.pending.value);
      AppendShapes(l, s.snap.segs, s.pending.value);
    }
    OneEvent(l, before, e);
    match e {
      case Begin(r) =>
        AppendKeepsLayout(l, s.snap.segs, r);
        AppendShapes(l, s.snap.segs, r);
      case Finish =>
      case Fetch(n) =>
        if s.snap.cur < s.snap.stores {
          StoreNowIsAfter(l, s);
        }
    }
  }

  lemma OneEvent(l: Limits, s: Snap, e: FineEvent)
    requires s.segs != [] && s.stores <= |s.segs| && Layout.Next(s.segs) < TWO_64 - 1
    ensures Interleave(l, s, Coarse(e)) == if Coarse(e) == [] then s else Happen(l, s, Coarse(e)[0])
  {
    hide Happen;
    if Coarse(e) != [] {
      assert Coarse(e)[..0] == [];
      assert Interleave(l, s, []) == s;
    }
  }

  lemma StoreNowIsAfter(l: Limits, s: FineSnap)
    requires LayoutOk(l, s.snap.segs)
    requires s.snap.cur < s.snap.stores <= |s.snap.segs| && Layout.Next(s.snap.segs) < TWO_64 - 1
    ensures |AtStoreWrite(l, s).segs| >= |s.snap.segs|
    ensures StoreNow(s, s.snap.cur) == AtStoreWrite(l, s).segs[s.snap.cur].StoreBytes()
  {
    hide Frames, Frame, SegOk, Open, AllSealed, Contiguous, LogAppend, AppendOk;
    if s.pending.Some? {
      AppendShapes(l, s.snap.segs, s.pending.value);
      var n, after := |s.snap.segs| - 1, AtStoreWrite(l, s).segs;
      if s.snap.cur < n {
        assert after[s.snap.cur] == after[..n][s.snap.cur] == s.snap.segs[s.snap.cur];
      }
    }
  }

  ghost function FineRun(l: Limits, s: FineSnap, events: seq<FineEvent>): Option<FineSnap>
    requires s.snap.segs != [] && s.snap.stores <= |s.snap.segs|
    requires Layout.Next(s.snap.segs) + |events| < TWO_64 - 3
    ensures var r := FineRun(l, s, events);
            r.Some? ==> r.value.snap.segs != [] && r.value.snap.stores <= |r.value.snap.segs| &&
                        Layout.Next(r.value.snap.segs) <= Layout.Next(s.snap.segs) + |events|
  {
    if events == [] then Some(s)
    else
      match FineRun(l, s, events[..|events| - 1])
      case None => None
      case Some(mid) =>
        if CanHappen(mid, events[|events| - 1]) then Some(FineStep(l, mid, events[|events| - 1])) else None
  }

  function CoarseAll(events: seq<FineEvent>): (coarse: seq<Event>)
    ensures |coarse| <= |events|
  {
    if events == [] then [] else CoarseAll(events[..|events| - 1]) + Coarse(events[|events| - 1])
  }

  lemma {:induction false} FineRunsAreRuns(l: Limits, segs: seq<Seg>, events: seq<FineEvent>)
    requires LayoutOk(l, segs)
    requires Layout.Next(segs) + |events| < TWO_64 - 3
    requires FineRun(l, FineSnap(Start(segs), None), events).Some?
    ensures var s := FineRun(l, FineSnap(Start(segs), None), events).value;
            LayoutOk(l, s.snap.segs) && Lowest(s.snap.segs) == Lowest(segs) &&
            AtStoreWrite(l, s) == Interleave(l, Start(segs), CoarseAll(events))
  {
    hide SegOk, Open, AllSealed, Contiguous, LogAppend, AppendOk, Interleave, Coarse, FineRun, FineStep,
         CanHappen, Happen;
    FineRunLast(l, FineSnap(Start(segs), None), events);
    if events == [] {
      NoEvents(l, Start(segs));
    } else {
      var front, e := events[..|events| - 1], events[|events| - 1];
      FineRunsAreRuns(l, segs, front);
      var mid := FineRun(l, FineSnap(Start(segs), None), front).value;
      FineStepsAreSteps(l, mid, e);
      InterleaveConcat(l, Start(segs), CoarseAll(front), Coarse(e));
      FineKeepsLayout(l, mid, e);
    }
  }

  lemma FineRunLast(l: Limits, s: FineSnap, events: seq<FineEvent>)
    requires s.snap.segs != [] && s.snap.stores <= |s.snap.segs|
    requires Layout.Next(s.snap.segs) + |events| < TWO_64 - 3 && FineRun(l, s, events).Some?
    ensures events == [] ==> FineRun(l, s, events) == Some(s)
    ensures events != [] ==>
              var mid := FineRun(l, s, events[..|events| - 1]);
              mid.Some? && CanHappen(mid.value, events[|events| - 1]) &&
              FineRun(l, s, events) == Some(FineStep(l, mid.value, events[|events| - 1]))
  {
    hide FineStep, CanHappen;
  }

  lemma FineKeepsLayout(l: Limits, s: FineSnap, e: FineEvent)
    requires LayoutOk(l, s.snap.segs) && s.snap.stores <= |s.snap.segs| && Layout.Next(s.snap.segs) < TWO_64 - 1
    ensures LayoutOk(l, FineStep(l, s, e).snap.segs)
    ensures Lowest(FineStep(l, s, e).snap.segs) == Lowest(s.snap.segs)
  {
    hide SegOk, Open, AllSealed, Contiguous, LogAppend, AppendOk, Stores.Chunk, StoreNow;
    if e.Finish? && s.pending.Some? {
      AppendKeepsLayout(l, s.snap.segs, s.pending.value);
    }
  }

  function FineOne(e: Event): (fine: seq<FineEvent>)
    ensures 1 <= |fine| <= 2
  {
    match e
    case Appended(r) => [Begin(r), Finish]
    case Pulled(n) => [Fetch(n)]
  }

  // Appends begun and finished at once.
  function FineAll(events: seq<Event>): (fine: seq<FineEvent>)
    ensures |fine| <= 2 * |events|
  {
    if events == [] then [] else FineAll(events[..|events| - 1]) + FineOne(events[|events| - 1])
  }

  lemma FineRunMore(l: Limits, s: FineSnap, events: seq<FineEvent>, e: FineEvent)
    requires s.snap.segs != [] && s.snap.stores <= |s.snap.segs|
    requires Layout.Next(s.snap.segs) + |events| + 1 < TWO_64 - 3 && FineRun(l, s, events).Some?
    ensures var mid := FineRun(l, s, events).value;
            FineRun(l, s, events + [e]) == if CanHappen(mid, e) then Some(FineStep(l, mid, e)) else None
  {
    hide FineStep, CanHappen;
    assert (events + [e])[..|events|] == events;
  }

  lemma SplitAppend(l: Limits, mid: Snap, r: Record)
    requires mid.segs != [] && mid.stores <= |mid.segs| && Layout.Next(mid.segs) < TWO_64 - 1
    ensures var begun := FineStep(l, FineSnap(mid, None), Begin(r));
            begun == FineSnap(mid, Some(r)) &&
            FineStep(l, begun, Finish) == FineSnap(Happen(l, mid, Appended(r)), None)
  {
    hide LogAppend;
  }

  lemma FetchOutside(l: Limits, mid: Snap, n: nat)
    requires mid.segs != [] && mid.stores <= |mid.segs| && Layout.Next(mid.segs) < TWO_64 - 1
    ensures FineStep(l, FineSnap(mid, None), Fetch(n)) == FineSnap(Happen(l, mid, Pulled(n)), None)
  {
    hide Stores.Chunk;
  }

  // One atomic event, done in fine steps.
  lemma OneFineRun(l: Limits, s: FineSnap, fine: seq<FineEvent>, mid: Snap, e: Event)
    requires s.snap.segs != [] && s.snap.stores <= |s.snap.segs|
    requires Layout.Next(s.snap.segs) + |fine| + 2 < TWO_64 - 3
    requires FineRun(l, s, fine) == Some(FineSnap(mid, None))
    ensures mid.segs != [] && mid.stores <= |mid.segs| && Layout.Next(mid.segs) < TWO_64 - 1
    ensures FineRun(l, s, fine + FineOne(e)) == Some(FineSnap(Happen(l, mid, e), None))
  {
    hide FineStep, Happen, FineRun;
    match e {
      case Appended(r) =>
        SplitAppend(l, mid, r);
        FineRunMore(l, s, fine, Begin(r));
        FineRunMore(l, s, fine + [Begin(r)], Finish);
        assert fine + FineOne(e) == (fine + [Begin(r)]) + [Finish];
      case Pulled(n) =>
        FetchOutside(l, mid, n);
        FineRunMore(l, s, fine, Fetch(n));
    }
  }

  /** Every run with atomic appends is a run with split ones. */
  lemma {:induction false} RunsAreFineRuns(l: Limits, segs: seq<Seg>, events: seq<Event>)
    requires segs != [] && Layout.Next(segs) + 2 * |events| < TWO_64 - 3
    ensures FineRun(l, FineSnap(Start(segs), None), FineAll(events)) ==
            Some(FineSnap(Interleave(l, Start(segs), events), None))
  {
    hide LogAppend, Stores.Chunk, FineRun, Happen, FineOne;
    var start := FineSnap(Start(segs), None);
    if events == [] {
      NoFineEvents(l, start);
    } else {
      var front := events[..|events| - 1];
      RunsAreFineRuns(l, segs, front);
      OneFineRun(l, start, FineAll(front), Interleave(l, Start(segs), front), events[|events| - 1]);
    }
  }

  lemma NoFineEvents(l: Limits, s: FineSnap)
    requires s.snap.segs != [] && s.snap.stores <= |s.snap.segs| && Layout.Next(s.snap.segs) < TWO_64 - 3
    ensures FineRun(l, s, []) == Some(s)
  {
  }

  /** A read can fall inside an append to the last store, and then sees its frame. */
  lemma ReadInsideAppend(l: Limits, segs: seq<Seg>, r: Record, n: nat)
    requires LayoutOk(l, segs) && |segs| == 1 && Layout.Next(segs) < TWO_64 - 8
    requires n > |segs[0].StoreBytes()| + |Frame(r.(offset := Layout.Next(segs)))|
    ensures var run := FineRun(l, FineSnap(Start(segs), None), [Begin(r), Fetch(n)]);
            run.Some? && run.value.pending == Some(r) && run.value.snap.cur == 1 && run.value.snap.segs == segs &&
            run.value.snap.sink == segs[0].StoreBytes() + Frame(r.(offset := Layout.Next(segs)))
  {
    hide Frames, Frame, LayoutOk, FineRun;
    var start := FineSnap(Start(segs), None);
    assert [] + [Begin(r)] == [Begin(r)] && [Begin(r)] + [Fetch(n)] == [Begin(r), Fetch(n)];
    NoFineEvents(l, start);
    FineRunMore(l, start, [], Begin(r));
    FineRunMore(l, start, [Begin(r)], Fetch(n));
    var file := segs[0].StoreBytes() + Frame(r.(offset := Layout.Next(segs)));
    assert file[0..|file|] == file;
  }

  /** The guarantee of `SnapshotUnderAppends` with reads falling anywhere, also
      inside an append: a frame counts from its store write on, and the moment is
      one of the run in which appends are atomic. */
  lemma SnapshotUnderSplitAppends(l: Limits, segs: seq<Seg>, events: seq<FineEvent>) returns (j: nat, k: nat)
    requires LayoutOk(l, segs) && Layout.Next(segs) + |events| < TWO_64 - 3
    requires var run := FineRun(l, FineSnap(Start(segs), None), events);
             run.Some? && run.value.snap.cur == |segs|
    ensures LastRead(l, segs, CoarseAll(events), k)
    ensures var s := FineRun(l, FineSnap(Start(segs), None), events).value;
            var after, coarse := AtStoreWrite(l, s).segs, CoarseAll(events);
            var moment := LogAfter(l, segs, coarse, k);
            LayoutOk(l, after) && Lowest(after) == Lowest(segs) &&
            |Written(segs)| <= j <= |Written(after)| &&
            Written(segs) == Written(after)[..|Written(segs)|] &&
            s.snap.sink == Frames(Written(after)[..j]) &&
            Parse(s.snap.sink) == Parsed(Written(after)[..j], true) &&
            Written(moment[..|segs|]) == Written(after)[..j] &&
            (j == |Written(segs)| <==> Appends(coarse[..k]) == []) &&
            (moment[|segs| - 1].orphans == [] <==> j <= |Records(after)|) &&
            (j <= |Records(after)| ==> Written(after)[..j] == Records(after)[..j])
  {
    hide SegOk, Open, AllSealed, Contiguous, Records, Written, Frames, Interleave, Parse, FineRun, LogAppend,
         LogAfter, LastRead, Appends;
    FineRunsAreRuns(l, segs, events);
    j, k := SnapshotUnderAppends(l, segs, CoarseAll(events));
  }
}
