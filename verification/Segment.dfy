/** A segment: one store and one index over the same records. */
module Segments {
  import opened Bytes
  import opened RecordCodec
  import opened Layout
  import opened FileNames
  import opened Files
  import Indexes
  import Stores

  datatype SegmentState =
    SegmentState(nextOffset: nat, view: Seg, buf: Bytes, storeSize: nat, cursor: nat, indexSize: nat, mmap: Bytes)

  class Segment {
    const dir: Directory
    const limits: Limits
    const baseOffset: Uint64
    const store: Stores.Store
    const index: Indexes.Index
    var nextOffset: Uint64
    ghost var view: Seg
    /** The frames the store held when the segment was opened. */
    ghost const heldAtOpen: seq<Record>

    ghost function Repr(): set<object> {
      {this, store, index, index.mmap}
    }

    ghost function State(): SegmentState
      reads this, store, index, index.mmap
    {
      SegmentState(nextOffset, view, store.buf, store.size, store.cursor, index.size, index.mmap[..])
    }

    ghost function FileNamesUsed(): set<string> {
      NamesAt(baseOffset)
    }

    ghost predicate Shape() {
      && store.dir == dir && index.dir == dir
      && store.name == StoreName(baseOffset) && index.name == IndexName(baseOffset)
      && index.mmap.Length == limits.maxIndex && limits.Valid()
    }

    /** Store and index hold exactly what `view` says, byte for byte. */
    ghost predicate Valid()
      reads this, store, index, index.mmap, dir
    {
      && Shape()
      && store.Valid() && index.Valid()
      && SegOk(limits, view)
      && view.base == baseOffset && nextOffset == view.Next()
      && store.Contents() == view.StoreBytes()
      && index.Contents() == view.IndexBytes()
      && store.sizeAtOpen == |Frames(heldAtOpen)| && heldAtOpen <= view.records + view.orphans
    }

    /** Open the files of a segment, creating them when they are missing, and
        recover the next offset from the last index entry. `s` is what a clean
        close left in them; missing files are those of an empty segment. */
    constructor Open(dir: Directory, baseOffset: Uint64, limits: Limits, ghost s: Seg)
      requires limits.Valid() && SegOk(limits, s) && s.base == baseOffset
      requires FileOr(dir.files, StoreName(baseOffset)) == s.StoreBytes()
      requires FileOr(dir.files, IndexName(baseOffset)) == s.IndexBytes()
      modifies dir`files
      ensures Valid() && view == s && fresh(Repr())
      ensures this.dir == dir && this.baseOffset == baseOffset && this.limits == limits
      ensures store.buf == [] && store.cursor == 0 && store.sizeAtOpen == |s.StoreBytes()|
      ensures heldAtOpen == s.records + s.orphans
      ensures FileNamesUsed() <= dir.files.Keys
      ensures SameExcept(dir.files, old(dir.files), FileNamesUsed())
    {
      hide Frames, Entries, StoreName, IndexName, SegOk, SameExcept;
      var st, idx, next := OpenFiles(dir, baseOffset, limits, s);
      this.dir, this.baseOffset, this.limits := dir, baseOffset, limits;
      this.store, this.index := st, idx;
      this.nextOffset := next;
      this.view, this.heldAtOpen := s, s.records + s.orphans;
    }

    /** Append a record at the next offset. When the index is full the append
        fails, but the frame has reached the store and stays there. */
    method Append(record: Record) returns (offset: Option<Uint64>)
      requires Valid() && nextOffset < TWO_64 - 1
      requires HasRoom(limits, view) ==> |view.StoreBytes()| < limits.maxStore
      modifies this`nextOffset, this`view, store`buf, store`size, store`cursor, index`size, index.mmap, dir`files
      ensures Valid()
      ensures view == SegAppend(limits, old(view), record)
      ensures offset == if HasRoom(limits, old(view)) then Some(old(nextOffset)) else None
      ensures SameExcept(dir.files, old(dir.files), {store.name})
    {
      hide Frames, Entries, Entry, Marshal, PutUint, SameExcept, SegOk, StoreName, IndexName;
      BaseOfNames(baseOffset);
      var cur := nextOffset;
      var rec := record.(offset := cur);
      var p := Marshal(rec);
      AppendedBytes(limits, view, record);
      var _, pos := store.Append(p);
      SameIndexFile(old(dir.files), dir.files);
      var ok := index.Write((nextOffset - baseOffset) % TWO_32, pos);
      if !ok {
        view := view.(orphans := view.orphans + [rec]);
        return None;
      }
      view := view.(records := view.records + [rec]);
      nextOffset := nextOffset + 1;
      return Some(cur);
    }

    // The index file is not the store file, so writing the latter keeps it.
    lemma SameIndexFile(before: FileMap, after: FileMap)
      requires Shape() && SameExcept(after, before, {store.name}) && index.name in before
      ensures index.name in after
    {
      BaseOfNames(baseOffset);
    }

    /** The record at `off`. */
    method Read(off: Uint64) returns (record: Option<Record>)
      requires Valid() && baseOffset <= off < baseOffset + TWO_32
      modifies store`buf, store`cursor, dir`files
      ensures Valid() && view == old(view)
      ensures record == if off < nextOffset then Some(view.records[off - baseOffset]) else None
      ensures old(store.buf) == [] ==> store.buf == [] && store.cursor == old(store.cursor)
      ensures SameExcept(dir.files, old(dir.files), {store.name})
    {
      hide Frames, Entries, Marshal, Unmarshal, Stores.FrameAt, Indexes.ReadEntry, SameExcept, SegOk, StoreName, IndexName;
      LocateRecord(limits, view, off - baseOffset);
      var entry := index.Read(off - baseOffset);
      if entry.None? {
        SameExceptSelf(dir.files, {store.name});
        return None;
      }
      var p := store.Read(entry.value.1);
      SameIndexFile(old(dir.files), dir.files);
      if p.None? {
        return None;
      }
      return Unmarshal(p.value);
    }

    /** Raw bytes of the store, as a snapshot reader asks for them. */
    method ReadStore(n: nat, off: nat) returns (data: Bytes, eof: bool)
      requires Valid()
      modifies store`buf, store`cursor, dir`files
      ensures Valid() && view == old(view)
      ensures data == Stores.Chunk(view.StoreBytes(), off, n)
      ensures old(store.buf) == [] ==> store.buf == [] && store.cursor == old(store.cursor)
      ensures eof <==> n > 0 && off + n > |view.StoreBytes()|
      ensures SameExcept(dir.files, old(dir.files), {store.name})
    {
      hide Frames, Entries, SameExcept, SegOk, StoreName, IndexName, Stores.Chunk;
      data, eof := store.ReadAt(n, off);
      SameIndexFile(old(dir.files), dir.files);
    }

    /** The store's file copies itself (see `Store.WriteTo`). */
    method WriteStoreTo() returns (data: Bytes)
      requires Valid()
      modifies store`cursor
      ensures Valid() && view == old(view)
      ensures data == old(store.Remainder())
    {
      hide Frames, Entries, SegOk, StoreName, IndexName;
      data := store.WriteTo();
    }

    method IsMaxed() returns (maxed: bool)
      requires Valid()
      ensures maxed == Layout.IsMaxed(limits, view)
    {
      maxed := store.size >= limits.maxStore || index.size >= limits.maxIndex;
    }

    /** Closing leaves in the two files exactly what `Open` needs to find. */
    method Close()
      requires Valid()
      modifies store`buf, store`cursor, dir`files
      ensures Valid() && view == old(view)
      ensures dir.files[store.name] == view.StoreBytes()
      ensures dir.files[index.name] == view.IndexBytes()
      ensures SameExcept(dir.files, old(dir.files), FileNamesUsed())
    {
      hide Frames, Entries, StoreName, IndexName, SegOk;
      BaseOfNames(baseOffset);
      index.Close();
      store.Close();
    }

    method Remove()
      requires Valid()
      modifies store`buf, store`cursor, dir`files
      ensures store.name !in dir.files && index.name !in dir.files
      ensures SameExcept(dir.files, old(dir.files), FileNamesUsed())
    {
      hide Frames, Entries, StoreName, IndexName, SegOk;
      Close();
      dir.files := dir.files - {index.name};
      dir.files := dir.files - {store.name};
    }

    /** What happens to other files and objects leaves a segment alone. */
    twostate lemma Untouched(names: set<string>)
      requires allocated(dir) && allocated(store) && allocated(index) && allocated(index.mmap)
      requires old(Valid()) && State() == old(State())
      requires SameExcept(dir.files, old(dir.files), names) && names !! FileNamesUsed()
      ensures Valid()
    {
      hide Frames, Entries, StoreName, IndexName, SegOk;
    }
  }

  // The two files of a segment, and the next offset its index implies.
  method OpenFiles(dir: Directory, baseOffset: Uint64, limits: Limits, ghost s: Seg)
    returns (st: Stores.Store, idx: Indexes.Index, next: Uint64)
    requires limits.Valid() && SegOk(limits, s) && s.base == baseOffset
    requires FileOr(dir.files, StoreName(baseOffset)) == s.StoreBytes()
    requires FileOr(dir.files, IndexName(baseOffset)) == s.IndexBytes()
    modifies dir`files
    ensures fresh(st) && fresh(idx) && fresh(idx.mmap)
    ensures st.dir == dir && st.name == StoreName(baseOffset) && st.Valid()
    ensures st.Contents() == s.StoreBytes() && st.buf == [] && st.cursor == 0 && st.sizeAtOpen == |s.StoreBytes()|
    ensures idx.dir == dir && idx.name == IndexName(baseOffset) && idx.Valid()
    ensures idx.Contents() == s.IndexBytes() && idx.mmap.Length == limits.maxIndex
    ensures next == s.Next()
    ensures SameExcept(dir.files, old(dir.files), NamesAt(baseOffset))
  {
    hide Frames, Entries, StoreName, IndexName, Indexes.ReadEntry, SegOk;
    BaseOfNames(baseOffset);
    RecoveredCount(limits, s);
    st := OpenStore(dir, StoreName(baseOffset));
    idx := OpenIndex(dir, IndexName(baseOffset), limits.maxIndex);
    var last := idx.Read(-1);
    next := match last
      case None => baseOffset
      case Some((off, _)) => baseOffset + off + 1;
  }

  method OpenStore(dir: Directory, name: string) returns (st: Stores.Store)
    modifies dir`files
    ensures fresh(st) && st.dir == dir && st.name == name && st.Valid()
    ensures st.Contents() == FileOr(old(dir.files), name)
    ensures st.buf == [] && st.cursor == 0 && st.sizeAtOpen == |FileOr(old(dir.files), name)|
    ensures SameExcept(dir.files, old(dir.files), {name})
  {
    dir.OpenOrCreate(name);
    st := new Stores.Store(dir, name);
  }

  method OpenIndex(dir: Directory, name: string, maxIndex: nat) returns (idx: Indexes.Index)
    requires |FileOr(dir.files, name)| <= maxIndex
    modifies dir`files
    ensures fresh(idx) && fresh(idx.mmap) && idx.dir == dir && idx.name == name && idx.Valid()
    ensures idx.Contents() == FileOr(old(dir.files), name) && idx.mmap.Length == maxIndex
    ensures SameExcept(dir.files, old(dir.files), {name})
  {
    dir.OpenOrCreate(name);
    idx := new Indexes.Index(dir, name, maxIndex);
  }

  lemma SameExceptSelf(files: FileMap, names: set<string>)
    ensures SameExcept(files, files, names)
  {
  }

  // The last index entry of a clean index gives the next offset back.
  lemma RecoveredCount(l: Limits, s: Seg)
    requires l.Valid() && SegOk(l, s)
    ensures |s.IndexBytes()| <= l.maxIndex && s.Next() < TWO_64
    ensures Indexes.ReadEntry(s.IndexBytes(), -1) ==
            if s.records == [] then None else Some((|s.records| - 1, |Frames(s.records[..|s.records| - 1])|))
  {
    hide Frames, Entries, Indexes.ReadEntry;
    Indexes.LastEntry(s.records);
  }

  // What an append adds to the two files.
  lemma AppendedBytes(l: Limits, s: Seg, r: Record)
    requires l.Valid() && SegOk(l, s) && s.Next() < TWO_64 - 1
    requires HasRoom(l, s) ==> |s.StoreBytes()| < l.maxStore
    ensures var s' := SegAppend(l, s, r);
            SegOk(l, s') && s'.StoreBytes() == s.StoreBytes() + Frame(r.(offset := s.Next())) &&
            s'.IndexBytes() == s.IndexBytes() +
              if HasRoom(l, s) then Entry(|s.records|, |s.StoreBytes()|) else []
    ensures HasRoom(l, s) ==> |s.records| < TWO_32
    ensures s.records + s.orphans <= SegAppend(l, s, r).records + SegAppend(l, s, r).orphans
  {
    hide Frame, Entry, SegOk, Frames, Entries;
    var rec, s' := r.(offset := s.Next()), SegAppend(l, s, r);
    SegAppendKeeps(l, s, r);
    if HasRoom(l, s) {
      FullHasNoOrphans(l, s);
      assert s'.records + s'.orphans == s.records + [rec] && s.records + s.orphans == s.records;
      FramesAdd(s.records, rec);
    } else {
      assert s'.records + s'.orphans == (s.records + s.orphans) + [rec];
      FramesAdd(s.records + s.orphans, rec);
    }
  }

  lemma FullHasNoOrphans(l: Limits, s: Seg)
    requires SegOk(l, s) && HasRoom(l, s)
    ensures s.orphans == []
  {
    hide Frames;
  }

  lemma FramesAdd(rs: seq<Record>, r: Record)
    ensures Frames(rs + [r]) == Frames(rs) + Frame(r)
    ensures Entries(rs + [r]) == Entries(rs) + Entry(|rs|, |Frames(rs)|)
  {
    hide Frame, Entry;
    assert (rs + [r])[..|rs|] == rs;
  }

  // Every indexed record is found through its index entry.
  lemma LocateRecord(l: Limits, s: Seg, k: nat)
    requires l.Valid() && SegOk(l, s) && k < TWO_32
    ensures Indexes.ReadEntry(s.IndexBytes(), k) ==
            if k < |s.records| then Some((k, |Frames(s.records[..k])|)) else None
    ensures k < |s.records| ==>
              Stores.FrameAt(s.StoreBytes(), |Frames(s.records[..k])|) == Some(Marshal(s.records[k])) &&
              Unmarshal(Marshal(s.records[k])) == Some(s.records[k])
  {
    hide Frames, Entries, Indexes.ReadEntry, Stores.FrameAt, Marshal, Unmarshal;
    if k < |s.records| {
      FramesPrefix(s.records[..|s.records| - 1], k);
      assert s.records[..|s.records| - 1][..k] == s.records[..k];
      Stores.FrameAtRecord(s.records, k, s.orphans);
    }
    Indexes.EntryAt(s.records, k);
  }

  /** The invariant that ties a segment's files together: index entry k is
      (k, start of frame k), the frame there decodes to the record with offset
      base + k, and the store is exactly the frames. */
  lemma IndexAndStoreAgree(l: Limits, s: Seg, k: nat)
    requires l.Valid() && SegOk(l, s) && k < |s.records|
    ensures Indexes.ReadEntry(s.IndexBytes(), k) == Some((k, |Frames(s.records[..k])|))
    ensures var p := Stores.FrameAt(s.StoreBytes(), |Frames(s.records[..k])|);
            p.Some? && Unmarshal(p.value) == Some(s.records[k]) && s.records[k].offset == s.base + k
    ensures |s.IndexBytes()| == ENT_WIDTH * |s.records|
  {
    hide Frames, Entries, Indexes.ReadEntry, Stores.FrameAt, Marshal, Unmarshal;
    LocateRecord(l, s, k);
  }
}
