/** The index file of a segment: a memory-mapped array of fixed-size entries. */
module Indexes {
  import opened Bytes
  import opened RecordCodec
  import opened Layout
  import opened Files

  /** The entry number `at` of an index, or its last one for -1. The number is
      narrowed to 32 bits before it is used. */
  function ReadEntry(entries: Bytes, at: int): Option<(nat, nat)> {
    if entries == [] then None
    else
      var out := (if at == -1 then |entries| / ENT_WIDTH - 1 else at) % TWO_32;
      var pos := out * ENT_WIDTH;
      if |entries| < pos + ENT_WIDTH then None
      else Some((GetUint(entries[pos..pos + OFF_WIDTH]), GetUint(entries[pos + OFF_WIDTH..pos + ENT_WIDTH])))
  }

  function Zeros(n: nat): (z: Bytes)
    ensures |z| == n && forall i | 0 <= i < n :: z[i] == 0
  {
    seq(n, i => 0)
  }

  /** A file grown with zeros, or cut off, to a size. */
  function Resized(file: Bytes, size: nat): (r: Bytes)
    ensures |r| == size
  {
    if |file| <= size then file + Zeros(size - |file|) else file[..size]
  }

  class Index {
    const dir: Directory
    const name: string
    const mmap: array<Byte>
    var size: nat

    ghost predicate Valid()
      reads this, dir
    {
      name in dir.files && size <= mmap.Length
    }

    /** The part of the map that is not used yet is zero. */
    ghost predicate Padded()
      reads this, mmap
    {
      forall i | size <= i < mmap.Length :: mmap[i] == 0
    }

    /** What the index holds. */
    ghost function Contents(): (c: Bytes)
      reads this, dir, mmap
      requires Valid()
      ensures |c| == size
    {
      mmap[..size]
    }

    /** Map the file at its full size: it is padded with zeros, or cut off when it
        is larger than the configured size. */
    constructor (dir: Directory, name: string, maxIndex: nat)
      requires name in dir.files
      modifies dir`files
      ensures this.dir == dir && this.name == name && fresh(mmap) && mmap.Length == maxIndex
      ensures name in dir.files && SameExcept(dir.files, old(dir.files), {name})
      ensures size == old(|dir.files[name]|)
      ensures Valid() <==> old(|dir.files[name]|) <= maxIndex
      ensures Valid() ==> Contents() == old(dir.files[name]) && Padded()
      ensures dir.files[name] == Resized(old(dir.files[name]), maxIndex) == mmap[..]
    {
      var file := dir.files[name];
      var cells := new Byte[maxIndex](i requires 0 <= i => if i < |file| then file[i] else 0);
      this.dir, this.name := dir, name;
      this.size := |file|;
      this.mmap := cells;
      new;
      dir.files := dir.files[name := mmap[..]];
      assert mmap[..] == Resized(file, maxIndex);
    }

    /** Look an entry up. */
    method Read(at: int) returns (entry: Option<(nat, nat)>)
      requires Valid() && -1 <= at
      ensures entry == ReadEntry(Contents(), at)
    {
      hide GetUint;
      if size == 0 {
        return None;
      }
      var out := if at == -1 then (size / ENT_WIDTH - 1) % TWO_32 else at % TWO_32;
      var pos := out * ENT_WIDTH;
      if size < pos + ENT_WIDTH {
        return None;
      }
      assert Contents()[pos..pos + OFF_WIDTH] == mmap[pos..pos + OFF_WIDTH];
      assert Contents()[pos + OFF_WIDTH..pos + ENT_WIDTH] == mmap[pos + OFF_WIDTH..pos + ENT_WIDTH];
      return Some((GetUint(mmap[pos..pos + OFF_WIDTH]), GetUint(mmap[pos + OFF_WIDTH..pos + ENT_WIDTH])));
    }

    /** Add an entry; fails, changing nothing, when the map has no room for it. */
    method Write(off: nat, pos: nat) returns (ok: bool)
      requires Valid()
      modifies `size, mmap
      ensures Valid() && (old(Padded()) ==> Padded())
      ensures ok <==> old(size) + ENT_WIDTH <= mmap.Length
      ensures Contents() == old(Contents()) + if ok then Entry(off, pos) else []
    {
      hide PutUint;
      if mmap.Length < size + ENT_WIDTH {
        assert mmap[..size] + [] == mmap[..size];
        return false;
      }
      var e := Entry(off, pos);
      forall i | 0 <= i < ENT_WIDTH {
        mmap[size + i] := e[i];
      }
      size := size + ENT_WIDTH;
      assert mmap[..size] == old(mmap[..size]) + e;
      return true;
    }

    /** Without a close the map still reaches the file, which it is shared with, but the
        padding stays. */
    method Abandon()
      requires Valid() && Padded()
      modifies dir`files
      ensures Valid() && dir.files[name] == Contents() + Zeros(mmap.Length - size)
      ensures SameExcept(dir.files, old(dir.files), {name})
    {
      dir.files := dir.files[name := mmap[..]];
      assert mmap[..] == mmap[..size] + Zeros(mmap.Length - size);
    }

    /** Closing writes the map back and cuts the padding off. */
    method Close()
      requires Valid()
      modifies dir`files
      ensures Valid() && Contents() == old(Contents())
      ensures dir.files[name] == Contents()
      ensures SameExcept(dir.files, old(dir.files), {name})
    {
      dir.files := dir.files[name := mmap[..size]];
    }
  }

  // ------------------------------------------------------ entries of an index

  lemma {:induction false} EntrySlice(rs: seq<Record>, k: nat)
    requires k < |rs|
    ensures Entries(rs)[ENT_WIDTH * k..ENT_WIDTH * k + ENT_WIDTH] == Entry(k, |Frames(rs[..k])|)
  {
    hide Frames, Entry;
    var n := |rs| - 1;
    if k < n {
      EntrySlice(rs[..n], k);
      assert rs[..n][..k] == rs[..k];
      assert ENT_WIDTH * k + ENT_WIDTH <= |Entries(rs[..n])|;
    }
  }

  lemma EntryDecodes(e: Bytes, off: nat, pos: nat)
    requires e == Entry(off, pos) && off < TWO_32 && pos < TWO_64
    ensures GetUint(e[..OFF_WIDTH]) == off
    ensures GetUint(e[OFF_WIDTH..]) == pos
  {
    hide PutUint, GetUint;
    Pow256Widths();
    GetPutUint(off, OFF_WIDTH);
    GetPutUint(pos, POS_WIDTH);
    assert e[..OFF_WIDTH] == PutUint(off, OFF_WIDTH);
    assert e[OFF_WIDTH..] == PutUint(pos, POS_WIDTH);
  }

  /** Entry k of a segment's index is (k, start of frame k); entries beyond the
      last do not exist. */
  lemma EntryAt(rs: seq<Record>, k: nat)
    requires |rs| <= TWO_32 && k < TWO_32
    requires k < |rs| ==> |Frames(rs[..k])| < TWO_64
    ensures ReadEntry(Entries(rs), k) ==
            if k < |rs| then Some((k, |Frames(rs[..k])|)) else None
  {
    hide Frames, Entry, Entries, GetUint;
    var all := Entries(rs);
    var at := ENT_WIDTH * k;
    if k < |rs| {
      EntrySlice(rs, k);
      var e := all[at..at + ENT_WIDTH];
      EntryDecodes(e, k, |Frames(rs[..k])|);
      assert all[at..at + OFF_WIDTH] == e[..OFF_WIDTH];
      assert all[at + OFF_WIDTH..at + ENT_WIDTH] == e[OFF_WIDTH..];
    }
  }

  /** The last entry of an index tells how many records its segment has. */
  lemma LastEntry(rs: seq<Record>)
    requires |rs| <= TWO_32
    requires rs != [] ==> |Frames(rs[..|rs| - 1])| < TWO_64
    ensures ReadEntry(Entries(rs), -1) ==
            if rs == [] then None else Some((|rs| - 1, |Frames(rs[..|rs| - 1])|))
  {
    hide Frames, Entry, Entries, GetUint;
    if rs != [] {
      EntryAt(rs, |rs| - 1);
    }
  }

  /** Entry numbers are narrowed to 32 bits: numbers 2^32 apart read the same entry,
      which is why an index must not have more than 2^32 entries. */
  lemma EntryNumbersWrap(entries: Bytes, k: nat)
    ensures ReadEntry(entries, k + TWO_32) == ReadEntry(entries, k)
  {
    hide GetUint;
    assert (k + TWO_32) % TWO_32 == k % TWO_32;
  }

  lemma {:induction false} ZeroUint(z: Bytes)
    requires forall i | 0 <= i < |z| :: z[i] == 0
    ensures GetUint(z) == 0
  {
    if z != [] {
      ZeroUint(z[..|z| - 1]);
    }
  }

  /** An index file that was not closed still has its padding, and then the number
      of records recovered from it, one more than the last entry says, is right only
      if the index was full or had exactly one entry; an empty one counts as one. */
  lemma UnclosedIndexIff(rs: seq<Record>, size: nat)
    requires ENT_WIDTH <= size && ENT_WIDTH * |rs| <= size <= ENT_WIDTH * TWO_32
    requires rs != [] ==> |Frames(rs[..|rs| - 1])| < TWO_64
    ensures var last := ReadEntry(Entries(rs) + Zeros(size - ENT_WIDTH * |rs|), -1);
            last.Some? && (last.value.0 + 1 == |rs| <==> |rs| == 1 || |rs| == size / ENT_WIDTH) &&
            (rs == [] ==> last.value.0 + 1 == 1)
  {
    hide Frames, Entry, Entries, GetUint, ReadEntry;
    var file := Entries(rs) + Zeros(size - ENT_WIDTH * |rs|);
    var k := size / ENT_WIDTH - 1;
    LastOfFile(file);
    if |rs| == k + 1 {
      EntrySlice(rs, k);
      EntryDecodes(Entry(k, |Frames(rs[..k])|), k, |Frames(rs[..k])|);
      var e := file[ENT_WIDTH * k..ENT_WIDTH * k + ENT_WIDTH];
      assert e == Entries(rs)[ENT_WIDTH * k..ENT_WIDTH * k + ENT_WIDTH];
      assert file[ENT_WIDTH * k..ENT_WIDTH * k + OFF_WIDTH] == e[..OFF_WIDTH];
    } else {
      ZeroUint(file[ENT_WIDTH * k..ENT_WIDTH * k + OFF_WIDTH]);
    }
  }

  // Where the entry is that recovery looks at.
  lemma LastOfFile(file: Bytes)
    requires ENT_WIDTH <= |file| <= ENT_WIDTH * TWO_32
    ensures var at := ENT_WIDTH * (|file| / ENT_WIDTH - 1);
            ReadEntry(file, -1).Some? && ReadEntry(file, -1).value.0 == GetUint(file[at..at + OFF_WIDTH])
  {
    hide GetUint;
  }

  /** An index that is filled, abandoned and opened again: what recovery then counts
      is right if and only if it was full or had exactly one entry. */
  method AbandonAndReopen(index: Index, ghost rs: seq<Record>) returns (again: Index, count: nat)
    requires index.Valid() && index.Padded() && index.Contents() == Entries(rs)
    requires ENT_WIDTH <= index.mmap.Length <= ENT_WIDTH * TWO_32
    requires rs != [] ==> |Frames(rs[..|rs| - 1])| < TWO_64
    modifies index.dir`files
    ensures again.dir == index.dir && again.name == index.name
    ensures count == |rs| <==> |rs| == 1 || |rs| == index.mmap.Length / ENT_WIDTH
  {
    hide Frames, Entry, Entries, ReadEntry;
    UnclosedIndexIff(rs, index.mmap.Length);
    index.Abandon();
    again := new Index(index.dir, index.name, index.mmap.Length);
    var last := again.Read(-1);
    count := if last.None? then 0 else last.value.0 + 1;
  }
}
