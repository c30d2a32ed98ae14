/** The store file of a segment: length-prefixed frames behind a write buffer. */
module Stores {
  import opened Bytes
  import opened RecordCodec
  import opened Layout
  import opened Files

  /** The payload of the frame at `pos`, if the file holds all of it. */
  function FrameAt(file: Bytes, pos: nat): Option<Bytes> {
    if pos + LEN_WIDTH > |file| then None
    else
      var n := GetUint(file[pos..pos + LEN_WIDTH]);
      var start := pos + LEN_WIDTH;
      if start + n > |file| then None else Some(file[start..start + n])
  }

  /** What a read of up to `n` bytes at `off` returns. */
  function Chunk(file: Bytes, off: nat, n: nat): Bytes {
    if off >= |file| then [] else file[off..Min(off + n, |file|)]
  }

  class Store {
    const dir: Directory
    const name: string
    var buf: Bytes
    var size: nat
    /** Where the file's descriptor stands: at its start when it is opened, and at
        the end of the file after a write, since it is opened to append. */
    var cursor: nat
    ghost const sizeAtOpen: nat

    ghost predicate Valid()
      reads this, dir
    {
      && name in dir.files && size == |dir.files[name]| + |buf|
      && (cursor == |dir.files[name]| || (cursor == 0 && sizeAtOpen == |dir.files[name]|))
    }

    /** The logical content: what has reached the file, then what is buffered. */
    ghost function Contents(): (c: Bytes)
      reads this, dir
      requires Valid()
      ensures |c| == size
    {
      dir.files[name] + buf
    }

    /** The descriptor is at the end: something was written through it or copied from
        it since it was opened, or there is nothing in the file. */
    ghost predicate AtEnd()
      reads this, dir
      requires Valid()
    {
      cursor == |dir.files[name]|
    }

    /** What the file holds beyond its descriptor. */
    ghost function Remainder(): Bytes
      reads this, dir
      requires Valid()
    {
      dir.files[name][cursor..]
    }

    constructor (dir: Directory, name: string)
      requires name in dir.files
      ensures this.dir == dir && this.name == name
      ensures Valid() && Contents() == dir.files[name] && buf == []
      ensures cursor == 0 && sizeAtOpen == |dir.files[name]|
    {
      this.dir, this.name := dir, name;
      this.buf := [];
      this.size := |dir.files[name]|;
      this.cursor, this.sizeAtOpen := 0, |dir.files[name]|;
    }

    /** A buffered writer may push any prefix of its buffer to the file at any
        time; it only does so while the store's lock is held. */
    method Spill()
      requires name in dir.files
      modifies `buf, `cursor, dir`files
      ensures name in dir.files && dir.files[name] + buf == old(dir.files[name] + buf)
      ensures dir.files == old(dir.files) ==> cursor == old(cursor) && buf == old(buf)
      ensures dir.files != old(dir.files) ==> cursor == |dir.files[name]|
      ensures SameExcept(dir.files, old(dir.files), {name})
    {
      var k: nat :| k <= |buf|;
      if k > 0 {
        dir.files := dir.files[name := dir.files[name] + buf[..k]];
        assert buf == buf[..k] + buf[k..];
        buf := buf[k..];
        cursor := |dir.files[name]|;
      }
    }

    method Flush()
      requires Valid()
      modifies `buf, `cursor, dir`files
      ensures Valid() && buf == [] && Contents() == old(Contents())
      ensures old(buf) == [] ==> cursor == old(cursor) && dir.files == old(dir.files)
      ensures old(buf) != [] ==> cursor == |dir.files[name]|
      ensures SameExcept(dir.files, old(dir.files), {name})
    {
      if buf != [] {
        dir.files := dir.files[name := dir.files[name] + buf];
        buf := [];
        cursor := |dir.files[name]|;
      }
    }

    /** Add one frame at the end. */
    method Append(p: Bytes) returns (n: nat, pos: nat)
      requires Valid()
      modifies `buf, `size, `cursor, dir`files
      ensures Valid()
      ensures Contents() == old(Contents()) + (PutUint(|p|, LEN_WIDTH) + p)
      ensures n == LEN_WIDTH + |p| && pos == old(size)
      ensures SameExcept(dir.files, old(dir.files), {name})
    {
      hide PutUint;
      pos := size;
      ghost var was, header := Contents(), PutUint(|p|, LEN_WIDTH);
      buf := buf + PutUint(|p|, LEN_WIDTH);
      assert dir.files[name] + buf == was + header;
      Spill();
      ghost var mid := dir.files[name] + buf;
      buf := buf + p;
      assert dir.files[name] + buf == mid + p;
      Spill();
      n := |p| + LEN_WIDTH;
      size := size + n;
      assert (was + header) + p == was + (header + p);
    }

    /** The payload of the frame at `pos`. Reading leaves the descriptor where it is,
        unless there is something to flush. */
    method Read(pos: nat) returns (p: Option<Bytes>)
      requires Valid()
      modifies `buf, `cursor, dir`files
      ensures Valid() && Contents() == old(Contents())
      ensures p == FrameAt(Contents(), pos)
      ensures old(buf) == [] ==> buf == [] && cursor == old(cursor)
      ensures SameExcept(dir.files, old(dir.files), {name})
    {
      hide GetUint;
      Flush();
      var file := dir.files[name];
      var header := Chunk(file, pos, LEN_WIDTH);
      if |header| < LEN_WIDTH {
        return None;
      }
      assert Contents() == file && header == file[pos..pos + LEN_WIDTH];
      var n := GetUint(header);
      var payload := Chunk(file, pos + LEN_WIDTH, n);
      if |payload| < n {
        return None;
      }
      return Some(payload);
    }

    /** Up to `n` bytes from `off`; fewer than `n` only at the end of the store,
        and then the end is reported. */
    method ReadAt(n: nat, off: nat) returns (data: Bytes, eof: bool)
      requires Valid()
      modifies `buf, `cursor, dir`files
      ensures Valid() && Contents() == old(Contents())
      ensures data == Chunk(Contents(), off, n)
      ensures old(buf) == [] ==> buf == [] && cursor == old(cursor)
      ensures eof <==> off + n > size && n > 0
      ensures SameExcept(dir.files, old(dir.files), {name})
    {
      Flush();
      data := Chunk(dir.files[name], off, n);
      eof := |data| < n;
    }

    /** The file's own copying method, which a reader over the store inherits: it
        flushes nothing, takes no lock, starts where the descriptor stands and
        leaves it at the end of the file. */
    method WriteTo() returns (data: Bytes)
      requires Valid()
      modifies `cursor
      ensures Valid() && Contents() == old(Contents())
      ensures data == old(Remainder()) && Remainder() == []
    {
      data := dir.files[name][cursor..];
      cursor := |dir.files[name]|;
    }

    /** Closing leaves the whole content in the file. */
    method Close()
      requires Valid()
      modifies `buf, `cursor, dir`files
      ensures Valid() && Contents() == old(Contents())
      ensures dir.files[name] == old(Contents())
      ensures SameExcept(dir.files, old(dir.files), {name})
    {
      Flush();
    }
  }

  // -------------------------------------------------------- frames in a store

  lemma FrameInside(a: Bytes, r: Record, b: Bytes)
    ensures FrameAt(a + Frame(r) + b, |a|) == Some(Marshal(r))
  {
    hide Marshal, PutUint, GetUint;
    FrameSize(r);
    var file, m := a + Frame(r) + b, Marshal(r);
    assert file[|a|..|a| + LEN_WIDTH] == Frame(r)[..LEN_WIDTH];
    assert file[|a| + LEN_WIDTH..|a| + LEN_WIDTH + |m|] == m;
  }

  /** A payload is read at a position exactly when its length stands there and it
      follows, whole. */
  lemma FrameAtIff(file: Bytes, pos: nat, p: Bytes)
    requires |p| < TWO_64
    ensures FrameAt(file, pos) == Some(p) <==>
            pos + 8 + |p| <= |file| && file[pos..pos + 8] == PutUint(|p|, 8) &&
            file[pos + 8..pos + 8 + |p|] == p
  {
    hide PutUint, GetUint;
    Pow256Widths();
    GetPutUint(|p|, 8);
    if pos + 8 <= |file| {
      PutGetUint(file[pos..pos + 8]);
    }
  }

  /** The frame at the position recorded for entry k is record k, and it decodes. */
  lemma FrameAtRecord(rs: seq<Record>, k: nat, extra: seq<Record>)
    requires k < |rs|
    ensures FrameAt(Frames(rs + extra), |Frames(rs[..k])|) == Some(Marshal(rs[k]))
    ensures Unmarshal(Marshal(rs[k])) == Some(rs[k])
  {
    hide FrameAt, Frame, Frames, Marshal, Unmarshal;
    FramesPrefix(rs + extra, k + 1);
    assert (rs + extra)[..k + 1] == rs[..k + 1];
    FramesStep(rs, k);
    FrameInside(Frames(rs[..k]), rs[k], Frames((rs + extra)[k + 1..]));
    UnmarshalMarshal(rs[k]);
  }
}
