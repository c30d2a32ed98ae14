/** Bytes, fixed-width integers and the big-endian encoding used for frame
    lengths and index entries. */
module Bytes {
  const TWO_32: int := 0x1_0000_0000
  const TWO_63: int := 0x8000_0000_0000_0000
  const TWO_64: int := 0x1_0000_0000_0000_0000

  type Byte = b: int | 0 <= b < 256
  type Bytes = seq<Byte>
  type Uint32 = x: int | 0 <= x < 0x1_0000_0000
  type Uint64 = x: int | 0 <= x < 0x1_0000_0000_0000_0000

  datatype Option<+T> = None | Some(value: T)

  function Pow256(n: nat): (p: nat)
    ensures p > 0
  {
    if n == 0 then 1 else 256 * Pow256(n - 1)
  }

  lemma Pow256Widths()
    ensures Pow256(4) == TWO_32
    ensures Pow256(8) == TWO_64
  {
    assert Pow256(4) == 256 * (256 * (256 * 256));
    assert Pow256(8) == 256 * (256 * (256 * (256 * Pow256(4))));
  }

  // Byte `i` of the `width` low bytes of `v`, most significant first.
  function ByteAt(v: nat, width: nat, i: nat): Byte
    requires i < width
  {
    if i == width - 1 then v % 256 else ByteAt(v / 256, width - 1, i)
  }

  /** The low `width` bytes of `v`, most significant first. Like the source's
      narrowing conversions it silently drops whatever does not fit. */
  function PutUint(v: nat, width: nat): (s: Bytes)
    ensures |s| == width
  {
    seq(width, i requires 0 <= i < width => ByteAt(v, width, i))
  }

  lemma PutUintStep(v: nat, width: nat)
    requires width > 0
    ensures PutUint(v, width) == PutUint(v / 256, width - 1) + [v % 256]
  {
  }

  function GetUint(s: Bytes): nat {
    if s == [] then 0 else GetUint(s[..|s| - 1]) * 256 + s[|s| - 1]
  }

  lemma {:induction false} GetUintBound(s: Bytes)
    ensures GetUint(s) < Pow256(|s|)
  {
    if s != [] {
      GetUintBound(s[..|s| - 1]);
    }
  }

  /** Reading back a fixed-width integer gives the value that was written if and
      only if it fits: narrowing an offset to 32 bits loses nothing exactly for
      offsets below 2^32. */
  lemma {:induction false} GetPutUint(v: nat, width: nat)
    ensures GetUint(PutUint(v, width)) == v <==> v < Pow256(width)
  {
    hide PutUint;
    if width > 0 {
      GetPutUint(v / 256, width - 1);
      PutUintStep(v, width);
      var s := PutUint(v, width);
      assert s[..|s| - 1] == PutUint(v / 256, width - 1);
      assert GetUint(s) == GetUint(PutUint(v / 256, width - 1)) * 256 + v % 256;
      GetUintBound(s);
      GetUintBound(PutUint(v / 256, width - 1));
    }
  }

  lemma {:induction false} PutGetUint(s: Bytes)
    ensures PutUint(GetUint(s), |s|) == s
  {
    hide PutUint;
    if s != [] {
      PutGetUint(s[..|s| - 1]);
      PutUintStep(GetUint(s), |s|);
      assert GetUint(s) / 256 == GetUint(s[..|s| - 1]);
      assert s == s[..|s| - 1] + [s[|s| - 1]];
    }
  }

  function Min(a: int, b: int): int {
    if a < b then a else b
  }
}
