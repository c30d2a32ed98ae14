/** The formats spelled out. The laws of the other modules say that encoding and
    decoding undo each other; these say which bytes there are on disk, in snapshots
    and in commands, with every width, tag and constant written as a number. */
module Formats {
  import opened Bytes
  import opened RecordCodec
  import opened Layout
  import opened Capacity
  import opened StreamParser
  import StateMachine

  // ---------------------------------------------------------------- integers

  /** Most significant byte first: what a byte string stands for is its first byte,
      weighted by the number of the others, and what these stand for. */
  lemma {:induction false} BigEndian(s: Bytes)
    requires s != []
    ensures GetUint(s) == s[0] * Pow256(|s| - 1) + GetUint(s[1..])
  {
    var n := |s| - 1;
    if n == 0 {
      assert s[..0] == [] && s[1..] == [];
    } else {
      BigEndian(s[..n]);
      assert s[..n][1..] == s[1..][..n - 1];
      assert GetUint(s[1..]) == GetUint(s[1..][..n - 1]) * 256 + s[n];
      assert Pow256(n) == 256 * Pow256(n - 1);
      assert (s[0] * Pow256(n - 1)) * 256 == s[0] * Pow256(n);
    }
  }

  lemma IntegerInstances()
    ensures PutUint(258, 4) == [0, 0, 1, 2] && GetUint([0, 0, 1, 2]) == 258
    ensures PutUint(0x1_0000_0005, 4) == [0, 0, 0, 5]
  {
    IntegerBytes(258, 0, 0, 1, 2);
    IntegerBytes(0x1_0000_0005, 0, 0, 0, 5);
    Pow256Widths();
    GetPutUint(258, 4);
  }

  lemma IntegerBytes(v: nat, a: Byte, b: Byte, c: Byte, d: Byte)
    requires v / 256 / 256 / 256 % 256 == a && v / 256 / 256 % 256 == b && v / 256 % 256 == c && v % 256 == d
    ensures PutUint(v, 4) == [a, b, c, d]
  {
    hide PutUint;
    PutUintStep(v, 4);
    PutUintStep(v / 256, 3);
    PutUintStep(v / 256 / 256, 2);
    PutUintStep(v / 256 / 256 / 256, 1);
    NoBytes(v / 256 / 256 / 256 / 256);
  }

  lemma NoBytes(v: nat)
    ensures PutUint(v, 0) == []
  {
  }

  // ----------------------------------------------------------------- records

  lemma VarintInstances()
    ensures PutVarint(1) == [1] && PutVarint(127) == [127] && PutVarint(300) == [172, 2]
  {
    PutVarintStep(1);
    PutVarintStep(127);
    PutVarintStep(300);
    PutVarintStep(2);
  }

  // One field: nothing when it is zero, otherwise its tag and its value.
  function NumberField(tag: Byte, v: Uint64): Bytes {
    if v == 0 then [] else [tag] + PutVarint(v)
  }

  /** A record is field 1 (length-delimited, tag 10), the value, then fields 2, 3 and 4
      (varints, tags 16, 24 and 32): offset, term and type. */
  lemma RecordBytes(r: Record)
    ensures Marshal(r) ==
            (if r.value == [] then [] else [10] + PutVarint(|r.value|) + r.value) +
            NumberField(16, r.offset) + NumberField(24, r.term) + NumberField(32, r.kind)
  {
    hide Marshal, MarshalSize, PutVarintField, NumberField, PutBytesField;
    MarshalIsFields(r);
    NumberFieldIs(2, r.offset);
    NumberFieldIs(3, r.term);
    NumberFieldIs(4, r.kind);
    ValueFieldIs(r.value);
  }

  lemma NumberFieldIs(num: nat, v: Uint64)
    requires 1 <= num <= 15
    ensures PutVarintField(num, v) == NumberField(8 * num, v)
  {
    hide PutVarint;
    PutVarintStep(8 * num);
  }

  lemma ValueFieldIs(data: Bytes)
    ensures PutBytesField(1, data) == [10] + PutVarint(|data|) + data
  {
    hide PutVarint;
    PutVarintStep(10);
  }

  lemma RecordInstance()
    ensures Marshal(Record([104, 105], 300, 1, 2)) == [10, 2, 104, 105, 16, 172, 2, 24, 1, 32, 2]
  {
    hide Marshal, PutVarint;
    RecordBytes(Record([104, 105], 300, 1, 2));
    VarintInstances();
    PutVarintStep(2);
  }

  /** A command is the type byte 0 and a request: field 1, the record. */
  lemma CommandBytes(r: Record)
    requires |Marshal(r)| < MAX_SLICE
    ensures StateMachine.Encode(r) == [0, 10] + PutVarint(|Marshal(r)|) + Marshal(r)
  {
    hide Marshal, PutVarint;
    PutVarintStep(10);
  }

  // ------------------------------------- encodings that this code does not write

  /** A number field sets offset, term or type, the last one 32 bits wide; a number
      under any other field is passed over. */
  lemma NumberFields(r: Record, num: nat, v: Uint64, rest: Bytes)
    requires 1 <= num <= 0x1FFF_FFFF && v != 0
    ensures UnmarshalOver(r, PutVarint(8 * num) + PutVarint(v) + rest) ==
            UnmarshalOver(match num
                          case 2 => r.(offset := v)
                          case 3 => r.(term := v)
                          case 4 => r.(kind := v % 0x1_0000_0000)
                          case _ => r, rest)
  {
    hide PutVarint, NextField, GetVarint;
    NextVarintField(num, v, rest);
    assert PutVarint(8 * num) + PutVarint(v) + rest == PutVarintField(num, v) + rest;
  }

  /** Bytes set the value, the last ones win; under any other field they are passed
      over. */
  lemma BytesFields(r: Record, num: nat, data: Slice, rest: Bytes)
    requires 1 <= num <= 0x1FFF_FFFF
    ensures UnmarshalOver(r, PutVarint(8 * num + 2) + PutVarint(|data|) + data + rest) ==
            UnmarshalOver(if num == 1 then r.(value := data) else r, rest)
  {
    hide PutVarint, NextField, GetVarint;
    NextBytesField(num, data, rest);
    assert PutVarint(8 * num + 2) + PutVarint(|data|) + data + rest == PutBytesField(num, data) + rest;
  }

  /** Fixed-width fields are passed over when they are whole; the group markers, the
      wire types that do not exist and field 0 are errors. */
  lemma OtherFields(r: Record, num: nat, wire: nat, rest: Bytes)
    requires num <= 0x1FFF_FFFF && wire < 8
    ensures var s := PutVarint(8 * num + wire) + rest;
            (num >= 1 && wire == 1 ==>
               UnmarshalOver(r, s) == if |rest| < 8 then None else UnmarshalOver(r, rest[8..])) &&
            (num >= 1 && wire == 5 ==>
               UnmarshalOver(r, s) == if |rest| < 4 then None else UnmarshalOver(r, rest[4..])) &&
            (num == 0 || wire == 3 || wire == 4 || wire == 6 || wire == 7 ==> UnmarshalOver(r, s) == None)
  {
    hide PutVarint, GetVarint;
    GetPutVarint(8 * num + wire, rest, 0);
    assert (8 * num + wire) / 8 == num && (8 * num + wire) % 8 == wire;
  }

  /** So are field numbers that do not fit in 29 bits. */
  lemma FieldNumberTooLarge(r: Record, tag: Uint64, rest: Bytes)
    requires tag / 8 >= 0x2000_0000
    ensures UnmarshalOver(r, PutVarint(tag) + rest) == None
  {
    hide PutVarint, GetVarint;
    GetPutVarint(tag, rest, 0);
  }

  /** A record field of a request is decoded over the ones before it. */
  lemma RecordFieldsMerge(seen: Option<Record>, p: Slice, rest: Bytes)
    ensures UnmarshalRequestOver(seen, PutVarint(10) + PutVarint(|p|) + p + rest) ==
            match UnmarshalOver(if seen.Some? then seen.value else Record([], 0, 0, 0), p)
            case None => None
            case Some(r) => UnmarshalRequestOver(Some(r), rest)
  {
    hide PutVarint, NextField, GetVarint, UnmarshalOver;
    NextBytesField(1, p, rest);
    assert PutVarint(10) + PutVarint(|p|) + p + rest == PutBytesField(1, p) + rest;
  }

  /** Varints may be longer than they need be, up to ten bytes and 64 bits. */
  lemma LongVarints(rest: Bytes)
    ensures GetVarint([128, 0] + rest, 0) == GoodVarint(0, rest)
    ensures GetVarint([1] + rest, 9) == GoodVarint(1, rest) && GetVarint([2] + rest, 9) == BadVarint
    ensures GetVarint([128], 0) == BadVarint && GetVarint([], 0) == BadVarint
  {
    assert ([128, 0] + rest)[1..] == [0] + rest && ([0] + rest)[1..] == rest;
    assert ([1] + rest)[1..] == rest && [128][1..] == [];
  }

  // ------------------------------------------------------------------- files

  /** A frame is an 8-byte length and as many bytes of the record's encoding. */
  lemma FrameBytes(r: Record)
    ensures |Frame(r)| == 8 + |Marshal(r)| && Frame(r)[8..] == Marshal(r)
    ensures GetUint(Frame(r)[..8]) == |Marshal(r)|
  {
    hide Marshal, PutUint;
    FrameSize(r);
  }

  /** An index entry is 4 bytes of relative offset and 8 bytes of position. */
  lemma EntryBytes(off: nat, pos: nat)
    requires off < TWO_32 && pos < TWO_64
    ensures |Entry(off, pos)| == 12
    ensures GetUint(Entry(off, pos)[..4]) == off && GetUint(Entry(off, pos)[4..]) == pos
  {
    hide PutUint;
    Pow256Widths();
    GetPutUint(off, 4);
    GetPutUint(pos, 8);
    assert Entry(off, pos)[..4] == PutUint(off, 4) && Entry(off, pos)[4..] == PutUint(pos, 8);
  }

  /** Limits left at zero are 1024 bytes. */
  lemma DefaultBytes()
    ensures DEFAULT_LIMITS == Limits(1024, 1024)
  {
  }

  // ----------------------------------------------------------------- streams

  /** A length of 2^63 or more reads as a negative one: an empty record and no error. */
  lemma NegativeLength(header: Bytes, rest: Bytes)
    requires |header| == 8 && header[0] >= 128
    ensures NextFrame(header + rest) == Whole(EMPTY, rest)
  {
    hide GetUint, Pow256;
    BigEndian(header);
    Pow256Widths();
    SevenBytes();
    assert header[0] * 0x100_0000_0000_0000 >= TWO_63;
    var stream := header + rest;
    assert stream[..8] == header && stream[8..8] == [] && stream[8..] == rest;
  }

  lemma SevenBytes()
    ensures Pow256(7) == 0x100_0000_0000_0000
  {
    assert Pow256(3) == 256 * (256 * (256 * Pow256(0)));
    assert Pow256(7) == 256 * (256 * (256 * (256 * Pow256(3))));
  }
}
