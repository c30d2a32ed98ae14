/** The Protocol Buffers encoding of `Record` and `ProduceRequest`
    (Protocol Buffers Encoding guide, sections "Base 128 Varints" and
    "Length-Delimited Records"; proto3 leaves zero-valued fields out). */
module RecordCodec {
  import opened Bytes

  /** No Go slice is this long; it keeps frame lengths inside an int64. */
  const MAX_SLICE: nat := 0x4000_0000_0000_0000
  const MAX_FIELD_NUMBER: nat := 0x1FFF_FFFF

  type Slice = s: Bytes | |s| < 0x4000_0000_0000_0000 witness []

  datatype Record = Record(value: Slice, offset: Uint64, term: Uint64, kind: Uint32)

  const EMPTY: Record := Record([], 0, 0, 0)

  // ---------------------------------------------------------------- varints

  function VarintSize(v: nat): (n: nat)
    ensures n > 0
  {
    if v < 128 then 1 else 1 + VarintSize(v / 128)
  }

  // Byte `i`: seven bits, least significant group first, the top bit set on all
  // but the last.
  function VarintByte(v: nat, i: nat): Byte
    requires i < VarintSize(v)
  {
    if v < 128 then v
    else if i == 0 then v % 128 + 128
    else VarintByte(v / 128, i - 1)
  }

  function PutVarint(v: nat): (s: Bytes)
    ensures s != []
  {
    seq(VarintSize(v), i requires 0 <= i < VarintSize(v) => VarintByte(v, i))
  }

  lemma PutVarintStep(v: nat)
    ensures v < 128 ==> PutVarint(v) == [v]
    ensures v >= 128 ==> PutVarint(v) == [v % 128 + 128] + PutVarint(v / 128)
  {
  }

  datatype VarintResult = BadVarint | GoodVarint(value: Uint64, rest: Bytes)

  /** One past the largest value that bytes k, k+1, ... of a varint may add:
      ten bytes carry 64 bits, so the tenth byte may only be 0 or 1. */
  function VarintCap(k: nat): (c: nat)
    requires k <= 9
    ensures 0 < c <= TWO_64
  {
    if k == 0 then TWO_64
    else if k == 1 then 0x200_0000_0000_0000
    else if k == 2 then 0x4_0000_0000_0000
    else if k == 3 then 0x800_0000_0000
    else if k == 4 then 0x10_0000_0000
    else if k == 5 then 0x2000_0000
    else if k == 6 then 0x40_0000
    else if k == 7 then 0x8000
    else if k == 8 then 0x100
    else 2
  }

  lemma VarintCapStep(k: nat)
    requires k < 9
    ensures VarintCap(k) == 128 * VarintCap(k + 1)
  {
  }

  /** Decode a varint whose first `k` bytes have been consumed already. */
  function GetVarint(s: Bytes, k: nat): (r: VarintResult)
    requires k <= 9
    ensures r.GoodVarint? ==> r.value < VarintCap(k) && |r.rest| < |s|
    decreases |s|
  {
    if s == [] then BadVarint
    else if k == 9 then (if s[0] < 2 then GoodVarint(s[0], s[1..]) else BadVarint)
    else if s[0] < 128 then VarintCapStep(k); GoodVarint(s[0], s[1..])
    else
      match GetVarint(s[1..], k + 1)
      case BadVarint => BadVarint
      case GoodVarint(v, rest) =>
        VarintCapStep(k);
        GoodVarint(s[0] - 128 + 128 * v, rest)
  }

  lemma {:induction false} GetPutVarint(v: nat, rest: Bytes, k: nat)
    requires k <= 9 && v < VarintCap(k)
    ensures GetVarint(PutVarint(v) + rest, k) == GoodVarint(v, rest)
    ensures |PutVarint(v)| <= 10 - k
    decreases 9 - k
  {
    hide PutVarint;
    PutVarintStep(v);
    var s := PutVarint(v) + rest;
    if v < 128 {
      assert s[1..] == rest;
    } else {
      VarintCapStep(k);
      GetPutVarint(v / 128, rest, k + 1);
      assert s[1..] == PutVarint(v / 128) + rest;
    }
  }

  lemma {:induction false} VarintLengthMonotone(v: nat, w: nat)
    requires v <= w
    ensures |PutVarint(v)| <= |PutVarint(w)|
  {
    hide PutVarint;
    PutVarintStep(v);
    PutVarintStep(w);
    if w >= 128 && v >= 128 {
      VarintLengthMonotone(v / 128, w / 128);
    }
  }

  // ----------------------------------------------------------------- fields

  datatype Field =
    | BadField
    | VarintField(num: nat, v: Uint64, rest: Bytes)
    | BytesField(num: nat, data: Slice, rest: Bytes)
    | OtherField(rest: Bytes)

  /** Split the first field off an encoded message. */
  function NextField(s: Bytes): (f: Field)
    requires s != []
    ensures !f.BadField? ==> |f.rest| < |s|
  {
    match GetVarint(s, 0)
    case BadVarint => BadField
    case GoodVarint(tag, rest) =>
      var num, wire := tag / 8, tag % 8;
      if num < 1 || num > MAX_FIELD_NUMBER then BadField
      else if wire == 0 then
        match GetVarint(rest, 0) {
          case BadVarint => BadField
          case GoodVarint(v, rest') => VarintField(num, v, rest')
        }
      else if wire == 2 then
        match GetVarint(rest, 0) {
          case BadVarint => BadField
          case GoodVarint(n, rest') =>
            if n > |rest'| || n >= MAX_SLICE then BadField
            else BytesField(num, rest'[..n], rest'[n..])
        }
      else if wire == 1 then (if |rest| < 8 then BadField else OtherField(rest[8..]))
      else if wire == 5 then (if |rest| < 4 then BadField else OtherField(rest[4..]))
      else BadField
  }

  // A proto3 scalar field: nothing at all when it holds its zero value.
  function PutVarintField(num: nat, v: Uint64): Bytes {
    if v == 0 then [] else PutVarint(8 * num) + PutVarint(v)
  }

  function PutBytesField(num: nat, data: Bytes): Bytes {
    PutVarint(8 * num + 2) + PutVarint(|data|) + data
  }

  lemma NextVarintField(num: nat, v: Uint64, rest: Bytes)
    requires 1 <= num <= MAX_FIELD_NUMBER && v != 0
    ensures PutVarintField(num, v) + rest != []
    ensures NextField(PutVarintField(num, v) + rest) == VarintField(num, v, rest)
  {
    hide PutVarint, GetVarint;
    var s := PutVarintField(num, v) + rest;
    GetPutVarint(8 * num, PutVarint(v) + rest, 0);
    assert s == PutVarint(8 * num) + (PutVarint(v) + rest);
    GetPutVarint(v, rest, 0);
  }

  lemma NextBytesField(num: nat, data: Slice, rest: Bytes)
    requires 1 <= num <= MAX_FIELD_NUMBER
    ensures PutBytesField(num, data) + rest != []
    ensures NextField(PutBytesField(num, data) + rest) == BytesField(num, data, rest)
  {
    hide PutVarint, GetVarint;
    var s := PutBytesField(num, data) + rest;
    GetPutVarint(8 * num + 2, PutVarint(|data|) + data + rest, 0);
    assert s == PutVarint(8 * num + 2) + (PutVarint(|data|) + data + rest);
    GetPutVarint(|data|, data + rest, 0);
    assert PutVarint(|data|) + data + rest == PutVarint(|data|) + (data + rest);
    assert (data + rest)[..|data|] == data && (data + rest)[|data|..] == rest;
  }

  // ---------------------------------------------------------------- records

  function MarshalTail(r: Record): Bytes {
    PutVarintField(2, r.offset) + (PutVarintField(3, r.term) + PutVarintField(4, r.kind))
  }

  // The fields that are present, in the order of their numbers.
  function MarshalFields(r: Record): Bytes {
    (if r.value == [] then [] else PutBytesField(1, r.value)) + MarshalTail(r)
  }

  function VarintFieldSize(num: nat, v: Uint64): nat {
    if v == 0 then 0 else VarintSize(8 * num) + VarintSize(v)
  }

  function MarshalSize(r: Record): nat {
    (if r.value == [] then 0 else VarintSize(10) + VarintSize(|r.value|) + |r.value|) +
    VarintFieldSize(2, r.offset) + VarintFieldSize(3, r.term) + VarintFieldSize(4, r.kind)
  }

  lemma MarshalSizeIs(r: Record)
    ensures |MarshalFields(r)| == MarshalSize(r)
  {
    hide VarintSize;
  }

  function MarshalByte(r: Record, i: nat): Byte
    requires i < MarshalSize(r)
  {
    MarshalSizeIs(r);
    MarshalFields(r)[i]
  }

  /** The encoding of a record: its size is fixed first, then its bytes. */
  function Marshal(r: Record): Bytes {
    seq(MarshalSize(r), i requires 0 <= i < MarshalSize(r) => MarshalByte(r, i))
  }

  lemma MarshalIsFields(r: Record)
    ensures Marshal(r) == MarshalFields(r)
  {
    hide MarshalSize, MarshalFields;
    MarshalSizeIs(r);
  }

  function SetVarint(r: Record, num: nat, v: Uint64): Record {
    if num == 2 then r.(offset := v)
    else if num == 3 then r.(term := v)
    else if num == 4 then r.(kind := v % TWO_32)
    else r
  }

  /** Decode `s` over `r`: later fields win, fields the schema does not know are
      passed over, a malformed field is an error. */
  function UnmarshalOver(r: Record, s: Bytes): Option<Record>
    decreases |s|
  {
    if s == [] then Some(r)
    else
      match NextField(s)
      case BadField => None
      case VarintField(num, v, rest) => UnmarshalOver(SetVarint(r, num, v), rest)
      case BytesField(num, data, rest) =>
        UnmarshalOver(if num == 1 then r.(value := data) else r, rest)
      case OtherField(rest) => UnmarshalOver(r, rest)
  }

  function Unmarshal(s: Bytes): Option<Record> {
    UnmarshalOver(EMPTY, s)
  }

  lemma UnmarshalVarintField(r: Record, num: nat, v: Uint64, rest: Bytes)
    requires 1 <= num <= MAX_FIELD_NUMBER
    requires v == 0 ==> SetVarint(r, num, v) == r
    ensures UnmarshalOver(r, PutVarintField(num, v) + rest) == UnmarshalOver(SetVarint(r, num, v), rest)
  {
    if v == 0 {
      assert PutVarintField(num, v) + rest == rest;
    } else {
      NextVarintField(num, v, rest);
    }
  }

  lemma UnmarshalBytesField(r: Record, data: Slice, rest: Bytes)
    ensures UnmarshalOver(r, PutBytesField(1, data) + rest) == UnmarshalOver(r.(value := data), rest)
  {
    hide NextField, PutBytesField;
    NextBytesField(1, data, rest);
  }

  lemma UnmarshalKind(r: Record, kind: Uint32)
    requires r.kind == 0
    ensures UnmarshalOver(r, PutVarintField(4, kind)) == Some(r.(kind := kind))
  {
    hide NextField, PutVarintField;
    UnmarshalVarintField(r, 4, kind, []);
    assert PutVarintField(4, kind) + [] == PutVarintField(4, kind);
    assert UnmarshalOver(SetVarint(r, 4, kind), []) == Some(r.(kind := kind));
  }

  lemma UnmarshalTail(r: Record)
    ensures UnmarshalOver(EMPTY.(value := r.value), MarshalTail(r)) == Some(r)
  {
    hide UnmarshalOver, PutVarintField;
    var r1 := EMPTY.(value := r.value);
    var r2 := r1.(offset := r.offset);
    var r3 := r2.(term := r.term);
    var f4 := PutVarintField(4, r.kind);
    var f34 := PutVarintField(3, r.term) + f4;
    assert UnmarshalOver(r3, f4) == Some(r) by { UnmarshalKind(r3, r.kind); }
    assert UnmarshalOver(r2, f34) == Some(r) by { UnmarshalVarintField(r2, 3, r.term, f4); }
    UnmarshalVarintField(r1, 2, r.offset, f34);
  }

  /** Every record decodes to itself. */
  lemma UnmarshalMarshal(r: Record)
    ensures Unmarshal(Marshal(r)) == Some(r)
  {
    hide Marshal;
    MarshalIsFields(r);
    UnmarshalTail(r);
    if r.value == [] {
      assert MarshalFields(r) == MarshalTail(r);
    } else {
      UnmarshalBytesField(EMPTY, r.value, MarshalTail(r));
    }
  }

  lemma MarshalInjective(r: Record, r': Record)
    requires Marshal(r) == Marshal(r')
    ensures r == r'
  {
    UnmarshalMarshal(r);
    UnmarshalMarshal(r');
  }

  lemma VarintFieldLength(num: nat, v: Uint64)
    requires 1 <= num <= 15
    ensures |PutVarintField(num, v)| == (if v == 0 then 0 else 1 + |PutVarint(v)|) <= 11
  {
    GetPutVarint(v, [], 0);
  }

  /** An encoded record is shorter than 2^63 bytes, so its length survives both
      the 8-byte frame header and the conversion to a signed integer. */
  lemma MarshalLength(r: Record)
    ensures |Marshal(r)| < TWO_63
    ensures |Marshal(r)| >= |PutVarintField(2, r.offset)|
    ensures r == EMPTY.(offset := r.offset) ==> |Marshal(r)| == |PutVarintField(2, r.offset)|
  {
    hide Marshal;
    MarshalIsFields(r);
    VarintFieldLength(2, r.offset);
    VarintFieldLength(3, r.term);
    VarintFieldLength(4, r.kind);
    GetPutVarint(|r.value|, [], 0);
  }

  // --------------------------------------------------------------- requests

  function MarshalRequest(r: Option<Record>): Bytes
    requires r.Some? ==> |Marshal(r.value)| < MAX_SLICE
  {
    match r
    case None => []
    case Some(rec) => PutBytesField(1, Marshal(rec))
  }

  /** Decode a request over what has been seen so far; a record field that
      occurs again is merged into the earlier one. */
  function UnmarshalRequestOver(seen: Option<Record>, s: Bytes): Option<Option<Record>>
    decreases |s|
  {
    if s == [] then Some(seen)
    else
      match NextField(s)
      case BadField => None
      case VarintField(_, _, rest) => UnmarshalRequestOver(seen, rest)
      case OtherField(rest) => UnmarshalRequestOver(seen, rest)
      case BytesField(num, data, rest) =>
        if num != 1 then UnmarshalRequestOver(seen, rest)
        else
          match UnmarshalOver(if seen.Some? then seen.value else EMPTY, data)
          case None => None
          case Some(rec) => UnmarshalRequestOver(Some(rec), rest)
  }

  function UnmarshalRequest(s: Bytes): Option<Option<Record>> {
    UnmarshalRequestOver(None, s)
  }

  lemma UnmarshalMarshalRequest(r: Option<Record>)
    requires r.Some? ==> |Marshal(r.value)| < MAX_SLICE
    ensures UnmarshalRequest(MarshalRequest(r)) == Some(r)
  {
    if r.Some? {
      var m := Marshal(r.value);
      UnmarshalMarshal(r.value);
      NextBytesField(1, m, []);
      assert PutBytesField(1, m) + [] == PutBytesField(1, m);
      assert UnmarshalOver(EMPTY, m) == Some(r.value);
      assert UnmarshalRequestOver(Some(r.value), []) == Some(Some(r.value));
    }
  }
}
