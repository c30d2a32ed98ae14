/** A snapshot stream, and how restoring reads it back. */
module StreamParser {
  import opened Bytes
  import opened RecordCodec
  import opened Layout
  import opened Replay
  import opened Capacity
  import Recovery

  /** How many payload bytes a header asks for. The size is converted to a signed
      integer; a negative count copies nothing and is no error. */
  function PayloadSize(size: nat): nat {
    if size < TWO_63 then size else 0
  }

  datatype Step = End | Torn | Undecodable | Whole(record: Record, rest: Bytes)

  /** The next frame of a stream. */
  function NextFrame(stream: Bytes): (s: Step)
    ensures s.Whole? ==> |s.rest| + LEN_WIDTH <= |stream|
    ensures s.End? <==> stream == []
  {
    if stream == [] then End
    else if |stream| < LEN_WIDTH then Torn
    else
      var size := PayloadSize(GetUint(stream[..LEN_WIDTH]));
      if LEN_WIDTH + size > |stream| then Torn
      else
        match Unmarshal(stream[LEN_WIDTH..LEN_WIDTH + size])
        case None => Undecodable
        case Some(record) => Whole(record, stream[LEN_WIDTH + size..])
  }

  datatype Parsed = Parsed(records: seq<Record>, clean: bool)

  /** The records of all frames before the first problem, and whether the stream
      ended without one. */
  function Parse(stream: Bytes): (p: Parsed)
    ensures LEN_WIDTH * |p.records| <= |stream|
    decreases |stream|
  {
    match NextFrame(stream)
    case End => Parsed([], true)
    case Torn => Parsed([], false)
    case Undecodable => Parsed([], false)
    case Whole(record, rest) =>
      var p := Parse(rest);
      Parsed([record] + p.records, p.clean)
  }

  // ------------------------------------------------ what a clean stream is

  /** One complete frame whose payload decodes. */
  ghost predicate IsFrame(f: Bytes) {
    && |f| >= LEN_WIDTH
    && |f| == LEN_WIDTH + PayloadSize(GetUint(f[..LEN_WIDTH]))
    && Unmarshal(f[LEN_WIDTH..]).Some?
  }

  function Flatten(frames: seq<Bytes>): Bytes {
    if frames == [] then [] else frames[0] + Flatten(frames[1..])
  }

  ghost predicate WholeFrames(frames: seq<Bytes>, stream: Bytes) {
    (forall i | 0 <= i < |frames| :: IsFrame(frames[i])) && Flatten(frames) == stream
  }

  lemma FrameFirst(f: Bytes, rest: Bytes)
    requires IsFrame(f)
    ensures NextFrame(f + rest) == Whole(Unmarshal(f[LEN_WIDTH..]).value, rest)
  {
    hide Unmarshal, GetUint;
    var stream := f + rest;
    assert stream[..LEN_WIDTH] == f[..LEN_WIDTH];
    assert stream[LEN_WIDTH..|f|] == f[LEN_WIDTH..];
    assert stream[|f|..] == rest;
  }

  lemma WholeSplits(stream: Bytes) returns (f: Bytes)
    requires NextFrame(stream).Whole?
    ensures IsFrame(f) && stream == f + NextFrame(stream).rest
  {
    hide Unmarshal, GetUint;
    f := stream[..LEN_WIDTH + PayloadSize(GetUint(stream[..LEN_WIDTH]))];
    assert f[..LEN_WIDTH] == stream[..LEN_WIDTH];
    assert f[LEN_WIDTH..] == stream[LEN_WIDTH..|f|];
  }

  lemma {:induction false} WholeFramesParse(frames: seq<Bytes>)
    requires forall i | 0 <= i < |frames| :: IsFrame(frames[i])
    ensures Parse(Flatten(frames)).clean && |Parse(Flatten(frames)).records| == |frames|
  {
    hide IsFrame, NextFrame;
    if frames == [] {
      EndOfStream();
    } else {
      FrameFirst(frames[0], Flatten(frames[1..]));
      WholeFramesParse(frames[1..]);
    }
  }

  lemma EndOfStream()
    ensures NextFrame([]) == End
  {
  }

  lemma {:induction false} CleanIsWholeFrames(stream: Bytes) returns (frames: seq<Bytes>)
    requires Parse(stream).clean
    ensures WholeFrames(frames, stream)
    decreases |stream|
  {
    hide IsFrame;
    match NextFrame(stream) {
      case Whole(record, rest) =>
        var f := WholeSplits(stream);
        var more := CleanIsWholeFrames(rest);
        frames := [f] + more;
        assert frames[1..] == more;
      case _ =>
        frames := [];
    }
  }

  /** A stream is parsed without a problem exactly when it is a whole number of
      frames with decodable payloads. */
  lemma CleanIff(stream: Bytes)
    ensures Parse(stream).clean <==> exists frames :: WholeFrames(frames, stream)
  {
    hide Parse, IsFrame, Flatten;
    if Parse(stream).clean {
      var frames := CleanIsWholeFrames(stream);
    }
    forall frames | WholeFrames(frames, stream)
      ensures Parse(stream).clean
    {
      WholeFramesParse(frames);
    }
  }

  lemma FrameNext(r: Record, rest: Bytes)
    ensures NextFrame(Frame(r) + rest) == Whole(r, rest)
  {
    hide Marshal, Unmarshal, GetUint, PutUint;
    FrameSize(r);
    UnmarshalMarshal(r);
    FrameFirst(Frame(r), rest);
  }

  /** What was written is what is read: a stream of frames parses to its records. */
  lemma {:induction false} ParseFrames(rs: seq<Record>)
    ensures Parse(Frames(rs)) == Parsed(rs, true)
  {
    hide Frame, Frames, NextFrame;
    if rs == [] {
      NoFrames();
      EndOfStream();
    } else {
      Recovery.FramesUncons(rs);
      FrameNext(rs[0], Frames(rs[1..]));
      ParseFrames(rs[1..]);
      assert rs == [rs[0]] + rs[1..];
    }
  }

  lemma NoFrames()
    ensures Frames([]) == []
  {
  }

  // ---------------------------------------------------------------- restoring

  function FirstOffset(stream: Bytes): Uint64 {
    match NextFrame(stream)
    case Whole(record, _) => record.offset
    case _ => 0
  }

  // The offsets a restore assigns stay below 2^64.
  predicate OffsetsFit(stream: Bytes) {
    FirstOffset(stream) + |stream| < TWO_64 - 1
  }

  /** The restore loop: the first record resets the log to its offset, every
      record is appended, the first problem ends it. */
  function RestoreRun(l: Limits, segs: seq<Seg>, first: bool, stream: Bytes): (r: (seq<Seg>, bool))
    requires segs != []
    requires if first then OffsetsFit(stream) else Layout.Next(segs) + |stream| < TWO_64 - 1
    ensures r.0 != []
    decreases |stream|
  {
    match NextFrame(stream)
    case End => (segs, true)
    case Torn => (segs, false)
    case Undecodable => (segs, false)
    case Whole(record, rest) =>
      var start := if first then [Fresh(record.offset)] else segs;
      var next := LogAppend(l, start, record);
      if AppendOk(l, start) then RestoreRun(l, next, false, rest) else (next, false)
  }

  // Appending record by record, as far as that goes.
  lemma {:induction false} RestoreTail(l: Limits, segs: seq<Seg>, stream: Bytes)
    requires LayoutOk(l, segs) && NoOrphans(segs) && Layout.Next(segs) + |stream| < TWO_64 - 1
    ensures var p := Parse(stream);
            var run := RestoreRun(l, segs, false, stream);
            run.0 == AppendAll(l, segs, p.records[..Absorbed(l, segs, p.records)]) &&
            (run.1 <==> p.clean && NoOrphans(AppendAll(l, segs, p.records)))
    decreases |stream|
  {
    hide SegOk, Open, AllSealed, Contiguous, LogAppend, NoOrphans, AppendAll, AppendOk;
    match NextFrame(stream) {
      case Whole(record, rest) =>
        var tail := Parse(rest).records;
        var rs := [record] + tail;
        var next := LogAppend(l, segs, record);
        AppendKeepsLayout(l, segs, record);
        AppendSucceeded(l, segs, record);
        assert rs[1..] == tail;
        AppendAllFirst(l, segs, rs);
        if AppendOk(l, segs) {
          RestoreTail(l, next, rest);
          var n := Absorbed(l, next, tail);
          AppendAllFirst(l, segs, rs[..1 + n]);
          assert rs[..1 + n][1..] == tail[..n];
        } else {
          OrphansStay(l, next, tail);
          assert rs[..1] == [record];
          AppendAllOne(l, segs, record);
        }
      case _ =>
        AppendAllNone(l, segs);
    }
  }

  /** Restoring a stream with at least one frame builds a log from the offset of the
      first record: the records before the first problem, up to and including the
      first whose append is refused. It succeeds exactly when the stream is clean and
      no append fails. A stream without a frame changes nothing. */
  lemma RestoreIsBuild(l: Limits, segs: seq<Seg>, stream: Bytes)
    requires l.Valid() && segs != [] && OffsetsFit(stream)
    ensures var p := Parse(stream);
            var run := RestoreRun(l, segs, true, stream);
            if p.records == [] then run == (segs, p.clean)
            else
              p.records[0].offset + |p.records| < TWO_64 &&
              var base := p.records[0].offset;
              run.0 == Build(l, base, p.records[..Absorbed(l, [Fresh(base)], p.records)]) &&
              (run.1 <==> p.clean && NoOrphans(Build(l, base, p.records)))
  {
    hide SegOk, Open, AllSealed, Contiguous, LogAppend, NoOrphans, AppendAll, AppendOk;
    match NextFrame(stream) {
      case Whole(record, rest) =>
        var start := [Fresh(record.offset)];
        var tail := Parse(rest).records;
        var rs := [record] + tail;
        FreshOk(l, record.offset);
        NewHasNone(record.offset);
        AppendKeepsLayout(l, start, record);
        AppendSucceeded(l, start, record);
        var next := LogAppend(l, start, record);
        assert rs[1..] == tail;
        AppendAllFirst(l, start, rs);
        if AppendOk(l, start) {
          RestoreTail(l, next, rest);
          var n := Absorbed(l, next, tail);
          AppendAllFirst(l, start, rs[..1 + n]);
          assert rs[..1 + n][1..] == tail[..n];
        } else {
          OrphansStay(l, next, tail);
          assert rs[..1] == [record];
          AppendAllOne(l, start, record);
        }
      case _ =>
    }
  }

  // No append fails while the records of the stream are replayed.
  ghost predicate ReplayFits(l: Limits, stream: Bytes) {
    var rs := Parse(stream).records;
    rs != [] ==> FirstOffset(stream) + |rs| < TWO_64 && NoOrphans(Build(l, FirstOffset(stream), rs))
  }

  lemma NoneRefused(l: Limits, base: nat, rs: seq<Record>)
    requires l.Valid() && base + |rs| < TWO_64 && NoOrphans(Build(l, base, rs))
    ensures rs[..Absorbed(l, [Fresh(base)], rs)] == rs
  {
    hide SegOk, Open, AllSealed, Contiguous, NoOrphans, LogAppend, Absorbed, AppendOk;
    if rs != [] {
      FreshOk(l, base);
      NewHasNone(base);
      BuildOk(l, base, rs[..|rs| - 1]);
      AppendSucceeded(l, Build(l, base, rs[..|rs| - 1]), rs[|rs| - 1]);
      AllAbsorbedIff(l, [Fresh(base)], rs);
    }
  }

  /** Restoring succeeds exactly when the bytes are a whole number of decodable
      frames and no append fails. On a torn stream the complete frames before the
      tear are in the log, up to and including the first that is refused: all of them
      if and only if none but perhaps the last is. */
  lemma RestoreIsParser(l: Limits, segs: seq<Seg>, stream: Bytes)
    requires l.Valid() && segs != [] && OffsetsFit(stream)
    ensures var run := RestoreRun(l, segs, true, stream);
            (run.1 <==> (exists frames :: WholeFrames(frames, stream)) && ReplayFits(l, stream)) &&
            var rs, base := Parse(stream).records, FirstOffset(stream);
            (rs == [] ==> run.0 == segs) &&
            (rs != [] ==>
               base + |rs| < TWO_64 &&
               run.0 == Build(l, base, rs[..Absorbed(l, [Fresh(base)], rs)]) &&
               (run.0 == Build(l, base, rs) <==> NoOrphans(Build(l, base, rs[..|rs| - 1]))))
  {
    hide SegOk, Open, AllSealed, Contiguous, NoOrphans, RestoreRun, AppendAll, WholeFrames, Absorbed, Parse;
    RestoreIsBuild(l, segs, stream);
    CleanIff(stream);
    FirstIsFirst(stream);
    var rs := Parse(stream).records;
    if rs != [] {
      WholeIffAccepted(l, FirstOffset(stream), rs);
    }
  }

  lemma WholeIffAccepted(l: Limits, base: nat, rs: seq<Record>)
    requires l.Valid() && base + |rs| < TWO_64 && rs != []
    ensures Build(l, base, rs[..Absorbed(l, [Fresh(base)], rs)]) == Build(l, base, rs) <==>
            NoOrphans(Build(l, base, rs[..|rs| - 1]))
  {
    hide SegOk, Open, AllSealed, Contiguous, NoOrphans, AppendAll, Absorbed;
    FreshOk(l, base);
    NewHasNone(base);
    AllAbsorbedIff(l, [Fresh(base)], rs);
    var n := Absorbed(l, [Fresh(base)], rs);
    BuiltWritten(l, base, rs);
    BuiltWritten(l, base, rs[..n]);
    assert n == |rs| ==> rs[..n] == rs;
  }

  // A log that was built holds as many frames as were appended.
  lemma {:induction false} BuiltWritten(l: Limits, base: nat, rs: seq<Record>)
    requires l.Valid() && base + |rs| < TWO_64
    ensures |Written(Build(l, base, rs))| == |rs|
  {
    hide SegOk, Open, AllSealed, Contiguous, LogAppend, Written;
    if rs == [] {
      NewHoldsNothing(base);
    } else {
      var front := rs[..|rs| - 1];
      BuiltWritten(l, base, front);
      BuildOk(l, base, front);
      AppendWritten(l, Build(l, base, front), rs[|rs| - 1]);
    }
  }

  /** What a restore of some frames gives, wherever they were copied from: their
      records under consecutive offsets from that of the first, which are the offsets
      they carried exactly when none is missing in between. */
  lemma RestoreOfFrames(l: Limits, segs: seq<Seg>, rs: seq<Record>)
    requires l.Valid() && segs != [] && rs != [] && OffsetsFit(Frames(rs))
    ensures var run, base := RestoreRun(l, segs, true, Frames(rs)), rs[0].offset;
            base + |rs| < TWO_64 &&
            run.0 == Build(l, base, rs[..Absorbed(l, [Fresh(base)], rs)]) &&
            (run.1 <==> NoOrphans(Build(l, base, rs))) &&
            (run.1 ==> Records(run.0) == Renumber(base, rs)) &&
            (run.1 ==> (Records(run.0) == rs <==> forall k | 0 <= k < |rs| :: rs[k].offset == base + k))
  {
    hide SegOk, Open, AllSealed, Contiguous, NoOrphans, RestoreRun, AppendAll, Absorbed, Frames, Records, Renumber,
         OffsetsFit;
    ParseFrames(rs);
    RestoreIsBuild(l, segs, Frames(rs));
    var base := rs[0].offset;
    if NoOrphans(Build(l, base, rs)) {
      NoneRefused(l, base, rs);
      FreshOk(l, base);
      AppendAllRecords(l, [Fresh(base)], rs);
      NewHoldsNothing(base);
      assert Records([Fresh(base)]) + Renumber(base, rs) == Renumber(base, rs);
      if Renumber(base, rs) == rs {
        forall k | 0 <= k < |rs|
          ensures rs[k].offset == base + k
        {
          RenumberAt(base, rs, k);
        }
      } else if forall k | 0 <= k < |rs| :: rs[k].offset == base + k {
        RenumberIdentity(base, rs);
        assert false;
      }
    }
  }

  // ------------------------------------------------ a restore that stops early

  /** Frames and something after them parse one after the other. */
  lemma {:induction false} ParseAfterFrames(rs: seq<Record>, tail: Bytes)
    ensures Parse(Frames(rs) + tail) == Parsed(rs + Parse(tail).records, Parse(tail).clean)
  {
    hide Frame, Frames, NextFrame;
    if rs == [] {
      NoFrames();
      assert Frames(rs) + tail == tail;
    } else {
      Recovery.FramesUncons(rs);
      assert Frames(rs) + tail == Frame(rs[0]) + (Frames(rs[1..]) + tail);
      FrameNext(rs[0], Frames(rs[1..]) + tail);
      ParseAfterFrames(rs[1..], tail);
      assert [rs[0]] + (rs[1..] + Parse(tail).records) == rs + Parse(tail).records;
    }
  }

  /** Nothing behind a payload that does not decode is looked at, nor behind a tear. */
  lemma StopsAtTheFirstProblem(rs: seq<Record>, bad: Bytes, rest: Bytes)
    requires |bad| < TWO_63 && Unmarshal(bad) == None
    ensures Parse(Frames(rs) + (PutUint(|bad|, 8) + bad + rest)) == Parsed(rs, false)
    ensures 0 < |rest| < 8 ==> Parse(Frames(rs) + rest) == Parsed(rs, false)
  {
    hide Frames, Unmarshal, PutUint, GetUint;
    var tail := PutUint(|bad|, 8) + bad + rest;
    Pow256Widths();
    GetPutUint(|bad|, 8);
    assert tail[..8] == PutUint(|bad|, 8) && tail[8..8 + |bad|] == bad;
    assert Parse(tail) == Parsed([], false);
    ParseAfterFrames(rs, tail);
    assert rs + [] == rs;
    if 0 < |rest| < 8 {
      ParseAfterFrames(rs, rest);
      assert Parse(rest) == Parsed([], false);
    }
  }

  lemma {:induction false} EmptyRecordsFrames(n: nat)
    ensures |Frames(EmptyRecords(n))| == LEN_WIDTH * n
    ensures n > 0 ==> EmptyRecords(n)[0] == EMPTY
  {
    hide Frame;
    if n > 0 {
      EmptyRecordsFrames(n - 1);
      assert EmptyRecords(n)[..n - 1] == EmptyRecords(n - 1);
      ShortestFrameBound(EMPTY);
    }
  }

  lemma {:induction false} EmptyRecordsPrefix(n: nat, m: nat)
    requires m <= n
    ensures EmptyRecords(n)[..m] == EmptyRecords(m)
  {
    if m < n {
      EmptyRecordsPrefix(n - 1, m);
      assert EmptyRecords(n)[..m] == EmptyRecords(n - 1)[..m];
    }
  }

  /** Under the default limits a torn stream of `n` empty records, more than 86 of
      them, leaves 86 frames. */
  lemma TornRestoreStopsEarly(segs: seq<Seg>, n: nat)
    requires segs != [] && 86 < n < TWO_32
    ensures var stream := Frames(EmptyRecords(n)) + [0];
            OffsetsFit(stream) && Parse(stream) == Parsed(EmptyRecords(n), false) &&
            RestoreRun(DEFAULT_LIMITS, segs, true, stream) == (Build(DEFAULT_LIMITS, 0, EmptyRecords(86)), false)
  {
    hide Frames, RestoreRun, AppendAll, NoOrphans, Absorbed, LayoutOk, EmptyRecords, LeastBytes, NextFrame;
    var rs, l := EmptyRecords(n), DEFAULT_LIMITS;
    var stream := Frames(rs) + [0];
    EmptyRecordsFrames(n);
    OneByteIsTorn();
    ParseAfterFrames(rs, [0]);
    assert rs + [] == rs;
    FirstIsFirst(stream);
    DefaultsStick();
    EmptyRecordsPrefix(n, 85);
    EmptyRecordsPrefix(n, 86);
    FreshOk(l, 0);
    NewHasNone(0);
    EmptyRecordsAccepted();
    AbsorbedAt(l, [Fresh(0)], rs, 85);
    RestoreIsBuild(l, segs, stream);
  }

  lemma OneByteIsTorn()
    ensures Parse([0]) == Parsed([], false)
  {
  }

  lemma FirstIsFirst(stream: Bytes)
    ensures Parse(stream).records != [] ==> FirstOffset(stream) == Parse(stream).records[0].offset
  {
    hide NextFrame;
  }

  lemma EmptyRecordsAccepted()
    ensures NoOrphans(Build(DEFAULT_LIMITS, 0, EmptyRecords(85)))
  {
    hide LeastBytes, Build, Frames;
    DefaultsStick();
    EmptyRecordsFill(DEFAULT_LIMITS, 0, 85);
  }

  /** None fails under limits that never stick, nor when `f` bytes a frame fill the
      store before the index and every record of the stream has as many. */
  lemma ReplayAlwaysFits(l: Limits, stream: Bytes, f: nat)
    requires l.Valid() && OffsetsFit(stream)
    requires (FirstOffset(stream) + IndexSlots(l) <= TWO_64 && NeverSticks(l, FirstOffset(stream))) ||
             (IndexSlots(l) * f >= l.maxStore &&
              AllFramesAtLeast(Parse(stream).records, f))
    ensures ReplayFits(l, stream)
  {
    hide SegOk, Open, AllSealed, Contiguous, NoOrphans, Build, NeverSticks, AllFramesAtLeast;
    var rs := Parse(stream).records;
    if rs != [] {
      var base := FirstOffset(stream);
      assert LEN_WIDTH * |rs| <= |stream|;
      if base + IndexSlots(l) <= TWO_64 && NeverSticks(l, base) {
        BuildOk(l, base, rs);
        AppendNeverFails(l, Build(l, base, rs), base);
      } else {
        LargeFramesNeverFail(l, base, rs, f);
      }
    }
  }
}
