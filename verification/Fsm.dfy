/** The replicated state machine over the log: commands, snapshots and restore. */
module StateMachine {
  import opened Bytes
  import opened RecordCodec
  import opened Layout
  import opened Replay
  import opened Capacity
  import opened FlatLog
  import opened StreamParser
  import CommitLog
  import Snapshots

  // ----------------------------------------------------------------- commands

  const APPEND_REQUEST: Byte := 0

  datatype Response =
    | Produced(offset: nat)
    | Failed    // an error value
    | Ignored   // nil
    | Panicked  // the source indexes an empty command or dereferences a missing record

  datatype Command = Append(record: Record) | Malformed | Unknown | Crash

  /** What a command's bytes ask for. */
  function Decode(data: Bytes): Command {
    if data == [] then Crash
    else if data[0] != APPEND_REQUEST then Unknown
    else
      match UnmarshalRequest(data[1..])
      case None => Malformed
      case Some(None) => Crash
      case Some(Some(record)) => Append(record)
  }

  /** The bytes the leader proposes for an append. */
  function Encode(r: Record): Bytes
    requires |Marshal(r)| < MAX_SLICE
  {
    [APPEND_REQUEST] + MarshalRequest(Some(r))
  }

  /** Every node decodes the command the leader encoded. */
  lemma DecodeEncode(r: Record)
    requires |Marshal(r)| < MAX_SLICE
    ensures Decode(Encode(r)) == Append(r)
  {
    hide MarshalRequest, UnmarshalRequest, Marshal;
    UnmarshalMarshalRequest(Some(r));
    assert Encode(r)[1..] == MarshalRequest(Some(r));
  }

  /** Applying one command. */
  function ApplyOne(l: Limits, segs: seq<Seg>, data: Bytes): (r: (seq<Seg>, Response))
    requires segs != [] && Layout.Next(segs) < TWO_64 - 1
    ensures r.0 != [] && Layout.Next(r.0) <= Layout.Next(segs) + 1
  {
    match Decode(data)
    case Append(record) =>
      (LogAppend(l, segs, record), if AppendOk(l, segs) then Produced(Layout.Next(segs)) else Failed)
    case Malformed => (segs, Failed)
    case Unknown => (segs, Ignored)
    case Crash => (segs, Panicked)
  }

  /** Applying commands in the committed order. */
  function ApplyAll(l: Limits, segs: seq<Seg>, cmds: seq<Bytes>): (r: (seq<Seg>, seq<Response>))
    requires segs != [] && Layout.Next(segs) + |cmds| < TWO_64
    ensures r.0 != [] && Layout.Next(r.0) <= Layout.Next(segs) + |cmds|
    ensures |r.1| == |cmds|
  {
    if cmds == [] then (segs, [])
    else
      var (mid, out) := ApplyAll(l, segs, cmds[..|cmds| - 1]);
      var (segs', resp) := ApplyOne(l, mid, cmds[|cmds| - 1]);
      (segs', out + [resp])
  }

  lemma {:induction false} ApplyAllConcat(l: Limits, segs: seq<Seg>, a: seq<Bytes>, b: seq<Bytes>)
    requires segs != [] && Layout.Next(segs) + |a| + |b| < TWO_64
    ensures var (mid, ra) := ApplyAll(l, segs, a);
            var (end, rb) := ApplyAll(l, mid, b);
            ApplyAll(l, segs, a + b) == (end, ra + rb)
  {
    hide ApplyOne;
    if b == [] {
      assert a + b == a;
      var (mid, ra) := ApplyAll(l, segs, a);
      assert ApplyAll(l, mid, b) == (mid, []);
      assert ra + [] == ra;
    } else {
      var front := b[..|b| - 1];
      assert (a + b)[..|a + b| - 1] == a + front;
      ApplyAllConcat(l, segs, a, front);
      var (mid, ra) := ApplyAll(l, segs, a);
      var (before, rf) := ApplyAll(l, mid, front);
      var resp := ApplyOne(l, before, b[|b| - 1]).1;
      assert ApplyAll(l, segs, a + front) == (before, ra + rf);
      assert (a + b)[|a + b| - 1] == b[|b| - 1];
      assert ApplyAll(l, segs, a + b).1 == (ra + rf) + [resp];
      assert (ra + rf) + [resp] == ra + (rf + [resp]);
    }
  }

  lemma {:induction false} ApplyAllKeepsLayout(l: Limits, segs: seq<Seg>, cmds: seq<Bytes>)
    requires LayoutOk(l, segs) && Layout.Next(segs) + |cmds| < TWO_64
    ensures LayoutOk(l, ApplyAll(l, segs, cmds).0)
    ensures Lowest(ApplyAll(l, segs, cmds).0) == Lowest(segs)
  {
    hide SegOk, Open, AllSealed, Contiguous, LogAppend, AppendOk, Decode;
    if cmds != [] {
      ApplyAllKeepsLayout(l, segs, cmds[..|cmds| - 1]);
      var mid := ApplyAll(l, segs, cmds[..|cmds| - 1]).0;
      var cmd := Decode(cmds[|cmds| - 1]);
      if cmd.Append? {
        AppendKeepsLayout(l, mid, cmd.record);
      }
    }
  }

  // ---------------------------------------------------------------- responses

  // What applying a command does to the flat sequence, as its response tells it.
  ghost predicate Truthful(segs: seq<Seg>, segs': seq<Seg>, data: Bytes, response: Response)
    requires segs != [] && segs' != []
  {
    match response
    case Produced(offset) =>
      && Decode(data).Append?
      && offset == View(segs).Next() < TWO_64
      && View(segs') == View(segs).(records := View(segs).records + [Decode(data).record.(offset := offset)])
    case _ => View(segs') == View(segs)
  }

  /** A response tells what happened: an offset is given exactly when the record is now
      readable there, and an error, nothing or a panic when nothing readable changed. */
  lemma ApplyAnswers(l: Limits, segs: seq<Seg>, data: Bytes)
    requires LayoutOk(l, segs) && Layout.Next(segs) < TWO_64 - 1
    ensures var (segs', response) := ApplyOne(l, segs, data);
            Truthful(segs, segs', data, response) &&
            (response.Produced? <==> |Records(segs')| == |Records(segs)| + 1) &&
            (response.Produced? ==>
               View(segs').Read(response.offset) == Some(Decode(data).record.(offset := response.offset))) &&
            (Decode(data).Append? && !response.Produced? ==> response == Failed)
  {
    hide SegOk, Open, AllSealed, Contiguous, LogAppend, AppendOk, Decode, Records;
    RecordsLength(segs);
    match Decode(data) {
      case Append(record) =>
        AppendRecords(l, segs, record);
        AppendKeepsLayout(l, segs, record);
      case _ =>
    }
  }

  /** What each kind of command is answered with, from its bytes: the source panics on
      no bytes and on a request without a record, ignores any first byte but 0, and
      returns an error for a request that does not decode. */
  lemma ApplyAnswersBytes(l: Limits, segs: seq<Seg>, data: Bytes)
    requires segs != [] && Layout.Next(segs) < TWO_64 - 1
    ensures data == [] ==> ApplyOne(l, segs, data) == (segs, Panicked)
    ensures data != [] && data[0] != 0 ==> ApplyOne(l, segs, data) == (segs, Ignored)
    ensures data != [] && data[0] == 0 && UnmarshalRequest(data[1..]).None? ==> ApplyOne(l, segs, data) == (segs, Failed)
    ensures data != [] && data[0] == 0 && UnmarshalRequest(data[1..]) == Some(None) ==>
              ApplyOne(l, segs, data) == (segs, Panicked)
  {
    hide UnmarshalRequest, LogAppend;
  }

  /** For instance: a lone type byte panics, a cut-off varint is an error. */
  lemma ApplyInstances(l: Limits, segs: seq<Seg>)
    requires segs != [] && Layout.Next(segs) < TWO_64 - 1
    ensures ApplyOne(l, segs, [0]).1 == Panicked && ApplyOne(l, segs, [1]).1 == Ignored
    ensures ApplyOne(l, segs, [0, 8]).1 == Failed
  {
    hide LogAppend;
    assert [0][1..] == [] && UnmarshalRequest([]) == Some(None);
    assert [0, 8][1..] == [8];
    CutOffVarint();
  }

  lemma CutOffVarint()
    ensures UnmarshalRequest([8]) == None
  {
    assert [8][1..] == [];
    assert GetVarint([8], 0) == GoodVarint(8, []);
    assert NextField([8]) == BadField;
  }

  function CountProduced(responses: seq<Response>): nat {
    if responses == [] then 0
    else CountProduced(responses[..|responses| - 1]) + if responses[|responses| - 1].Produced? then 1 else 0
  }

  // What the answers to a run of commands promise.
  ghost predicate AnswersHold(segs': seq<Seg>, cmds: seq<Bytes>, responses: seq<Response>)
    requires segs' != [] && |responses| == |cmds|
  {
    && (forall k | 0 <= k < |cmds| && responses[k].Produced? ::
          Decode(cmds[k]).Append? && responses[k].offset < TWO_64 &&
          View(segs').Read(responses[k].offset) == Some(Decode(cmds[k]).record.(offset := responses[k].offset)))
    && (forall i, k | 0 <= i < k < |cmds| && responses[i].Produced? && responses[k].Produced? ::
          responses[i].offset < responses[k].offset)
  }

  /** Over a whole run of commands: the offsets answered increase, each still holds the
      record of its command at the end, and there is one for every record added. */
  lemma {:induction false} RunAnswers(l: Limits, segs: seq<Seg>, cmds: seq<Bytes>)
    requires LayoutOk(l, segs) && Layout.Next(segs) + |cmds| < TWO_64
    ensures var (segs', responses) := ApplyAll(l, segs, cmds);
            LayoutOk(l, segs') && AnswersHold(segs', cmds, responses) &&
            |Records(segs')| == |Records(segs)| + CountProduced(responses)
  {
    hide SegOk, Open, AllSealed, Contiguous, ApplyOne, Records, Decode;
    ApplyAllKeepsLayout(l, segs, cmds);
    if cmds != [] {
      var n := |cmds| - 1;
      RunAnswers(l, segs, cmds[..n]);
      var (mid, out) := ApplyAll(l, segs, cmds[..n]);
      var (segs', response) := ApplyOne(l, mid, cmds[n]);
      ApplyAllKeepsLayout(l, segs, cmds[..n]);
      RecordsLength(segs');
      ApplyAnswers(l, mid, cmds[n]);
      assert (out + [response])[..n] == out;
      AnswersGrow(mid, segs', cmds, out, response);
    }
  }

  lemma AnswersGrow(mid: seq<Seg>, segs': seq<Seg>, cmds: seq<Bytes>, out: seq<Response>, response: Response)
    requires mid != [] && segs' != [] && cmds != [] && |out| == |cmds| - 1
    requires AnswersHold(mid, cmds[..|cmds| - 1], out) && Truthful(mid, segs', cmds[|cmds| - 1], response)
    requires View(segs').Next() <= TWO_64
    ensures AnswersHold(segs', cmds, out + [response])
  {
    hide Records, Decode, View;
    var all := out + [response];
    forall k | 0 <= k < |cmds| && all[k].Produced?
      ensures Decode(cmds[k]).Append? && all[k].offset < TWO_64
      ensures View(segs').Read(all[k].offset) == Some(Decode(cmds[k]).record.(offset := all[k].offset))
      ensures k < |out| ==> all[k].offset < View(mid).Next()
    {
      if k < |out| {
        assert out[k] == all[k] && cmds[..|cmds| - 1][k] == cmds[k];
      }
    }
  }

  function EncodeAll(rs: seq<Record>): (cmds: seq<Bytes>)
    requires forall k | 0 <= k < |rs| :: |Marshal(rs[k])| < MAX_SLICE
    ensures |cmds| == |rs|
  {
    if rs == [] then [] else EncodeAll(rs[..|rs| - 1]) + [Encode(rs[|rs| - 1])]
  }

  /** A node that applies the commands a leader encoded appends the leader's
      records, and as long as no append fails answers each with its offset. */
  lemma {:induction false} EncodedCommandsAppend(l: Limits, segs: seq<Seg>, rs: seq<Record>)
    requires LayoutOk(l, segs) && Layout.Next(segs) + |rs| < TWO_64
    requires forall k | 0 <= k < |rs| :: |Marshal(rs[k])| < MAX_SLICE
    ensures ApplyAll(l, segs, EncodeAll(rs)).0 == AppendAll(l, segs, rs)
    ensures NoOrphans(AppendAll(l, segs, rs)) ==>
              forall k | 0 <= k < |rs| :: ApplyAll(l, segs, EncodeAll(rs)).1[k] == Produced(Layout.Next(segs) + k)
  {
    hide SegOk, Open, AllSealed, Contiguous, LogAppend, AppendOk, Decode, Encode, Marshal, NoOrphans;
    if rs != [] {
      var front, r := rs[..|rs| - 1], rs[|rs| - 1];
      EncodedCommandsAppend(l, segs, front);
      AppendAllKeepsLayout(l, segs, front);
      AppendSucceeded(l, AppendAll(l, segs, front), r);
      if NoOrphans(AppendAll(l, segs, front)) {
        AppendAllRecords(l, segs, front);
      }
      DecodeEncode(r);
      assert EncodeAll(rs)[..|rs| - 1] == EncodeAll(front);
    }
  }

  // ---------------------------------------------------- snapshot and restore

  // The offsets a restore of these frames assigns stay below 2^64.
  lemma DeliveredFits(l: Limits, segs: seq<Seg>, stream: Bytes)
    requires LayoutOk(l, segs) && Written(segs) != [] && stream == Frames(Written(segs)) && OffsetsFit(stream)
    ensures Lowest(segs) + |Written(segs)| < TWO_64 - 1
  {
    hide SegOk, Open, AllSealed, Contiguous, Frames, Written, NextFrame;
    ParseFrames(Written(segs));
    FirstWritten(l, segs);
    assert NextFrame(stream).Whole?;
    assert LEN_WIDTH * |Parse(stream).records| <= |stream|;
  }

  /** A snapshot taken without appends in between restores to exactly the log it
      was taken from, whatever the target held, if and only if no failed append
      had left a frame behind; otherwise the restore reports an error. */
  lemma SnapshotRestoresIff(l: Limits, source: seq<Seg>, target: seq<Seg>)
    requires LayoutOk(l, source) && target != [] && Written(source) != []
    requires OffsetsFit(StreamBytes(source))
    ensures var run := RestoreRun(l, target, true, StreamBytes(source));
            (run.1 <==> NoOrphans(source)) && (NoOrphans(source) ==> run.0 == source)
  {
    hide SegOk, Open, AllSealed, Contiguous, NoOrphans, RestoreRun, Build, Frames, OffsetsFit, Absorbed;
    var rs := Written(source);
    StreamIsFrames(source);
    ParseFrames(rs);
    DeliveredFits(l, source, StreamBytes(source));
    Canonical(l, source);
    FirstWritten(l, source);
    RestoreIsBuild(l, target, StreamBytes(source));
    if NoOrphans(source) {
      NoneRefused(l, Lowest(source), rs);
    }
  }

  /** The offsets a snapshot's records carry are the ones a restore assigns. */
  lemma SnapshotCarriesOffsets(l: Limits, source: seq<Seg>)
    requires LayoutOk(l, source) && NoOrphans(source) && Lowest(source) + |Written(source)| <= TWO_64
    ensures Parse(StreamBytes(source)) == Parsed(Records(source), true)
    ensures Written(source) == Records(source)
    ensures Renumber(Lowest(source), Records(source)) == Records(source)
  {
    hide SegOk, Open, AllSealed, Contiguous, Frames, Renumber, Records, Written;
    StreamIsFrames(source);
    ParseFrames(Written(source));
    WrittenIsRecords(l, source);
    RecordsCarryOffsets(l, source);
    RenumberIdentity(Lowest(source), Records(source));
  }

  lemma FirstWritten(l: Limits, segs: seq<Seg>)
    requires LayoutOk(l, segs) && Written(segs) != []
    ensures Written(segs)[0].offset == Lowest(segs)
  {
    hide Open, AllSealed, Contiguous, Frames, Records, Written;
    WrittenIsRecords(l, segs);
    RecordsCarryOffsets(l, segs);
    if Records(segs) == [] {
      assert Written(segs)[0] == Last(segs).orphans[0];
    }
  }

  /** A replica that restores a snapshot of a prefix of the commands and applies
      the rest ends with the same segments, hence the same files, offsets and
      records, and gives the same responses as one that applies all of them. The
      restore succeeds unless an append among those of the prefix had failed. */
  lemma ReplicaEquivalence(l: Limits, base: nat, before: seq<Bytes>, after: seq<Bytes>, target: seq<Seg>)
    requires l.Valid() && base + |before| + |after| < TWO_64 - 1 && target != []
    requires var source := ApplyAll(l, [Fresh(base)], before).0;
             Written(source) != [] && OffsetsFit(StreamBytes(source))
    ensures var (source, _) := ApplyAll(l, [Fresh(base)], before);
            var (restored, ok) := RestoreRun(l, target, true, StreamBytes(source));
            (ok <==> NoOrphans(source)) &&
            (ok ==>
               restored == source &&
               var (end, responses) := ApplyAll(l, restored, after);
               ApplyAll(l, [Fresh(base)], before + after).0 == end &&
               ApplyAll(l, [Fresh(base)], before + after).1[|before|..] == responses)
  {
    hide SegOk, Open, AllSealed, Contiguous, NoOrphans, RestoreRun, ApplyOne, StreamBytes, OffsetsFit, Written;
    FreshOk(l, base);
    ApplyAllKeepsLayout(l, [Fresh(base)], before);
    SnapshotRestoresIff(l, ApplyAll(l, [Fresh(base)], before).0, target);
    ApplyAllConcat(l, [Fresh(base)], before, after);
  }

  /** An empty snapshot leaves the target as it is, so the restored replica agrees
      with the source if and only if it was a new log with the same first offset. */
  lemma EmptySnapshotIff(l: Limits, source: seq<Seg>, target: seq<Seg>)
    requires LayoutOk(l, source) && target != [] && Written(source) == []
    ensures OffsetsFit(StreamBytes(source))
    ensures RestoreRun(l, target, true, StreamBytes(source)) == (target, true)
    ensures target == source <==> target == [Fresh(Lowest(source))]
  {
    hide Frames, Written, SegOk, Open, AllSealed, Contiguous;
    StreamIsFrames(source);
    NoFrames();
    EndOfStream();
    NothingWritten(l, source);
  }

  lemma NothingWritten(l: Limits, segs: seq<Seg>)
    requires LayoutOk(l, segs) && Written(segs) == []
    ensures segs == [Fresh(Lowest(segs))]
  {
    hide Written, Records, SegOk, Open, AllSealed, Contiguous, Sealed;
    WrittenIsRecords(l, segs);
    RecordsLength(segs);
    CommitLog.LayoutDistinct(l, segs);
  }

  // ------------------------------- snapshots taken while records are appended

  // The log that consists of the first `n` segments.
  lemma FirstSegments(l: Limits, segs: seq<Seg>, n: nat) returns (t: seq<Seg>)
    requires LayoutOk(l, segs) && 1 <= n <= |segs|
    ensures LayoutOk(l, t) && Lowest(t) == Lowest(segs) && Written(t) == Written(segs[..n])
    ensures NoOrphans(t) <==> segs[n - 1].orphans == []
  {
    hide SegOk, Open, AllSealed, Contiguous, Written, Frames, Sealed;
    if n == |segs| {
      t := segs;
      assert segs[..n] == segs;
    } else {
      var s := segs[n - 1];
      LayoutAt(l, segs, n - 1);
      CommitLog.LayoutDistinct(l, segs);
      Snapshots.SealedNoOrphans(l, s);
      t := segs[..n] + [Fresh(s.Next())];
      FreshSegOk(l, s);
      ContiguousPrefix(segs, n);
      AddLast(segs[..n], Fresh(s.Next()));
      Snapshots.PrefixSealed(l, segs[..|segs| - 1], n);
      assert segs[..|segs| - 1][..n] == segs[..n] == t[..|t| - 1];
      SnocLast(t);
    }
  }

  /** Restoring what a reader delivered while records were appended succeeds if and
      only if at its last read no append to the last of its stores had failed, and
      then gives the log the source would be had it stopped after those frames. */
  lemma ConcurrentSnapshotRestores(l: Limits, segs: seq<Seg>, events: seq<Snapshots.Event>, target: seq<Seg>)
    returns (j: nat, k: nat)
    requires LayoutOk(l, segs) && target != [] && Layout.Next(segs) + |events| < TWO_64
    requires var s := Snapshots.Interleave(l, Snapshots.Start(segs), events);
             s.cur == |segs| && s.sink != [] && OffsetsFit(s.sink)
    ensures Snapshots.LastRead(l, segs, events, k)
    ensures var s := Snapshots.Interleave(l, Snapshots.Start(segs), events);
            var run := RestoreRun(l, target, true, s.sink);
            |Written(segs)| <= j <= |Written(s.segs)| && Lowest(segs) + j < TWO_64 - 1 &&
            (j == |Written(segs)| <==> Snapshots.Appends(events[..k]) == []) &&
            var rs := Written(s.segs)[..j];
            (run.1 <==> Snapshots.LogAfter(l, segs, events, k)[|segs| - 1].orphans == []) &&
            (run.1 <==> NoOrphans(Build(l, Lowest(segs), rs))) &&
            (run.1 ==> run.0 == Build(l, Lowest(segs), rs))
  {
    hide SegOk, Open, AllSealed, Contiguous, Records, Written, Frames, Snapshots.Interleave, Parse, RestoreRun, Build,
         NoOrphans, OffsetsFit, Snapshots.LogAfter, StreamBytes, Snapshots.Appends;
    j, k := Snapshots.SnapshotUnderAppends(l, segs, events);
    var s := Snapshots.Interleave(l, Snapshots.Start(segs), events);
    var moment := Snapshots.LogAfter(l, segs, events, k);
    NoFrames();
    Snapshots.LogAfterOk(l, segs, events, k);
    var t := FirstSegments(l, moment, |segs|);
    StreamIsFrames(t);
    DeliveredFits(l, t, s.sink);
    SnapshotRestoresIff(l, t, target);
    Canonical(l, t);
  }

  /** A replica that restores such a snapshot and then applies what was committed
      since the reader was made ends where the source is if and only if nothing was
      appended before the reader's last read: every frame it picked up beyond those
      there at its start is written twice. */
  lemma LateRecordsAreAppliedTwice(l: Limits, segs: seq<Seg>, events: seq<Snapshots.Event>, target: seq<Seg>)
    returns (j: nat, k: nat)
    requires LayoutOk(l, segs) && target != [] && Layout.Next(segs) + |events| < TWO_64
    requires var s := Snapshots.Interleave(l, Snapshots.Start(segs), events);
             s.cur == |segs| && s.sink != [] && OffsetsFit(s.sink) &&
             Lowest(segs) + |Written(s.segs)| + |events| < TWO_64
    ensures Snapshots.LastRead(l, segs, events, k)
    ensures var s := Snapshots.Interleave(l, Snapshots.Start(segs), events);
            var run := RestoreRun(l, target, true, s.sink);
            run.1 ==>
              Layout.Next(run.0) + |Snapshots.Appends(events)| < TWO_64 &&
              var end := AppendAll(l, run.0, Snapshots.Appends(events));
              |Written(segs)| <= j && |Written(end)| == |Written(s.segs)| + (j - |Written(segs)|) &&
              (end == s.segs <==> Snapshots.Appends(events[..k]) == [])
  {
    hide SegOk, Open, AllSealed, Contiguous, Records, Written, Frames, Snapshots.Interleave, RestoreRun, AppendAll,
         NoOrphans, OffsetsFit, Snapshots.LogAfter, Snapshots.Appends;
    j, k := ConcurrentSnapshotRestores(l, segs, events, target);
    var s := Snapshots.Interleave(l, Snapshots.Start(segs), events);
    var run := RestoreRun(l, target, true, s.sink);
    Snapshots.InterleaveAppends(l, Snapshots.Start(segs), events);
    Snapshots.WrittenGrows(l, segs, Snapshots.Appends(events));
    if run.1 {
      var rs := Written(s.segs)[..j];
      BuildOk(l, Lowest(segs), rs);
      BuiltWritten(l, Lowest(segs), rs);
      BuiltNext(l, Lowest(segs), rs);
      Snapshots.WrittenGrows(l, run.0, Snapshots.Appends(events));
      if Snapshots.Appends(events[..k]) == [] {
        Canonical(l, segs);
      }
    }
  }

  lemma BuiltNext(l: Limits, base: nat, rs: seq<Record>)
    requires base + |rs| < TWO_64
    ensures Layout.Next(Build(l, base, rs)) <= base + |rs|
  {
    hide AppendAll;
  }

  /** For instance on a new log: a record is appended, then the reader makes its only
      read. The replica ends with two frames where the source has one. */
  lemma LateRecordInput(target: seq<Seg>)
    requires target != []
    ensures var l := Limits(1024, 1020);
            var events := [Snapshots.Appended(EMPTY), Snapshots.Pulled(100)];
            var s := Snapshots.Interleave(l, Snapshots.Start([Fresh(0)]), events);
            s.cur == 1 && s.sink == Frame(EMPTY) && |Written(s.segs)| == 1 && OffsetsFit(s.sink) &&
            var run := RestoreRun(l, target, true, s.sink);
            run == (s.segs, true) &&
            |Written(AppendAll(l, run.0, Snapshots.Appends(events)))| == 2
  {
    hide Frames, Frame, Snapshots.Interleave, RestoreRun, OffsetsFit, LogAppend, LayoutOk, NoOrphans, Written;
    var l, start := Limits(1024, 1020), Snapshots.Start([Fresh(0)]);
    var events := [Snapshots.Appended(EMPTY), Snapshots.Pulled(100)];
    var segs := [Seg(0, [EMPTY], [])];
    OneEmptyRecord();
    AppendAllOne(l, [Fresh(0)], EMPTY);
    BuildOk(l, 0, [EMPTY]);
    BuiltWritten(l, 0, [EMPTY]);
    assert events[..0] == [] && events[..1] == [events[0]] && events[..2] == events;
    Snapshots.NoEvents(l, start);
    Snapshots.OneMore(l, start, events, 0);
    Snapshots.OneMore(l, start, events, 1);
    OneFrame(segs[0]);
    OneFrameStream(segs);
    assert Snapshots.Interleave(l, start, events) ==
           Snapshots.Pull(Snapshots.Snap(segs, 1, 0, 0, []), 100);
    NoneOfOne(segs);
    SnapshotRestoresIff(l, segs, target);
    assert Snapshots.Appends(events[..1]) == [EMPTY] && Snapshots.Appends(events) == [EMPTY];
    Snapshots.WrittenGrows(l, segs, [EMPTY]);
  }

  lemma NoneOfOne(segs: seq<Seg>)
    requires |segs| == 1 && segs[0].orphans == []
    ensures NoOrphans(segs)
  {
  }

  lemma OneFrame(s: Seg)
    requires s == Seg(0, [EMPTY], [])
    ensures s.StoreBytes() == Frame(EMPTY) && |Frame(EMPTY)| == LEN_WIDTH
  {
    hide Frame;
    assert s.records + s.orphans == [EMPTY];
    FramesOne(EMPTY);
    ShortestFrameBound(EMPTY);
  }

  lemma OneFrameStream(segs: seq<Seg>)
    requires segs == [Seg(0, [EMPTY], [])]
    ensures StreamBytes(segs) == Frame(EMPTY) && OffsetsFit(Frame(EMPTY))
  {
    hide Frame, Frames, NextFrame;
    OneFrame(segs[0]);
    assert segs[..0] == [];
    FrameNext(EMPTY, []);
    assert Frame(EMPTY) + [] == Frame(EMPTY);
  }

  // ---------------------------------------------------------------- the class

  class Fsm {
    const log: CommitLog.Log

    constructor (log: CommitLog.Log)
      ensures this.log == log
    {
      this.log := log;
    }

    /** Dispatch one committed command. */
    method Apply(data: Bytes) returns (response: Response)
      requires log.Valid() && Layout.Next(log.view) < TWO_64 - 1
      modifies log.Repr
      ensures log.Valid() && fresh(log.Repr - old(log.Repr))
      ensures (log.view, response) == ApplyOne(log.limits, old(log.view), data)
    {
      hide SegOk, Open, AllSealed, Contiguous, CommitLog.Log.Parts, CommitLog.Names, UnmarshalRequest, LogAppend;
      if data == [] {
        return Panicked;
      }
      if data[0] != APPEND_REQUEST {
        return Ignored;
      }
      var request := UnmarshalRequest(data[1..]);
      if request.None? {
        return Failed;
      }
      if request.value.None? {
        return Panicked;
      }
      var off := log.Append(request.value.value);
      if off.None? {
        return Failed;
      }
      return Produced(off.value);
    }

    // Read a header, then as many payload bytes as it asks for, then decode.
    method ReadFrame(stream: Bytes) returns (step: Step)
      ensures step == NextFrame(stream)
    {
      hide GetUint, Unmarshal;
      if |stream| == 0 {
        return End;
      }
      if |stream| < LEN_WIDTH {
        return Torn;
      }
      var header, body := stream[..LEN_WIDTH], stream[LEN_WIDTH..];
      var size := PayloadSize(GetUint(header));
      if |body| < size {
        return Torn;
      }
      assert body[..size] == stream[LEN_WIDTH..LEN_WIDTH + size];
      assert body[size..] == stream[LEN_WIDTH + size..];
      var decoded := Unmarshal(body[..size]);
      if decoded.None? {
        return Undecodable;
      }
      return Whole(decoded.value, body[size..]);
    }

    /** Replace the log by what a snapshot stream holds. With `repaired` the reset
        is the intended one and the result is `RestoreRun`; with the reset as the
        source has it, restoring anything but the empty stream fails. */
    method Restore(stream: Bytes, repaired: bool) returns (ok: bool)
      requires log.Valid() && OffsetsFit(stream)
      modifies log.Repr
      ensures repaired ==> log.Valid() && fresh(log.Repr - old(log.Repr))
      ensures repaired ==> (log.view, ok) == RestoreRun(log.limits, old(log.view), true, stream)
      ensures !repaired ==> (ok <==> stream == [])
      ensures stream == [] ==> log.Valid() && log.view == old(log.view)
      ensures !repaired && NextFrame(stream).Whole? ==> log.dir.files == map[] && !log.dir.present
    {
      hide SegOk, Open, AllSealed, Contiguous, CommitLog.Log.Parts, CommitLog.Names, NextFrame, LogAppend;
      var rest, first := stream, true;
      while true
        invariant log.Valid() && fresh(log.Repr - old(log.Repr))
        invariant first ==> rest == stream && log.view == old(log.view)
        invariant !first ==> repaired && Layout.Next(log.view) + |rest| < TWO_64 - 1
        invariant RestoreRun(log.limits, old(log.view), true, stream) ==
                  RestoreRun(log.limits, log.view, first, rest)
        decreases |rest|
      {
        var step := ReadFrame(rest);
        match step {
          case End => return true;
          case Torn => return false;
          case Undecodable => return false;
          case Whole(_, _) =>
        }
        var record := step.record;
        if first {
          log.SetInitialOffset(record.offset);
          if !repaired {
            var done := log.Reset();
            return done;
          }
          log.ResetRepaired();
        }
        var off := log.Append(record);
        if off.None? {
          return false;
        }
        rest, first := step.rest, false;
      }
    }
  }

  /** Snapshot a log and restore it into another node's, with the copy and the reset
      that are meant: the restore succeeds if
      and only if the source holds no frame of a failed append, and then the two
      logs are the same, segment by segment. */
  method TransferSnapshot(source: CommitLog.Log, target: Fsm, chunk: nat) returns (ok: bool)
    requires source.Valid() && target.log.Valid() && source.Repr !! target.log.Repr && chunk > 0
    requires source.limits == target.log.limits && Written(source.view) != []
    requires OffsetsFit(StreamBytes(source.view))
    modifies source.Repr, target.log.Repr
    ensures source.Valid() && source.view == old(source.view) && target.log.Valid()
    ensures ok <==> NoOrphans(source.view)
    ensures ok ==> target.log.view == source.view
  {
    hide SegOk, Open, AllSealed, Contiguous, NoOrphans, RestoreRun, OffsetsFit, Written, StreamBytes,
         CommitLog.Log.Parts, CommitLog.Names;
    SnapshotRestoresIff(source.limits, source.view, target.log.view);
    var stream := Snapshots.PersistRepaired(source, chunk);
    assert target.log.Valid();
    ok := target.Restore(stream, true);
  }

  /** The same as the source does it, from a log whose files were all created since it
      was opened: nothing is copied and nothing restored, no error is reported, and
      the target keeps what it had. */
  method TransferAsWritten(source: CommitLog.Log, target: Fsm) returns (ok: bool)
    requires source.Valid() && target.log.Valid() && source.Repr !! target.log.Repr
    requires source.MadeHere(source.segments)
    modifies source.Repr, target.log.Repr
    ensures source.Valid() && source.view == old(source.view)
    ensures ok && target.log.Valid() && target.log.view == old(target.log.view)
  {
    hide SegOk, Open, AllSealed, Contiguous, Frames, StreamBytes, CommitLog.Log.Parts, CommitLog.Log.MadeHere,
         CommitLog.Names;
    var stream := Snapshots.Persist(source);
    assert target.log.Valid();
    EndOfStream();
    ok := target.Restore(stream, false);
  }
}
