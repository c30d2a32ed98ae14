/** The server's produce and consume streams over one log. */
module Streams {
  import opened Bytes
  import opened RecordCodec
  import opened Layout
  import opened Replay
  import opened Capacity
  import opened FlatLog
  import CommitLog

  // ---------------------------------------------------------- a single stream

  /** The consume loop until the stream's context is done, `polls` rounds later, while
      nobody appends: each round sends the record at the offset, if there is one. */
  method ConsumeStream(log: CommitLog.Log, start: Uint64, polls: nat) returns (sent: seq<Record>, offset: Uint64)
    requires log.Valid() && Layout.Next(log.view) < TWO_64
    modifies log.Repr
    ensures log.Valid() && log.view == old(log.view)
    ensures offset == start + |sent| && |sent| <= polls
    ensures forall k | 0 <= k < |sent| :: View(log.view).Read(start + k) == Some(sent[k])
    ensures |sent| < polls ==> View(log.view).Read(offset) == None
  {
    hide SegOk, Open, AllSealed, Contiguous, CommitLog.Log.Parts, CommitLog.Names, Records, CommitLog.Log.Unmoved;
    sent, offset := [], start;
    ViewLength(log.limits, log.view);
    var i := 0;
    while i < polls
      invariant i <= polls && log.Valid() && log.view == old(log.view) && log.Repr == old(log.Repr)
      invariant offset == start + |sent| && |sent| <= i
      invariant forall k | 0 <= k < |sent| :: View(log.view).Read(start + k) == Some(sent[k])
      invariant |sent| < i ==> View(log.view).Read(offset) == None
    {
      var record := log.Read(offset);
      if record.Some? {
        sent := sent + [record.value];
        offset := offset + 1;
      }
      i := i + 1;
    }
  }

  lemma ViewLength(l: Limits, segs: seq<Seg>)
    requires LayoutOk(l, segs)
    ensures View(segs).Next() == Layout.Next(segs)
  {
    hide SegOk, Open, AllSealed, Contiguous, Records;
    RecordsLength(segs);
  }

  /** The produce loop: each request is appended and answered with its offset, until
      the client stops or an append fails. */
  method ProduceStream(log: CommitLog.Log, requests: seq<Record>) returns (acks: seq<nat>)
    requires log.Valid() && Layout.Next(log.view) + |requests| < TWO_64
    modifies log.Repr
    ensures log.Valid() && fresh(log.Repr - old(log.Repr))
    ensures |acks| <= |requests|
    ensures forall k | 0 <= k < |acks| :: acks[k] == Layout.Next(old(log.view)) + k
    ensures Records(log.view) == Records(old(log.view)) + Renumber(Layout.Next(old(log.view)), requests[..|acks|])
    ensures log.view == AppendAll(log.limits, old(log.view),
                                  if |acks| < |requests| then requests[..|acks| + 1] else requests)
    ensures |acks| < |requests| ==> !AppendOk(log.limits, log.view)
  {
    hide SegOk, Open, AllSealed, Contiguous, CommitLog.Log.Parts, CommitLog.Log.MadeHere,
         CommitLog.Names, Records, LogAppend, AppendOk, Renumber, AppendAll;
    acks := [];
    RenumberStep(requests, 0, Layout.Next(log.view));
    AppendAllNone(log.limits, log.view);
    assert requests[..0] == [];
    while |acks| < |requests|
      invariant |acks| <= |requests| && log.Valid() && fresh(log.Repr - old(log.Repr))
      invariant Layout.Next(log.view) == Layout.Next(old(log.view)) + |acks|
      invariant forall k | 0 <= k < |acks| :: acks[k] == Layout.Next(old(log.view)) + k
      invariant Records(log.view) == Records(old(log.view)) + Renumber(Layout.Next(old(log.view)), requests[..|acks|])
      invariant log.view == AppendAll(log.limits, old(log.view), requests[..|acks|])
    {
      RequestStep(log.limits, old(log.view), log.view, requests, |acks|);
      var off := log.Append(requests[|acks|]);
      if off.None? {
        return;
      }
      acks := acks + [off.value];
    }
    assert requests[..|acks|] == requests;
  }

  // What one request does, whether it is taken or not.
  lemma RequestStep(l: Limits, start: seq<Seg>, now: seq<Seg>, rs: seq<Record>, k: nat)
    requires start != [] && LayoutOk(l, now) && k < |rs| && Layout.Next(start) + |rs| < TWO_64
    requires Layout.Next(now) == Layout.Next(start) + k && now == AppendAll(l, start, rs[..k])
    requires Records(now) == Records(start) + Renumber(Layout.Next(start), rs[..k])
    ensures var next := LogAppend(l, now, rs[k]);
            next == AppendAll(l, start, rs[..k + 1]) &&
            if AppendOk(l, now)
            then Layout.Next(next) == Layout.Next(start) + k + 1 &&
                 Records(next) == Records(start) + Renumber(Layout.Next(start), rs[..k + 1])
            else !AppendOk(l, next) && Records(next) == Records(now)
  {
    hide SegOk, Open, AllSealed, Contiguous, Records, LogAppend, AppendOk, Renumber, AppendAll;
    AppendStep(l, start, rs, k);
    AppendRecords(l, now, rs[k]);
    AppendKeepsLayout(l, now, rs[k]);
    RenumberStep(rs, k, Layout.Next(start));
    StuckNow(l, now, rs[k]);
  }

  lemma AppendStep(l: Limits, segs: seq<Seg>, rs: seq<Record>, k: nat)
    requires segs != [] && Layout.Next(segs) + |rs| < TWO_64 && k < |rs|
    ensures AppendAll(l, segs, rs[..k + 1]) == LogAppend(l, AppendAll(l, segs, rs[..k]), rs[k])
  {
    hide LogAppend;
    assert rs[..k + 1][..k] == rs[..k];
  }

  lemma RenumberStep(rs: seq<Record>, k: nat, base: nat)
    requires k <= |rs| && base + |rs| <= TWO_64
    ensures k < |rs| ==> Renumber(base, rs[..k + 1]) == Renumber(base, rs[..k]) + [rs[k].(offset := base + k)]
    ensures k == 0 ==> Renumber(base, rs[..k]) == []
  {
    if k < |rs| {
      assert rs[..k + 1][..k] == rs[..k];
    }
  }

  lemma StuckNow(l: Limits, segs: seq<Seg>, r: Record)
    requires LayoutOk(l, segs) && Layout.Next(segs) < TWO_64 - 1
    ensures !AppendOk(l, segs) ==> !AppendOk(l, LogAppend(l, segs, r))
  {
    hide Frames, SegOk, Open, AllSealed, Contiguous;
  }

  // ----------------------------------------------------- interleaved streams

  /** A record that a producer's stream has appended, under the offset it got. */
  datatype Ack = Ack(producer: nat, offset: nat, record: Record)

  /** A consume stream: where it stands, the record it has read and not yet sent, and
      what it has sent. */
  datatype Consumer = Consumer(start: Uint64, offset: nat, held: Option<Record>, sent: seq<Record>, done: bool)

  /** The log, the records that are appended and not yet answered, by producer, the
      answers in the order they were sent, the producers whose stream has ended, and
      the consumers. */
  datatype System =
    System(segs: seq<Seg>, flight: map<nat, Ack>, acks: seq<Ack>, ended: set<nat>, consumers: seq<Consumer>)

  /** A request arrives on a producer's stream and is appended; later its answer does
      or does not get through; a consumer subscribes; it reads its next record;
      later that does or does not get through; a stream ends for a reason of its own
      (the client leaves, or the request is not authorised). */
  datatype Event =
    | Accept(p: nat, r: Record)
    | Answer(p: nat, delivered: bool)
    | ProducerLeaves(p: nat)
    | Subscribe(start: Uint64)
    | Poll(c: nat)
    | Send(c: nat, delivered: bool)
    | ConsumerLeaves(c: nat)

  function Handle(l: Limits, s: System, e: Event): (s': System)
    requires s.segs != [] && Layout.Next(s.segs) < TWO_64 - 1
    ensures s'.segs != [] && Layout.Next(s'.segs) <= Layout.Next(s.segs) + 1
  {
    match e
    case Accept(p, r) =>
      if p in s.ended || p in s.flight then s
      else
        var segs' := LogAppend(l, s.segs, r);
        if AppendOk(l, s.segs) then s.(segs := segs', flight := s.flight[p := Ack(p, Layout.Next(s.segs), r)])
        else s.(segs := segs', ended := s.ended + {p})
    case Answer(p, delivered) =>
      if p !in s.flight then s
      else if delivered then s.(flight := s.flight - {p}, acks := s.acks + [s.flight[p]])
      else s.(flight := s.flight - {p}, ended := s.ended + {p})
    case ProducerLeaves(p) => s.(ended := s.ended + {p})
    case Subscribe(start) => s.(consumers := s.consumers + [Consumer(start, start, None, [], false)])
    case Poll(c) =>
      if c >= |s.consumers| || s.consumers[c].done || s.consumers[c].held.Some? then s
      else s.(consumers := s.consumers[c := s.consumers[c].(held := Lookup(s.segs, s.consumers[c].offset))])
    case Send(c, delivered) =>
      if c >= |s.consumers| then s else s.(consumers := s.consumers[c := Sent(s.consumers[c], delivered)])
    case ConsumerLeaves(c) =>
      if c >= |s.consumers| then s else s.(consumers := s.consumers[c := s.consumers[c].(done := true)])
  }

  // The end of a round of the consume loop.
  function Sent(c: Consumer, delivered: bool): Consumer {
    if c.held.None? then c
    else if delivered then c.(sent := c.sent + [c.held.value], offset := c.offset + 1, held := None)
    else c.(held := None, done := true)
  }

  function HandleAll(l: Limits, s: System, events: seq<Event>): (s': System)
    requires s.segs != [] && Layout.Next(s.segs) + |events| < TWO_64
    ensures s'.segs != [] && Layout.Next(s'.segs) <= Layout.Next(s.segs) + |events|
  {
    if events == [] then s
    else Handle(l, HandleAll(l, s, events[..|events| - 1]), events[|events| - 1])
  }

  function Quiet(segs: seq<Seg>): System {
    System(segs, map[], [], {}, [])
  }

  // What an acknowledgement promises.
  ghost predicate StillThere(segs: seq<Seg>, a: Ack)
    requires segs != []
  {
    a.offset < TWO_64 && View(segs).Read(a.offset) == Some(a.record.(offset := a.offset))
  }

  // What a consumer has been sent.
  ghost predicate InOrder(segs: seq<Seg>, c: Consumer)
    requires segs != []
  {
    && c.offset == c.start + |c.sent|
    && (c.held.Some? ==> View(segs).Read(c.offset) == c.held)
    && (c.start < Lowest(segs) ==> c.sent == [])
    && (c.sent != [] ==>
          c.offset <= View(segs).Next() &&
          c.sent == Records(segs)[c.start - Lowest(segs)..c.offset - Lowest(segs)])
  }

  // An offset that was given out after another one.
  ghost predicate After(a: Ack, b: Ack) {
    a.offset != b.offset && (a.producer == b.producer ==> a.offset < b.offset)
  }

  ghost predicate AcksPromise(segs: seq<Seg>, acks: seq<Ack>)
    requires segs != []
  {
    && (forall i | 0 <= i < |acks| :: StillThere(segs, acks[i]))
    && (forall i, j | 0 <= i < j < |acks| :: After(acks[i], acks[j]))
  }

  ghost predicate FlightPromise(segs: seq<Seg>, flight: map<nat, Ack>, acks: seq<Ack>)
    requires segs != []
  {
    && (forall p | p in flight :: flight[p].producer == p && StillThere(segs, flight[p]))
    && (forall p, q | p in flight && q in flight && p != q :: flight[p].offset != flight[q].offset)
    && (forall i, p | 0 <= i < |acks| && p in flight :: After(acks[i], flight[p]))
  }

  ghost predicate Promises(l: Limits, s: System) {
    && LayoutOk(l, s.segs)
    && AcksPromise(s.segs, s.acks)
    && FlightPromise(s.segs, s.flight, s.acks)
    && (forall c | 0 <= c < |s.consumers| :: InOrder(s.segs, s.consumers[c]))
  }

  // ----- appends keep every promise

  // The flat view only grows.
  ghost predicate Extends(segs: seq<Seg>, segs': seq<Seg>) {
    && segs != [] && segs' != [] && Lowest(segs) == Lowest(segs')
    && |Records(segs)| <= |Records(segs')| && Records(segs) == Records(segs')[..|Records(segs)|]
  }

  lemma AppendExtends(l: Limits, segs: seq<Seg>, r: Record)
    requires LayoutOk(l, segs) && Layout.Next(segs) < TWO_64 - 1
    ensures Extends(segs, LogAppend(l, segs, r))
  {
    hide SegOk, Open, AllSealed, Contiguous, Records, LogAppend, AppendOk;
    AppendRecords(l, segs, r);
    AppendKeepsLayout(l, segs, r);
  }

  lemma ExtendsKeeps(segs: seq<Seg>, segs': seq<Seg>, a: Ack)
    requires Extends(segs, segs') && StillThere(segs, a)
    ensures StillThere(segs', a)
  {
    hide Records;
  }

  lemma SlicePrefix<T>(s: seq<T>, t: seq<T>, a: nat, b: nat)
    requires |s| <= |t| && s == t[..|s|] && a <= b <= |s|
    ensures s[a..b] == t[a..b]
  {
  }

  lemma ExtendsInOrder(segs: seq<Seg>, segs': seq<Seg>, c: Consumer)
    requires Extends(segs, segs') && InOrder(segs, c)
    ensures InOrder(segs', c)
  {
    hide Records;
    if c.sent != [] {
      SlicePrefix(Records(segs), Records(segs'), c.start - Lowest(segs), c.offset - Lowest(segs));
    }
  }

  lemma NewAckKept(l: Limits, segs: seq<Seg>, r: Record, p: nat)
    requires LayoutOk(l, segs) && Layout.Next(segs) < TWO_64 - 1 && AppendOk(l, segs)
    ensures StillThere(LogAppend(l, segs, r), Ack(p, Layout.Next(segs), r))
  {
    hide SegOk, Open, AllSealed, Contiguous, Records, LogAppend, AppendOk;
    AppendRecords(l, segs, r);
    AppendKeepsLayout(l, segs, r);
    RecordsLength(segs);
  }

  lemma AckBelowNext(l: Limits, segs: seq<Seg>, a: Ack)
    requires LayoutOk(l, segs) && StillThere(segs, a)
    ensures a.offset < Layout.Next(segs)
  {
    hide SegOk, Open, AllSealed, Contiguous, Records;
    RecordsLength(segs);
  }

  lemma AcksKept(segs: seq<Seg>, segs': seq<Seg>, flight: map<nat, Ack>, acks: seq<Ack>)
    requires segs != [] && segs' != [] && Extends(segs, segs')
    requires AcksPromise(segs, acks) && FlightPromise(segs, flight, acks)
    ensures AcksPromise(segs', acks) && FlightPromise(segs', flight, acks)
  {
    hide StillThere, Extends, After;
    forall i | 0 <= i < |acks|
      ensures StillThere(segs', acks[i])
    {
      ExtendsKeeps(segs, segs', acks[i]);
    }
    forall p | p in flight
      ensures StillThere(segs', flight[p])
    {
      ExtendsKeeps(segs, segs', flight[p]);
    }
  }

  // A new offset is larger than all that were given out.
  lemma NewFlight(l: Limits, segs: seq<Seg>, segs': seq<Seg>, flight: map<nat, Ack>, acks: seq<Ack>, a: Ack)
    requires LayoutOk(l, segs) && AcksPromise(segs, acks) && FlightPromise(segs, flight, acks)
    requires segs' != [] && FlightPromise(segs', flight, acks) && StillThere(segs', a)
    requires a.offset == Layout.Next(segs) && a.producer !in flight
    ensures FlightPromise(segs', flight[a.producer := a], acks)
  {
    hide LayoutOk, StillThere;
    forall i | 0 <= i < |acks|
      ensures acks[i].offset < a.offset
    {
      AckBelowNext(l, segs, acks[i]);
    }
    forall p | p in flight
      ensures flight[p].offset < a.offset
    {
      AckBelowNext(l, segs, flight[p]);
    }
  }

  lemma AcceptKeepsPromises(l: Limits, s: System, p: nat, r: Record)
    requires Promises(l, s) && Layout.Next(s.segs) < TWO_64 - 1
    ensures Promises(l, Handle(l, s, Accept(p, r)))
  {
    hide SegOk, Open, AllSealed, Contiguous, Records, LogAppend, AppendOk, StillThere, InOrder, Extends, AcksPromise,
         FlightPromise;
    var s' := Handle(l, s, Accept(p, r));
    if p !in s.ended && p !in s.flight {
      AppendExtends(l, s.segs, r);
      AppendKeepsLayout(l, s.segs, r);
      AcksKept(s.segs, s'.segs, s.flight, s.acks);
      forall c | 0 <= c < |s.consumers|
        ensures InOrder(s'.segs, s'.consumers[c])
      {
        ExtendsInOrder(s.segs, s'.segs, s.consumers[c]);
      }
      if AppendOk(l, s.segs) {
        NewAckKept(l, s.segs, r, p);
        NewFlight(l, s.segs, s'.segs, s.flight, s.acks, Ack(p, Layout.Next(s.segs), r));
      }
    }
  }

  // ----- so does an answer, and a round of the consume loop

  lemma AnswerKeepsPromises(l: Limits, s: System, p: nat, delivered: bool)
    requires Promises(l, s) && Layout.Next(s.segs) < TWO_64 - 1
    ensures Promises(l, Handle(l, s, Answer(p, delivered)))
  {
    hide LayoutOk, StillThere, InOrder;
  }

  lemma SendInOrder(segs: seq<Seg>, c: Consumer, delivered: bool)
    requires segs != [] && InOrder(segs, c)
    ensures InOrder(segs, Sent(c, delivered))
  {
    hide Records;
    var low := Lowest(segs);
    if delivered && c.held.Some? {
      assert Records(segs)[c.start - low..c.offset + 1 - low] ==
             Records(segs)[c.start - low..c.offset - low] + [Records(segs)[c.offset - low]];
    }
  }

  lemma PollInOrder(l: Limits, segs: seq<Seg>, c: Consumer)
    requires LayoutOk(l, segs) && InOrder(segs, c)
    ensures InOrder(segs, c.(held := Lookup(segs, c.offset)))
  {
    hide SegOk, Open, AllSealed, Contiguous, Records, Lookup;
    LookupIsFlatRead(segs, c.offset);
  }

  lemma LeaveInOrder(segs: seq<Seg>, c: Consumer)
    requires segs != [] && InOrder(segs, c)
    ensures InOrder(segs, c.(done := true))
  {
  }

  lemma SubscribeInOrder(segs: seq<Seg>, start: Uint64)
    requires segs != []
    ensures InOrder(segs, Consumer(start, start, None, [], false))
  {
  }

  lemma {:induction false} StreamsKeepPromises(l: Limits, segs: seq<Seg>, events: seq<Event>)
    requires LayoutOk(l, segs) && Layout.Next(segs) + |events| < TWO_64
    ensures Promises(l, HandleAll(l, Quiet(segs), events))
  {
    hide SegOk, Open, AllSealed, Contiguous, Records, StillThere, InOrder, Lookup, LogAppend, AppendOk, Sent;
    if events != [] {
      var s := HandleAll(l, Quiet(segs), events[..|events| - 1]);
      StreamsKeepPromises(l, segs, events[..|events| - 1]);
      match events[|events| - 1] {
        case Accept(p, r) => AcceptKeepsPromises(l, s, p, r);
        case Answer(p, delivered) => AnswerKeepsPromises(l, s, p, delivered);
        case Poll(c) => if c < |s.consumers| { PollInOrder(l, s.segs, s.consumers[c]); }
        case Send(c, delivered) => if c < |s.consumers| { SendInOrder(s.segs, s.consumers[c], delivered); }
        case Subscribe(start) => SubscribeInOrder(s.segs, start);
        case ProducerLeaves(_) =>
        case ConsumerLeaves(c) => if c < |s.consumers| { LeaveInOrder(s.segs, s.consumers[c]); }
      }
    }
  }

  // ------------------------------------------------ what each step gets done

  /** A live consumer that holds nothing and stands at a readable offset is sent the
      record there by one round of the loop, and stands one further. */
  lemma PollSends(l: Limits, s: System, c: nat)
    requires LayoutOk(l, s.segs) && Layout.Next(s.segs) + 2 < TWO_64 && c < |s.consumers|
    requires !s.consumers[c].done && s.consumers[c].held == None
    requires Lowest(s.segs) <= s.consumers[c].offset < Layout.Next(s.segs)
    ensures var low, off := Lowest(s.segs), s.consumers[c].offset;
            |Records(s.segs)| == Layout.Next(s.segs) - low &&
            var s' := HandleAll(l, s, [Poll(c), Send(c, true)]);
            |s'.consumers| == |s.consumers| &&
            s'.consumers[c] ==
            s.consumers[c].(sent := s.consumers[c].sent + [Records(s.segs)[off - low]], offset := off + 1)
  {
    hide SegOk, Open, AllSealed, Contiguous, Records, Lookup;
    RecordsLength(s.segs);
    LookupIsFlatRead(s.segs, s.consumers[c].offset);
    HandleTwo(l, s, Poll(c), Send(c, true));
  }

  /** The next record is read only when the one before it has been sent. */
  lemma OneAtATime(l: Limits, s: System, c: nat)
    requires s.segs != [] && Layout.Next(s.segs) < TWO_64 - 1
    requires c < |s.consumers| && s.consumers[c].held.Some?
    ensures Handle(l, s, Poll(c)) == s
  {
  }

  /** One that stands beyond the last record, or below the first, waits. */
  lemma PollWaits(l: Limits, s: System, c: nat, delivered: bool)
    requires LayoutOk(l, s.segs) && Layout.Next(s.segs) + 2 < TWO_64 && c < |s.consumers|
    requires !s.consumers[c].done && s.consumers[c].held == None
    requires !(Lowest(s.segs) <= s.consumers[c].offset < Layout.Next(s.segs))
    ensures HandleAll(l, s, [Poll(c), Send(c, delivered)]) == s
  {
    hide SegOk, Open, AllSealed, Contiguous, Records, Lookup;
    RecordsLength(s.segs);
    LookupIsFlatRead(s.segs, s.consumers[c].offset);
    HandleTwo(l, s, Poll(c), Send(c, delivered));
  }

  /** A message that does not get through ends the stream. */
  lemma LostMessageEnds(l: Limits, s: System, c: nat)
    requires LayoutOk(l, s.segs) && Layout.Next(s.segs) + 2 < TWO_64 && c < |s.consumers|
    requires !s.consumers[c].done && s.consumers[c].held == None
    requires Lowest(s.segs) <= s.consumers[c].offset < Layout.Next(s.segs)
    ensures var s' := HandleAll(l, s, [Poll(c), Send(c, false)]);
            |s'.consumers| == |s.consumers| && s'.consumers[c] == s.consumers[c].(done := true)
  {
    hide SegOk, Open, AllSealed, Contiguous, Records, Lookup;
    RecordsLength(s.segs);
    LookupIsFlatRead(s.segs, s.consumers[c].offset);
    HandleTwo(l, s, Poll(c), Send(c, false));
  }

  /** A request on a live stream with nothing in flight is appended if the log takes it
      and answered with the offset it got; otherwise the stream ends unanswered. */
  lemma RequestIsAnswered(l: Limits, s: System, p: nat, r: Record)
    requires LayoutOk(l, s.segs) && Layout.Next(s.segs) + 2 < TWO_64 && p !in s.ended && p !in s.flight
    ensures var s' := HandleAll(l, s, [Accept(p, r), Answer(p, true)]);
            s'.segs == LogAppend(l, s.segs, r) && s'.flight == s.flight && s'.consumers == s.consumers &&
            if |Records(s'.segs)| > |Records(s.segs)|
            then s'.acks == s.acks + [Ack(p, Layout.Next(s.segs), r)] && s'.ended == s.ended
            else s'.acks == s.acks && s'.ended == s.ended + {p}
  {
    hide SegOk, Open, AllSealed, Contiguous, Records, LogAppend, AppendOk;
    AppendRecords(l, s.segs, r);
    HandleTwo(l, s, Accept(p, r), Answer(p, true));
    assert (s.flight[p := Ack(p, Layout.Next(s.segs), r)]) - {p} == s.flight;
  }

  /** An answer that does not get through ends the stream; the record stays. */
  lemma LostAnswerEnds(l: Limits, s: System, p: nat)
    requires s.segs != [] && Layout.Next(s.segs) < TWO_64 - 1 && p in s.flight
    ensures Handle(l, s, Answer(p, false)) == s.(flight := s.flight - {p}, ended := s.ended + {p})
  {
  }

  lemma HandleTwo(l: Limits, s: System, a: Event, b: Event)
    requires s.segs != [] && Layout.Next(s.segs) + 2 < TWO_64
    ensures HandleAll(l, s, [a, b]) == Handle(l, Handle(l, s, a), b)
  {
    hide Handle;
    HandleOneMore(l, s, [a, b], 0);
    HandleOneMore(l, s, [a, b], 1);
    assert [a, b][..2] == [a, b];
  }

  /** A producer whose stream has ended, and who waits for no answer, is never answered
      again; one that leaves has ended. */
  lemma {:induction false} EndedForGood(l: Limits, s: System, events: seq<Event>, p: nat)
    requires s.segs != [] && Layout.Next(s.segs) + |events| < TWO_64 && p in s.ended && p !in s.flight
    requires forall q | q in s.flight :: s.flight[q].producer == q
    ensures var s' := HandleAll(l, s, events);
            p in s'.ended && p !in s'.flight && |s.acks| <= |s'.acks| &&
            (forall q | q in s'.flight :: s'.flight[q].producer == q) &&
            (forall i | |s.acks| <= i < |s'.acks| :: s'.acks[i].producer != p)
  {
    hide Lookup, LogAppend, AppendOk, Sent;
    if events != [] {
      EndedForGood(l, s, events[..|events| - 1], p);
    }
  }

  /** A consumer that is done, and holds nothing, is sent nothing more. */
  lemma {:induction false} DoneForGood(l: Limits, s: System, events: seq<Event>, c: nat)
    requires s.segs != [] && Layout.Next(s.segs) + |events| < TWO_64
    requires c < |s.consumers| && s.consumers[c].done && s.consumers[c].held == None
    ensures var s' := HandleAll(l, s, events);
            c < |s'.consumers| && s'.consumers[c] == s.consumers[c]
  {
    hide Lookup, LogAppend, AppendOk;
    if events != [] {
      DoneForGood(l, s, events[..|events| - 1], c);
    }
  }

  /** Leaving ends a stream, and subscribing starts one, at the offset asked for. */
  lemma ComingAndGoing(l: Limits, s: System, p: nat, c: nat, start: Uint64)
    requires s.segs != [] && Layout.Next(s.segs) < TWO_64 - 1
    ensures p in Handle(l, s, ProducerLeaves(p)).ended && Handle(l, s, ProducerLeaves(p)).acks == s.acks
    ensures c < |s.consumers| ==>
              var s' := Handle(l, s, ConsumerLeaves(c));
              |s'.consumers| == |s.consumers| && s'.consumers[c].done && s'.consumers[c].sent == s.consumers[c].sent
    ensures var s' := Handle(l, s, Subscribe(start));
            |s'.consumers| == |s.consumers| + 1 && s'.consumers[..|s.consumers|] == s.consumers &&
            s'.consumers[|s.consumers|] == Consumer(start, start, None, [], false)
  {
  }

  // ------------------------------------------------------------ the promises

  /** In every interleaving of any number of producers and consumers, also when other
      appends and answers fall between an append and its own answer, acknowledged
      offsets are pairwise distinct, increase along each producer's stream, and
      reading one returns the record that was produced under it. */
  lemma AcknowledgedRecordsLast(l: Limits, segs: seq<Seg>, events: seq<Event>)
    requires LayoutOk(l, segs) && Layout.Next(segs) + |events| < TWO_64
    ensures var s := HandleAll(l, Quiet(segs), events);
            (forall i, j | 0 <= i < j < |s.acks| ::
               s.acks[i].offset != s.acks[j].offset &&
               (s.acks[i].producer == s.acks[j].producer ==> s.acks[i].offset < s.acks[j].offset)) &&
            (forall i | 0 <= i < |s.acks| :: s.acks[i].offset < TWO_64 &&
               Lookup(s.segs, s.acks[i].offset) == Some(s.acks[i].record.(offset := s.acks[i].offset)))
  {
    hide SegOk, Open, AllSealed, Contiguous, Records, Lookup, InOrder, HandleAll, FlightPromise;
    StreamsKeepPromises(l, segs, events);
    var s := HandleAll(l, Quiet(segs), events);
    forall i, j | 0 <= i < j < |s.acks|
      ensures s.acks[i].offset != s.acks[j].offset
      ensures s.acks[i].producer == s.acks[j].producer ==> s.acks[i].offset < s.acks[j].offset
    {
      assert After(s.acks[i], s.acks[j]);
    }
    forall i | 0 <= i < |s.acks|
      ensures s.acks[i].offset < TWO_64
      ensures Lookup(s.segs, s.acks[i].offset) == Some(s.acks[i].record.(offset := s.acks[i].offset))
    {
      assert StillThere(s.segs, s.acks[i]);
      LookupIsFlatRead(s.segs, s.acks[i].offset);
    }
  }

  /** Across streams answers can cross: two producers append one after the other, and
      the second is answered first. */
  lemma AnswersCanCross(l: Limits, segs: seq<Seg>, p: nat, q: nat, a: Record, b: Record)
    requires LayoutOk(l, segs) && Layout.Next(segs) + 4 < TWO_64 && p != q
    requires AppendOk(l, segs) && AppendOk(l, LogAppend(l, segs, a))
    ensures HandleAll(l, Quiet(segs), [Accept(p, a), Accept(q, b), Answer(q, true), Answer(p, true)]).acks ==
            [Ack(q, Layout.Next(segs) + 1, b), Ack(p, Layout.Next(segs), a)]
  {
    hide LogAppend, AppendOk, SegOk, Open, AllSealed, Contiguous;
    AppendKeepsLayout(l, segs, a);
    var events := [Accept(p, a), Accept(q, b), Answer(q, true), Answer(p, true)];
    var s1 := Handle(l, Quiet(segs), events[0]);
    var s2 := Handle(l, s1, events[1]);
    var s3 := Handle(l, s2, events[2]);
    HandleOneMore(l, Quiet(segs), events, 0);
    HandleOneMore(l, Quiet(segs), events, 1);
    HandleOneMore(l, Quiet(segs), events, 2);
    HandleOneMore(l, Quiet(segs), events, 3);
    assert events[..4] == events;
    assert s2.flight[q] == Ack(q, Layout.Next(segs) + 1, b) && s2.flight[p] == Ack(p, Layout.Next(segs), a);
    assert s3.acks == [s2.flight[q]];
  }

  lemma HandleOneMore(l: Limits, s: System, events: seq<Event>, k: nat)
    requires s.segs != [] && Layout.Next(s.segs) + |events| < TWO_64 && k < |events|
    ensures HandleAll(l, s, events[..k + 1]) == Handle(l, HandleAll(l, s, events[..k]), events[k])
    ensures k == 0 ==> HandleAll(l, s, events[..k]) == s
  {
    hide Handle;
    assert events[..k + 1][..k] == events[..k];
  }

  /** For instance in a new log: the answers sent are 1 and then 0. */
  lemma AnswersCrossInANewLog()
    ensures var l := Limits(1024, 1020);
            HandleAll(l, Quiet([Fresh(0)]), [Accept(0, EMPTY), Accept(1, EMPTY), Answer(1, true), Answer(0, true)]).acks ==
            [Ack(1, 1, EMPTY), Ack(0, 0, EMPTY)]
  {
    hide HandleAll, LogAppend, AppendOk;
    var l := Limits(1024, 1020);
    FreshOk(l, 0);
    AppendKeepsLayout(l, [Fresh(0)], EMPTY);
    AppendNeverFails(l, [Fresh(0)], 0);
    AppendNeverFails(l, LogAppend(l, [Fresh(0)], EMPTY), 0);
    AnswersCanCross(l, [Fresh(0)], 0, 1, EMPTY, EMPTY);
  }

  /** Acknowledgements are never taken back. */
  lemma {:induction false} AcksOnlyGrow(l: Limits, s: System, events: seq<Event>)
    requires s.segs != [] && Layout.Next(s.segs) + |events| < TWO_64
    ensures var s' := HandleAll(l, s, events);
            |s.acks| <= |s'.acks| && s'.acks[..|s.acks|] == s.acks
  {
    hide Lookup, LogAppend, AppendOk, Sent;
    if events != [] {
      AcksOnlyGrow(l, s, events[..|events| - 1]);
    }
  }

  /** In every interleaving with appends, what a consumer has been sent is the
      contiguous run of records from the offset it asked for to the one before the
      offset it stands at, in order and each once; a consumer that asks for an
      offset below the lowest is never sent anything. */
  lemma ConsumersNeitherSkipNorRepeat(l: Limits, segs: seq<Seg>, events: seq<Event>, c: nat)
    requires LayoutOk(l, segs) && Layout.Next(segs) + |events| < TWO_64
    requires c < |HandleAll(l, Quiet(segs), events).consumers|
    ensures var s := HandleAll(l, Quiet(segs), events);
            var consumer := s.consumers[c];
            LayoutOk(l, s.segs) &&
            consumer.offset == consumer.start + |consumer.sent| &&
            (consumer.start < Lowest(s.segs) ==> consumer.sent == []) &&
            (forall k | 0 <= k < |consumer.sent| ::
               Lookup(s.segs, consumer.start + k) == Some(consumer.sent[k]) &&
               consumer.sent[k].offset == consumer.start + k)
  {
    hide SegOk, Open, AllSealed, Contiguous, Records, Lookup, StillThere, HandleAll, AcksPromise, FlightPromise;
    StreamsKeepPromises(l, segs, events);
    var s := HandleAll(l, Quiet(segs), events);
    var consumer := s.consumers[c];
    assert InOrder(s.segs, consumer);
    RecordsCarryOffsets(l, s.segs);
    forall k | 0 <= k < |consumer.sent|
      ensures Lookup(s.segs, consumer.start + k) == Some(consumer.sent[k])
      ensures consumer.sent[k].offset == consumer.start + k
    {
      LookupIsFlatRead(s.segs, consumer.start + k);
    }
  }
}
