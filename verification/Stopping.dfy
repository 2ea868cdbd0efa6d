/** When the client stops: never too early, never without having handed over
    everything, and exactly when the handled packets say the session is complete. */
module Stopping {
  import opened Wire
  import opened Codec
  import opened Protocol
  import opened Runs
  import Delivery

  function Max(a: nat, b: nat): nat {
    if a >= b then a else b
  }

  // ---------- invariants ----------

  ghost predicate StopInv(first: nat, delivered: nat, c: State) {
    && (c.ready.Some? ==> c.lastSeq <= c.seqNo <= c.lastSeq + |c.ready.value|)
    && (c.bDone ==> c.endSession && c.seqEnd <= c.seqNo)
    && (c.endSession ==> c.seqEnd <= Max(c.seqMax, c.seqNo))
    && (c.endSession && c.seqNo >= c.seqMax ==> c.bDone)
    && (c.bDone && c.running ==> c.ready.Some?)
    && (!c.running ==> c.bDone && c.seqEnd <= first + delivered)
  }

  /** `seqEnd` and `seqMax` are what the control packets in the log say. */
  ghost predicate LogInv(h: seq<Packet>, c: State) {
    && FirstEnd(h) == (if c.endSession then Some(c.seqEnd) else None)
    && (forall n: nat :: Announced(h, n) ==> n <= Max(c.seqMax, c.seqNo))
    && (c.seqMax == 0 || Announced(h, c.seqMax))
  }

  ghost predicate Inv(first: nat, w: World) {
    && Delivery.Inv(first, w)
    && StopInv(first, |w.delivered|, w.c)
    && LogInv(w.handled, w.c)
  }

  lemma AnnouncedGrows(h: seq<Packet>, m: Packet, n: nat)
    ensures Announced(h + [m], n) <==> Announced(h, n) || Announces(m, n)
  {
  }

  lemma NewReqKeepsStop(first: nat, d: nat, c: State, seqNo: uint64, now: int)
    requires StopInv(first, d, c)
    ensures StopInv(first, d, NewReq(c, seqNo, now).0)
  {
  }

  lemma EndKeepsStop(first: nat, d: nat, c: State, seqNo: uint64, now: int)
    requires StopInv(first, d, c) && (c.ready == None ==> c.seqNo == first + d)
    ensures StopInv(first, d, NewReq(EndSession(c, seqNo), seqNo, now).0)
  {
  }

  lemma AdvanceKeepsStop(first: nat, d: nat, c: State, batch: seq<Message>)
    requires StopInv(first, d, c)
    ensures StopInv(first, d, Advance(c, batch))
  {
  }

  lemma HandledKeepsStopInv(first: nat, w: World, m: Packet, now: int)
    requires first + |Stream(w)| == w.c.seqNo && StopInv(first, |w.delivered|, w.c)
    ensures var w' := Handled(w, m, now); StopInv(first, |w'.delivered|, w'.c)
  {
    match m
    case Bad(_) =>
    case Heartbeat(seqNo) => NewReqKeepsStop(first, |w.delivered|, w.c, seqNo, now);
    case End(seqNo) => EndKeepsStop(first, |w.delivered|, w.c, seqNo, now);
    case Data(seqNo, msgs) =>
      if seqNo <= w.c.seqNo <= seqNo + |msgs| {
        AdvanceKeepsStop(first, |w.delivered|, w.c, BatchOf(w.c.cache, w.c.seqNo, seqNo, msgs));
      }
  }

  /** How one packet moves the three control fields. */
  lemma ControlEffect(first: nat, d: nat, c: State, m: Packet, now: int)
    requires StopInv(first, d, c)
    ensures var c' := HandlePacket(c, m, now).0;
            && c'.endSession == (c.endSession || m.End?)
            && (c.endSession ==> c'.seqEnd == c.seqEnd)
            && (!c.endSession && m.End? ==> c'.seqEnd == m.seqNo)
            && Max(c.seqMax, c.seqNo) <= Max(c'.seqMax, c'.seqNo)
            && (m.Heartbeat? || m.End? ==> m.seqNo <= Max(c'.seqMax, c'.seqNo))
            && (c'.seqMax == c.seqMax || Announces(m, c'.seqMax))
  {
    if m.Data? && m.seqNo <= c.seqNo <= m.seqNo + |m.msgs| {
      AdvanceControl(first, d, c, BatchOf(c.cache, c.seqNo, m.seqNo, m.msgs));
    }
  }

  lemma AdvanceControl(first: nat, d: nat, c: State, batch: seq<Message>)
    requires StopInv(first, d, c)
    ensures var c' := Advance(c, batch);
            c'.endSession == c.endSession && c'.seqEnd == c.seqEnd && c'.seqMax == c.seqMax && c'.seqNo >= c.seqNo
  {
  }

  lemma HandledKeepsLogInv(first: nat, w: World, m: Packet, now: int)
    requires StopInv(first, |w.delivered|, w.c) && LogInv(w.handled, w.c)
    ensures LogInv(w.handled + [m], HandlePacket(w.c, m, now).0)
  {
    var c' := HandlePacket(w.c, m, now).0;
    var h' := w.handled + [m];
    ControlEffect(first, |w.delivered|, w.c, m, now);
    assert h'[..|h'| - 1] == w.handled;
    forall n: nat | Announced(h', n) ensures n <= Max(c'.seqMax, c'.seqNo) {
      AnnouncedGrows(w.handled, m, n);
    }
    AnnouncedGrows(w.handled, m, c'.seqMax);
  }

  lemma HandledKeepsInv(first: nat, w: World, m: Packet, now: int)
    requires Inv(first, w)
    ensures Inv(first, Handled(w, m, now))
  {
    Delivery.HandledKeepsInv(first, w, m, now);
    HandledKeepsStopInv(first, w, m, now);
    HandledKeepsLogInv(first, w, m, now);
  }

  lemma PollKeepsInv(first: nat, w: World)
    requires Inv(first, w)
    ensures Inv(first, Step(w, Poll))
  {
  }

  lemma TickKeepsInv(first: nat, w: World, now: int)
    requires Inv(first, w)
    ensures Inv(first, Step(w, Tick(now)))
  {
  }

  lemma DatagramKeepsInv(first: nat, w: World, b: seq<byte>)
    requires Inv(first, w)
    ensures Inv(first, Step(w, Datagram(b)))
  {
    var w' := Step(w, Datagram(b));
    assert w' == w.(c := w.c.(session := w'.c.session, queue := w'.c.queue));
  }

  lemma StepKeepsInv(first: nat, w: World, e: Event)
    requires Inv(first, w)
    ensures Inv(first, Step(w, e))
  {
    match e
    case Datagram(b) => DatagramKeepsInv(first, w, b);
    case Tick(now) => TickKeepsInv(first, w, now);
    case Poll => PollKeepsInv(first, w);
    case Handle(now) =>
      if w.c.queue != [] {
        HandledKeepsInv(first, w.(c := w.c.(queue := w.c.queue[1..])), Classify(w.c.queue[0]), now);
      }
  }

  lemma {:induction false} ContinueKeepsInv(first: nat, w: World, events: seq<Event>)
    requires Inv(first, w)
    ensures Inv(first, Continue(w, events))
  {
    if events != [] {
      ContinueKeepsInv(first, w, events[..|events| - 1]);
      StepKeepsInv(first, Continue(w, events[..|events| - 1]), events[|events| - 1]);
    }
  }

  lemma RunKeepsInv(start: nat, events: seq<Event>)
    ensures Inv(First(start), Run(start, events))
  {
    ContinueKeepsInv(First(start), World(Initial(start), [], [], []), events);
  }

  // ---------- safe stop ----------

  /** A stopped client has seen an end of session, and every message below the
      number that one announced has been handed to the reader, once and in order. */
  lemma SafeStop(start: nat, events: seq<Event>)
    requires !Run(start, events).c.running
    ensures var w := Run(start, events);
            && FirstEnd(w.handled).Some?
            && FirstEnd(w.handled).value <= First(start) + |w.delivered|
            && (forall i :: 0 <= i < |w.delivered| ==> Carried(w.handled, First(start) + i, w.delivered[i]))
  {
    RunKeepsInv(start, events);
    var w := Run(start, events);
    assert forall i :: 0 <= i < |w.delivered| ==> Stream(w)[i] == w.delivered[i];
  }

  /** At the step that stops the client nothing it has in order is left unread. */
  lemma StopLeavesNothing(start: nat, events: seq<Event>, e: Event)
    requires Run(start, events).c.running && !Step(Run(start, events), e).c.running
    ensures var w' := Step(Run(start, events), e);
            && w'.c.ready == None
            && First(start) + |w'.delivered| == w'.c.seqNo
            && w'.c.seqEnd <= w'.c.seqNo
  {
    RunKeepsInv(start, events);
    StepKeepsInv(First(start), Run(start, events), e);
    if e.Handle? {
      StopInHandle(Run(start, events), e.now);
    }
  }

  /** Only an end-of-session packet that finds nothing ready stops the client
      while packets are handled. */
  lemma StopInHandle(w: World, now: int)
    requires w.c.running && !Step(w, Handle(now)).c.running
    ensures Step(w, Handle(now)).c.ready == None
  {
    var c := w.c.(queue := w.c.queue[1..]);
    StopInPacket(c, Classify(w.c.queue[0]), now);
  }

  lemma StopInPacket(c: State, m: Packet, now: int)
    requires c.running && !HandlePacket(c, m, now).0.running
    ensures HandlePacket(c, m, now).0.ready == None
  {
  }

  /** Once the client is done, the reader's next turn gets all that is left and
      ends the run. */
  lemma StopHandshake(start: nat, events: seq<Event>)
    requires Run(start, events).c.bDone && Run(start, events).c.running
    ensures var w := Run(start, events);
            var w' := Step(w, Poll);
            && w.c.ready.Some?
            && !w'.c.running
            && w'.delivered == Stream(w)
            && First(start) + |w'.delivered| == w.c.seqNo >= w.c.seqEnd
  {
    RunKeepsInv(start, events);
  }

  // ---------- stopped for good ----------

  lemma PacketStopped(c: State, m: Packet, now: int)
    requires !c.running
    ensures !HandlePacket(c, m, now).0.running
  {
  }

  lemma StepStopped(w: World, e: Event)
    requires !w.c.running
    ensures !Step(w, e).c.running && Step(w, e).delivered == w.delivered
    ensures e.Poll? ==> Step(w, e) == w
  {
    if e.Handle? && w.c.queue != [] {
      PacketStopped(w.c.(queue := w.c.queue[1..]), Classify(w.c.queue[0]), e.now);
    }
  }

  lemma {:induction false} ContinueStopped(w: World, events: seq<Event>)
    requires !w.c.running
    ensures !Continue(w, events).c.running && Continue(w, events).delivered == w.delivered
  {
    if events != [] {
      ContinueStopped(w, events[..|events| - 1]);
      StepStopped(Continue(w, events[..|events| - 1]), events[|events| - 1]);
    }
  }

  /** Whatever still arrives or is handled, a stopped client stays stopped and hands
      over nothing more. */
  lemma StoppedForGood(start: nat, events: seq<Event>, more: seq<Event>)
    requires !Run(start, events).c.running
    ensures !Run(start, events + more).c.running
    ensures Run(start, events + more).delivered == Run(start, events).delivered
  {
    ContinueRun(start, events, more);
    ContinueStopped(Run(start, events), more);
  }

  // ---------- no missed stop ----------

  /** The log has an end of session, and every number below every announced one
      is covered. */
  ghost predicate Complete(first: nat, h: seq<Packet>) {
    && FirstEnd(h).Some?
    && (forall n: nat, k: nat :: Announced(h, n) && first <= k < n ==> Covered(h, k))
  }

  ghost predicate EverComplete(first: nat, h: seq<Packet>) {
    exists i :: 0 <= i <= |h| && Complete(first, h[..i])
  }

  lemma CompleteIsCaughtUp(first: nat, w: World)
    requires Inv(first, w)
    ensures Complete(first, w.handled) <==> w.c.endSession && w.c.seqNo >= w.c.seqMax
  {
    var h, c := w.handled, w.c;
    if c.endSession && c.seqNo >= c.seqMax {
      forall n: nat, k: nat | Announced(h, n) && first <= k < n ensures Covered(h, k) {
        var i := k - first;
        assert Carried(h, first + i, Stream(w)[i]);
        CarriedIsCovered(h, k, Stream(w)[i]);
      }
    }
    assert !Covered(h, c.seqNo);
  }

  lemma EverCompleteGrows(first: nat, h: seq<Packet>, m: Packet)
    ensures EverComplete(first, h + [m]) <==> EverComplete(first, h) || Complete(first, h + [m])
  {
    var h' := h + [m];
    if EverComplete(first, h) {
      var i :| 0 <= i <= |h| && Complete(first, h[..i]);
      assert h'[..i] == h[..i];
    }
    if Complete(first, h') {
      assert h'[..|h'|] == h';
    }
    if EverComplete(first, h') {
      var i :| 0 <= i <= |h'| && Complete(first, h'[..i]);
      assert h'[..i] == if i == |h'| then h' else h[..i];
    }
  }

  lemma DoneInPacket(first: nat, d: nat, c: State, m: Packet, now: int)
    requires StopInv(first, d, c)
    ensures var c' := HandlePacket(c, m, now).0;
            && (c.bDone ==> c'.bDone)
            && (c'.bDone && !c.bDone ==> c'.endSession && c'.seqNo >= c'.seqMax)
  {
  }

  lemma StepKeepsDone(first: nat, w: World, e: Event)
    requires Inv(first, w) && (w.c.bDone <==> EverComplete(first, w.handled))
    ensures var w' := Step(w, e); w'.c.bDone <==> EverComplete(first, w'.handled)
  {
    if e.Handle? && w.c.queue != [] {
      HandledKeepsDone(first, w.(c := w.c.(queue := w.c.queue[1..])), Classify(w.c.queue[0]), e.now);
    }
  }

  lemma HandledKeepsDone(first: nat, w: World, m: Packet, now: int)
    requires Inv(first, w) && (w.c.bDone <==> EverComplete(first, w.handled))
    ensures var w' := Handled(w, m, now); w'.c.bDone <==> EverComplete(first, w'.handled)
  {
    HandledKeepsInv(first, w, m, now);
    DoneInPacket(first, |w.delivered|, w.c, m, now);
    CompleteIsCaughtUp(first, Handled(w, m, now));
    EverCompleteGrows(first, w.handled, m);
  }

  /** The client is done exactly when, at some moment of the run, an end of
      session had been handled and every number below every announced one covered. */
  lemma {:induction false} DoneExactly(start: nat, events: seq<Event>)
    ensures var w := Run(start, events); w.c.bDone <==> EverComplete(First(start), w.handled)
  {
    if events == [] {
      assert FirstEnd([]) == None;
    } else {
      DoneExactly(start, events[..|events| - 1]);
      RunKeepsInv(start, events[..|events| - 1]);
      StepKeepsDone(First(start), Run(start, events[..|events| - 1]), events[|events| - 1]);
    }
  }

  /** Data packets never move `seqMax`: the late update after an advance cannot happen. */
  lemma DataLeavesSeqMax(start: nat, events: seq<Event>, m: Packet, now: int)
    requires m.Data?
    ensures var c := Run(start, events).c; HandlePacket(c, m, now).0.seqMax == c.seqMax
  {
    RunKeepsInv(start, events);
    var w := Run(start, events);
    ControlEffect(First(start), |w.delivered|, w.c, m, now);
  }

  /** The goal moves exactly when a heartbeat or an end of session announces a number
      beyond both the goal and the frontier, and then to that number: the update of the
      goal on the way to the request is all there is. */
  lemma SeqMaxExactly(start: nat, events: seq<Event>, m: Packet, now: int)
    ensures var c := Run(start, events).c;
            HandlePacket(c, m, now).0.seqMax ==
            if (m.Heartbeat? || m.End?) && m.seqNo > c.seqNo && m.seqNo > c.seqMax then m.seqNo else c.seqMax
  {
    RunKeepsInv(start, events);
    if m.Data? {
      DataLeavesSeqMax(start, events, m, now);
    }
  }

  /** How many of the steps moved the frontier. */
  function Advances(w: World, events: seq<Event>): nat {
    if events == [] then 0
    else
      var before := Continue(w, events[..|events| - 1]);
      Advances(w, events[..|events| - 1]) +
      if Step(before, events[|events| - 1]).c.seqNo > before.c.seqNo then 1 else 0
  }

  lemma StepMonotone(first: nat, w: World, e: Event)
    requires Inv(first, w)
    ensures var w' := Step(w, e);
            && w'.c.seqNo >= w.c.seqNo
            && w'.c.seqMax >= w.c.seqMax
            && (w.c.endSession ==> w'.c.endSession && w'.c.seqEnd == w.c.seqEnd)
  {
    if e.Handle? && w.c.queue != [] {
      PacketMonotone(first, |w.delivered|, w.c.(queue := w.c.queue[1..]), Classify(w.c.queue[0]), e.now);
    }
  }

  lemma PacketMonotone(first: nat, d: nat, c: State, m: Packet, now: int)
    requires StopInv(first, d, c)
    ensures var c' := HandlePacket(c, m, now).0;
            && c'.seqNo >= c.seqNo
            && c'.seqMax >= c.seqMax
            && (c.endSession ==> c'.endSession && c'.seqEnd == c.seqEnd)
  {
    if m.Data? && m.seqNo <= c.seqNo <= m.seqNo + |m.msgs| {
      AdvanceControl(first, d, c, BatchOf(c.cache, c.seqNo, m.seqNo, m.msgs));
    }
  }

  lemma {:induction false} ContinueAdvances(first: nat, w: World, events: seq<Event>)
    requires Inv(first, w)
    ensures var w' := Continue(w, events);
            && w.c.seqNo + Advances(w, events) <= w'.c.seqNo
            && w'.c.seqMax >= w.c.seqMax
            && (w.c.endSession ==> w'.c.endSession && w'.c.seqEnd == w.c.seqEnd)
  {
    if events != [] {
      ContinueAdvances(first, w, events[..|events| - 1]);
      ContinueKeepsInv(first, w, events[..|events| - 1]);
      StepMonotone(first, Continue(w, events[..|events| - 1]), events[|events| - 1]);
    }
  }

  /** After the end of session as many advancing packets as numbers are missing
      suffice, unless a later announcement raises the goal. */
  lemma BoundedStop(start: nat, events: seq<Event>, more: seq<Event>)
    requires Run(start, events).c.endSession
    requires Run(start, events + more).c.seqMax == Run(start, events).c.seqMax
    requires Advances(Run(start, events), more) >= Run(start, events).c.seqMax - Run(start, events).c.seqNo
    ensures Run(start, events + more).c.bDone
  {
    ContinueRun(start, events, more);
    RunKeepsInv(start, events);
    RunKeepsInv(start, events + more);
    ContinueAdvances(First(start), Run(start, events), more);
  }

  /** Over any run the frontier and the goal only grow, and the end of session
      is fixed once it is known. */
  lemma Monotone(start: nat, events: seq<Event>, more: seq<Event>)
    ensures var w, w' := Run(start, events), Run(start, events + more);
            && w.c.seqNo <= w'.c.seqNo
            && w.c.seqMax <= w'.c.seqMax
            && (w.c.endSession ==> w'.c.endSession && w'.c.seqEnd == w.c.seqEnd)
  {
    ContinueRun(start, events, more);
    RunKeepsInv(start, events);
    ContinueAdvances(First(start), Run(start, events), more);
  }

  // ---------- the number that Read reports ----------

  /** The event handles a data packet that reaches the frontier. */
  predicate InOrder(w: World, e: Event) {
    e.Handle? && w.c.queue != [] &&
    var p := Classify(w.c.queue[0]);
    p.Data? && p.seqNo <= w.c.seqNo <= p.seqNo + |p.msgs|
  }

  /** The frontier just before the last in-order packet among `events`. */
  function LastFrontier(w: World, events: seq<Event>): Option<nat> {
    if events == [] then None
    else
      var before := Continue(w, events[..|events| - 1]);
      if InOrder(before, events[|events| - 1]) then Some(before.c.seqNo)
      else LastFrontier(w, events[..|events| - 1])
  }

  /** Only an in-order packet touches what is ready and its label. */
  lemma PacketPending(c: State, m: Packet, now: int)
    ensures var c' := HandlePacket(c, m, now).0;
            if m.Data? && m.seqNo <= c.seqNo <= m.seqNo + |m.msgs| then c'.ready.Some? && c'.lastSeq == c.seqNo
            else c'.ready == c.ready && c'.lastSeq == c.lastSeq
  {
  }

  lemma StepPending(w: World, e: Event)
    requires !e.Poll?
    ensures var w' := Step(w, e);
            && w'.delivered == w.delivered
            && if InOrder(w, e) then w'.c.ready.Some? && w'.c.lastSeq == w.c.seqNo
               else w'.c.ready == w.c.ready && w'.c.lastSeq == w.c.lastSeq
  {
    if e.Handle? && w.c.queue != [] {
      PacketPending(w.c.(queue := w.c.queue[1..]), Classify(w.c.queue[0]), e.now);
    }
  }

  lemma {:induction false} PendingLabel(w: World, events: seq<Event>)
    requires w.c.ready == None && Poll !in events
    ensures var w', last := Continue(w, events), LastFrontier(w, events);
            && w'.delivered == w.delivered
            && (w'.c.ready.Some? <==> last.Some?)
            && (last.Some? ==> w'.c.lastSeq == last.value)
  {
    if events != [] {
      PendingLabel(w, events[..|events| - 1]);
      StepPending(Continue(w, events[..|events| - 1]), events[|events| - 1]);
    }
  }

  /** The number reported with a batch is at least that of its first message, and
      equal to it exactly when the frontier just before the last in-order packet of
      the batch was still where it was when the batch began. */
  lemma ReportedPosition(start: nat, events: seq<Event>, more: seq<Event>)
    requires Run(start, events).c.ready == None && Poll !in more
    requires var w := Run(start, events + more); w.c.ready.Some? && w.c.running
    ensures var w := Run(start, events + more);
            var r, last := ReadOnce(w.c).1, LastFrontier(Run(start, events), more);
            && r.Some? && last.Some?
            && Step(w, Poll).delivered == w.delivered + r.value.msgs
            && First(start) + |w.delivered| <= r.value.seqNo
            && (r.value.seqNo == First(start) + |w.delivered| <==> last.value == Run(start, events).c.seqNo)
  {
    ContinueRun(start, events, more);
    PendingLabel(Run(start, events), more);
    RunKeepsInv(start, events);
    RunKeepsInv(start, events + more);
  }

  // ---------- what a turn of Read answers ----------

  lemma {:induction false} PollClears(start: nat, events: seq<Event>)
    requires events != [] && events[|events| - 1].Poll? && Run(start, events).c.running
    ensures Run(start, events).c.ready == None
  {
  }

  /** A turn of the reader answers a batch exactly when the client runs and has
      handled an in-order packet since the last turn.  The batch is all that is in
      order and unread, its number the frontier before the last such packet; nothing
      is left ready, and the client goes on exactly if it is not done.  On a stopped
      client the turn changes nothing. */
  lemma TurnExactly(start: nat, events: seq<Event>, more: seq<Event>)
    requires (events != [] ==> events[|events| - 1].Poll?) && Poll !in more
    ensures var w := Run(start, events + more);
            var w', r := Step(w, Poll), ReadOnce(w.c).1;
            && (r.Some? <==> w.c.running && LastFrontier(Run(start, events), more).Some?)
            && (r.Some? ==> w.delivered + r.value.msgs == w'.delivered == Stream(w))
            && (r.Some? ==> r.value.seqNo == LastFrontier(Run(start, events), more).value)
            && (!w.c.running ==> w' == w)
            && (w.c.running ==> w'.c == w.c.(ready := None, running := !w.c.bDone))
  {
    var w := Run(start, events + more);
    ContinueRun(start, events, more);
    RunKeepsInv(start, events + more);
    if Run(start, events).c.running {
      if events != [] {
        PollClears(start, events);
      }
      PendingLabel(Run(start, events), more);
    } else {
      StoppedForGood(start, events, more);
    }
  }
}
