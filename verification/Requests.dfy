/** Retransmission requests: what each one asks for, how often they are made,
    and that answering them closes the gap. */
module Requests {
  import opened Wire
  import opened Codec
  import opened Protocol
  import opened Runs
  import Delivery
  import Stopping

  // ---------- content ----------

  /** The gap goes from the frontier towards `goal`, cut to the window. */
  ghost predicate AsksFor(r: Request, c: State, goal: nat, now: int) {
    && r.at == now
    && r.head.session == c.session
    && r.head.seqNo == c.seqNo < goal
    && r.head.messageCnt == Min(goal - c.seqNo, 65400)
  }

  lemma {:induction false} SessionSurvives(start: nat, events: seq<Event>)
    ensures Survives(Run(start, events).c.session)
  {
    if events != [] {
      SessionSurvives(start, events[..|events| - 1]);
      var w, e := Run(start, events[..|events| - 1]), events[|events| - 1];
      StepSession(w, e);
      if e.Datagram? && |e.bytes| >= HEAD_SIZE {
        DecodedSurvives(e.bytes);
      }
    }
  }

  /** Only a datagram can set the session, and only while there is none. */
  lemma StepSession(w: World, e: Event)
    ensures var s := Step(w, e).c.session;
            || s == w.c.session
            || (w.c.session == [] && e.Datagram? && |e.bytes| >= HEAD_SIZE && s == Decoded(e.bytes).session)
  {
    if e.Handle? && w.c.queue != [] {
      PacketFrame(w.c.(queue := w.c.queue[1..]), Classify(w.c.queue[0]), e.now);
    }
  }

  lemma {:induction false} ContinueSession(w: World, events: seq<Event>)
    requires w.c.session != []
    ensures Continue(w, events).c.session == w.c.session
  {
    if events != [] {
      ContinueSession(w, events[..|events| - 1]);
      StepSession(Continue(w, events[..|events| - 1]), events[|events| - 1]);
    }
  }

  /** A session of at least two bytes, once adopted, is kept for good. */
  lemma SessionIsKept(start: nat, events: seq<Event>, more: seq<Event>)
    requires Run(start, events).c.session != []
    ensures Run(start, events + more).c.session == Run(start, events).c.session
  {
    ContinueRun(start, events, more);
    ContinueSession(Run(start, events), more);
  }

  lemma PacketRequest(c: State, m: Packet, now: int)
    ensures var (c', r) := HandlePacket(c, m, now);
            r.Some? ==>
              && (m.Heartbeat? || m.End?)
              && c'.seqNo == c.seqNo
              && AsksFor(Request(now, r.value), c, m.seqNo, now)
              && m.seqNo <= c'.seqMax
  {
  }

  /** An out-of-order packet is only remembered: nothing is requested, nothing
      moves, and the gap waits for an announcement or the timer. */
  lemma OutOfOrderOnlyCaches(start: nat, events: seq<Event>, m: Packet, now: int)
    requires m.Data? && m.seqNo > Run(start, events).c.seqNo
    ensures var w := Run(start, events);
            var w' := Handled(w, m, now);
            && w' == w.(c := w.c.(cache := w'.c.cache), handled := w.handled + [m])
            && (forall n :: n in w'.c.cache <==> n in w.c.cache || Covers(m, n))
            && (forall n :: n in w'.c.cache ==>
                  w'.c.cache[n] == if Covers(m, n) then m.msgs[n - m.seqNo] else w.c.cache[n])
            && w.c.seqNo !in w'.c.cache
  {
    Delivery.FrontierIsNext(start, events);
  }

  /** One step makes at most one request, on a tick or an announcement; it is for the numbers from the frontier
      on, below the highest announced one, and its bytes decode to just that. */
  lemma RequestsExact(start: nat, events: seq<Event>, e: Event)
    ensures var w := Run(start, events);
            var w' := Step(w, e);
            || w'.requests == w.requests
            || (&& |w'.requests| == |w.requests| + 1
                && w.requests <= w'.requests
                && (e.Tick? || (w'.handled != [] && !w'.handled[|w'.handled| - 1].Data?))
                && var head := w'.requests[|w.requests|].head;
                && Decoded(HeadBytes(head)) == head
                && head.session == w.c.session
                && head.seqNo == w'.c.seqNo
                && Delivery.IsFrontier(First(start), w'.handled, head.seqNo)
                && 1 <= head.messageCnt <= 65400
                && head.seqNo + head.messageCnt <= w'.c.seqMax
                && (head.messageCnt < 65400 ==>
                      if e.Tick? then head.seqNo + head.messageCnt == w'.c.seqMax
                      else Announces(w'.handled[|w'.handled| - 1], head.seqNo + head.messageCnt)))
  {
    var w := Run(start, events);
    var w' := Step(w, e);
    if e.Handle? && w.c.queue != [] {
      PacketRequest(w.c.(queue := w.c.queue[1..]), Classify(w.c.queue[0]), e.now);
    }
    if w'.requests != w.requests {
      var head := w'.requests[|w.requests|].head;
      SessionSurvives(start, events);
      HeaderRoundTrip(head, []);
      assert HeadBytes(head) + [] == HeadBytes(head);
      assert (events + [e])[..|events|] == events;
      Delivery.FrontierIsNext(start, events + [e]);
    }
  }

  // ---------- rate ----------

  ghost predicate Spaced(rs: seq<Request>) {
    forall i :: 0 < i < |rs| ==> rs[i].at - rs[i - 1].at >= 10_000_000
  }

  ghost predicate RateInv(w: World) {
    && Spaced(w.requests)
    && w.c.reqLast == LastRequest(w.requests)
  }

  /** When the last request was made; 0 is the zero time of a fresh client. */
  function LastRequest(rs: seq<Request>): int {
    if rs == [] then 0 else rs[|rs| - 1].at
  }

  lemma PacketTiming(c: State, m: Packet, now: int)
    ensures var (c', r) := HandlePacket(c, m, now);
            if r == None then c'.reqLast == c.reqLast
            else c'.reqLast == now && now - c.reqLast >= 10_000_000
  {
  }

  lemma StepKeepsRate(w: World, e: Event)
    requires RateInv(w)
    ensures RateInv(Step(w, e))
  {
    if e.Handle? && w.c.queue != [] {
      PacketTiming(w.c.(queue := w.c.queue[1..]), Classify(w.c.queue[0]), e.now);
    }
  }

  lemma {:induction false} RunKeepsRate(start: nat, events: seq<Event>)
    ensures RateInv(Run(start, events))
  {
    if events != [] {
      RunKeepsRate(start, events[..|events| - 1]);
      StepKeepsRate(Run(start, events[..|events| - 1]), events[|events| - 1]);
    }
  }

  /** How many requests were made from time a to time b. */
  function CountIn(rs: seq<Request>, a: int, b: int): nat {
    if rs == [] then 0
    else CountIn(rs[..|rs| - 1], a, b) + if a <= rs[|rs| - 1].at <= b then 1 else 0
  }

  lemma {:induction false} SpacedOrder(rs: seq<Request>, i: nat)
    requires Spaced(rs) && i < |rs|
    ensures rs[i].at + (|rs| - 1 - i) * 10_000_000 <= rs[|rs| - 1].at
    decreases |rs|
  {
    if i < |rs| - 1 {
      SpacedOrder(rs[..|rs| - 1], i);
    }
  }

  /** Every request of the log came at `b` or before, so a longer window counts no more. */
  lemma {:induction false} CountClips(rs: seq<Request>, a: int, b: int, b': int)
    requires b <= b' && forall i :: 0 <= i < |rs| ==> rs[i].at <= b
    ensures CountIn(rs, a, b') == CountIn(rs, a, b)
  {
    if rs != [] {
      CountClips(rs[..|rs| - 1], a, b, b');
    }
  }

  lemma {:induction false} CountBeyond(rs: seq<Request>, a: int, b: int)
    requires b < a
    ensures CountIn(rs, a, b) == 0
  {
    if rs != [] {
      CountBeyond(rs[..|rs| - 1], a, b);
    }
  }

  lemma {:induction false} SpacedCount(rs: seq<Request>, a: int, b: int)
    requires Spaced(rs) && a <= b
    ensures CountIn(rs, a, b) <= (b - a) / 10_000_000 + 1
    decreases |rs|
  {
    if rs != [] {
      var init, last := rs[..|rs| - 1], rs[|rs| - 1].at;
      SpacedCount(init, a, b);
      if a <= last <= b {
        forall i | 0 <= i < |init| ensures init[i].at <= last - 10_000_000 {
          SpacedOrder(rs, i);
        }
        CountClips(init, a, last - 10_000_000, b);
        if last - 10_000_000 < a {
          CountBeyond(init, a, last - 10_000_000);
        } else {
          SpacedCount(init, a, last - 10_000_000);
        }
      }
    }
  }

  /** At most T / interval + 1 requests in any window of length T, over the timer
      and the packet path together, whatever the clock does. */
  lemma RateBound(start: nat, events: seq<Event>, a: int, b: int)
    requires a <= b
    ensures CountIn(Run(start, events).requests, a, b) <= (b - a) / 10_000_000 + 1
  {
    RunKeepsRate(start, events);
    SpacedCount(Run(start, events).requests, a, b);
  }

  /** The number below which an event finds messages missing, if it looks for any. */
  function Goal(w: World, e: Event): nat {
    if e.Tick? then w.c.seqMax
    else if e.Handle? && w.c.queue != [] then AnnouncedBy(Classify(w.c.queue[0]))
    else 0
  }

  function AnnouncedBy(m: Packet): nat {
    if m.Heartbeat? || m.End? then m.seqNo else 0
  }

  function ClockOf(e: Event): int {
    if e.Tick? || e.Handle? then e.now else 0
  }

  lemma PacketDue(c: State, m: Packet, now: int)
    ensures HandlePacket(c, m, now).1.Some? <==> c.seqNo < AnnouncedBy(m) && now - c.reqLast >= 10_000_000
  {
  }

  /** A request is made exactly when numbers are known to be missing and the last
      request is an interval old. */
  lemma RequestWhenDue(start: nat, events: seq<Event>, e: Event)
    ensures var w := Run(start, events);
            Step(w, e).requests != w.requests <==>
            w.c.seqNo < Goal(w, e) && ClockOf(e) - LastRequest(w.requests) >= 10_000_000
  {
    RunKeepsRate(start, events);
    var w := Run(start, events);
    if e.Handle? && w.c.queue != [] {
      PacketDue(w.c.(queue := w.c.queue[1..]), Classify(w.c.queue[0]), e.now);
    }
  }

  // ---------- recovery ----------

  /** A round of recovery: a timer tick that makes a request while numbers are
      missing, and whatever follows until everything asked for has arrived. */
  ghost predicate AnsweredRound(w: World, round: seq<Event>) {
    w.c.seqNo < w.c.seqMax ==>
      && round != []
      && round[0].Tick?
      && OnTick(w.c, round[0].now).1.Some?
      && var head := OnTick(w.c, round[0].now).1.value;
         forall k :: head.seqNo <= k < head.seqNo + head.messageCnt ==>
           Covered(Continue(w, round).handled, k)
  }

  ghost predicate Answered(w: World, rounds: seq<seq<Event>>)
    decreases |rounds|
  {
    rounds != [] ==>
      && AnsweredRound(w, rounds[0])
      && Answered(Continue(w, rounds[0]), rounds[1..])
  }

  function After(w: World, rounds: seq<seq<Event>>): World
    decreases |rounds|
  {
    if rounds == [] then w else After(Continue(w, rounds[0]), rounds[1..])
  }

  lemma RoundAdvances(first: nat, w: World, round: seq<Event>)
    requires Stopping.Inv(first, w) && AnsweredRound(w, round)
    ensures Continue(w, round).c.seqNo >= Min(w.c.seqNo + 65400, w.c.seqMax)
  {
    var w' := Continue(w, round);
    Stopping.ContinueKeepsInv(first, w, round);
    Stopping.ContinueAdvances(first, w, round);
    assert !Covered(w'.handled, w'.c.seqNo);
  }

  lemma {:induction false} AfterMonotone(first: nat, w: World, rounds: seq<seq<Event>>)
    requires Stopping.Inv(first, w)
    ensures Stopping.Inv(first, After(w, rounds))
    ensures After(w, rounds).c.seqMax >= w.c.seqMax && After(w, rounds).c.seqNo >= w.c.seqNo
    ensures w.c.endSession ==> After(w, rounds).c.endSession
    decreases |rounds|
  {
    if rounds != [] {
      Stopping.ContinueKeepsInv(first, w, rounds[0]);
      Stopping.ContinueAdvances(first, w, rounds[0]);
      AfterMonotone(first, Continue(w, rounds[0]), rounds[1..]);
    }
  }

  lemma {:induction false} RoundsAdvance(first: nat, w: World, rounds: seq<seq<Event>>)
    requires Stopping.Inv(first, w) && Answered(w, rounds)
    requires After(w, rounds).c.seqMax == w.c.seqMax
    ensures After(w, rounds).c.seqNo >= Min(w.c.seqNo + |rounds| * 65400, w.c.seqMax)
    decreases |rounds|
  {
    if rounds != [] {
      var w1 := Continue(w, rounds[0]);
      RoundAdvances(first, w, rounds[0]);
      Stopping.ContinueKeepsInv(first, w, rounds[0]);
      Stopping.ContinueAdvances(first, w, rounds[0]);
      AfterMonotone(first, w1, rounds[1..]);
      RoundsAdvance(first, w1, rounds[1..]);
    }
  }

  /** From any reachable state, one answered round per 65400 missing numbers
      closes the gap, and finishes the client if the session has ended. */
  lemma Recovery(start: nat, events: seq<Event>, rounds: seq<seq<Event>>)
    requires var w := Run(start, events);
             && Answered(w, rounds)
             && After(w, rounds).c.seqMax == w.c.seqMax
             && w.c.seqNo + |rounds| * 65400 >= w.c.seqMax
    ensures var w, w' := Run(start, events), After(Run(start, events), rounds);
            && w'.c.seqNo >= w.c.seqMax
            && (w.c.endSession ==> w'.c.bDone)
  {
    Stopping.RunKeepsInv(start, events);
    var w := Run(start, events);
    RoundsAdvance(First(start), w, rounds);
    AfterMonotone(First(start), w, rounds);
  }
}
