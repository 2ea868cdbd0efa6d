/** In-order, exactly-once delivery: what every run hands to the reader. */
module Delivery {
  import opened Wire
  import opened Codec
  import opened MsgCaching
  import opened Protocol
  import opened Runs

  /** Item `i` of the stream is the message some accepted packet carried as number first + i. */
  ghost predicate StreamInv(first: nat, h: seq<Packet>, stream: seq<Message>, seqNo: nat) {
    && first + |stream| == seqNo
    && (forall i :: 0 <= i < |stream| ==> Carried(h, first + i, stream[i]))
  }

  /** The cache holds what was accepted beyond the frontier, never the frontier itself. */
  ghost predicate CacheInv(h: seq<Packet>, cache: Cached, seqNo: nat) {
    && seqNo !in cache
    && (forall n :: n in cache ==> Carried(h, n, cache[n]))
    && (forall n :: seqNo <= n && Covered(h, n) ==> n in cache)
  }

  ghost predicate Inv(first: nat, w: World) {
    && StreamInv(first, w.handled, Stream(w), w.c.seqNo)
    && CacheInv(w.handled, w.c.cache, w.c.seqNo)
  }

  // ---------- one packet ----------

  lemma StreamStays(first: nat, h: seq<Packet>, m: Packet, stream: seq<Message>, seqNo: nat)
    requires StreamInv(first, h, stream, seqNo)
    ensures StreamInv(first, h + [m], stream, seqNo)
  {
  }

  lemma StreamExtends(first: nat, h: seq<Packet>, stream: seq<Message>, seqNo: nat, batch: seq<Message>)
    requires StreamInv(first, h, stream, seqNo)
    requires forall j :: 0 <= j < |batch| ==> Carried(h, seqNo + j, batch[j])
    ensures StreamInv(first, h, stream + batch, seqNo + |batch|)
  {
  }

  /** A packet that covers nothing from the frontier on leaves the cache right. */
  lemma CacheStays(h: seq<Packet>, m: Packet, cache: Cached, seqNo: nat)
    requires CacheInv(h, cache, seqNo)
    requires forall n :: seqNo <= n ==> !Covers(m, n)
    ensures CacheInv(h + [m], cache, seqNo)
  {
  }

  /** A packet beyond the frontier is remembered in the cache. */
  lemma CacheStores(h: seq<Packet>, m: Packet, cache: Cached, seqNo: nat)
    requires CacheInv(h, cache, seqNo)
    requires m.Data? && m.seqNo > seqNo
    ensures CacheInv(h + [m], Stored(cache, m.msgs, m.seqNo), seqNo)
  {
    var cache' := Stored(cache, m.msgs, m.seqNo);
    forall n | n in cache' ensures Carried(h + [m], n, cache'[n]) {
      CarriedGrows(h, m, n, cache'[n]);
      assert m.seqNo <= n < m.seqNo + |m.msgs| ==> CarriesAt(m, n, cache'[n]);
    }
    forall n | seqNo <= n && Covered(h + [m], n) ensures n in cache' {
      CoveredGrows(h, m, n);
    }
  }

  lemma BatchIsCarried(h: seq<Packet>, m: Packet, cache: Cached, seqNo: nat)
    requires CacheInv(h, cache, seqNo)
    requires m.Data? && m.seqNo <= seqNo <= m.seqNo + |m.msgs|
    ensures var batch := BatchOf(cache, seqNo, m.seqNo, m.msgs);
            && m.seqNo + |m.msgs| <= seqNo + |batch|
            && seqNo + |batch| !in cache
            && forall j :: 0 <= j < |batch| ==> Carried(h + [m], seqNo + j, batch[j])
  {
    var news := m.msgs[seqNo - m.seqNo..];
    var mid := seqNo + |news|;
    var run := RunFrom(cache, mid);
    forall j | 0 <= j < |news + run| ensures Carried(h + [m], seqNo + j, (news + run)[j]) {
      var n, x := seqNo + j, (news + run)[j];
      CarriedGrows(h, m, n, x);
      if n < mid {
        assert x == m.msgs[n - m.seqNo];
      } else {
        assert x == run[n - mid] == cache[n];
      }
    }
  }

  lemma AdvanceEffect(w: World, m: Packet, now: int, batch: seq<Message>)
    requires m.Data? && m.seqNo <= w.c.seqNo <= m.seqNo + |m.msgs|
    requires batch == BatchOf(w.c.cache, w.c.seqNo, m.seqNo, m.msgs)
    ensures var w' := Handled(w, m, now);
            && w'.c.seqNo == w.c.seqNo + |batch|
            && w'.c.cache == w.c.cache
            && w'.handled == w.handled + [m]
            && Stream(w') == Stream(w) + batch
  {
    assert HandlePacket(w.c, m, now) == (Advance(w.c, batch), None);
    AdvanceBasics(w.c, batch);
    StreamOfReady(w.delivered, w.c.ready, batch);
  }

  lemma AdvanceBasics(c: State, batch: seq<Message>)
    ensures var c' := Advance(c, batch);
            && c'.seqNo == c.seqNo + |batch| && c'.cache == c.cache
            && c'.ready == Some(if c.ready == None then batch else c.ready.value + batch)
  {
  }

  lemma StreamOfReady(delivered: seq<Message>, ready: Option<seq<Message>>, batch: seq<Message>)
    ensures var held := if ready == None then [] else ready.value;
            delivered + (if ready == None then batch else ready.value + batch) == delivered + held + batch
  {
  }

  lemma AdvanceKeepsInv(first: nat, w: World, m: Packet, now: int)
    requires Inv(first, w)
    requires m.Data? && m.seqNo <= w.c.seqNo <= m.seqNo + |m.msgs|
    ensures Inv(first, Handled(w, m, now))
  {
    var batch := BatchOf(w.c.cache, w.c.seqNo, m.seqNo, m.msgs);
    BatchIsCarried(w.handled, m, w.c.cache, w.c.seqNo);
    StreamStays(first, w.handled, m, Stream(w), w.c.seqNo);
    StreamExtends(first, w.handled + [m], Stream(w), w.c.seqNo, batch);
    CacheStays(w.handled, m, w.c.cache, w.c.seqNo + |batch|);
    AdvanceEffect(w, m, now, batch);
  }

  lemma StoreKeepsInv(first: nat, w: World, m: Packet, now: int)
    requires Inv(first, w) && m.Data? && m.seqNo > w.c.seqNo
    ensures Inv(first, Handled(w, m, now))
  {
    var c, w' := w.c, Handled(w, m, now);
    StreamStays(first, w.handled, m, Stream(w), c.seqNo);
    CacheStores(w.handled, m, c.cache, c.seqNo);
    assert Stream(w') == Stream(w);
  }

  /** An in-order packet, whatever earlier packets said of the same numbers: its own
      copy of every new message goes into the stream, then the cached run behind it,
      up to the first number that is not cached. */
  lemma InOrderExactly(start: nat, events: seq<Event>, m: Packet, now: int)
    requires m.Data? && m.seqNo <= Run(start, events).c.seqNo <= m.seqNo + |m.msgs|
    ensures var w := Run(start, events);
            var w', mid := Handled(w, m, now), m.seqNo + |m.msgs|;
            && Stream(w') == Stream(w) + (m.msgs[w.c.seqNo - m.seqNo..] + RunFrom(w.c.cache, mid))
            && w'.c.seqNo == mid + |RunFrom(w.c.cache, mid)|
            && w'.delivered == w.delivered && w'.requests == w.requests && w'.c.cache == w.c.cache
  {
    var w := Run(start, events);
    AdvanceEffect(w, m, now, BatchOf(w.c.cache, w.c.seqNo, m.seqNo, m.msgs));
  }

  /** Two states with the same frontier, cache and waiting messages. */
  predicate SameStanding(c: State, c': State) {
    c'.seqNo == c.seqNo && c'.cache == c.cache && c'.ready == c.ready
  }

  lemma NewReqStands(c: State, seqNo: uint64, now: int)
    ensures SameStanding(c, NewReq(c, seqNo, now).0)
  {
  }

  lemma EndStands(c: State, seqNo: uint64)
    ensures SameStanding(c, EndSession(c, seqNo))
  {
  }

  /** Repeats, control packets and bad ones leave the stream and the cache alone. */
  lemma RestEffect(c: State, m: Packet, now: int)
    requires m.Data? ==> m.seqNo + |m.msgs| < c.seqNo
    ensures SameStanding(c, HandlePacket(c, m, now).0)
  {
    match m
    case Bad(_) =>
    case Data(seqNo, msgs) => assert HandleData(c, seqNo, msgs) == c;
    case Heartbeat(seqNo) => NewReqStands(c, seqNo, now);
    case End(seqNo) =>
      EndStands(c, seqNo);
      NewReqStands(EndSession(c, seqNo), seqNo, now);
  }

  lemma RestKeepsInv(first: nat, w: World, m: Packet, now: int)
    requires Inv(first, w) && (m.Data? ==> m.seqNo + |m.msgs| < w.c.seqNo)
    ensures Inv(first, Handled(w, m, now))
  {
    var c, w' := w.c, Handled(w, m, now);
    RestEffect(c, m, now);
    StreamStays(first, w.handled, m, Stream(w), c.seqNo);
    CacheStays(w.handled, m, c.cache, c.seqNo);
    assert Stream(w') == Stream(w);
  }

  lemma HandledKeepsInv(first: nat, w: World, m: Packet, now: int)
    requires Inv(first, w)
    ensures Inv(first, Handled(w, m, now))
  {
    if !m.Data? || m.seqNo + |m.msgs| < w.c.seqNo {
      RestKeepsInv(first, w, m, now);
    } else if m.seqNo > w.c.seqNo {
      StoreKeepsInv(first, w, m, now);
    } else {
      AdvanceKeepsInv(first, w, m, now);
    }
  }

  lemma OtherKeepsInv(first: nat, w: World, e: Event)
    requires Inv(first, w) && !e.Handle?
    ensures Inv(first, Step(w, e))
  {
  }

  lemma StepKeepsInv(first: nat, w: World, e: Event)
    requires Inv(first, w)
    ensures Inv(first, Step(w, e))
  {
    if !e.Handle? {
      OtherKeepsInv(first, w, e);
    } else if w.c.queue != [] {
      HandledKeepsInv(first, w.(c := w.c.(queue := w.c.queue[1..])), Classify(w.c.queue[0]), e.now);
    }
  }

  lemma {:induction false} ContinueKeepsInv(first: nat, w: World, events: seq<Event>)
    requires Inv(first, w)
    ensures Inv(first, Continue(w, events))
  {
    if events != [] {
      ContinueKeepsInv(first, w, events[..|events| - 1]);
      StepKeepsInv(first, Continue(w, events[..|events| - 1]), events[|events| - 1]);
    }
  }

  lemma RunKeepsInv(start: nat, events: seq<Event>)
    ensures Inv(First(start), Run(start, events))
  {
    ContinueKeepsInv(First(start), World(Initial(start), [], [], []), events);
  }

  // ---------- theorems ----------

  /** The sender's packets all come from one stream of messages. */
  ghost predicate Agrees(h: seq<Packet>, M: nat -> Message) {
    forall m, n, x :: m in h && CarriesAt(m, n, x) ==> x == M(n)
  }

  /** Messages number a to b - 1 of a stream. */
  function Slice(M: nat -> Message, a: nat, b: nat): (s: seq<Message>)
    requires a <= b
  {
    seq(b - a, i requires 0 <= i => M(a + i))
  }

  /** Exactly-once delivery in order.  Without any assumption on the sender, each
      number from the first up to the frontier is delivered once, as some accepted
      packet carried it; a sender that agrees with itself gets its stream through. */
  lemma DeliveredInOrder(start: nat, events: seq<Event>)
    ensures var w := Run(start, events);
            && First(start) + |Stream(w)| == w.c.seqNo
            && (forall i :: 0 <= i < |Stream(w)| ==>
                  Carried(w.handled, First(start) + i, Stream(w)[i]))
  {
    RunKeepsInv(start, events);
  }

  lemma AgreeingStream(first: nat, h: seq<Packet>, stream: seq<Message>, seqNo: nat, M: nat -> Message)
    requires StreamInv(first, h, stream, seqNo) && Agrees(h, M)
    ensures stream == Slice(M, first, seqNo)
  {
  }

  lemma DeliveredAsSent(start: nat, events: seq<Event>, M: nat -> Message)
    requires Agrees(Run(start, events).handled, M)
    ensures var w := Run(start, events);
            First(start) <= w.c.seqNo && Stream(w) == Slice(M, First(start), w.c.seqNo)
  {
    var w := Run(start, events);
    RunKeepsInv(start, events);
    AgreeingStream(First(start), w.handled, Stream(w), w.c.seqNo, M);
  }

  /** `n` is the least number from `first` on that no accepted packet covers. */
  ghost predicate IsFrontier(first: nat, h: seq<Packet>, n: nat) {
    && first <= n
    && !Covered(h, n)
    && (forall k :: first <= k < n ==> Covered(h, k))
  }

  lemma FrontierIsNext(start: nat, events: seq<Event>)
    ensures var w := Run(start, events);
            IsFrontier(First(start), w.handled, w.c.seqNo) && w.c.seqNo !in w.c.cache
  {
    RunKeepsInv(start, events);
    var w := Run(start, events);
    forall k | First(start) <= k < w.c.seqNo ensures Covered(w.handled, k) {
      var i := k - First(start);
      assert Carried(w.handled, First(start) + i, Stream(w)[i]);
      CarriedIsCovered(w.handled, k, Stream(w)[i]);
    }
  }

  /** Two logs that accepted the same packets, in whatever order and however often. */
  ghost predicate SameAccepted(h: seq<Packet>, h': seq<Packet>) {
    forall m: Packet :: m.Data? ==> (m in h <==> m in h')
  }

  lemma SameAcceptedCovers(h: seq<Packet>, h': seq<Packet>, n: nat)
    requires SameAccepted(h, h') && Covered(h, n)
    ensures Covered(h', n)
  {
  }

  /** Order, duplication, and how reads, ticks and control packets interleave
      make no difference to where the client stands, nor to what it delivers. */
  lemma OrderIndependence(start: nat, events: seq<Event>, events': seq<Event>, M: nat -> Message)
    requires SameAccepted(Run(start, events).handled, Run(start, events').handled)
    ensures var w, w' := Run(start, events), Run(start, events');
            && w.c.seqNo == w'.c.seqNo
            && (Agrees(w.handled, M) ==> Stream(w) == Stream(w'))
  {
    FrontierIsNext(start, events);
    FrontierIsNext(start, events');
    var w, w' := Run(start, events), Run(start, events');
    if w.c.seqNo < w'.c.seqNo {
      SameAcceptedCovers(w'.handled, w.handled, w.c.seqNo);
    } else if w'.c.seqNo < w.c.seqNo {
      SameAcceptedCovers(w.handled, w'.handled, w'.c.seqNo);
    }
    if Agrees(w.handled, M) {
      assert Agrees(w'.handled, M);
      DeliveredAsSent(start, events, M);
      DeliveredAsSent(start, events', M);
    }
  }

  /** Sequence numbers stay within the sender's: with packets that end below
      `bound`, so does the client, and its arithmetic cannot wrap. */
  lemma NoWrap(start: nat, events: seq<Event>, bound: nat)
    requires First(start) <= bound
    requires forall m :: m in Run(start, events).handled && m.Data? ==> m.seqNo + |m.msgs| <= bound
    ensures Run(start, events).c.seqNo <= bound
  {
    FrontierIsNext(start, events);
    var w := Run(start, events);
    if w.c.seqNo > First(start) {
      var last := w.c.seqNo - 1;
      assert Covered(w.handled, last);
    }
  }
}
