/** From a sender's messages to the reader's: packets built by the codec, a
    channel that loses, repeats and reorders them, and the client. */
module EndToEnd {
  import opened Wire
  import opened Codec
  import opened Protocol
  import opened Runs
  import Delivery
  import Requests
  import Stopping

  // ---------- the queue ----------

  /** Everything that was ever queued, in order: what was handled, then what waits. */
  function Arrivals(w: World): seq<Packet> {
    w.handled + seq(|w.c.queue|, i requires 0 <= i < |w.c.queue| => Classify(w.c.queue[i]))
  }

  function Admitted(w: World, e: Event): seq<Packet> {
    if e.Datagram? && |e.bytes| >= HEAD_SIZE && GotBuff(w.c, e.bytes).1 == None
    then [Classify(Unpacked(e.bytes))] else []
  }

  lemma HandleArrivals(w: World, now: int)
    ensures Arrivals(Step(w, Handle(now))) == Arrivals(w)
  {
    if w.c.queue != [] {
      var c, m := w.c.(queue := w.c.queue[1..]), Classify(w.c.queue[0]);
      PacketFrame(c, m, now);
      var w' := Step(w, Handle(now));
      assert w'.handled == w.handled + [m] && w'.c.queue == w.c.queue[1..];
    }
  }

  lemma DatagramArrivals(w: World, b: seq<byte>)
    ensures Arrivals(Step(w, Datagram(b))) == Arrivals(w) + Admitted(w, Datagram(b))
  {
  }

  /** Admitted datagrams are handled once each, in the order of their arrival. */
  lemma StepArrivals(w: World, e: Event)
    ensures Arrivals(Step(w, e)) == Arrivals(w) + Admitted(w, e)
  {
    if e.Handle? {
      HandleArrivals(w, e.now);
    } else if e.Datagram? {
      DatagramArrivals(w, e.bytes);
    }
  }

  /** The count check on handled packets never fires: a data packet is queued
      with a payload, and a payload that splits into blocks has its full count. */
  lemma ClassifyUnpacked(b: seq<byte>)
    requires |b| >= HEAD_SIZE && !(IsData(Unpacked(b)) && |b| == HEAD_SIZE)
    ensures var p := Classify(Unpacked(b)); p.Bad? ==> p.error == UnmarshalFailed
  {
  }

  lemma {:induction false} CountCheckNeverFires(start: nat, events: seq<Event>)
    ensures forall p :: p in Arrivals(Run(start, events)) && p.Bad? ==> p.error == UnmarshalFailed
  {
    if events != [] {
      var w, e := Run(start, events[..|events| - 1]), events[|events| - 1];
      CountCheckNeverFires(start, events[..|events| - 1]);
      StepArrivals(w, e);
      if Admitted(w, e) != [] {
        ClassifyUnpacked(e.bytes);
      }
    }
  }

  /** A payload of `ms` under a count of `cnt` is accepted exactly when it has at
      most that many blocks, and what is then delivered is what was sent exactly
      when it has that many: a packet that is short of its count goes through,
      padded with empty messages. */
  lemma CountMismatch(n: uint64, cnt: uint16, ms: seq<Message>)
    requires Encodable(ms) && ms != [] && 0 < cnt < END_OF_SESSION
    ensures var p := Classify(MsgBuf(n, cnt, Blocks(ms)));
            && (p.Data? <==> |ms| <= cnt)
            && (p.Data? ==> p == Data(n, ms + Empties(cnt - |ms|)))
            && (p == Data(n, ms) <==> |ms| == cnt)
  {
    assert Blocks(ms) == Block(ms[0]) + Blocks(ms[1..]);
    UnmarshalExact(Blocks(ms), cnt);
    if |ms| <= cnt {
      assert Decomposes(Blocks(ms), cnt, ms);
    } else {
      forall ms' | Decomposes(Blocks(ms), cnt, ms') ensures false {
        BlocksInjective(ms, ms');
      }
    }
  }

  // ---------- sessions ----------

  /** What a receiver sees of a session name. */
  function Trimmed(session: seq<byte>): seq<byte> {
    SessionField(session)[..SessionEnd(SessionField(session), 9)]
  }

  lemma HeadSeen(h: Header, rest: seq<byte>)
    ensures var d := Decoded(HeadBytes(h) + rest);
            d.session == Trimmed(h.session) && d.seqNo == h.seqNo && d.messageCnt == h.messageCnt
  {
    HeaderRoundTrip(h, rest);
    SessionEndOf(HeadBytes(h) + rest, SessionField(h.session), 9);
  }

  lemma {:induction false} SessionEndOf(b: seq<byte>, f: seq<byte>, i: nat)
    requires i < |f| <= |b| && b[..|f|] == f
    ensures SessionEnd(b, i) == SessionEnd(f, i)
  {
    if i > 0 {
      SessionEndOf(b, f, i - 1);
    }
  }

  predicate Foreign(b: seq<byte>, session: seq<byte>) {
    |b| >= HEAD_SIZE && Decoded(b).session != session
  }

  function WithoutForeign(events: seq<Event>, session: seq<byte>): seq<Event> {
    if events == [] then []
    else
      var e := events[|events| - 1];
      WithoutForeign(events[..|events| - 1], session) + if e.Datagram? && Foreign(e.bytes, session) then [] else [e]
  }

  lemma {:induction false} ContinueWithoutForeign(w: World, events: seq<Event>)
    requires w.c.session != []
    ensures Continue(w, events) == Continue(w, WithoutForeign(events, w.c.session))
  {
    if events != [] {
      var init, e := events[..|events| - 1], events[|events| - 1];
      ContinueWithoutForeign(w, init);
      Requests.ContinueSession(w, init);
      if e.Datagram? && Foreign(e.bytes, w.c.session) {
        assert WithoutForeign(events, w.c.session) == WithoutForeign(init, w.c.session);
      } else {
        ContinueSnoc(w, WithoutForeign(init, w.c.session), e);
      }
    }
  }

  lemma ContinueSnoc(w: World, events: seq<Event>, e: Event)
    ensures Continue(w, events + [e]) == Step(Continue(w, events), e)
  {
    assert (events + [e])[..|events|] == events;
  }

  /** Once a session is adopted, datagrams of any other leave no trace: the run
      without them is the same. */
  lemma ForeignIgnored(start: nat, events: seq<Event>, more: seq<Event>)
    requires Run(start, events).c.session != []
    ensures var session := Run(start, events).c.session;
            Run(start, events + more) == Run(start, events + WithoutForeign(more, session))
  {
    var session := Run(start, events).c.session;
    ContinueWithoutForeign(Run(start, events), more);
    ContinueRun(start, events, more);
    ContinueRun(start, events, WithoutForeign(more, session));
  }

  /** A header whose count a client looks beyond. */
  predicate Countable(h: Header) {
    h.messageCnt < MAX_MESSAGES || h.messageCnt == END_OF_SESSION
  }

  /** A client without a session that has heard a packet of any kind refuses the
      next one for its session exactly when it sees something of the first name,
      and something else of the second. */
  lemma SecondSession(c: State, h1: Header, rest1: seq<byte>, h2: Header, rest2: seq<byte>)
    requires c.session == [] && Countable(h1) && Countable(h2)
    ensures var c1 := GotBuff(c, HeadBytes(h1) + rest1).0;
            GotBuff(c1, HeadBytes(h2) + rest2).1 == Some(SessionMismatch) <==>
            Trimmed(h1.session) != [] && Trimmed(h1.session) != Trimmed(h2.session)
  {
    HeadSeen(h1, rest1);
    HeadSeen(h2, rest2);
  }

  /** Nothing is seen of a name whose field is blank after its first byte, so two
      sessions of one byte each are taken for one. */
  lemma TrimmedIsEmpty(session: seq<byte>)
    ensures Trimmed(session) == [] <==> forall j :: 1 <= j < 10 && j < |session| ==> session[j] == 0x20
  {
  }

  // ---------- the sender ----------

  /** Messages `first` to `first + k - 1` of the stream, numbered from 1, in one packet. */
  function DataPacket(session: seq<byte>, M: seq<Message>, first: uint64, k: uint16): seq<byte>
    requires 1 <= first && first - 1 + k <= |M|
  {
    HeadBytes(Header(session, first, k)) + Blocks(M[first - 1..first - 1 + k])
  }

  function ControlPacket(session: seq<byte>, next: uint64, end: bool): seq<byte> {
    HeadBytes(Header(session, next, if end then END_OF_SESSION else 0))
  }

  /** `EncodeHead` and `Marshal` make a data packet with as many of the next
      messages as fit in `room` bytes and one packet may hold. */
  method BuildPacket(session: seq<byte>, M: seq<Message>, first: uint64, room: nat)
    returns (datagram: seq<byte>, k: uint16)
    requires 1 <= first <= |M| + 1
    ensures first - 1 + k <= |M| && k < MAX_MESSAGES
    ensures datagram == DataPacket(session, M, first, k)
    ensures StopsAfter(room, M[first - 1..first - 1 + Min(|M| - (first - 1), MAX_MESSAGES - 1)], k)
  {
    var msgs := M[first - 1..first - 1 + Min(|M| - (first - 1), MAX_MESSAGES - 1)];
    var body := new byte[room];
    var cnt, len := Marshal(body, msgs);
    var head := new byte[HEAD_SIZE];
    var _ := EncodeHead(head, Header(session, first, cnt));
    k := cnt;
    datagram := head[..] + body[..len];
    assert head[..] == HeadBytes(Header(session, first, cnt));
    assert body[..len] == Blocks(msgs[..cnt]);
    assert msgs[..cnt] == M[first - 1..first - 1 + cnt];
  }

  /** What the sender of `M` sends: messages from `first` on, a heartbeat that
      announces the next number, or the end of the session. */
  datatype Dispatch = Messages(first: uint64, k: uint16) | Beat(next: uint64) | Finish

  predicate Sendable(d: Dispatch, M: seq<Message>) {
    match d
    case Messages(first, k) => 1 <= first && 1 <= k < MAX_MESSAGES && first - 1 + k <= |M|
    case Beat(next) => next <= |M| + 1
    case Finish => |M| + 1 < 0x1_0000_0000_0000_0000
  }

  function Bytes(d: Dispatch, session: seq<byte>, M: seq<Message>): seq<byte>
    requires Sendable(d, M)
  {
    match d
    case Messages(first, k) => DataPacket(session, M, first, k)
    case Beat(next) => ControlPacket(session, next, false)
    case Finish => ControlPacket(session, |M| + 1, true)
  }

  /** What a client takes it for. */
  function Meaning(d: Dispatch, M: seq<Message>): Packet
    requires Sendable(d, M)
  {
    match d
    case Messages(first, k) => Data(first, M[first - 1..first - 1 + k])
    case Beat(next) => Heartbeat(next)
    case Finish => End(|M| + 1)
  }

  ghost predicate FromSender(b: seq<byte>, session: seq<byte>, M: seq<Message>) {
    exists d :: Sendable(d, M) && b == Bytes(d, session, M)
  }

  /** A datagram no client admits, whatever its session. */
  predicate Noise(b: seq<byte>) {
    |b| < HEAD_SIZE || MAX_MESSAGES <= Decoded(b).messageCnt < END_OF_SESSION
  }

  /** A header of this session, with a count that a client looks beyond. */
  predicate Speaks(b: seq<byte>, session: seq<byte>) {
    |b| >= HEAD_SIZE && Decoded(b).session == session && Countable(Decoded(b))
  }

  /** A data packet of this session whose payload is missing or does not split into blocks. */
  predicate Garbled(b: seq<byte>, session: seq<byte>) {
    Speaks(b, session) && IsData(Unpacked(b)) && (|b| == HEAD_SIZE || Classify(Unpacked(b)).Bad?)
  }

  ghost predicate Heard(events: seq<Event>, session: seq<byte>) {
    exists e: Event :: e in events && e.Datagram? && Speaks(e.bytes, session)
  }

  /** What a channel may bring after `before`: the sender's datagrams in any order and
      number, noise, garbled packets, and other sessions once this one was heard. */
  ghost predicate Harmless(before: seq<Event>, b: seq<byte>, session: seq<byte>, M: seq<Message>) {
    || Noise(b) || FromSender(b, session, M) || Garbled(b, session)
    || (session != [] && Foreign(b, session) && Heard(before, session))
  }

  ghost predicate Honest(events: seq<Event>, session: seq<byte>, M: seq<Message>) {
    forall i :: 0 <= i < |events| && events[i].Datagram? ==> Harmless(events[..i], events[i].bytes, session, M)
  }

  lemma HonestInit(events: seq<Event>, session: seq<byte>, M: seq<Message>)
    requires Honest(events, session, M) && events != []
    ensures Honest(events[..|events| - 1], session, M)
  {
    var init := events[..|events| - 1];
    forall i | 0 <= i < |init| && init[i].Datagram? ensures Harmless(init[..i], init[i].bytes, session, M) {
      assert init[..i] == events[..i] && init[i] == events[i];
    }
  }

  /** A handled packet that says what the sender of `M` has to say, or nothing. */
  predicate Faithful(p: Packet, M: seq<Message>) {
    match p
    case Data(n, msgs) => 1 <= n && 1 <= |msgs| && n - 1 + |msgs| <= |M| && msgs == M[n - 1..n - 1 + |msgs|]
    case Heartbeat(n) => n <= |M| + 1
    case End(n) => n == |M| + 1
    case Bad(_) => true
  }

  lemma BlocksClassified(n: uint64, k: uint16, ms: seq<Message>)
    requires Encodable(ms) && 1 <= |ms| == k < END_OF_SESSION
    ensures Blocks(ms) != [] && Classify(MsgBuf(n, k, Blocks(ms))) == Data(n, ms)
  {
    assert Blocks(ms) == Block(ms[0]) + Blocks(ms[1..]);
    MarshalRoundTrip(ms);
  }

  lemma DataArrives(session: seq<byte>, M: seq<Message>, first: uint64, k: uint16)
    requires Survives(session) && Encodable(M)
    requires 1 <= first && 1 <= k < MAX_MESSAGES && first - 1 + k <= |M|
    ensures var b := DataPacket(session, M, first, k);
            && |b| > HEAD_SIZE
            && Decoded(b) == Header(session, first, k)
            && Classify(Unpacked(b)) == Data(first, M[first - 1..first - 1 + k])
  {
    var b := DataPacket(session, M, first, k);
    var ms := M[first - 1..first - 1 + k];
    HeaderRoundTrip(Header(session, first, k), Blocks(ms));
    BlocksClassified(first, k, ms);
    assert b[HEAD_SIZE..] == Blocks(ms);
    assert Unpacked(b) == MsgBuf(first, k, Blocks(ms));
  }

  lemma ControlArrives(session: seq<byte>, next: uint64, end: bool)
    requires Survives(session)
    ensures var b := ControlPacket(session, next, end);
            && Decoded(b) == Header(session, next, if end then END_OF_SESSION else 0)
            && Classify(Unpacked(b)) == if end then End(next) else Heartbeat(next)
  {
    var h := Header(session, next, if end then END_OF_SESSION else 0);
    HeaderRoundTrip(h, []);
    assert HeadBytes(h) + [] == HeadBytes(h);
  }

  predicate Admits(c: State, b: seq<byte>, session: seq<byte>) {
    |b| >= HEAD_SIZE && GotBuff(c, b).1 == None && GotBuff(c, b).0.session == session
  }

  lemma HeadAdmits(c: State, b: seq<byte>, session: seq<byte>)
    requires |b| >= HEAD_SIZE && Decoded(b).session == session && (c.session == [] || c.session == session)
    requires var n := Decoded(b).messageCnt;
             n == 0 || n == END_OF_SESSION || (n < MAX_MESSAGES && |b| > HEAD_SIZE)
    ensures Admits(c, b, session)
  {
  }

  /** Every dispatch arrives as what was meant. */
  lemma ArrivesAsMeant(d: Dispatch, session: seq<byte>, M: seq<Message>)
    requires Survives(session) && Encodable(M) && Sendable(d, M)
    ensures var b := Bytes(d, session, M); |b| >= HEAD_SIZE && Classify(Unpacked(b)) == Meaning(d, M)
  {
    match d
    case Messages(first, k) => DataArrives(session, M, first, k);
    case Beat(next) => ControlArrives(session, next, false);
    case Finish => ControlArrives(session, |M| + 1, true);
  }

  /** A client without a session, or with the sender's, admits every dispatch. */
  lemma DispatchIsAdmitted(c: State, d: Dispatch, session: seq<byte>, M: seq<Message>)
    requires Survives(session) && Encodable(M) && Sendable(d, M)
    requires c.session == [] || c.session == session
    ensures Admits(c, Bytes(d, session, M), session)
  {
    var b := Bytes(d, session, M);
    match d {
      case Messages(first, k) => DataArrives(session, M, first, k);
      case Beat(next) => ControlArrives(session, next, false);
      case Finish => ControlArrives(session, |M| + 1, true);
    }
    HeadAdmits(c, b, session);
  }

  lemma MeaningIsFaithful(d: Dispatch, M: seq<Message>)
    requires Sendable(d, M)
    ensures Faithful(Meaning(d, M), M)
  {
  }

  lemma SenderIsAdmitted(c: State, b: seq<byte>, session: seq<byte>, M: seq<Message>)
    requires Survives(session) && Encodable(M) && FromSender(b, session, M)
    requires c.session == [] || c.session == session
    ensures Admits(c, b, session) && Faithful(Classify(Unpacked(b)), M)
  {
    var d :| Sendable(d, M) && b == Bytes(d, session, M);
    ArrivesAsMeant(d, session, M);
    DispatchIsAdmitted(c, d, session, M);
    MeaningIsFaithful(d, M);
  }

  ghost predicate HonestInv(w: World, heard: bool, session: seq<byte>, M: seq<Message>) {
    && (w.c.session == session || (w.c.session == [] && !heard))
    && (forall p :: p in Arrivals(w) ==> Faithful(p, M))
  }

  lemma SpeakerIsHeard(c: State, b: seq<byte>, session: seq<byte>)
    requires Speaks(b, session) && (c.session == [] || c.session == session)
    ensures GotBuff(c, b).0.session == session
  {
  }

  lemma HarmlessDatagram(
    w: World, before: seq<Event>, b: seq<byte>, session: seq<byte>, M: seq<Message>)
    requires Survives(session) && Encodable(M) && HonestInv(w, Heard(before, session), session, M)
    requires Harmless(before, b, session, M)
    ensures HonestInv(Step(w, Datagram(b)), Heard(before, session) || Speaks(b, session), session, M)
  {
    DatagramArrivals(w, b);
    if Speaks(b, session) {
      SpeakerIsHeard(w.c, b, session);
    }
    if !Noise(b) && FromSender(b, session, M) {
      SenderIsAdmitted(w.c, b, session, M);
    }
  }

  lemma StepKeepsHonest(w: World, before: seq<Event>, e: Event, session: seq<byte>, M: seq<Message>)
    requires Survives(session) && Encodable(M) && HonestInv(w, Heard(before, session), session, M)
    requires e.Datagram? ==> Harmless(before, e.bytes, session, M)
    ensures HonestInv(Step(w, e), Heard(before + [e], session), session, M)
  {
    if e.Datagram? {
      HarmlessDatagram(w, before, e.bytes, session, M);
    } else {
      StepArrivals(w, e);
      if e.Handle? && w.c.queue != [] {
        PacketFrame(w.c.(queue := w.c.queue[1..]), Classify(w.c.queue[0]), e.now);
      }
    }
  }

  lemma {:induction false} RunKeepsHonest(start: nat, events: seq<Event>, session: seq<byte>, M: seq<Message>)
    requires Survives(session) && Encodable(M) && Honest(events, session, M)
    ensures HonestInv(Run(start, events), Heard(events, session), session, M)
  {
    if events != [] {
      var init, e := events[..|events| - 1], events[|events| - 1];
      HonestInit(events, session, M);
      RunKeepsHonest(start, init, session, M);
      assert e.Datagram? ==> Harmless(init, e.bytes, session, M);
      StepKeepsHonest(Run(start, init), init, e, session, M);
      assert init + [e] == events;
    }
  }

  // ---------- theorems ----------

  ghost function Numbered(M: seq<Message>): nat -> Message {
    n => if 1 <= n <= |M| then M[n - 1] else []
  }

  lemma FaithfulAgrees(h: seq<Packet>, M: seq<Message>)
    requires forall p :: p in h ==> Faithful(p, M)
    ensures Delivery.Agrees(h, Numbered(M))
    ensures forall m: Packet :: m in h && m.Data? ==> m.seqNo + |m.msgs| <= |M| + 1
  {
  }

  lemma SliceOfNumbered(M: seq<Message>, a: nat, b: nat)
    requires 1 <= a <= b <= |M| + 1
    ensures Delivery.Slice(Numbered(M), a, b) == M[a - 1..b - 1]
  {
  }

  /** Whatever the channel does to the sender's datagrams and adds to them, what the
      client puts in order is the sender's stream from its first number to its frontier, byte for byte. */
  lemma DeliversPrefix(start: nat, events: seq<Event>, session: seq<byte>, M: seq<Message>)
    requires Survives(session) && Encodable(M) && Honest(events, session, M)
    requires First(start) <= |M| + 1
    ensures var w := Run(start, events);
            && First(start) <= w.c.seqNo <= |M| + 1
            && Stream(w) == M[First(start) - 1..w.c.seqNo - 1]
            && w.delivered <= M[First(start) - 1..]
  {
    var w := Run(start, events);
    RunKeepsHonest(start, events, session, M);
    assert forall p :: p in w.handled ==> p in Arrivals(w);
    FaithfulAgrees(w.handled, M);
    Delivery.NoWrap(start, events, |M| + 1);
    Delivery.DeliveredAsSent(start, events, Numbered(M));
    SliceOfNumbered(M, First(start), w.c.seqNo);
    assert w.delivered <= Stream(w) <= M[First(start) - 1..];
  }

  lemma {:induction false} SentArrives(
    start: nat, events: seq<Event>, session: seq<byte>, M: seq<Message>, d: Dispatch)
    requires Survives(session) && Encodable(M) && Honest(events, session, M)
    requires Sendable(d, M) && Datagram(Bytes(d, session, M)) in events
    ensures Meaning(d, M) in Arrivals(Run(start, events))
    decreases |events|
  {
    var init, e := events[..|events| - 1], events[|events| - 1];
    var w := Run(start, init);
    HonestInit(events, session, M);
    StepArrivals(w, e);
    if e == Datagram(Bytes(d, session, M)) {
      RunKeepsHonest(start, init, session, M);
      ArrivesAsMeant(d, session, M);
      DispatchIsAdmitted(w.c, d, session, M);
    } else {
      SentArrives(start, init, session, M, d);
    }
  }

  /** Some datagram of the run brought message number `n`. */
  ghost predicate Brought(events: seq<Event>, session: seq<byte>, M: seq<Message>, n: nat) {
    exists d: Dispatch ::
      d.Messages? && Sendable(d, M) && d.first <= n < d.first + d.k && Datagram(Bytes(d, session, M)) in events
  }

  lemma BroughtIsCovered(start: nat, events: seq<Event>, session: seq<byte>, M: seq<Message>, n: nat)
    requires Survives(session) && Encodable(M) && Honest(events, session, M)
    requires Brought(events, session, M, n)
    ensures Covered(Arrivals(Run(start, events)), n)
  {
    var d: Dispatch :|
      d.Messages? && Sendable(d, M) && d.first <= n < d.first + d.k && Datagram(Bytes(d, session, M)) in events;
    SentArrives(start, events, session, M, d);
    assert Covers(Meaning(d, M), n);
  }

  /** If every number and the end of the session arrive in some datagram and the
      queue is drained, the client is done, and it stops having handed over the
      whole stream: at once or on the reader's next turn. */
  lemma DeliversAll(start: nat, events: seq<Event>, session: seq<byte>, M: seq<Message>)
    requires Survives(session) && Encodable(M) && Honest(events, session, M)
    requires First(start) <= |M| + 1 < 0x1_0000_0000_0000_0000
    requires forall n :: First(start) <= n <= |M| ==> Brought(events, session, M, n)
    requires Datagram(Bytes(Finish, session, M)) in events
    requires Run(start, events).c.queue == []
    ensures var w := Run(start, events);
            && w.c.seqNo == |M| + 1
            && w.c.bDone
            && (if w.c.running then Step(w, Poll) else w).delivered == M[First(start) - 1..]
            && !Step(w, Poll).c.running
  {
    var w, first := Run(start, events), First(start);
    assert Arrivals(w) == w.handled;
    forall n | first <= n <= |M| ensures Covered(w.handled, n) {
      assert Brought(events, session, M, n);
      BroughtIsCovered(start, events, session, M, n);
    }
    DeliversPrefix(start, events, session, M);
    Delivery.FrontierIsNext(start, events);
    EndArrives(start, events, session, M);
    Stopping.RunKeepsInv(start, events);
    if w.c.running {
      Stopping.StopHandshake(start, events);
    } else {
      Stopping.SafeStop(start, events);
      FirstEndIsIn(w.handled);
      RunKeepsHonest(start, events, session, M);
    }
  }

  lemma {:induction false} FirstEndIsIn(h: seq<Packet>)
    requires FirstEnd(h).Some?
    ensures End(FirstEnd(h).value) in h
  {
    if FirstEnd(h[..|h| - 1]).Some? {
      FirstEndIsIn(h[..|h| - 1]);
    }
  }

  lemma EndArrives(start: nat, events: seq<Event>, session: seq<byte>, M: seq<Message>)
    requires Survives(session) && Encodable(M) && Honest(events, session, M)
    requires |M| + 1 < 0x1_0000_0000_0000_0000
    requires Datagram(Bytes(Finish, session, M)) in events
    requires Run(start, events).c.queue == []
    requires Run(start, events).c.seqNo == |M| + 1
    ensures Run(start, events).c.bDone
  {
    var w := Run(start, events);
    SentArrives(start, events, session, M, Finish);
    assert End(|M| + 1) in w.handled;
    RunKeepsHonest(start, events, session, M);
    Stopping.RunKeepsInv(start, events);
    HasEnd(w.handled, End(|M| + 1));
    AnnouncedBound(w.handled, M, w.c.seqMax);
  }

  lemma AnnouncedBound(h: seq<Packet>, M: seq<Message>, n: nat)
    requires forall p :: p in h ==> Faithful(p, M)
    ensures Announced(h, n) ==> n <= |M| + 1
  {
  }

  lemma {:induction false} HasEnd(h: seq<Packet>, p: Packet)
    requires p in h && p.End?
    ensures FirstEnd(h).Some?
    decreases |h|
  {
    if h[|h| - 1] != p {
      HasEnd(h[..|h| - 1], p);
    }
  }

  // ---------- a wrong label ----------

  lemma RunOfFour(start: nat, e1: Event, e2: Event, e3: Event, e4: Event)
    returns (w1: World, w2: World, w3: World, w4: World)
    ensures w1 == Step(World(Initial(start), [], [], []), e1) && w2 == Step(w1, e2)
    ensures w3 == Step(w2, e3) && w4 == Step(w3, e4) && Run(start, [e1, e2, e3, e4]) == w4
  {
    var w := World(Initial(start), [], [], []);
    w1, w2, w3 := Step(w, e1), Continue(w, [e1] + [e2]), Continue(w, [e1] + [e2] + [e3]);
    w4 := Run(start, [e1, e2, e3, e4]);
    ContinueSnoc(w, [], e1);
    assert [] + [e1] == [e1];
    ContinueSnoc(w, [e1], e2);
    ContinueSnoc(w, [e1] + [e2], e3);
    ContinueSnoc(w, [e1] + [e2] + [e3], e4);
    assert [e1] + [e2] + [e3] + [e4] == [e1, e2, e3, e4];
  }

  /** Datagram `b` brings one message to a client of its session. */
  predicate Brings(b: seq<byte>, session: seq<byte>, n: uint64, m: Message) {
    |b| > HEAD_SIZE && Speaks(b, session) && Classify(Unpacked(b)) == Data(n, [m])
  }

  lemma BroughtIsQueued(w: World, b: seq<byte>, session: seq<byte>, n: uint64, m: Message)
    requires Brings(b, session, n, m) && (w.c.session == [] || w.c.session == session)
    ensures Step(w, Datagram(b)) == w.(c := w.c.(session := session, queue := w.c.queue + [Unpacked(b)]))
  {
  }

  lemma DataBrings(session: seq<byte>, M: seq<Message>, first: uint64)
    requires Survives(session) && Encodable(M) && 1 <= first <= |M|
    ensures Brings(DataPacket(session, M, first, 1), session, first, M[first - 1])
  {
    DataArrives(session, M, first, 1);
    assert M[first - 1..first] == [M[first - 1]];
  }

  /** One message in order, with nothing cached and no end in sight. */
  lemma OneInOrder(w: World, m: Message)
    requires w.c.queue != [] && w.c.seqNo < 0x1_0000_0000_0000_0000 && Classify(w.c.queue[0]) == Data(w.c.seqNo, [m])
    requires w.c.cache == map[] && !w.c.endSession
    ensures var c, c' := w.c, Step(w, Handle(0)).c;
            && c' == c.(queue := c.queue[1..], lastSeq := c.seqNo, seqNo := c.seqNo + 1, ready := c'.ready)
            && c'.ready == Some(if c.ready == None then [m] else c.ready.value + [m])
            && Step(w, Handle(0)).delivered == w.delivered
  {
    assert BatchOf(w.c.cache, w.c.seqNo, w.c.seqNo, [m]) == [m];
  }

  /** The label is the number of the last message, not of the first. */
  lemma LabelOff(w: World, M: seq<Message>)
    requires w.delivered == [] && w.c.running && w.c.lastSeq == 2 && w.c.ready == Some(M)
    ensures ReadOnce(w.c).1 == Some(ReadResult(M, 2)) && Step(w, Poll).delivered == M
  {
  }

  lemma TwoQueued(w1: World, w2: World, session: seq<byte>, b1: seq<byte>, b2: seq<byte>, x: Message, y: Message)
    requires Brings(b1, session, 1, x) && Brings(b2, session, 2, y)
    requires w1 == Step(World(Initial(1), [], [], []), Datagram(b1)) && w2 == Step(w1, Datagram(b2))
    ensures w2.delivered == [] && w2.c == Initial(1).(session := session, queue := [Unpacked(b1), Unpacked(b2)])
  {
    BroughtIsQueued(World(Initial(1), [], [], []), b1, session, 1, x);
    BroughtIsQueued(w1, b2, session, 2, y);
  }

  lemma TwoHandled(w2: World, w3: World, w4: World, m1: MsgBuf, m2: MsgBuf, M: seq<Message>)
    requires |M| == 2 && Classify(m1) == Data(1, [M[0]]) && Classify(m2) == Data(2, [M[1]])
    requires w2.delivered == [] && w2.c == Initial(1).(session := w2.c.session, queue := [m1, m2])
    requires w3 == Step(w2, Handle(0)) && w4 == Step(w3, Handle(0))
    ensures w4.delivered == [] && w4.c.running && w4.c.lastSeq == 2 && w4.c.ready == Some(M)
  {
    OneInOrder(w2, M[0]);
    OneInOrder(w3, M[1]);
    assert [M[0]] + [M[1]] == M;
  }

  lemma TwoBetweenReads(session: seq<byte>, b1: seq<byte>, b2: seq<byte>, M: seq<Message>) returns (w: World)
    requires |M| == 2 && Brings(b1, session, 1, M[0]) && Brings(b2, session, 2, M[1])
    ensures Run(1, [Datagram(b1), Datagram(b2), Handle(0), Handle(0)]) == w
    ensures w.delivered == [] && w.c.running && w.c.lastSeq == 2 && w.c.ready == Some(M)
  {
    var w1, w2, w3, w4 := RunOfFour(1, Datagram(b1), Datagram(b2), Handle(0), Handle(0));
    TwoQueued(w1, w2, session, b1, b2, M[0], M[1]);
    TwoHandled(w2, w3, w4, Unpacked(b1), Unpacked(b2), M);
    w := w4;
  }

  /** Two packets arrive and are handled between two reads: messages 1 and 2 come
      back labelled 2. */
  lemma ReportedPositionOff(session: seq<byte>, M: seq<Message>)
    requires Survives(session) && Encodable(M) && |M| == 2
    ensures var b1, b2 := DataPacket(session, M, 1, 1), DataPacket(session, M, 2, 1);
            var w := Run(1, [Datagram(b1), Datagram(b2), Handle(0), Handle(0)]);
            ReadOnce(w.c).1 == Some(ReadResult(M, 2)) && w.delivered == [] && Step(w, Poll).delivered == M
  {
    var b1, b2 := DataPacket(session, M, 1, 1), DataPacket(session, M, 2, 1);
    DataBrings(session, M, 1);
    DataBrings(session, M, 2);
    var w := TwoBetweenReads(session, b1, b2, M);
    LabelOff(w, M);
  }
}
