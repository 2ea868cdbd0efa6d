/** Whole runs of the client: any interleaving of arriving datagrams, handled
    packets, timer ticks and turns of the reader, with a log of each.

    Each event is one atomic step.  The source locks only the hand-over of
    `ready`, so this is an assumption about how its threads interleave. */
module Runs {
  import opened Wire
  import opened Codec
  import opened Protocol

  datatype Event =
    | Datagram(bytes: seq<byte>)
    | Handle(now: int)
    | Tick(now: int)
    | Poll

  datatype Request = Request(at: int, head: Header)

  /** The client and what an observer has seen it do: packets taken from the
      queue, messages handed to the reader, requests produced. */
  datatype World = World(c: State, handled: seq<Packet>, delivered: seq<Message>, requests: seq<Request>)

  function Logged(log: seq<Request>, now: int, r: Option<Header>): seq<Request> {
    if r == None then log else log + [Request(now, r.value)]
  }

  function Handled(w: World, p: Packet, now: int): World {
    var (c, r) := HandlePacket(w.c, p, now);
    w.(c := c, handled := w.handled + [p], requests := Logged(w.requests, now, r))
  }

  function Step(w: World, e: Event): World {
    match e
    case Datagram(bytes) => w.(c := GotBuff(w.c, bytes).0)
    case Handle(now) =>
      if w.c.queue == [] then w else
      Handled(w.(c := w.c.(queue := w.c.queue[1..])), Classify(w.c.queue[0]), now)
    case Tick(now) =>
      var (c, r) := OnTick(w.c, now);
      w.(c := c, requests := Logged(w.requests, now, r))
    case Poll =>
      var (c, b) := ReadOnce(w.c);
      w.(c := c, delivered := if b == None then w.delivered else w.delivered + b.value.msgs)
  }

  function Continue(w: World, events: seq<Event>): World {
    if events == [] then w
    else Step(Continue(w, events[..|events| - 1]), events[|events| - 1])
  }

  function Run(start: nat, events: seq<Event>): World {
    Continue(World(Initial(start), [], [], []), events)
  }

  lemma {:induction false} ContinueRun(start: nat, events: seq<Event>, more: seq<Event>)
    ensures Run(start, events + more) == Continue(Run(start, events), more)
  {
    if more == [] {
      assert events + more == events;
    } else {
      ContinueRun(start, events, more[..|more| - 1]);
      assert (events + more)[..|events + more| - 1] == events + more[..|more| - 1];
    }
  }

  /** Everything the client has put in order: read, or ready to be read. */
  function Stream(w: World): seq<Message> {
    w.delivered + if w.c.ready == None then [] else w.c.ready.value
  }

  function First(start: nat): nat {
    if start == 0 then 1 else start
  }

  /** Handling a packet touches neither the session nor the queue. */
  lemma PacketFrame(c: State, m: Packet, now: int)
    ensures var c' := HandlePacket(c, m, now).0; c'.session == c.session && c'.queue == c.queue
  {
    if m.Data? && m.seqNo <= c.seqNo <= m.seqNo + |m.msgs| {
      AdvanceFrame(c, BatchOf(c.cache, c.seqNo, m.seqNo, m.msgs));
    }
  }

  lemma AdvanceFrame(c: State, batch: seq<Message>)
    ensures var c' := Advance(c, batch); c'.session == c.session && c'.queue == c.queue
  {
  }

  // ---------- what a log of handled packets says ----------

  predicate Covers(p: Packet, n: nat) {
    p.Data? && p.seqNo <= n < p.seqNo + |p.msgs|
  }

  predicate CarriesAt(p: Packet, n: nat, x: Message) {
    Covers(p, n) && p.msgs[n - p.seqNo] == x
  }

  /** Some data packet in the log covers number `n`. */
  ghost predicate Covered(h: seq<Packet>, n: nat) {
    exists p :: p in h && Covers(p, n)
  }

  /** Some data packet in the log carries `x` as message number `n`. */
  ghost predicate Carried(h: seq<Packet>, n: nat, x: Message) {
    exists p :: p in h && CarriesAt(p, n, x)
  }

  /** Heartbeats and end-of-session packets announce the sender's next number. */
  predicate Announces(p: Packet, n: nat) {
    (p.Heartbeat? || p.End?) && p.seqNo == n
  }

  ghost predicate Announced(h: seq<Packet>, n: nat) {
    exists p :: p in h && Announces(p, n)
  }

  /** The number in the first end-of-session packet. */
  function FirstEnd(h: seq<Packet>): Option<uint64> {
    if h == [] then None
    else
      var before := FirstEnd(h[..|h| - 1]);
      if before.Some? then before
      else if h[|h| - 1].End? then Some(h[|h| - 1].seqNo) else None
  }

  // ---------- logs that grow ----------

  lemma CoveredGrows(h: seq<Packet>, m: Packet, n: nat)
    ensures Covered(h + [m], n) <==> Covered(h, n) || Covers(m, n)
  {
  }

  lemma CarriedGrows(h: seq<Packet>, m: Packet, n: nat, x: Message)
    ensures Carried(h + [m], n, x) <==> Carried(h, n, x) || CarriesAt(m, n, x)
  {
  }

  lemma CarriedIsCovered(h: seq<Packet>, n: nat, x: Message)
    requires Carried(h, n, x)
    ensures Covered(h, n)
  {
  }
}
