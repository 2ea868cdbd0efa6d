/** The receive protocol of client.go as transition functions on a value that
    holds what the `Client` object holds; the paged cache is its map. */
module Protocol {
  import opened Wire
  import opened Codec
  import opened MsgCaching

  const MAX_MESSAGES := 1024
  const NAK_WINDOW := 65400
  const REQ_INTERVAL := 10_000_000  // nanoseconds
  const END_OF_SESSION: uint16 := 0xffff

  datatype MsgBuf = MsgBuf(seqNo: uint64, msgCnt: uint16, dataBuf: seq<byte>)

  datatype State = State(
    session: seq<byte>,
    queue: seq<MsgBuf>,
    seqNo: nat,
    seqMax: uint64,
    seqEnd: uint64,
    endSession: bool,
    bDone: bool,
    running: bool,
    lastSeq: nat,
    ready: Option<seq<Message>>,
    cache: Cached,
    reqLast: int)

  /** What a fresh client is when asked to begin at `nextSeq`. */
  function Initial(nextSeq: nat): State {
    State([], [], if nextSeq == 0 then 1 else nextSeq, 0, 0, false, false, true, 0, None, map[], 0)
  }

  // ---------- datagrams into the queue ----------

  predicate IsData(m: MsgBuf) {
    m.msgCnt != 0 && m.msgCnt != END_OF_SESSION
  }

  /** A datagram as it is queued; only data packets keep their payload. */
  function Unpacked(buff: seq<byte>): MsgBuf
    requires |buff| >= HEAD_SIZE
  {
    var head := Decoded(buff);
    var data := head.messageCnt != END_OF_SESSION && head.messageCnt != 0;
    MsgBuf(head.seqNo, head.messageCnt, if data then buff[HEAD_SIZE..] else [])
  }

  function GotBuff(s: State, buff: seq<byte>): (State, Option<Error>) {
    if |buff| < HEAD_SIZE then (s, Some(DecodeHeadFailed)) else
    var head := Decoded(buff);
    var nMsg := head.messageCnt;
    if nMsg != END_OF_SESSION && nMsg >= MAX_MESSAGES then (s, Some(InvalidMessageCount)) else
    if s.session != [] && s.session != head.session then (s, Some(SessionMismatch)) else
    var s1 := s.(session := head.session);
    if IsData(Unpacked(buff)) && |buff| == HEAD_SIZE then (s1, Some(MessageCount)) else
    (s1.(queue := s1.queue + [Unpacked(buff)]), None)
  }

  // ---------- queued packets ----------

  /** What a queued packet turns out to be: messages numbered from `seqNo` on,
      an announcement of the next number, the end of the session, or an error. */
  datatype Packet =
    | Data(seqNo: uint64, msgs: seq<Message>)
    | Heartbeat(seqNo: uint64)
    | End(seqNo: uint64)
    | Bad(error: Error)

  function Classify(m: MsgBuf): (p: Packet)
    ensures p.Data? ==> IsData(m) && p.seqNo == m.seqNo && |p.msgs| == m.msgCnt
  {
    var res := if m.dataBuf == [] then Ok([]) else Unmarshalled(m.dataBuf, m.msgCnt);
    if res.Err? then Bad(res.error)
    else if IsData(m) then
      if |res.value| != m.msgCnt then Bad(MessageCount) else Data(m.seqNo, res.value)
    else if m.msgCnt == END_OF_SESSION then End(m.seqNo)
    else Heartbeat(m.seqNo)
  }

  /** A retransmission request for the gap below `seqNo`, unless there is none
      or the last request is too recent.  What goes out is `HeadBytes` of it. */
  function NewReq(s: State, seqNo: uint64, now: int): (State, Option<Header>) {
    if s.seqNo >= seqNo then (s, None) else
    var s1 := if seqNo > s.seqMax then s.(seqMax := seqNo) else s;
    if now - s1.reqLast < REQ_INTERVAL then (s1, None) else
    var head := Header(s.session, s.seqNo, Min(seqNo - s.seqNo, NAK_WINDOW));
    (s1.(reqLast := now), Some(head))
  }

  function EndSession(s: State, seqNo: uint64): State {
    var s1 := if s.endSession then s else s.(endSession := true, seqEnd := seqNo);
    if s1.seqNo < s1.seqMax then s1
    else if s1.seqEnd > s1.seqMax && s1.seqEnd > s1.seqNo then
      if s1.ready == None then s1.(seqMax := s1.seqEnd) else s1
    else s1.(bDone := true, running := s1.running && s1.ready != None)
  }

  /** What an in-order packet hands over: its new messages, then the cached run
      that they reach. */
  function BatchOf(cache: Cached, next: nat, seqNo: uint64, res: seq<Message>): seq<Message>
    requires seqNo <= next <= seqNo + |res|
  {
    var news := res[next - seqNo..];
    news + RunFrom(cache, next + |news|)
  }

  function Advance(s: State, batch: seq<Message>): State {
    var next := s.seqNo + |batch|;
    var s1 := s.(
      lastSeq := s.seqNo,
      seqNo := next,
      ready := Some(if s.ready == None then batch else s.ready.value + batch));
    if !s.endSession || next < s.seqMax then s1
    else if s.seqEnd > next then s1.(seqMax := s.seqEnd)
    else s1.(bDone := true)
  }

  function HandleData(s: State, seqNo: uint64, res: seq<Message>): State {
    if seqNo + |res| < s.seqNo then s
    else if seqNo > s.seqNo then s.(cache := Stored(s.cache, res, seqNo))
    else Advance(s, BatchOf(s.cache, s.seqNo, seqNo, res))
  }

  /** `doMsgBuf` once the packet is classified: the new state and the request
      to send, if any. */
  function HandlePacket(s: State, p: Packet, now: int): (State, Option<Header>) {
    match p
    case Bad(_) => (s, None)
    case Data(seqNo, msgs) => (HandleData(s, seqNo, msgs), None)
    case Heartbeat(seqNo) => NewReq(s, seqNo, now)
    case End(seqNo) => NewReq(EndSession(s, seqNo), seqNo, now)
  }

  function OnTick(s: State, now: int): (State, Option<Header>) {
    if s.seqNo < s.seqMax then NewReq(s, s.seqMax, now) else (s, None)
  }

  // ---------- the reader ----------

  datatype ReadResult = ReadResult(msgs: seq<Message>, seqNo: nat)

  /** One turn of the loop in `Read`. */
  function ReadOnce(s: State): (State, Option<ReadResult>) {
    if !s.running then (s, None) else
    var n := if s.ready == None then 0 else |s.ready.value|;
    var stop := s.bDone && s.lastSeq + n >= s.seqNo;
    (s.(ready := None, running := !stop),
     if s.ready == None then None else Some(ReadResult(s.ready.value, s.lastSeq)))
  }
}
