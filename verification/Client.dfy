/** The `Client` object of client.go.  Each method is proved to do to the fields
    what the transition function of the same name does to the state they stand for. */
module Clients {
  import opened Wire
  import opened Codec
  import opened MsgCaching
  import Protocol
  import opened Runs

  class Client {
    var session: seq<byte>
    var ch: seq<Protocol.MsgBuf>
    var seqNo: nat
    var seqMax: uint64
    var seqEnd: uint64
    var endSession: bool
    var bDone: bool
    var running: bool
    var lastSeq: nat
    var ready: Option<seq<Message>>
    var reqLast: int
    const cache: MsgCache

    ghost predicate Valid()
      reads this, cache, cache.Repr
    {
      cache.Valid() && this !in cache.Repr
    }

    ghost function Abs(): Protocol.State
      reads this, cache
    {
      Protocol.State(session, ch, seqNo, seqMax, seqEnd, endSession, bDone, running,
                     lastSeq, ready, cache.contents, reqLast)
    }

    constructor (nextSeq: nat)
      ensures Valid() && fresh(cache.Repr)
      ensures Abs() == Protocol.Initial(nextSeq)
      ensures seqNo == (if nextSeq == 0 then 1 else nextSeq) && running && !bDone && !endSession
      ensures session == [] && ch == [] && ready == None && seqMax == 0
    {
      session, ch := [], [];
      seqNo := nextSeq;
      seqMax, seqEnd, lastSeq, reqLast := 0, 0, 0, 0;
      endSession, bDone, ready := false, false, None;
      if nextSeq == 0 {
        seqNo := 1;
      }
      cache := new MsgCache();
      running := true;
    }

    /** The answer is 0 whenever something was stored: the last slot it looks at
        is one it has just filled. */
    method StoreCache(buf: seq<Message>, seqNo: nat) returns (r: nat)
      requires Valid() && seqNo > 0
      modifies cache.Repr
      ensures Valid() && fresh(cache.Repr - old(cache.Repr))
      ensures cache.contents == Stored(old(cache.contents), buf, seqNo)
      ensures r == if buf != [] || seqNo - 1 in old(cache.contents) then 0 else seqNo
    {
      var bMerge := false;
      var next := seqNo;
      for i := 0 to |buf|
        invariant Valid() && next == seqNo + i
        invariant fresh(cache.Repr - old(cache.Repr))
        invariant forall n :: n in cache.contents <==> n in old(cache.contents) || seqNo <= n < next
        invariant forall n :: n in cache.contents ==>
          cache.contents[n] == if seqNo <= n < next then buf[n - seqNo] else old(cache.contents)[n]
        invariant i == 0 ==> !bMerge
      {
        var update := cache.Upset(next, buf[i]);
        if update {
          bMerge := true;
        }
        next := next + 1;
      }
      assert cache.contents == Stored(old(cache.contents), buf, seqNo);
      if bMerge {
        return 0;
      }
      var nil := cache.IsNil(next - 1);
      if !nil {
        return 0;
      }
      return seqNo;
    }

    method NewReq(seqNo: uint64, now: int) returns (r: Option<seq<byte>>)
      modifies this
      ensures Abs() == Protocol.NewReq(old(Abs()), seqNo, now).0
      ensures r == Encoded(Protocol.NewReq(old(Abs()), seqNo, now).1)
    {
      if this.seqNo >= seqNo {
        return None;
      }
      if seqNo > seqMax {
        seqMax := seqNo;
      }
      if now - reqLast < Protocol.REQ_INTERVAL {
        return None;
      }
      reqLast := now;
      var seqF := this.seqNo;
      var cnt := seqNo - seqF;
      if cnt > Protocol.NAK_WINDOW {
        cnt := Protocol.NAK_WINDOW;
      }
      var head := Header(session, seqF, cnt);
      var buff := new byte[HEAD_SIZE];
      var err := EncodeHead(buff, head);
      assert buff[..] == HeadBytes(head);
      r := Some(buff[..]);
    }

    method GotBuff(buff: seq<byte>) returns (err: Option<Error>)
      modifies this
      ensures Abs() == Protocol.GotBuff(old(Abs()), buff).0
      ensures err == Protocol.GotBuff(old(Abs()), buff).1
    {
      var r := DecodeHead(buff);
      if r.Err? {
        return Some(DecodeHeadFailed);
      }
      var head := r.value;
      var nMsg := head.messageCnt;
      if nMsg != Protocol.END_OF_SESSION && nMsg >= Protocol.MAX_MESSAGES {
        return Some(InvalidMessageCount);
      }
      if session == [] {
        session := head.session;
      } else if session != head.session {
        return Some(SessionMismatch);
      }
      var newBuf := [];
      if nMsg != Protocol.END_OF_SESSION && nMsg != 0 {
        if |buff| == HEAD_SIZE {
          return Some(MessageCount);
        }
        newBuf := buff[HEAD_SIZE..];
      }
      ch := ch + [Protocol.MsgBuf(head.seqNo, nMsg, newBuf)];
      err := None;
    }

    method EndSession(seqNo: uint64)
      modifies this
      ensures Abs() == Protocol.EndSession(old(Abs()), seqNo)
    {
      if !endSession {
        endSession := true;
        seqEnd := seqNo;
      }
      if this.seqNo >= seqMax {
        if seqEnd > seqMax && seqEnd > this.seqNo {
          if ready == None {
            seqMax := seqEnd;
          }
        } else {
          bDone := true;
          if ready == None {
            running := false;
          }
        }
      }
    }

    /** The new messages of a packet that reaches the frontier, with the cached
        run behind them. */
    method Batch(msgSeqNo: uint64, msgs: seq<Message>) returns (res: seq<Message>)
      requires Valid() && msgSeqNo <= seqNo <= msgSeqNo + |msgs|
      ensures res == Protocol.BatchOf(cache.contents, seqNo, msgSeqNo, msgs)
    {
      res := msgs;
      if seqNo > msgSeqNo {
        res := res[seqNo - msgSeqNo..];
      }
      var bb := cache.Merge(seqNo + |res|);
      if bb != None {
        res := res + bb.value;
      }
    }

    /** The tail of `doMsgBuf`: the frontier moves and the reader gets the batch. */
    method Advance(batch: seq<Message>)
      modifies this
      ensures Abs() == Protocol.Advance(old(Abs()), batch)
    {
      var next := seqNo + |batch|;
      lastSeq := seqNo;
      seqNo := next;
      if endSession && next >= seqMax {
        if seqEnd > next {
          seqMax := seqEnd;
        } else {
          bDone := true;
        }
      }
      if ready == None {
        ready := Some(batch);
      } else {
        ready := Some(ready.value + batch);
      }
    }

    method DoMsgBuf(m: Protocol.MsgBuf, now: int) returns (r: Option<seq<byte>>, err: Option<Error>)
      requires Valid()
      modifies this, cache.Repr
      ensures Valid() && fresh(cache.Repr - old(cache.Repr))
      ensures var p := Protocol.Classify(m);
              && Abs() == Protocol.HandlePacket(old(Abs()), p, now).0
              && r == Encoded(Protocol.HandlePacket(old(Abs()), p, now).1)
              && err == if p.Bad? then Some(p.error) else None
    {
      var res := [];
      if |m.dataBuf| > 0 {
        var ret := Unmarshal(m.dataBuf, m.msgCnt);
        if ret.Err? {
          return None, Some(ret.error);
        }
        res := ret.value;
      }
      if m.msgCnt == Protocol.END_OF_SESSION {
        EndSession(m.seqNo);
      }
      if m.msgCnt != 0 && m.msgCnt != Protocol.END_OF_SESSION {
        if |res| != m.msgCnt {
          return None, Some(MessageCount);
        }
        var seqNext := m.seqNo + m.msgCnt;
        var seqF := seqNo;
        if seqNext < seqF {
          return None, None;
        } else if m.seqNo > seqF {
          var s := StoreCache(res, m.seqNo);
          if s <= seqF {
            return None, None;
          }
          assert false;  // a request from here never happens
        }
      } else {
        if seqNo < m.seqNo {
          r := NewReq(m.seqNo, now);
          return r, None;
        }
        return None, None;
      }
      var batch := Batch(m.seqNo, res);
      Advance(batch);
      return None, None;
    }

    method Tick(now: int) returns (r: Option<seq<byte>>)
      modifies this
      ensures Abs() == Protocol.OnTick(old(Abs()), now).0
      ensures r == Encoded(Protocol.OnTick(old(Abs()), now).1)
    {
      r := None;
      if seqNo < seqMax {
        r := NewReq(seqMax, now);
      }
    }

    /** One turn of the loop in `Read`. */
    method ReadOnce() returns (r: Option<Protocol.ReadResult>)
      modifies this
      ensures Abs() == Protocol.ReadOnce(old(Abs())).0
      ensures r == Protocol.ReadOnce(old(Abs())).1
    {
      if !running {
        return None;
      }
      var res := ready;
      ready := None;
      var n := if res == None then 0 else |res.value|;
      if bDone && lastSeq + n >= seqNo {
        running := false;
      }
      if res != None {
        return Some(Protocol.ReadResult(res.value, lastSeq));
      }
      return None;
    }
  }

  function Encoded(r: Option<Header>): Option<seq<byte>> {
    if r == None then None else Some(HeadBytes(r.value))
  }

  /** What the observer keeps of the produced requests: the bytes that go out. */
  function Sent(rs: seq<Request>): seq<seq<byte>> {
    seq(|rs|, i requires 0 <= i < |rs| => HeadBytes(rs[i].head))
  }

  /** One event, performed on the object that stands for `w.c`. */
  method Perform(c: Client, e: Event, ghost w: World)
    returns (msgs: seq<Message>, request: Option<seq<byte>>)
    requires c.Valid() && c.Abs() == w.c
    modifies c, c.cache.Repr
    ensures c.Valid() && fresh(c.cache.Repr - old(c.cache.Repr))
    ensures c.Abs() == Step(w, e).c
    ensures Step(w, e).delivered == w.delivered + msgs
    ensures Sent(Step(w, e).requests) == Sent(w.requests) + if request == None then [] else [request.value]
  {
    msgs, request := [], None;
    match e {
      case Datagram(bytes) =>
        var _ := c.GotBuff(bytes);
      case Tick(now) =>
        request := c.Tick(now);
      case Handle(now) =>
        if c.ch != [] {
          var m := c.ch[0];
          c.ch := c.ch[1..];
          var r, _ := c.DoMsgBuf(m, now);
          request := r;
        }
      case Poll =>
        var r := c.ReadOnce();
        if r.Some? {
          msgs := r.value.msgs;
        }
    }
  }

  /** A scheduler that drives a client object through any list of events: the
      object goes through the run, delivers its messages and sends its requests. */
  method Drive(start: nat, events: seq<Event>)
    returns (c: Client, delivered: seq<Message>, sent: seq<seq<byte>>)
    ensures c.Abs() == Run(start, events).c
    ensures delivered == Run(start, events).delivered
    ensures sent == Sent(Run(start, events).requests)
  {
    c := new Client(start);
    delivered, sent := [], [];
    for i := 0 to |events|
      invariant c.Valid() && fresh(c) && fresh(c.cache.Repr)
      invariant c.Abs() == Run(start, events[..i]).c
      invariant delivered == Run(start, events[..i]).delivered
      invariant sent == Sent(Run(start, events[..i]).requests)
    {
      assert events[..i + 1][..i] == events[..i];
      var msgs, request := Perform(c, events[i], Run(start, events[..i]));
      delivered := delivered + msgs;
      if request.Some? {
        sent := sent + [request.value];
      }
    }
    assert events[..|events|] == events;
  }
}
