/** `zsockIf` of zsockif.go: packets are framed and pushed through the transmit ring. */
module ZSockIfs {
  import opened Wire
  import opened Bpf
  import opened Frames
  import opened TxRing
  import opened ZSockets

  class ZSockIf {
    const zs: ZSocket
    const dst: HardwareAddress
    const src: HardwareAddress
    const dstIP: Address
    const srcIP: Address
    const port: int
    const bRead: bool
    const frameSize: nat                    // bytes of a ring frame
    const checksum: seq<byte> -> uint16     // computed by another package

    constructor (zs: ZSocket, dst: HardwareAddress, src: HardwareAddress, dstIP: Address, srcIP: Address,
                 port: int, bRead: bool, frameSize: nat, checksum: seq<byte> -> uint16)
      requires frameSize >= HEADERS
      ensures this.zs == zs && this.dst == dst && this.src == src && this.dstIP == dstIP && this.srcIP == srcIP
      ensures this.port == port && this.bRead == bRead && this.frameSize == frameSize && this.checksum == checksum
    {
      this.zs, this.dst, this.src, this.dstIP, this.srcIP := zs, dst, src, dstIP, srcIP;
      this.port, this.bRead, this.frameSize, this.checksum := port, bRead, frameSize, checksum;
    }

    function Check(l: int): uint16 {
      checksum(IpHeader(l, 0, srcIP, dstIP))
    }

    /** All that `copyFx` writes for `buf` when it goes by length `l`. */
    function Full(buf: seq<byte>, l: int): (f: seq<byte>)
      ensures |f| == HEADERS + |buf|
    {
      dst + src + Headers(l, port, Check(l), srcIP, dstIP) + buf
    }

    /** The length the frame goes by: sixteen bits of the packet's, or all of it if those are zero. */
    function LengthOf(buf: seq<byte>): (l: int)
      ensures 0 <= l <= |buf|
    {
      if |buf| % 0x1_0000 <= 0 then |buf| else |buf| % 0x1_0000
    }

    /** The bytes of the ring frame that are handed to the kernel. */
    function Emitted(buf: seq<byte>): seq<byte> {
      var l := LengthOf(buf);
      Full(buf, l)[..Min(Min(frameSize, (l + HEADERS) % 0x1_0000), HEADERS + |buf|)]
    }

    /** Every packet goes out as its frame, cut to sixteen bits of its length and to the
        size of a ring frame. */
    lemma EmittedIsFrame(buf: seq<byte>)
      ensures var f := Frames.Frame(dst, src, port, Check(|buf|), srcIP, dstIP, buf);
              Emitted(buf) == f[..Min(frameSize, |f| % 0x1_0000)]
    {
      HeadersCut(LengthOf(buf), |buf|, srcIP, dstIP, port);
      assert Check(LengthOf(buf)) == Check(|buf|);
    }

    /** The checksum in a frame is that of its IPv4 header with the checksum bytes at zero. */
    lemma EmittedChecksum(buf: seq<byte>)
      requires |buf| + HEADERS <= 0xffff && frameSize >= HEADERS
      ensures |Emitted(buf)| >= 42 && Half(Emitted(buf), 24) == checksum(Emitted(buf)[14..34][10 := 0][11 := 0])
    {
      var check := Check(|buf|);
      var f := Frames.Frame(dst, src, port, check, srcIP, dstIP, buf);
      EmittedIsFrame(buf);
      PrefixKeepsHeaders(f, Min(frameSize, |f| % 0x1_0000));
      FrameChecksum(dst, src, check, srcIP, dstIP, port, buf);
    }

    lemma EmittedWhole(buf: seq<byte>)
      requires |buf| + 42 <= Min(frameSize, 0xffff)
      ensures Emitted(buf) == Frames.Frame(dst, src, port, Check(|buf|), srcIP, dstIP, buf)
    {
      var f := Frames.Frame(dst, src, port, Check(|buf|), srcIP, dstIP, buf);
      EmittedIsFrame(buf);
      assert f[..|f|] == f;
    }

    /** A packet that fits goes out in a frame that the receiver's filter for the
        same port accepts and that holds the packet after its headers. */
    lemma EmittedIsAccepted(buf: seq<byte>)
      requires |buf| + HEADERS <= Min(frameSize, 0xffff) && 0 <= port < 0x1_0000
      ensures Exec(Filter(port), 0, Emitted(buf), 0, 0) == SNAP
      ensures |Emitted(buf)| == HEADERS + |buf| && Emitted(buf)[HEADERS..] == buf
    {
      EmittedWhole(buf);
      FrameReceived(Emitted(buf), dst, src, Check(|buf|), srcIP, dstIP, port, buf);
      FramePayload(dst, src, port, Check(|buf|), srcIP, dstIP, buf);
    }

    /** A packet that fits is carried by the frame that goes out, with the writer's addresses. */
    lemma EmittedCarries(buf: seq<byte>)
      requires |buf| + 42 <= Min(frameSize, 0xffff)
      ensures Carries(Emitted(buf), dst, src, dstIP, srcIP, port, buf)
    {
      EmittedWhole(buf);
      FrameCarries(dst, src, Check(|buf|), srcIP, dstIP, port, buf);
    }

    lemma FullPrefix(packet: seq<byte>, l: int, n: nat)
      requires n <= |packet|
      ensures dst + src + Headers(l, port, Check(l), srcIP, dstIP) + packet[..n] == Full(packet, l)[..HEADERS + n]
    {
    }

    method CopyFx(buff: array<byte>, packet: seq<byte>, length: int) returns (cL: uint16)
      requires buff.Length >= HEADERS
      modifies buff
      ensures var l := if length <= 0 then |packet| else length;
              && cL == (l + HEADERS) % 0x1_0000
              && buff[..] == Overwrite(old(buff[..]), 0, Full(packet, l)[..Min(buff.Length, HEADERS + |packet|)])
    {
      var l := length;
      if l <= 0 {
        l := |packet|;
      }
      ghost var before := buff[..];
      Write(buff, 0, dst);
      Write(buff, 6, src);
      OverwriteNext(before, 0, dst, src);
      BuildRawUdp(buff, l, port, Check(l), srcIP, dstIP);
      ghost var head := dst + src + Headers(l, port, Check(l), srcIP, dstIP);
      OverwriteNext(before, 0, dst + src, Headers(l, port, Check(l), srcIP, dstIP));
      assert buff[..] == Overwrite(before, 0, head);
      Copy(buff, HEADERS, buff.Length, packet);
      var n := Min(|packet|, buff.Length - HEADERS);
      OverwriteNext(before, 0, head, packet[..n]);
      FullPrefix(packet, l, n);
      cL := (l + HEADERS) % 0x1_0000;
    }

    ghost predicate Valid()
      reads this, zs, zs.mb, zs.status, zs.data
    {
      zs.Valid() && frameSize >= HEADERS
    }

    method Framed(buf: seq<byte>) returns (f: seq<byte>)
      requires frameSize >= HEADERS
      ensures f == Emitted(buf)
    {
      var frame := new byte[frameSize](_ => 0);
      var cL := CopyFx(frame, buf, |buf| % 0x1_0000);
      f := frame[..Min(cL, frame.Length)];
    }

    /** How many frames the ring has room for. */
    ghost function Room(): nat
      requires Valid()
      reads this, zs, zs.mb, zs.status, zs.data
    {
      if zs.txEnabled then zs.frameNum - |zs.Waiting()| else 0
    }

    /** Frames one packet into the ring; `false` when it is disabled or full. */
    method Push(buf: seq<byte>) returns (ok: bool)
      requires Valid()
      modifies zs`txIndex, zs`txWritten, zs`txWrittenIndex, zs`ring, zs.mb, zs.data
      ensures Valid()
      ensures ok <==> old(Room()) > 0
      ensures zs.Waiting() == old(zs.Waiting()) + if ok then [Emitted(buf)] else []
    {
      var f := Framed(buf);
      var r := zs.CopyToBuffer(f);
      ok := r.Some?;
    }

    function AllEmitted(buffs: seq<seq<byte>>): (r: seq<Payload>)
      ensures |r| == |buffs|
      ensures forall i :: 0 <= i < |buffs| ==> r[i] == Emitted(buffs[i])
    {
      seq(|buffs|, i requires 0 <= i < |buffs| => Emitted(buffs[i]))
    }

    lemma AllEmittedSnoc(buffs: seq<seq<byte>>, n: nat)
      requires n < |buffs|
      ensures AllEmitted(buffs[..n + 1]) == AllEmitted(buffs[..n]) + [Emitted(buffs[n])]
    {
    }

    /** The loop of `MSend`: packets go into the ring until it is full. */
    method PushAll(buffs: seq<seq<byte>>) returns (n: nat)
      requires Valid()
      modifies zs`txIndex, zs`txWritten, zs`txWrittenIndex, zs`ring, zs.mb, zs.data
      ensures Valid()
      ensures n == Min(|buffs|, old(Room()))
      ensures zs.Waiting() == old(zs.Waiting()) + AllEmitted(buffs[..n])
    {
      n := 0;
      while n < |buffs|
        invariant Valid() && 0 <= n <= |buffs|
        invariant zs.Waiting() == old(zs.Waiting()) + AllEmitted(buffs[..n]) && n <= old(Room())
      {
        var ok := Push(buffs[n]);
        if !ok {
          break;
        }
        AllEmittedSnoc(buffs, n);
        n := n + 1;
      }
    }

    /** As many packets as the ring has room for are handed to the kernel, in order,
        after what was already waiting; all that it accepts goes out.  With no room
        nothing is flushed and nothing changes. */
    method MSend(buffs: seq<seq<byte>>) returns (n: nat)
      requires Valid()
      modifies zs, zs.mb, zs.status, zs.data
      ensures Valid()
      ensures n == Min(|buffs|, old(Room()))
      ensures n > 0 ==> zs.Waiting() == []
      ensures n > 0 ==>
        zs.wire == old(zs.wire) + Passed(zs.accepts, old(zs.Waiting()) + AllEmitted(buffs[..n]))
      ensures n == 0 ==> zs.wire == old(zs.wire) && zs.Waiting() == old(zs.Waiting())
      ensures n > 0 ==>
        var all := old(zs.Waiting()) + AllEmitted(buffs[..n]);
        zs.wire == old(zs.wire) + all <==> AllFit(zs.accepts, all)
    {
      if |buffs| == 0 {
        return 0;
      }
      n := PushAll(buffs);
      AllOutIff(zs.accepts, zs.wire, old(zs.Waiting()) + AllEmitted(buffs[..n]));
      if n > 0 {
        var _, _, _ := zs.FlushFrames();
        return n;
      }
      return 0;
    }

    method Send(buf: seq<byte>) returns (r: Option<nat>)
      requires Valid()
      modifies zs, zs.mb, zs.status, zs.data
      ensures Valid()
      ensures r == None <==> bRead || old(Room()) == 0
      ensures r == None ==> zs.wire == old(zs.wire) && zs.Waiting() == old(zs.Waiting())
      ensures r.Some? ==>
        && r.value == |buf| && zs.Waiting() == []
        && zs.wire == old(zs.wire) + Passed(zs.accepts, old(zs.Waiting()) + [Emitted(buf)])
      ensures r.Some? ==>
        var all := old(zs.Waiting()) + [Emitted(buf)];
        zs.wire == old(zs.wire) + all <==> AllFit(zs.accepts, all)
    {
      if bRead {
        return None;
      }
      var ok := Push(buf);
      if !ok {
        return None;
      }
      AllOutIff(zs.accepts, zs.wire, old(zs.Waiting()) + [Emitted(buf)]);
      var _, _, _ := zs.FlushFrames();
      return Some(|buf|);
    }

    // ---------- any calls, one after the other ----------

    /** The packets that a call hands to the kernel when nothing waits. */
    function Taken(call: Call): seq<seq<byte>> {
      if !zs.txEnabled then []
      else
        match call
        case SendCall(buf) => if bRead then [] else [buf]
        case MSendCall(buffs) => buffs[..Min(|buffs|, zs.frameNum)]
    }

    function AllTaken(calls: seq<Call>): seq<seq<byte>> {
      if calls == [] then [] else AllTaken(calls[..|calls| - 1]) + Taken(calls[|calls| - 1])
    }

    /** What a call answers when nothing waits. */
    function AnswerTo(call: Call): Answer {
      match call
      case SendCall(buf) => SendAnswer(if bRead || !zs.txEnabled then None else Some(|buf|))
      case MSendCall(buffs) => MSendAnswer(if zs.txEnabled then Min(|buffs|, zs.frameNum) else 0)
    }

    function AnswersTo(calls: seq<Call>): seq<Answer> {
      if calls == [] then [] else AnswersTo(calls[..|calls| - 1]) + [AnswerTo(calls[|calls| - 1])]
    }

    /** A call reports as many packets as it takes. */
    lemma {:induction false} ReportedIsTaken(calls: seq<Call>)
      ensures Reported(AnswersTo(calls)) == |AllTaken(calls)|
    {
      if calls != [] {
        ReportedIsTaken(calls[..|calls| - 1]);
        ReportedSnoc(AnswersTo(calls[..|calls| - 1]), AnswerTo(calls[|calls| - 1]));
      }
    }

    lemma AllEmittedConcat(a: seq<seq<byte>>, b: seq<seq<byte>>)
      ensures AllEmitted(a + b) == AllEmitted(a) + AllEmitted(b)
    {
    }

    /** Between calls: nothing waits. */
    ghost predicate Clear()
      reads this, zs, zs.mb, zs.status, zs.data
    {
      Valid() && zs.Waiting() == []
    }

    method PerformSend(buf: seq<byte>) returns (r: Option<nat>)
      requires Clear()
      modifies zs, zs.mb, zs.status, zs.data
      ensures Clear() && SendAnswer(r) == AnswerTo(SendCall(buf))
      ensures zs.wire == old(zs.wire) + Passed(zs.accepts, AllEmitted(Taken(SendCall(buf))))
    {
      assert [] + [Emitted(buf)] == AllEmitted([buf]);
      r := Send(buf);
    }

    method PerformMSend(buffs: seq<seq<byte>>) returns (n: nat)
      requires Clear()
      modifies zs, zs.mb, zs.status, zs.data
      ensures Clear() && MSendAnswer(n) == AnswerTo(MSendCall(buffs))
      ensures zs.wire == old(zs.wire) + Passed(zs.accepts, AllEmitted(Taken(MSendCall(buffs))))
    {
      n := MSend(buffs);
      TakenOf(buffs, n);
    }

    lemma TakenOf(buffs: seq<seq<byte>>, n: nat)
      requires n == Min(|buffs|, if zs.txEnabled then zs.frameNum else 0)
      ensures Taken(MSendCall(buffs)) == buffs[..n]
      ensures [] + AllEmitted(buffs[..n]) == AllEmitted(buffs[..n])
      ensures n == 0 ==> AllEmitted(buffs[..n]) == []
    {
    }

    /** One call in a row: its answer is exact, and nothing is left waiting. */
    method Perform(call: Call) returns (answer: Answer)
      requires Clear()
      modifies zs, zs.mb, zs.status, zs.data
      ensures Clear() && answer == AnswerTo(call)
      ensures zs.wire == old(zs.wire) + Passed(zs.accepts, AllEmitted(Taken(call)))
    {
      match call {
        case SendCall(buf) =>
          var r := PerformSend(buf);
          answer := SendAnswer(r);
        case MSendCall(buffs) =>
          var n := PerformMSend(buffs);
          answer := MSendAnswer(n);
      }
    }

    /** What is on the wire after some calls. */
    function WireAfter(wire: seq<Payload>, calls: seq<Call>): seq<Payload> {
      wire + Passed(zs.accepts, AllEmitted(AllTaken(calls)))
    }

    lemma CallsSnoc(wire: seq<Payload>, calls: seq<Call>, i: nat)
      requires i < |calls|
      ensures AnswersTo(calls[..i + 1]) == AnswersTo(calls[..i]) + [AnswerTo(calls[i])]
      ensures WireAfter(wire, calls[..i + 1]) ==
              WireAfter(wire, calls[..i]) + Passed(zs.accepts, AllEmitted(Taken(calls[i])))
    {
      TakenSnoc(calls, i);
      PassedTaken(wire, AllTaken(calls[..i]), Taken(calls[i]));
    }

    lemma PassedTaken(wire: seq<Payload>, a: seq<seq<byte>>, b: seq<seq<byte>>)
      ensures wire + Passed(zs.accepts, AllEmitted(a + b)) ==
              wire + Passed(zs.accepts, AllEmitted(a)) + Passed(zs.accepts, AllEmitted(b))
    {
      AllEmittedConcat(a, b);
      PassedConcat(zs.accepts, AllEmitted(a), AllEmitted(b));
    }

    lemma TakenSnoc(calls: seq<Call>, i: nat)
      requires i < |calls|
      ensures AnswersTo(calls[..i + 1]) == AnswersTo(calls[..i]) + [AnswerTo(calls[i])]
      ensures AllTaken(calls[..i + 1]) == AllTaken(calls[..i]) + Taken(calls[i])
    {
      assert calls[..i + 1][..i] == calls[..i];
    }

    /** All that the answers report has gone out exactly when the kernel accepts all of it. */
    lemma ReportedIsOutIff(wire: seq<Payload>, calls: seq<Call>)
      ensures var all := AllEmitted(AllTaken(calls));
              && Reported(AnswersTo(calls)) == |AllTaken(calls)|
              && (|WireAfter(wire, calls)| - |wire| == Reported(AnswersTo(calls)) <==> AllFit(zs.accepts, all))
              && (WireAfter(wire, calls) == wire + all <==> AllFit(zs.accepts, all))
    {
      ReportedIsTaken(calls);
      PassedAll(zs.accepts, AllEmitted(AllTaken(calls)));
      AllOutIff(zs.accepts, wire, AllEmitted(AllTaken(calls)));
    }

    /** Over any calls nothing is left waiting in between, every answer is exact, and
        what the kernel accepts of all packets taken goes out in order.  What the
        answers report has all gone out exactly when the kernel accepts all of it. */
    method Drive(calls: seq<Call>) returns (answers: seq<Answer>)
      requires Clear()
      modifies zs, zs.mb, zs.status, zs.data
      ensures Clear() && answers == AnswersTo(calls)
      ensures zs.wire == old(zs.wire) + Passed(zs.accepts, AllEmitted(AllTaken(calls)))
      ensures |zs.wire| - |old(zs.wire)| == Reported(answers) <==> AllFit(zs.accepts, AllEmitted(AllTaken(calls)))
    {
      answers := [];
      ghost var wire := zs.wire;
      assert WireAfter(wire, calls[..0]) == wire;
      for i := 0 to |calls|
        invariant Clear() && answers == AnswersTo(calls[..i]) && zs.wire == WireAfter(wire, calls[..i])
      {
        CallsSnoc(wire, calls, i);
        var answer := Perform(calls[i]);
        answers := answers + [answer];
      }
      assert calls[..|calls|] == calls;
      ReportedIsOutIff(wire, calls);
    }
  }

  // ---------- calls and answers ----------

  datatype Call = SendCall(buf: seq<byte>) | MSendCall(buffs: seq<seq<byte>>)

  datatype Answer = SendAnswer(r: Option<nat>) | MSendAnswer(n: nat)

  /** How many packets some answers report as sent. */
  function Reported(answers: seq<Answer>): nat {
    if answers == [] then 0
    else
      Reported(answers[..|answers| - 1]) +
      match answers[|answers| - 1]
      case SendAnswer(r) => if r == None then 0 else 1
      case MSendAnswer(n) => n
  }

  lemma ReportedSnoc(answers: seq<Answer>, answer: Answer)
    ensures Reported(answers + [answer]) == Reported(answers) + Reported([answer])
  {
    assert (answers + [answer])[..|answers|] == answers;
    assert Reported([answer][..0]) == 0;
  }

  lemma AllOutIff(accepts: Payload -> bool, wire: seq<Payload>, all: seq<Payload>)
    ensures wire + Passed(accepts, all) == wire + all <==> AllFit(accepts, all)
  {
    PassedAll(accepts, all);
    var p := Passed(accepts, all);
    assert (wire + p)[|wire|..] == p && (wire + all)[|wire|..] == all;
  }

  /** `OpenSend`: a writer on a new ring, with refusals reported. */
  method OpenSend(frameNum: nat, accepts: Payload -> bool, dst: HardwareAddress, src: HardwareAddress,
                  dstIP: Address, srcIP: Address, port: int, frameSize: nat, checksum: seq<byte> -> uint16)
    returns (c: ZSockIf)
    requires frameNum > 0 && frameSize >= HEADERS
    ensures fresh(c) && fresh(c.zs) && fresh(c.zs.mb) && fresh(c.zs.status) && fresh(c.zs.data)
    ensures c.Clear() && c.zs.wire == [] && !c.bRead
    ensures c.zs.txEnabled && c.zs.txLossDisabled && c.zs.frameNum == frameNum && c.zs.accepts == accepts
    ensures c.dst == dst && c.src == src && c.dstIP == dstIP && c.srcIP == srcIP
    ensures c.port == port && c.frameSize == frameSize && c.checksum == checksum
  {
    var zs := new ZSocket(frameNum, true, true, accepts);
    c := new ZSockIf(zs, dst, src, dstIP, srcIP, port, false, frameSize, checksum);
  }

  /** The headers know a length only by its low sixteen bits. */
  lemma HeadersCut(l: int, l': int, src: Address, dst: Address, port: int)
    requires l % 0x1_0000 == l' % 0x1_0000
    ensures (l + 42) % 0x1_0000 == (l' + 42) % 0x1_0000
    ensures forall check: uint16 :: IpHeader(l, check, src, dst) == IpHeader(l', check, src, dst)
    ensures UdpHeader(port, l) == UdpHeader(port, l')
  {
    CutAdd(l, l', 42);
    CutAdd(l, l', 28);
    CutAdd(l, l', 8);
  }

  lemma CutAdd(l: int, l': int, k: int)
    requires l % 0x1_0000 == l' % 0x1_0000
    ensures (l + k) % 0x1_0000 == (l' + k) % 0x1_0000
  {
    var q := l / 0x1_0000 - l' / 0x1_0000;
    assert l + k == l' + k + 0x1_0000 * q;
  }

  /** Cutting a frame behind its headers leaves them as they are. */
  lemma PrefixKeepsHeaders(f: seq<byte>, m: nat)
    requires 42 <= m <= |f|
    ensures f[..m][14..34] == f[14..34] && Half(f[..m], 24) == Half(f, 24)
  {
  }

  lemma ClearedCheck(udpLen: int, check: uint16, src: Address, dst: Address)
    ensures IpHeader(udpLen, check, src, dst)[10 := 0][11 := 0] == IpHeader(udpLen, 0, src, dst)
  {
    assert BigEndian(2, 0) == [0, 0];
  }

  lemma FrameReceived(f: seq<byte>, dst: HardwareAddress, src: HardwareAddress, check: uint16, srcIP: Address,
                      dstIP: Address, port: int, buf: seq<byte>)
    requires 0 <= port < 0x1_0000 && f == Frames.Frame(dst, src, port, check, srcIP, dstIP, buf)
    ensures Exec(Filter(port), 0, f, 0, 0) == SNAP
  {
    FrameAccepted(dst, src, port, check, srcIP, dstIP, buf, port);
  }

  lemma FrameChecksum(dst: HardwareAddress, src: HardwareAddress, check: uint16, srcIP: Address, dstIP: Address,
                      port: int, buf: seq<byte>)
    ensures var f := Frames.Frame(dst, src, port, check, srcIP, dstIP, buf);
            Half(f, 24) == check && f[14..34][10 := 0][11 := 0] == IpHeader(|buf|, 0, srcIP, dstIP)
  {
    FrameParts(dst, src, port, check, srcIP, dstIP, buf);
    FrameFields(dst, src, port, check, srcIP, dstIP, buf);
    ClearedCheck(|buf|, check, srcIP, dstIP);
  }

  /** The frame that carries `buf` from one station to the others: addressed to the
      group, from the station, with the port, the lengths and the packet in place. */
  predicate Carries(f: seq<byte>, dst: HardwareAddress, src: HardwareAddress, dstIP: Address, srcIP: Address,
                    port: int, buf: seq<byte>)
  {
    && |f| == 42 + |buf|
    && f[..6] == dst && f[6..12] == src
    && f[26..30] == srcIP && f[30..34] == dstIP
    && Half(f, 34) == (port + 1) % 0x1_0000 && Half(f, 36) == port % 0x1_0000
    && Half(f, 16) == |buf| + 28 && Half(f, 38) == |buf| + 8
    && f[42..] == buf
  }

  lemma FrameCarries(dst: HardwareAddress, src: HardwareAddress, check: uint16, srcIP: Address, dstIP: Address,
                     port: int, buf: seq<byte>)
    requires |buf| + 42 <= 0xffff
    ensures Carries(Frames.Frame(dst, src, port, check, srcIP, dstIP, buf), dst, src, dstIP, srcIP, port, buf)
  {
    FrameFields(dst, src, port, check, srcIP, dstIP, buf);
  }

  /** From `OpenSend` to the wire: the first packet of a new writer goes out in one
      frame that carries it with the addresses the writer was opened with. */
  method SendFirst(buf: seq<byte>, frameNum: nat, accepts: Payload -> bool, dst: HardwareAddress,
                   src: HardwareAddress, dstIP: Address, srcIP: Address, port: int, frameSize: nat,
                   checksum: seq<byte> -> uint16)
    returns (c: ZSockIf, r: Option<nat>, ghost f: seq<byte>)
    requires frameNum > 0 && |buf| + 42 <= Min(frameSize, 0xffff)
    ensures r == Some(|buf|) && Carries(f, dst, src, dstIP, srcIP, port, buf)
    ensures c.zs.wire == if accepts(f) then [f] else []
  {
    c := OpenSend(frameNum, accepts, dst, src, dstIP, srcIP, port, frameSize, checksum);
    f := c.Emitted(buf);
    c.EmittedCarries(buf);
    PassedOne(accepts, f);
    r := c.PerformSend(buf);
  }

  lemma PassedOne(accepts: Payload -> bool, f: Payload)
    ensures Passed(accepts, [f]) == if accepts(f) then [f] else []
  {
    assert Passed(accepts, [f][..0]) == [];
  }

  /** A kernel that refuses the frame: `Send` answers as if the packet had gone out. */
  method SendOfRefused(buf: seq<byte>, frameNum: nat, dst: HardwareAddress, src: HardwareAddress,
                       dstIP: Address, srcIP: Address, port: int, frameSize: nat, checksum: seq<byte> -> uint16)
    returns (c: ZSockIf, r: Option<nat>)
    requires frameNum > 0 && frameSize >= HEADERS
    ensures r == Some(|buf|) && c.zs.wire == []
  {
    c := OpenSend(frameNum, _ => false, dst, src, dstIP, srcIP, port, frameSize, checksum);
    r := c.Send(buf);
    assert Passed(c.zs.accepts, [] + [c.Emitted(buf)]) == [];
  }
}
