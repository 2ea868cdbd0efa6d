/** What client.go takes in, byte for byte: which datagrams it refuses and why,
    what it queues of the others, and what it takes a queued packet for. */
module Intake {
  import opened Wire
  import opened Codec
  import opened Protocol

  /** The message count in a datagram's header. */
  function CountIn(b: seq<byte>): int
    requires |b| >= 20
  {
    b[18] as int * 0x100 + b[19]
  }

  function SeqIn(b: seq<byte>): int
    requires |b| >= 20
  {
    Number(b[10], b[11], b[12], b[13], b[14], b[15], b[16], b[17])
  }

  /** A datagram is refused for its length, then for its count, then for its session,
      and then, with the session adopted, for a count without a payload. */
  lemma RefusedExactly(s: State, b: seq<byte>)
    ensures var err := GotBuff(s, b).1;
            && (err == Some(DecodeHeadFailed) <==> |b| < 20)
            && (|b| >= 20 ==>
                  var n, session := CountIn(b), Decoded(b).session;
                  var wild, foreign := 1024 <= n <= 65534, s.session != [] && s.session != session;
                  && (err == Some(InvalidMessageCount) <==> wild)
                  && (err == Some(SessionMismatch) <==> !wild && foreign)
                  && (err == Some(MessageCount) <==> !wild && !foreign && 1 <= n <= 1023 && |b| == 20)
                  && (err == None <==> !wild && !foreign && (n == 0 || n == 65535 || |b| > 20)))
  {
    if |b| >= 20 {
      DecodedExact(b);
    }
  }

  /** What is left of a datagram: its session if it got as far as that, and at the
      end of the queue its two numbers with the payload that only data packets keep. */
  lemma QueuedExactly(s: State, b: seq<byte>)
    ensures var (s', err) := GotBuff(s, b);
            if err == None then
              |b| >= 20 &&
              var n := CountIn(b);
              var payload := if 1 <= n <= 1023 then b[20..] else [];
              && 0 <= SeqIn(b) < 0x1_0000_0000_0000_0000
              && s' == s.(session := Decoded(b).session, queue := s.queue + [MsgBuf(SeqIn(b), n, payload)])
            else if err == Some(MessageCount) then |b| >= 20 && s' == s.(session := Decoded(b).session)
            else s' == s
  {
    if |b| >= 20 {
      DecodedExact(b);
    }
  }

  /** A queued packet with count 0 is a heartbeat and one with count 65535 the end of
      the session; any other holds messages exactly if its payload splits into
      blocks, and is bad if not. */
  lemma ClassifiedExactly(m: MsgBuf)
    ensures m.msgCnt == 0 ==> Classify(m) == Heartbeat(m.seqNo)
    ensures m.msgCnt == 65535 && m.dataBuf == [] ==> Classify(m) == End(m.seqNo)
    ensures 1 <= m.msgCnt <= 65534 && m.dataBuf != [] ==>
              match Unmarshalled(m.dataBuf, m.msgCnt)
              case Ok(ms) => Classify(m) == Data(m.seqNo, ms)
              case Err(_) => Classify(m) == Bad(UnmarshalFailed)
  {
  }

  /** From the bytes of a datagram to what it says; bytes behind the header of a
      heartbeat or an end of session say nothing. */
  lemma SaysExactly(b: seq<byte>)
    requires |b| >= 20
    ensures 0 <= SeqIn(b) < 0x1_0000_0000_0000_0000
    ensures var n, p := CountIn(b), Classify(Unpacked(b));
            && (n == 0 ==> p == Heartbeat(SeqIn(b)))
            && (n == 65535 ==> p == End(SeqIn(b)))
            && (1 <= n <= 65534 && |b| > 20 ==>
                  match Unmarshalled(b[20..], n)
                  case Ok(ms) => p == Data(SeqIn(b), ms)
                  case Err(_) => p == Bad(UnmarshalFailed))
  {
    DecodedExact(b);
    ClassifiedExactly(Unpacked(b));
  }
}
