/** The packet header and the length-prefixed message blocks of moldUDP.go. */
module Codec {
  import opened Wire

  type Message = seq<byte>

  datatype Header = Header(session: seq<byte>, seqNo: uint64, messageCnt: uint16)

  const HEAD_SIZE := 20
  const BLANK: byte := 0x20

  // ---------- header ----------

  function Blanks(n: nat): (s: seq<byte>)
    ensures |s| == n
  {
    seq(n, _ => BLANK)
  }

  /** The session cut or blank-padded to its ten bytes. */
  function SessionField(session: seq<byte>): (f: seq<byte>)
    ensures |f| == 10
  {
    if |session| >= 10 then session[..10] else session + Blanks(10 - |session|)
  }

  function HeadBytes(h: Header): (b: seq<byte>)
    ensures |b| == HEAD_SIZE
  {
    SessionField(h.session) + BigEndian(8, h.seqNo) + BigEndian(2, h.messageCnt)
  }

  /** Where the decoder ends the session when it has already skipped blanks down
      to index `i`; byte 0 is never looked at. */
  function SessionEnd(b: seq<byte>, i: nat): (e: nat)
    requires i < |b|
    ensures e == 0 || (2 <= e <= i + 1 && b[e - 1] != BLANK)
    ensures forall j :: 1 <= j <= i && e <= j ==> b[j] == BLANK
  {
    if i == 0 then 0 else if b[i] != BLANK then i + 1 else SessionEnd(b, i - 1)
  }

  function Decoded(b: seq<byte>): (h: Header)
    requires |b| >= HEAD_SIZE
  {
    EightBytes(b[10..18]);
    TwoBytes(b[18..20]);
    Header(b[..SessionEnd(b, 9)], FromBigEndian(b[10..18]), FromBigEndian(b[18..20]))
  }

  /** A header byte for byte: the session cut to ten bytes or padded with blanks, then
      the two numbers, most significant byte first. */
  lemma HeadBytesExact(h: Header)
    ensures var b := HeadBytes(h);
            && (forall i :: 0 <= i < 10 ==> b[i] == if i < |h.session| then h.session[i] else 0x20)
            && (forall i :: 10 <= i < 18 ==> b[i] == h.seqNo / Pow256(17 - i) % 0x100)
            && b[18] == h.messageCnt / 0x100 && b[19] == h.messageCnt % 0x100
  {
    var b, f := HeadBytes(h), SessionField(h.session);
    assert forall i :: 0 <= i < 10 ==> b[i] == f[i];
    forall i | 10 <= i < 18 ensures b[i] == h.seqNo / Pow256(17 - i) % 0x100 {
      NumberAt(f, 8, h.seqNo, BigEndian(2, h.messageCnt), i - 10);
    }
    NumberAt(f + BigEndian(8, h.seqNo), 2, h.messageCnt, [], 0);
    NumberAt(f + BigEndian(8, h.seqNo), 2, h.messageCnt, [], 1);
    assert Pow256(0) == 1 && Pow256(1) == 0x100;
  }

  lemma NumberAt(before: seq<byte>, width: nat, n: nat, behind: seq<byte>, i: nat)
    requires i < width
    ensures (before + BigEndian(width, n) + behind)[|before| + i] == n / Pow256(width - 1 - i) % 0x100
  {
    BigEndianAt(width, n, i);
  }

  /** What a receiver reads, byte for byte: the session ends with the last of bytes 1
      to 9 that is not blank, and is empty if they all are. */
  lemma DecodedExact(b: seq<byte>)
    requires |b| >= 20
    ensures var h := Decoded(b);
            && h.seqNo == Number(b[10], b[11], b[12], b[13], b[14], b[15], b[16], b[17])
            && h.messageCnt == b[18] as int * 0x100 + b[19]
            && h.session <= b[..10] && |h.session| != 1
            && (h.session != [] ==> h.session[|h.session| - 1] != 0x20)
            && (forall j :: 1 <= j < 10 && |h.session| <= j ==> b[j] == 0x20)
  {
    EightBytes(b[10..18]);
    TwoBytes(b[18..20]);
  }

  method EncodeHead(buff: array<byte>, head: Header) returns (err: Option<Error>)
    modifies buff
    ensures buff.Length < HEAD_SIZE ==> err == Some(TooShort) && buff[..] == old(buff[..])
    ensures buff.Length >= HEAD_SIZE ==>
      err == None && buff[..] == HeadBytes(head) + old(buff[HEAD_SIZE..])
  {
    if buff.Length < HEAD_SIZE {
      return Some(TooShort);
    }
    ghost var b := buff[..];
    PutSession(buff, head.session);
    ghost var done := Extend(buff, 0, b, SessionField(head.session), 10, BigEndian(8, head.seqNo));
    done := Extend(buff, 0, b, done, 18, BigEndian(2, head.messageCnt));
    OverwriteFront(b, done);
    err := None;
  }

  /** The session field: blanks, then as much of the name as fits. */
  method PutSession(buff: array<byte>, session: seq<byte>)
    requires buff.Length >= 10
    modifies buff
    ensures buff[..] == Overwrite(old(buff[..]), 0, SessionField(session))
  {
    ghost var b := buff[..];
    for i := 0 to 10
      invariant forall j :: 0 <= j < buff.Length ==> buff[j] == if j < i then BLANK else b[j]
    {
      buff[i] := BLANK;
    }
    assert buff[..] == Blanks(10) + b[10..];
    Copy(buff, 0, 10, session);
    SessionOverBlanks(b, session);
  }

  lemma SessionOverBlanks(b: seq<byte>, session: seq<byte>)
    requires |b| >= 10
    ensures var n := if |session| <= 10 then |session| else 10;
            Overwrite(Blanks(10) + b[10..], 0, session[..n]) == Overwrite(b, 0, SessionField(session))
  {
  }

  method DecodeHead(buff: seq<byte>) returns (r: Result<Header>)
    ensures |buff| < HEAD_SIZE ==> r == Err(TooShort)
    ensures |buff| >= HEAD_SIZE ==> r == Ok(Decoded(buff))
  {
    if |buff| < HEAD_SIZE {
      return Err(TooShort);
    }
    var i := 9;
    while i > 0
      invariant 0 <= i <= 9
      invariant SessionEnd(buff, 9) == SessionEnd(buff, i)
    {
      if buff[i] != BLANK {
        i := i + 1;
        break;
      }
      i := i - 1;
    }
    EightBytes(buff[10..18]);
    TwoBytes(buff[18..20]);
    r := Ok(Header(buff[..i], FromBigEndian(buff[10..18]), FromBigEndian(buff[18..20])));
  }

  /** The sessions that come back from the wire unchanged. */
  predicate Survives(session: seq<byte>) {
    session == [] || (2 <= |session| <= 10 && session[|session| - 1] != 0x20)
  }

  /** Decoding an encoded header restores both numbers always, and the session
      exactly when it is empty or has 2 to 10 bytes and no trailing blank. */
  lemma HeaderRoundTrip(h: Header, rest: seq<byte>)
    ensures var d := Decoded(HeadBytes(h) + rest);
            && d.seqNo == h.seqNo
            && d.messageCnt == h.messageCnt
            && (d.session == h.session <==> Survives(h.session))
  {
    var b := HeadBytes(h) + rest;
    BigEndianRoundTrip(8, h.seqNo);
    BigEndianRoundTrip(2, h.messageCnt);
    assert b[10..18] == BigEndian(8, h.seqNo);
    assert b[18..20] == BigEndian(2, h.messageCnt);
    var e := SessionEnd(b, 9);
    var s := h.session;
    if Survives(s) {
      assert forall j :: 0 <= j < 10 ==> b[j] == if j < |s| then s[j] else BLANK;
      assert e == |s|;
      assert b[..e] == s;
    }
  }

  /** Whatever the decoder yields as a session survives the wire. */
  lemma DecodedSurvives(b: seq<byte>)
    requires |b| >= HEAD_SIZE
    ensures Survives(Decoded(b).session)
  {
  }

  lemma SessionFieldReencode(b: seq<byte>)
    requires |b| == HEAD_SIZE
    ensures SessionField(b[..SessionEnd(b, 9)]) == b[..10] <==>
            (b[0] == 0x20 || exists j :: 1 <= j < 10 && b[j] != 0x20)
  {
  }

  /** A header with the numbers of `b`: only the session can come out different. */
  lemma HeadParts(h: Header, b: seq<byte>)
    requires |b| == HEAD_SIZE && h.seqNo == FromBigEndian(b[10..18]) && h.messageCnt == FromBigEndian(b[18..20])
    ensures HeadBytes(h) == SessionField(h.session) + b[10..]
  {
    Renumbered(b[10..18], 8);
    Renumbered(b[18..20], 2);
    assert b[10..] == b[10..18] + b[18..20];
  }

  lemma Renumbered(s: seq<byte>, width: nat)
    requires |s| == width
    ensures BigEndian(width, FromBigEndian(s)) == s
  {
    FromBigEndianRoundTrip(s);
  }

  lemma SamePrefix(f: seq<byte>, b: seq<byte>, n: nat)
    requires |f| == n <= |b|
    ensures f + b[n..] == b <==> f == b[..n]
  {
    assert (f + b[n..])[..n] == f;
    assert b == b[..n] + b[n..];
  }

  /** Encoding a decoded header restores its twenty bytes exactly unless the
      first session byte is the only one that is not blank. */
  lemma HeaderReencode(b: seq<byte>)
    requires |b| == HEAD_SIZE
    ensures HeadBytes(Decoded(b)) == b <==>
            (b[0] == 0x20 || exists j :: 1 <= j < 10 && b[j] != 0x20)
  {
    HeadParts(Decoded(b), b);
    SessionFieldReencode(b);
    SamePrefix(SessionField(b[..SessionEnd(b, 9)]), b, 10);
  }

  // ---------- message blocks ----------

  /** One block: a two-byte length, cut to sixteen bits, and the data. */
  function Block(m: Message): (b: seq<byte>)
    ensures |b| == 2 + |m|
  {
    BigEndian(2, |m|) + m
  }

  /** A block byte for byte: sixteen bits of the length, the high byte first, and the data. */
  lemma BlockExact(m: Message)
    ensures Block(m)[0] == |m| / 0x100 % 0x100 && Block(m)[1] == |m| % 0x100 && Block(m)[2..] == m
  {
    BigEndianAt(2, |m|, 0);
    BigEndianAt(2, |m|, 1);
    assert Pow256(0) == 1 && Pow256(1) == 0x100;
  }

  function Blocks(ms: seq<Message>): seq<byte> {
    if ms == [] then [] else Block(ms[0]) + Blocks(ms[1..])
  }

  predicate Encodable(ms: seq<Message>) {
    forall m :: m in ms ==> |m| < 0x1_0000
  }

  function Empties(n: nat): (ms: seq<Message>)
    ensures |ms| == n
  {
    seq(n, _ => [])
  }

  lemma {:induction false} BlocksConcat(a: seq<Message>, b: seq<Message>)
    ensures Blocks(a + b) == Blocks(a) + Blocks(b)
  {
    if a == [] {
      assert a + b == b;
    } else {
      assert (a + b)[1..] == a[1..] + b;
      BlocksConcat(a[1..], b);
    }
  }

  lemma BlocksSnoc(ms: seq<Message>, k: nat)
    requires k < |ms|
    ensures Blocks(ms[..k + 1]) == Blocks(ms[..k]) + Block(ms[k])
  {
    assert ms[..k + 1] == ms[..k] + [ms[k]];
    BlocksConcat(ms[..k], [ms[k]]);
    assert Blocks([ms[k]]) == Block(ms[k]) + Blocks([]);
  }

  lemma {:induction false} BlocksMonotone(ms: seq<Message>, j: nat, k: nat)
    requires j <= k <= |ms|
    ensures |Blocks(ms[..j])| <= |Blocks(ms[..k])|
    decreases k
  {
    if j < k {
      BlocksSnoc(ms, k - 1);
      BlocksMonotone(ms, j, k - 1);
    }
  }

  /** The scanner on a suffix of the buffer with room for `cnt` more messages. */
  function Parse(b: seq<byte>, cnt: nat): (r: Option<seq<Message>>)
    ensures r.Some? ==> |r.value| == cnt
  {
    if b == [] then Some(Empties(cnt))
    else if cnt == 0 || |b| < 2 then None
    else
      var len := FromBigEndian(b[..2]);
      if 2 + len > |b| then None
      else
        var rest := Parse(b[2 + len..], cnt - 1);
        if rest.None? then None else Some([b[2..2 + len]] + rest.value)
  }

  /** What `Unmarshal` answers: with a zero count the buffer is not looked at. */
  function Unmarshalled(b: seq<byte>, cnt: nat): (r: Result<seq<Message>>)
    ensures r.Ok? ==> |r.value| == cnt
  {
    if cnt == 0 then Ok([]) else
    var p := Parse(b, cnt);
    if p.None? then Err(UnmarshalFailed) else Ok(p.value)
  }

  method Unmarshal(buff: seq<byte>, cnt: nat) returns (r: Result<seq<Message>>)
    ensures r == Unmarshalled(buff, cnt)
  {
    if cnt == 0 {
      return Ok([]);
    }
    var ret := Empties(cnt);
    var n, i, off := |buff|, 0, 0;
    ghost var got, rest := [], buff;
    PrependNone(Parse(buff, cnt));
    while off < n
      invariant 0 <= i < cnt && 0 <= off <= n && rest == buff[off..]
      invariant ret == got + Empties(cnt - i) && |got| == i
      invariant Parse(buff, cnt) == Prepend(got, Parse(rest, cnt - i))
    {
      if off + 2 > n {
        return Err(UnmarshalFailed);
      }
      assert rest[..2] == buff[off..off + 2];
      var ll := FromBigEndian(buff[off..off + 2]);
      off := off + 2;
      if off + ll > n {
        return Err(UnmarshalFailed);
      }
      var mess := buff[off..off + ll];
      off := off + ll;
      ParseBlock(buff, off - ll - 2, ll, cnt - i);
      PrependTwice(got, [mess], Parse(buff[off..], cnt - i - 1));
      PutNext(got, cnt - i, mess);
      ret := ret[i := mess];
      got, rest := got + [mess], buff[off..];
      i := i + 1;
      if i == cnt {
        break;
      }
    }
    if off != n {
      return Err(UnmarshalFailed);
    }
    return Ok(ret);
  }

  lemma PutNext(got: seq<Message>, left: nat, m: Message)
    requires left > 0
    ensures (got + Empties(left))[|got| := m] == got + [m] + Empties(left - 1)
  {
  }

  lemma PrependNone(r: Option<seq<Message>>)
    ensures Prepend([], r) == r
  {
    if r.Some? {
      assert [] + r.value == r.value;
    }
  }

  ghost function Prepend(ms: seq<Message>, r: Option<seq<Message>>): Option<seq<Message>> {
    if r.None? then None else Some(ms + r.value)
  }

  /** One turn of the scanner. */
  lemma ParseBlock(b: seq<byte>, off: nat, len: nat, cnt: nat)
    requires off + 2 + len <= |b| && cnt > 0 && len == FromBigEndian(b[off..off + 2])
    ensures Parse(b[off..], cnt) == Prepend([b[off + 2..off + 2 + len]], Parse(b[off + 2 + len..], cnt - 1))
  {
    var s := b[off..];
    assert s[..2] == b[off..off + 2];
    assert s[2..2 + len] == b[off + 2..off + 2 + len] && s[2 + len..] == b[off + 2 + len..];
  }

  lemma PrependTwice(a: seq<Message>, b: seq<Message>, r: Option<seq<Message>>)
    ensures Prepend(a, Prepend(b, r)) == Prepend(a + b, r)
  {
    if r.Some? {
      assert a + (b + r.value) == a + b + r.value;
    }
  }

  /** Parsing succeeds on every concatenation of at most `cnt` blocks and pads
      the answer with empty messages. */
  lemma {:induction false} ParseComplete(ms: seq<Message>, cnt: nat)
    requires Encodable(ms) && |ms| <= cnt
    ensures Parse(Blocks(ms), cnt) == Some(ms + Empties(cnt - |ms|))
  {
    if ms == [] {
      assert ms + Empties(cnt) == Empties(cnt);
    } else {
      var m := ms[0];
      var b := Blocks(ms);
      BigEndianRoundTrip(2, |m|);
      assert b[..2] == BigEndian(2, |m|);
      assert b[2..2 + |m|] == m;
      assert b[2 + |m|..] == Blocks(ms[1..]);
      ParseComplete(ms[1..], cnt - 1);
      assert [m] + (ms[1..] + Empties(cnt - |ms|)) == ms + Empties(cnt - |ms|);
    }
  }

  /** The first block of a buffer that parses, and what follows it. */
  lemma ParseHead(b: seq<byte>, cnt: nat) returns (m: Message, rest: seq<byte>)
    requires b != [] && Parse(b, cnt).Some?
    ensures cnt > 0 && |m| < 0x1_0000 && |rest| < |b| && b == Block(m) + rest
    ensures Parse(rest, cnt - 1).Some? && Parse(b, cnt).value == [m] + Parse(rest, cnt - 1).value
  {
    var len := FromBigEndian(b[..2]);
    TwoBytes(b[..2]);
    Renumbered(b[..2], 2);
    m, rest := b[2..2 + len], b[2 + len..];
    assert b == b[..2] + m + rest;
  }

  lemma PaddedCons(m: Message, tail: seq<Message>, n: nat)
    ensures [m] + (tail + Empties(n)) == [m] + tail + Empties(n)
    ensures Blocks([m] + tail) == Block(m) + Blocks(tail)
  {
    assert ([m] + tail)[1..] == tail;
  }

  /** A successful parse has found blocks and padding, and nothing else. */
  lemma {:induction false} ParseSound(b: seq<byte>, cnt: nat) returns (ms: seq<Message>)
    requires Parse(b, cnt).Some?
    ensures Encodable(ms) && |ms| <= cnt && b == Blocks(ms)
    ensures Parse(b, cnt).value == ms + Empties(cnt - |ms|)
    decreases |b|
  {
    if b == [] {
      ms := [];
      assert ms + Empties(cnt) == Empties(cnt);
    } else {
      var m, rest := ParseHead(b, cnt);
      var tail := ParseSound(rest, cnt - 1);
      ms := [m] + tail;
      PaddedCons(m, tail, cnt - |ms|);
    }
  }

  lemma {:induction false} BlocksInjective(a: seq<Message>, b: seq<Message>)
    requires Encodable(a) && Encodable(b) && Blocks(a) == Blocks(b)
    ensures a == b
  {
    if a != [] && b != [] {
      BigEndianRoundTrip(2, |a[0]|);
      BigEndianRoundTrip(2, |b[0]|);
      var s := Blocks(a);
      assert s[..2] == BigEndian(2, |a[0]|) && s[..2] == BigEndian(2, |b[0]|);
      assert s[2..2 + |a[0]|] == a[0] && s[2..2 + |b[0]|] == b[0];
      assert s[2 + |a[0]|..] == Blocks(a[1..]) && s[2 + |b[0]|..] == Blocks(b[1..]);
      BlocksInjective(a[1..], b[1..]);
    }
  }

  /** The buffer is a concatenation of at most `cnt` blocks holding `ms`. */
  ghost predicate Decomposes(b: seq<byte>, cnt: nat, ms: seq<Message>) {
    Encodable(ms) && |ms| <= cnt && b == Blocks(ms)
  }

  /** Exact meaning of `Unmarshal`: a zero count looks at nothing; for a positive one
      the decomposition is unique. */
  lemma UnmarshalExact(b: seq<byte>, cnt: nat)
    requires cnt > 0
    ensures Unmarshalled(b, 0) == Ok([])
    ensures Unmarshalled(b, cnt) == Err(UnmarshalFailed) || Unmarshalled(b, cnt).Ok?
    ensures Unmarshalled(b, cnt).Ok? <==> exists ms :: Decomposes(b, cnt, ms)
    ensures forall ms :: Decomposes(b, cnt, ms) ==>
              Unmarshalled(b, cnt) == Ok(ms + Empties(cnt - |ms|))
    ensures forall ms, ms' :: Decomposes(b, cnt, ms) && Decomposes(b, cnt, ms') ==> ms == ms'
  {
    if Unmarshalled(b, cnt).Ok? {
      var ms := ParseSound(b, cnt);
      assert Decomposes(b, cnt, ms);
    }
    forall ms | Decomposes(b, cnt, ms)
      ensures Unmarshalled(b, cnt) == Ok(ms + Empties(cnt - |ms|))
    {
      ParseComplete(ms, cnt);
    }
    forall ms, ms' | Decomposes(b, cnt, ms) && Decomposes(b, cnt, ms')
      ensures ms == ms'
    {
      BlocksInjective(ms, ms');
    }
  }

  /** `Marshal` stops after `k` of the messages in a buffer of `room` bytes. */
  predicate StopsAfter(room: nat, msgs: seq<Message>, k: nat) {
    && k <= |msgs|
    && |Blocks(msgs[..k])| <= room
    && (k < |msgs| ==> |Blocks(msgs[..k + 1])| > room)
  }

  /** The two writes for one message: its length, then its data unless empty. */
  method PutBlock(buff: array<byte>, ghost before: seq<byte>, ghost done: seq<byte>, at: nat, data: Message)
    requires at == |done| && at + 2 + |data| <= buff.Length == |before|
    requires buff[..] == Overwrite(before, 0, done)
    modifies buff
    ensures buff[..] == Overwrite(before, 0, done + Block(data))
  {
    ghost var all := Extend(buff, 0, before, done, at, BigEndian(2, |data|));
    if |data| > 0 {
      all := Extend(buff, 0, before, all, at + 2, data);
    }
    assert all == done + Block(data);
  }

  method Marshal(buff: array<byte>, msgs: seq<Message>) returns (msgCnt: nat, bufLen: nat)
    modifies buff
    ensures StopsAfter(buff.Length, msgs, msgCnt)
    ensures bufLen == |Blocks(msgs[..msgCnt])|
    ensures buff[..] == Blocks(msgs[..msgCnt]) + old(buff[bufLen..])
  {
    var n := buff.Length;
    ghost var b, done := buff[..], [];
    msgCnt, bufLen := 0, 0;
    while msgCnt < |msgs|
      invariant 0 <= msgCnt <= |msgs| && bufLen == |done| <= n
      invariant done == Blocks(msgs[..msgCnt])
      invariant buff[..] == Overwrite(b, 0, done)
    {
      var data := msgs[msgCnt];
      var mLen := |data|;
      ghost var next := done + Block(data);
      assert Blocks(msgs[..msgCnt + 1]) == next by {
        BlocksSnoc(msgs, msgCnt);
      }
      if bufLen + 2 + mLen > n {
        break;
      }
      PutBlock(buff, b, done, bufLen, data);
      done := next;
      bufLen := bufLen + 2 + mLen;
      msgCnt := msgCnt + 1;
    }
    OverwriteFront(b, done);
  }

  /** The prefix that `Marshal` writes is the longest one that fits. */
  lemma MarshalLongest(room: nat, msgs: seq<Message>, k: nat, j: nat)
    requires StopsAfter(room, msgs, k) && j <= |msgs|
    ensures |Blocks(msgs[..j])| <= room <==> j <= k
  {
    if j <= k {
      BlocksMonotone(msgs, j, k);
    } else {
      BlocksMonotone(msgs, k + 1, j);
    }
  }

  /** Unmarshalling marshalled messages gives them back exactly when every
      length fits the sixteen-bit prefix. */
  lemma MarshalRoundTrip(ms: seq<Message>)
    ensures Unmarshalled(Blocks(ms), |ms|) == Ok(ms) <==> Encodable(ms)
  {
    if Encodable(ms) {
      ParseComplete(ms, |ms|);
      assert ms + Empties(0) == ms;
    } else if Parse(Blocks(ms), |ms|).Some? {
      var found := ParseSound(Blocks(ms), |ms|);
    }
  }
}
