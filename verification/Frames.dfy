/** The Ethernet, IPv4 and UDP headers that socket.go writes around a packet, and
    the frame that zsockif.go sends. */
module Frames {
  import opened Wire
  import opened Bpf

  const ETHER_SIZE := 14
  const HEADERS := 14 + 20 + 8

  /** A 16-bit field in network order: `htons` of a value cut to sixteen bits. */
  function Field(v: int): (f: seq<byte>)
    ensures |f| == 2
  {
    BigEndian(2, v % 0x1_0000)
  }

  lemma FieldHalf(v: int)
    ensures Half(Field(v), 0) == v % 0x1_0000
  {
    var u := v % 0x1_0000;
    assert BigEndian(2, u) == BigEndian(1, u / 0x100) + [u % 0x100];
    assert BigEndian(1, u / 0x100) == BigEndian(0, u / 0x100 / 0x100) + [u / 0x100 % 0x100];
  }

  /** An IPv4 address and an Ethernet address. */
  type Address = a: seq<byte> | |a| == 4 witness [0, 0, 0, 0]
  type HardwareAddress = a: seq<byte> | |a| == 6 witness [0, 0, 0, 0, 0, 0]

  /** The IPv4 header with its two checksum bytes. */
  function IpHeader(udpLen: int, check: uint16, src: Address, dst: Address): (h: seq<byte>)
    ensures |h| == 20
  {
    [0x45, 0] + Field(udpLen + 28) + [0, 0] + Field(0x4000) + [2, 0x11] + BigEndian(2, check) + src + dst
  }

  function UdpHeader(port: int, udpLen: int): (h: seq<byte>)
    ensures |h| == 8
  {
    Field(port + 1) + Field(port) + Field(udpLen + 8) + [0, 0]
  }

  method BuildIp(buff: array<byte>, at: nat, udpLen: int, src: Address, dst: Address)
    requires at + 20 <= buff.Length
    modifies buff
    ensures buff[..] == Overwrite(old(buff[..]), at, IpHeader(udpLen, 0, src, dst))
  {
    ghost var b := buff[..];
    ghost var h := [];
    h := Extend(buff, at, b, h, 0, [0x45, 0]);
    h := Extend(buff, at, b, h, 2, Field(udpLen + 28));
    h := Extend(buff, at, b, h, 4, [0, 0]);
    h := Extend(buff, at, b, h, 6, Field(0x4000));
    h := Extend(buff, at, b, h, 8, [2, 0x11]);
    h := Extend(buff, at, b, h, 10, [0, 0]);
    assert BigEndian(2, 0) == [0, 0];
    h := Extend(buff, at, b, h, 12, src);
    h := Extend(buff, at, b, h, 16, dst);
    assert h == IpHeader(udpLen, 0, src, dst);
  }

  method BuildUdp(buff: array<byte>, at: nat, port: int, udpLen: int)
    requires at + 8 <= buff.Length
    modifies buff
    ensures buff[..] == Overwrite(old(buff[..]), at, UdpHeader(port, udpLen))
  {
    ghost var b := buff[..];
    ghost var h := [];
    h := Extend(buff, at, b, h, 0, Field(port + 1));
    h := Extend(buff, at, b, h, 2, Field(port));
    h := Extend(buff, at, b, h, 4, Field(udpLen + 8));
    h := Extend(buff, at, b, h, 6, [0, 0]);
    assert h == UdpHeader(port, udpLen);
  }

  /** The bytes from the EtherType to the end of the UDP header. */
  function Headers(udpLen: int, port: int, check: uint16, src: Address, dst: Address): (h: seq<byte>)
    ensures |h| == 30
  {
    [8, 0] + IpHeader(udpLen, check, src, dst) + UdpHeader(port, udpLen)
  }

  /** `check` stands for the checksum that another package computes. */
  method BuildRawUdp(buff: array<byte>, udpLen: int, port: int, check: uint16, src: Address, dst: Address)
    requires HEADERS <= buff.Length
    modifies buff
    ensures buff[..] == Overwrite(old(buff[..]), 12, Headers(udpLen, port, check, src, dst))
  {
    ghost var b := buff[..];
    buff[12], buff[13] := 8, 0;
    BuildIp(buff, ETHER_SIZE, udpLen, src, dst);
    ghost var b1 := buff[..];
    Write(buff, ETHER_SIZE + 10, BigEndian(2, check));
    assert buff[..] == Overwrite(b, 12, [8, 0] + IpHeader(udpLen, check, src, dst)) by {
      CheckPatch(b, udpLen, check, src, dst);
    }
    BuildUdp(buff, ETHER_SIZE + 20, port, udpLen);
    OverwriteNext(b, 12, [8, 0] + IpHeader(udpLen, check, src, dst), UdpHeader(port, udpLen));
  }

  lemma OverwriteNext<T>(b: seq<T>, at: nat, s: seq<T>, t: seq<T>)
    requires at + |s| + |t| <= |b|
    ensures Overwrite(Overwrite(b, at, s), at + |s|, t) == Overwrite(b, at, s + t)
  {
  }

  lemma CheckPatch(b: seq<byte>, udpLen: int, check: uint16, src: Address, dst: Address)
    requires HEADERS <= |b|
    ensures var b1 := Overwrite(b[12 := 8][13 := 0], ETHER_SIZE, IpHeader(udpLen, 0, src, dst));
            Overwrite(b1, ETHER_SIZE + 10, BigEndian(2, check)) ==
            Overwrite(b, 12, [8, 0] + IpHeader(udpLen, check, src, dst))
  {
  }

  /** The frame around one packet. */
  function Frame(dstMac: HardwareAddress, srcMac: HardwareAddress, port: int, check: uint16,
                 src: Address, dst: Address, payload: seq<byte>): (f: seq<byte>)
    ensures |f| == HEADERS + |payload|
  {
    dstMac + srcMac + Headers(|payload|, port, check, src, dst) + payload
  }

  /** Where the two headers sit in a frame. */
  lemma FrameParts(dstMac: HardwareAddress, srcMac: HardwareAddress, port: int, check: uint16,
                   src: Address, dst: Address, payload: seq<byte>)
    ensures var f := Frame(dstMac, srcMac, port, check, src, dst, payload);
            && f[..6] == dstMac && f[6..12] == srcMac
            && f[12] == 8 && f[13] == 0
            && f[14..34] == IpHeader(|payload|, check, src, dst)
            && f[34..42] == UdpHeader(port, |payload|)
  {
  }

  lemma IpFields(udpLen: int, check: uint16, src: Address, dst: Address)
    ensures var ip := IpHeader(udpLen, check, src, dst);
            && ip[0] == 0x45 && ip[1] == 0 && ip[8] == 2 && ip[9] == 17 && ip[12..16] == src && ip[16..20] == dst
            && Half(ip, 2) == (udpLen + 28) % 0x1_0000 && Half(ip, 4) == 0 && Half(ip, 6) == 0x4000
            && Half(ip, 10) == check
  {
    var ip := IpHeader(udpLen, check, src, dst);
    assert ip[2..4] == Field(udpLen + 28) && ip[6..8] == Field(0x4000) && ip[10..12] == Field(check);
    FieldHalf(udpLen + 28);
    FieldHalf(0x4000);
    FieldHalf(check);
  }

  lemma UdpFields(port: int, udpLen: int)
    ensures var udp := UdpHeader(port, udpLen);
            && Half(udp, 0) == (port + 1) % 0x1_0000
            && Half(udp, 2) == port % 0x1_0000
            && Half(udp, 4) == (udpLen + 8) % 0x1_0000
            && Half(udp, 6) == 0
  {
    var udp := UdpHeader(port, udpLen);
    assert udp[..2] == Field(port + 1) && udp[2..4] == Field(port) && udp[4..6] == Field(udpLen + 8);
    FieldHalf(port + 1);
    FieldHalf(port);
    FieldHalf(udpLen + 8);
  }

  lemma HalfOfSlice(f: seq<byte>, a: nat, b: nat, i: nat)
    requires a + i + 2 <= b <= |f|
    ensures Half(f[a..b], i) == Half(f, a + i)
  {
  }

  /** All 42 bytes before the packet, as a receiver reads them: addresses, type, version
      and header length, time to live, protocol, fragment field, lengths, checksums and ports. */
  lemma FrameFields(dstMac: HardwareAddress, srcMac: HardwareAddress, port: int, check: uint16,
                    src: Address, dst: Address, payload: seq<byte>)
    ensures var f := Frame(dstMac, srcMac, port, check, src, dst, payload);
            && f[..6] == dstMac && f[6..12] == srcMac
            && Half(f, 12) == 0x0800
            && f[14] == 0x45 && HeaderLength(f) == 20 && f[15] == 0
            && Half(f, 16) == (|payload| + 28) % 0x1_0000
            && Half(f, 18) == 0 && Half(f, 20) == 0x4000
            && f[22] == 2 && f[23] == 17 && Half(f, 24) == check
            && f[26..30] == src && f[30..34] == dst
            && Half(f, 34) == (port + 1) % 0x1_0000
            && Half(f, 36) == port % 0x1_0000
            && Half(f, 38) == (|payload| + 8) % 0x1_0000
            && Half(f, 40) == 0
            && f[42..] == payload
  {
    var f := Frame(dstMac, srcMac, port, check, src, dst, payload);
    FrameParts(dstMac, srcMac, port, check, src, dst, payload);
    IpFields(|payload|, check, src, dst);
    UdpFields(port, |payload|);
    assert f[14] == f[14..34][0] && f[15] == f[14..34][1] && f[22] == f[14..34][8] && f[23] == f[14..34][9];
    assert f[26..30] == f[14..34][12..16] && f[30..34] == f[14..34][16..20];
    HalfOfSlice(f, 14, 34, 2);
    HalfOfSlice(f, 14, 34, 4);
    HalfOfSlice(f, 14, 34, 6);
    HalfOfSlice(f, 14, 34, 10);
    HalfOfSlice(f, 34, 42, 0);
    HalfOfSlice(f, 34, 42, 2);
    HalfOfSlice(f, 34, 42, 4);
    HalfOfSlice(f, 34, 42, 6);
  }

  lemma FramePayload(dstMac: HardwareAddress, srcMac: HardwareAddress, port: int, check: uint16,
                     src: Address, dst: Address, payload: seq<byte>)
    ensures Frame(dstMac, srcMac, port, check, src, dst, payload)[HEADERS..] == payload
  {
  }

  lemma FrameAccepted(dstMac: HardwareAddress, srcMac: HardwareAddress, port: int, check: uint16,
                      src: Address, dst: Address, payload: seq<byte>, listen: nat)
    ensures Exec(Filter(listen), 0, Frame(dstMac, srcMac, port, check, src, dst, payload), 0, 0) ==
            if listen == port % 0x1_0000 then SNAP else 0
  {
    var f := Frame(dstMac, srcMac, port, check, src, dst, payload);
    FrameFields(dstMac, srcMac, port, check, src, dst, payload);
    FilterExact(f, listen);
  }

  /** A receiver that listens on `listen` accepts a frame built for `port` exactly
      when the patched number is the port cut to sixteen bits; its own frames exactly
      when the port is one. */
  lemma BuiltFrameAccepted(dstMac: HardwareAddress, srcMac: HardwareAddress, port: int, check: uint16,
                           src: Address, dst: Address, payload: seq<byte>, listen: int)
    ensures var f := Frame(dstMac, srcMac, port, check, src, dst, payload);
            && (Exec(Filter(listen % UINT32), 0, f, 0, 0) != 0 <==> listen % UINT32 == port % 0x1_0000)
            && (Exec(Filter(port % UINT32), 0, f, 0, 0) != 0 <==> port % UINT32 < 0x1_0000)
  {
    FrameAccepted(dstMac, srcMac, port, check, src, dst, payload, listen % UINT32);
    FrameAccepted(dstMac, srcMac, port, check, src, dst, payload, port % UINT32);
    PortCut(port);
  }

  lemma PortCut(port: int)
    ensures port % UINT32 == port % 0x1_0000 <==> port % UINT32 < 0x1_0000
  {
  }

  /** Lengths in the headers and length of the frame agree while they fit their fields. */
  lemma LengthsAgree(dstMac: HardwareAddress, srcMac: HardwareAddress, port: int, check: uint16,
                     src: Address, dst: Address, payload: seq<byte>)
    ensures var f := Frame(dstMac, srcMac, port, check, src, dst, payload);
            (Half(f, 16) == |f| - 14 && Half(f, 38) == |f| - 34) <==> |payload| + 28 < 0x1_0000
  {
    var f := Frame(dstMac, srcMac, port, check, src, dst, payload);
    FrameFields(dstMac, srcMac, port, check, src, dst, payload);
  }
}
