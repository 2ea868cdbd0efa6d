/** The classic BPF program of rsocket.go: an interpreter for its instructions,
    and what the patched program accepts. */
module Bpf {
  import opened Wire

  datatype Insn = Insn(code: nat, jt: nat, jf: nat, k: nat)

  const LDH_ABS := 0x28
  const LDB_ABS := 0x30
  const LDH_IND := 0x48
  const LDX_MSH := 0xb1
  const JEQ := 0x15
  const JSET := 0x45
  const RET := 0x06

  /** Bitwise and of two numbers. */
  function And(a: nat, b: nat): nat {
    if a == 0 || b == 0 then 0
    else 2 * And(a / 2, b / 2) + (if a % 2 == 1 && b % 2 == 1 then 1 else 0)
  }

  function Pow2(j: nat): (p: nat)
    ensures p > 0
  {
    if j == 0 then 1 else 2 * Pow2(j - 1)
  }

  /** Masking with j low-order ones is the remainder by 2^j. */
  lemma {:induction false} AndMask(a: nat, j: nat)
    ensures And(a, Pow2(j) - 1) == a % Pow2(j)
    decreases j
  {
    if a != 0 && j != 0 {
      var p := Pow2(j - 1);
      AndMask(a / 2, j - 1);
      assert (2 * p - 1) / 2 == p - 1;
      HalfMod(a, p);
    }
  }

  lemma HalfMod(a: nat, p: nat)
    requires p > 0
    ensures a % (2 * p) == 2 * (a / 2 % p) + a % 2
  {
    var q, r := a / 2 / p, a / 2 % p;
    assert a / 2 == p * q + r;
    assert a == (2 * p) * q + (2 * r + a % 2);
    ModUnique(a, 2 * p, q, 2 * r + a % 2);
  }

  function Half(pkt: seq<byte>, at: nat): nat
    requires at + 2 <= |pkt|
  {
    pkt[at] as int * 0x100 + pkt[at + 1]
  }

  /** Runs the program from instruction `pc`; the answer is the number of bytes to
      accept.  A load beyond the packet ends the program with 0. */
  function Exec(prog: seq<Insn>, pc: nat, pkt: seq<byte>, a: nat, x: nat): nat
    decreases |prog| - pc
  {
    if pc >= |prog| then 0 else
    var Insn(code, jt, jf, k) := prog[pc];
    if code == LDH_ABS then
      if k + 2 <= |pkt| then Exec(prog, pc + 1, pkt, Half(pkt, k), x) else 0
    else if code == LDB_ABS then
      if k < |pkt| then Exec(prog, pc + 1, pkt, pkt[k], x) else 0
    else if code == LDH_IND then
      if x + k + 2 <= |pkt| then Exec(prog, pc + 1, pkt, Half(pkt, x + k), x) else 0
    else if code == LDX_MSH then
      if k < |pkt| then Exec(prog, pc + 1, pkt, a, 4 * And(pkt[k], 0xf)) else 0
    else if code == JEQ then Exec(prog, pc + 1 + (if a == k then jt else jf), pkt, a, x)
    else if code == JSET then Exec(prog, pc + 1 + (if And(a, k) != 0 then jt else jf), pkt, a, x)
    else if code == RET then k
    else 0
  }

  const SNAP := 0x40000

  /** The table, with `port` in the two instructions that `setBPF` patches. */
  function Filter(port: nat): (prog: seq<Insn>)
    ensures |prog| == 16
  {
    [ Insn(LDH_ABS, 0, 0, 0x0c),
      Insn(JEQ, 0, 4, 0x86dd),
      Insn(LDB_ABS, 0, 0, 0x14),
      Insn(JEQ, 0, 11, 0x11),
      Insn(LDH_ABS, 0, 0, 0x38),
      Insn(JEQ, 8, 9, port),
      Insn(JEQ, 0, 8, 0x800),
      Insn(LDB_ABS, 0, 0, 0x17),
      Insn(JEQ, 0, 6, 0x11),
      Insn(LDH_ABS, 0, 0, 0x14),
      Insn(JSET, 4, 0, 0x1fff),
      Insn(LDX_MSH, 0, 0, 0x0e),
      Insn(LDH_IND, 0, 0, 0x10),
      Insn(JEQ, 0, 1, port),
      Insn(RET, 0, 0, SNAP),
      Insn(RET, 0, 0, 0) ]
  }

  /** The table as the kernel gets it, in numbers. */
  lemma FilterCodes(port: nat)
    ensures Filter(port) ==
      [ Insn(0x28, 0, 0, 0x0c),
        Insn(0x15, 0, 4, 0x86dd),
        Insn(0x30, 0, 0, 0x14),
        Insn(0x15, 0, 11, 0x11),
        Insn(0x28, 0, 0, 0x38),
        Insn(0x15, 8, 9, port),
        Insn(0x15, 0, 8, 0x800),
        Insn(0x30, 0, 0, 0x17),
        Insn(0x15, 0, 6, 0x11),
        Insn(0x28, 0, 0, 0x14),
        Insn(0x45, 4, 0, 0x1fff),
        Insn(0xb1, 0, 0, 0x0e),
        Insn(0x48, 0, 0, 0x10),
        Insn(0x15, 0, 1, port),
        Insn(0x06, 0, 0, 0x40000),
        Insn(0x06, 0, 0, 0) ]
  {
  }

  const UINT32 := 0x1_0000_0000

  /** `setBPF`: patches the shared table unless it is already set to the port. */
  method SetBpf(filter: array<Insn>, port: int, ghost before: nat)
    requires filter.Length == 16 && before < UINT32 && filter[..] == Filter(before)
    modifies filter
    ensures filter[..] == Filter(port % UINT32)
  {
    if filter[5].k == port && filter[13].k == port {
      assert port == filter[..][5].k == before;
    } else {
      filter[5] := filter[5].(k := port % UINT32);
      filter[13] := filter[13].(k := port % UINT32);
    }
  }

  // ---------- what the program accepts ----------

  const ETHER_IPV6 := 0x86dd
  const ETHER_IPV4 := 0x0800
  const UDP := 0x11

  /** IPv6 with next header UDP, and the port right after the fixed header. */
  predicate AcceptsV6(pkt: seq<byte>, port: nat) {
    && |pkt| >= 14 + 40 + 4
    && Half(pkt, 12) == ETHER_IPV6
    && pkt[14 + 6] == UDP
    && Half(pkt, 14 + 40 + 2) == port
  }

  /** The length of the IPv4 header at byte 14, from its low nibble. */
  function HeaderLength(pkt: seq<byte>): nat
    requires |pkt| > 14
  {
    pkt[14] % 16 * 4
  }

  /** IPv4 carrying UDP, not a later fragment, and the port after a header of any length. */
  predicate AcceptsV4(pkt: seq<byte>, port: nat) {
    && |pkt| >= 14 + 10
    && Half(pkt, 12) == ETHER_IPV4
    && pkt[14 + 9] == UDP
    && Half(pkt, 14 + 6) % 0x2000 == 0
    && |pkt| >= 14 + HeaderLength(pkt) + 4
    && Half(pkt, 14 + HeaderLength(pkt) + 2) == port
  }

  lemma TailV6(pkt: seq<byte>, port: nat, x: nat)
    requires |pkt| >= 14 && Half(pkt, 12) == ETHER_IPV6
    ensures Exec(Filter(port), 2, pkt, ETHER_IPV6, x) == if AcceptsV6(pkt, port) then SNAP else 0
  {
    var prog := Filter(port);
    if |pkt| > 20 {
      assert Exec(prog, 2, pkt, ETHER_IPV6, x) == Exec(prog, 3, pkt, pkt[20], x);
      if pkt[20] == UDP {
        assert Exec(prog, 3, pkt, pkt[20], x) == Exec(prog, 4, pkt, pkt[20], x);
        if |pkt| >= 58 {
          var a := Half(pkt, 56);
          assert Exec(prog, 4, pkt, pkt[20], x) == Exec(prog, 5, pkt, a, x);
          assert Exec(prog, 5, pkt, a, x) == Exec(prog, if a == port then 14 else 15, pkt, a, x);
        }
      }
    }
  }

  /** The port check after the IPv4 header, from the instruction that finds its length. */
  lemma PortV4(pkt: seq<byte>, port: nat, a: nat)
    requires |pkt| > 14
    ensures Exec(Filter(port), 11, pkt, a, 0) ==
            if |pkt| >= 14 + HeaderLength(pkt) + 4 && Half(pkt, 14 + HeaderLength(pkt) + 2) == port then SNAP else 0
  {
    var prog, x := Filter(port), HeaderLength(pkt);
    AndMask(pkt[14], 4);
    assert Pow2(4) == 16;
    assert Exec(prog, 11, pkt, a, 0) == Exec(prog, 12, pkt, a, x);
    if |pkt| >= x + 18 {
      var h := Half(pkt, x + 16);
      assert Exec(prog, 12, pkt, a, x) == Exec(prog, 13, pkt, h, x);
      assert Exec(prog, 13, pkt, h, x) == Exec(prog, if h == port then 14 else 15, pkt, h, x);
    }
  }

  lemma TailV4(pkt: seq<byte>, port: nat)
    requires |pkt| >= 24 && pkt[23] == UDP
    ensures Exec(Filter(port), 9, pkt, UDP, 0) ==
            if Half(pkt, 20) % 0x2000 == 0 && |pkt| >= 14 + HeaderLength(pkt) + 4 &&
               Half(pkt, 14 + HeaderLength(pkt) + 2) == port then SNAP else 0
  {
    var prog, frag := Filter(port), Half(pkt, 20);
    AndMask(frag, 13);
    assert Pow2(13) == 0x2000;
    assert Exec(prog, 9, pkt, UDP, 0) == Exec(prog, 10, pkt, frag, 0);
    assert Exec(prog, 10, pkt, frag, 0) == Exec(prog, if frag % 0x2000 == 0 then 11 else 15, pkt, frag, 0);
    PortV4(pkt, port, frag);
  }

  /** The sixteen instructions decide exactly this, for every packet and port. */
  lemma FilterExact(pkt: seq<byte>, port: nat)
    ensures Exec(Filter(port), 0, pkt, 0, 0) == if AcceptsV6(pkt, port) || AcceptsV4(pkt, port) then SNAP else 0
  {
    var prog := Filter(port);
    if |pkt| >= 14 {
      var ether := Half(pkt, 12);
      assert Exec(prog, 0, pkt, 0, 0) == Exec(prog, 1, pkt, ether, 0);
      if ether == ETHER_IPV6 {
        TailV6(pkt, port, 0);
      } else {
        assert Exec(prog, 1, pkt, ether, 0) == Exec(prog, 6, pkt, ether, 0);
        if ether == ETHER_IPV4 && |pkt| > 23 {
          assert Exec(prog, 6, pkt, ether, 0) == Exec(prog, 7, pkt, ether, 0) == Exec(prog, 8, pkt, pkt[23], 0);
          if pkt[23] == UDP {
            TailV4(pkt, port);
          } else {
            assert Exec(prog, 8, pkt, pkt[23], 0) == Exec(prog, 15, pkt, pkt[23], 0);
          }
        }
      }
    }
  }
}
