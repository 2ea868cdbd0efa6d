/** Bytes, machine-width integers and big-endian numbers: the vocabulary that
    the codec, the frame builder and the filter share. */
module Wire {

  type byte = b: int | 0 <= b < 0x100
  type uint16 = n: int | 0 <= n < 0x1_0000
  type uint64 = n: int | 0 <= n < 0x1_0000_0000_0000_0000

  datatype Option<+T> = None | Some(value: T)

  datatype Error =
    | TooShort
    | UnmarshalFailed
    | MessageCount
    | DecodeHeadFailed
    | InvalidMessageCount
    | SessionMismatch

  datatype Result<+T> = Ok(value: T) | Err(error: Error)

  function Min(a: int, b: int): int {
    if a <= b then a else b
  }

  lemma MulMono(d: nat, x: int, y: int)
    requires x <= y
    ensures d * x <= d * y
  {
  }

  lemma ModUnique(a: nat, d: nat, q: nat, r: nat)
    requires d > 0 && a == d * q + r && r < d
    ensures a % d == r
  {
    var q' := a / d;
    assert a == d * q' + a % d;
    assert d * (q + 1) == d * q + d && d * (q' + 1) == d * q' + d;
    if q < q' {
      MulMono(d, q + 1, q');
    } else if q' < q {
      MulMono(d, q' + 1, q);
    }
  }

  /** The `width` low-order bytes of `n`, most significant first. */
  function BigEndian(width: nat, n: nat): (s: seq<byte>)
    ensures |s| == width
  {
    if width == 0 then [] else BigEndian(width - 1, n / 0x100) + [n % 0x100]
  }

  function FromBigEndian(s: seq<byte>): nat {
    if s == [] then 0 else FromBigEndian(s[..|s| - 1]) * 0x100 + s[|s| - 1]
  }

  function Pow256(width: nat): (p: nat)
    ensures p > 0
  {
    if width == 0 then 1 else 0x100 * Pow256(width - 1)
  }

  lemma {:induction false} BigEndianRoundTrip(width: nat, n: nat)
    requires n < Pow256(width)
    ensures FromBigEndian(BigEndian(width, n)) == n
  {
    if width > 0 {
      BigEndianRoundTrip(width - 1, n / 0x100);
      assert BigEndian(width, n)[..width - 1] == BigEndian(width - 1, n / 0x100);
    }
  }

  lemma {:induction false} FromBigEndianRoundTrip(s: seq<byte>)
    ensures FromBigEndian(s) < Pow256(|s|)
    ensures BigEndian(|s|, FromBigEndian(s)) == s
  {
    if s != [] {
      FromBigEndianRoundTrip(s[..|s| - 1]);
    }
  }

  lemma DivTwice(n: nat, d: nat, e: nat)
    requires d > 0 && e > 0 && d * e > 0
    ensures n / d / e == n / (d * e)
  {
    var q, r := n / d / e, n / d % e;
    assert n / d == e * q + r;
    assert n == d * (e * q + r) + n % d;
    assert d * (e * q + r) == (d * e) * q + d * r;
    assert d * r + n % d < d * e by {
      MulMono(d, r + 1, e);
      assert d * (r + 1) == d * r + d;
    }
    DivUnique(n, d * e, q, d * r + n % d);
  }

  lemma DivUnique(a: nat, d: nat, q: nat, r: nat)
    requires d > 0 && a == d * q + r && r < d
    ensures a / d == q
  {
    ModUnique(a, d, q, r);
    var q' := a / d;
    assert d * q' == d * q && d * (q + 1) == d * q + d && d * (q' + 1) == d * q' + d;
    if q < q' {
      MulMono(d, q + 1, q');
    } else if q' < q {
      MulMono(d, q' + 1, q);
    }
  }

  /** Byte `i` of the encoding is the number's digit to base 256 that many places from the left. */
  lemma {:induction false} BigEndianAt(width: nat, n: nat, i: nat)
    requires i < width
    ensures BigEndian(width, n)[i] == n / Pow256(width - 1 - i) % 0x100
  {
    if i < width - 1 {
      BigEndianAt(width - 1, n / 0x100, i);
      DivTwice(n, 0x100, Pow256(width - 2 - i));
    }
  }

  lemma FromBigEndianSnoc(s: seq<byte>, k: nat)
    requires k < |s|
    ensures FromBigEndian(s[..k + 1]) == FromBigEndian(s[..k]) * 0x100 + s[k]
  {
    assert s[..k + 1][..k] == s[..k];
  }

  lemma TwoBytes(s: seq<byte>)
    requires |s| == 2
    ensures FromBigEndian(s) == s[0] as int * 0x100 + s[1] < 0x1_0000
  {
    assert FromBigEndian(s[..1]) == FromBigEndian(s[..1][..0]) * 0x100 + s[0];
  }

  /** The number with these digits to base 256, the first one counting most. */
  function Number(a: int, b: int, c: int, d: int, e: int, f: int, g: int, h: int): int {
    a * 0x100_0000_0000_0000 + b * 0x1_0000_0000_0000 + c * 0x100_0000_0000 + d * 0x1_0000_0000 +
    e * 0x100_0000 + f * 0x1_0000 + g * 0x100 + h
  }

  lemma EightBytes(s: seq<byte>)
    requires |s| == 8
    ensures FromBigEndian(s) == Number(s[0], s[1], s[2], s[3], s[4], s[5], s[6], s[7])
    ensures FromBigEndian(s) < 0x1_0000_0000_0000_0000
  {
    var high := FourBytes(s);
    FromBigEndianSnoc(s, 4);
    FromBigEndianSnoc(s, 5);
    FromBigEndianSnoc(s, 6);
    FromBigEndianSnoc(s, 7);
    assert s[..8] == s;
  }

  lemma FourBytes(s: seq<byte>) returns (n: nat)
    requires |s| >= 4
    ensures n == FromBigEndian(s[..4])
    ensures n == s[0] as int * 0x100_0000 + s[1] as int * 0x1_0000 + s[2] as int * 0x100 + s[3]
  {
    FromBigEndianSnoc(s, 0);
    FromBigEndianSnoc(s, 1);
    FromBigEndianSnoc(s, 2);
    FromBigEndianSnoc(s, 3);
    n := FromBigEndian(s[..4]);
  }

  /** A buffer after `s` was written over it at offset `at`. */
  function Overwrite<T>(buff: seq<T>, at: nat, s: seq<T>): (r: seq<T>)
    requires at + |s| <= |buff|
    ensures |r| == |buff|
  {
    buff[..at] + s + buff[at + |s|..]
  }

  /** Go's `copy(buff[at:limit], src)`: as much of `src` as fits. */
  method Copy<T>(buff: array<T>, at: nat, limit: nat, src: seq<T>)
    requires at <= limit <= buff.Length
    modifies buff
    ensures var n := if |src| <= limit - at then |src| else limit - at;
            buff[..] == Overwrite(old(buff[..]), at, src[..n])
  {
    var n := if |src| <= limit - at then |src| else limit - at;
    for i := 0 to n
      invariant forall j :: 0 <= j < buff.Length ==>
        buff[j] == if at <= j < at + i then src[j - at] else old(buff[j])
    {
      buff[at + i] := src[i];
    }
  }

  /** Writes all of `s` at `at`. */
  method Write<T>(buff: array<T>, at: nat, s: seq<T>)
    requires at + |s| <= buff.Length
    modifies buff
    ensures buff[..] == Overwrite(old(buff[..]), at, s)
  {
    Copy(buff, at, at + |s|, s);
    assert s[..|s|] == s;
  }

  /** Writes `s` behind the bytes `done`, which are in place from `at` on. */
  method Extend<T>(buff: array<T>, at: nat, ghost before: seq<T>, ghost done: seq<T>, off: nat, s: seq<T>)
    returns (ghost all: seq<T>)
    requires |before| == buff.Length && off == |done| && at + |done| + |s| <= buff.Length
    requires buff[..] == Overwrite(before, at, done)
    modifies buff
    ensures all == done + s && buff[..] == Overwrite(before, at, all)
  {
    Write(buff, at + off, s);
    all := done + s;
  }

  lemma OverwriteFront<T>(buff: seq<T>, s: seq<T>)
    requires |s| <= |buff|
    ensures Overwrite(buff, 0, s) == s + buff[|s|..]
  {
  }
}
