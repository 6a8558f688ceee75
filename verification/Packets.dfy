/** Addresses as they stand in a packet: what the address tests of the daemon mean for the bytes
    of an IPv6 header (section 3 of RFC 8200; address formats of RFC 4291, sections 2.4 to 2.7). */
module Packets {
  import opened Sources
  import opened Checksum
  import opened Reports

  const SRC := 8   // offset of the source address in the IPv6 header
  const DST := 24  // offset of the destination address

  // ---------------------------------------------------------------- numbers and their bytes

  lemma MulMono(a: nat, b: nat, d: nat)
    requires a <= b
    ensures a * d <= b * d
  {
  }

  /** Quotient and remainder are unique. */
  lemma DivIs(x: nat, d: nat, q: nat, r: nat)
    requires r < d && x == q * d + r
    ensures x / d == q
  {
    var p := x / d;
    assert p * d <= x < (p + 1) * d;
    if p + 1 <= q {
      MulMono(p + 1, q, d);
    }
    if q + 1 <= p {
      MulMono(q + 1, p, d);
    }
  }

  lemma Quotient(x: nat, d: nat) returns (q: nat, r: nat)
    requires d > 0
    ensures q == x / d && x == q * d + r && r < d
  {
    q, r := x / d, x % d;
  }

  lemma Regroup(b: nat, q: nat, s: nat, p: nat)
    ensures (b * q + s) * p == b * (p * q) + s * p
  {
  }

  lemma DivDiv(x: nat, p: nat, q: nat)
    requires p > 0 && q > 0
    ensures p * q > 0 && x / p / q == x / (p * q)
  {
    var a, r := Quotient(x, p);
    var b, s := Quotient(a, q);
    Regroup(b, q, s, p);
    MulMono(s + 1, q, p);
    var rest := s * p + r;
    assert rest < p * q && x == b * (p * q) + rest;
    DivIs(x, p * q, b, rest);
  }

  /** The leading bytes of a number in network byte order are its leading part. */
  lemma {:induction false} Leading(mem: Memory, off: int, n: nat, k: nat)
    requires k <= n
    ensures ReadBE(mem, off, n) / Pow256(n - k) == ReadBE(mem, off, k)
    decreases n - k
  {
    if k < n {
      Leading(mem, off, n - 1, k);
      var x, y, p := ReadBE(mem, off, n), ReadBE(mem, off, n - 1), Pow256(n - 1 - k);
      assert x == y * 256 + mem(off + (n - 1)) && Pow256(n - k) == 256 * p;
      hide ReadBE, Pow256;
      DivIs(x, 256, y, mem(off + (n - 1)));
      DivDiv(x, 256, p);
    } else {
      assert Pow256(0) == 1;
    }
  }

  /** Byte order: byte `k` of an address. */
  lemma AddrByte(mem: Memory, off: int, k: nat)
    requires k < 16
    ensures ReadAddr(mem, off) / Pow256(15 - k) % 256 == mem(off + k)
  {
    Leading(mem, off, 16, k + 1);
    LastByte(mem, off, k);
    WholeAddress(mem, off);
    hide ReadAddr, ReadBE, Pow256;
  }

  lemma WholeAddress(mem: Memory, off: int)
    ensures ReadAddr(mem, off) == ReadBE(mem, off, 16)
  {
  }

  lemma LastByte(mem: Memory, off: int, k: nat)
    ensures ReadBE(mem, off, k + 1) % 256 == mem(off + k)
  {
  }

  // ---------------------------------------------------------------- address tests

  function Bytes(mem: Memory, off: int, n: nat): seq<byte> {
    seq(n, k requires 0 <= k < n => mem(off + k))
  }

  ghost predicate AllZero(d: seq<byte>) {
    forall k :: 0 <= k < |d| ==> d[k] == 0
  }

  lemma {:induction false} ZeroBytes(mem: Memory, off: int, n: nat)
    ensures ReadBE(mem, off, n) == 0 <==> AllZero(Bytes(mem, off, n))
  {
    if n > 0 {
      ZeroBytes(mem, off, n - 1);
      assert Bytes(mem, off, n) == Bytes(mem, off, n - 1) + [mem(off + (n - 1))];
      var d := Bytes(mem, off, n - 1);
      assert forall k :: 0 <= k < n - 1 ==> d[k] == Bytes(mem, off, n)[k];
      assert Bytes(mem, off, n)[n - 1] == mem(off + (n - 1));
    }
  }

  lemma TopBytes(mem: Memory, off: int)
    ensures var a := ReadAddr(mem, off);
            && a / 0x1_0000_0000_0000_0000_0000_0000_0000_00 == mem(off)
            && a / 0x1_0000_0000_0000_0000_0000_0000_0000 == mem(off) * 256 + mem(off + 1)
            && a / 0x40_0000_0000_0000_0000_0000_0000_0000 == (mem(off) * 256 + mem(off + 1)) / 64
  {
    Pow256Sixteen();
    assert Pow256(14) == 0x1_0000_0000_0000_0000_0000_0000_0000;
    assert Pow256(15) == 256 * Pow256(14);
    Leading(mem, off, 16, 1);
    Leading(mem, off, 16, 2);
    assert ReadBE(mem, off, 1) == mem(off) && ReadBE(mem, off, 2) == mem(off) * 256 + mem(off + 1);
    DivDiv(ReadAddr(mem, off), Pow256(14), 64);
  }

  /** The three tests, on bytes. */
  lemma AddressTests(mem: Memory, off: int)
    ensures IsMulticast(ReadAddr(mem, off)) <==> mem(off) == 0xff
    ensures IsLocalMulticast(ReadAddr(mem, off)) <==> mem(off) == 0xff && mem(off + 1) % 16 in {1, 2}
    ensures IsLinkLocal(ReadAddr(mem, off)) <==> mem(off) == 0xfe && mem(off + 1) / 64 == 2
    ensures ReadAddr(mem, off) == 0 <==> AllZero(Bytes(mem, off, 16))
  {
    TopBytes(mem, off);
    ZeroBytes(mem, off, 16);
    var a, hi, lo := ReadAddr(mem, off), mem(off), mem(off + 1);
    hide ReadAddr, ReadBE;
    TwoBytes(hi, lo);
  }

  lemma TwoBytes(hi: byte, lo: byte)
    ensures (hi * 256 + lo) % 16 == lo % 16
    ensures (hi * 256 + lo) / 64 == 0xfe80 / 0x40 <==> hi == 0xfe && lo / 64 == 2
  {
  }

  /** The packets the forwarder considers at all. */
  lemma ForwardableBytes(mem: Memory)
    ensures Forwardable(ReadAddr(mem, SRC), ReadAddr(mem, DST)) <==>
            && mem(8) != 0xff && !AllZero(Bytes(mem, 8, 16)) && !AllZero(Bytes(mem, 24, 16))
            && !(mem(8) == 0xfe && mem(9) / 64 == 2)
            && !(mem(24) == 0xff && mem(25) % 16 in {1, 2})
  {
    hide IsMulticast, IsLocalMulticast, IsLinkLocal, ReadAddr, Bytes, AllZero;
    AddressTests(mem, SRC);
    AddressTests(mem, DST);
  }
}
