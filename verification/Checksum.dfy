/** The Internet checksum of src/ecmh.c (`inchksum`, `ipv6_checksum`, and the comparison in
    `l4_ipv6_icmpv6`), as read on a little-endian machine. */
module Checksum {

  type byte = b: int | 0 <= b < 256
  type word = w: int | 0 <= w < 0x1_0000

  // ---------------------------------------------------------------- one's-complement sums

  /** The sum of the 16-bit words of `d` as a little-endian machine reads them; a last odd
      byte counts as a word of its own. */
  function WordSum(d: seq<byte>): nat {
    if |d| == 0 then 0
    else if |d| == 1 then d[0]
    else d[0] + 256 * d[1] + WordSum(d[2..])
  }

  /** The same in network byte order, as RFC 1071 has it: a last odd byte is padded. */
  function NetSum(d: seq<byte>): nat {
    if |d| == 0 then 0
    else if |d| == 1 then 256 * d[0]
    else 256 * d[0] + d[1] + NetSum(d[2..])
  }

  /** The one's-complement value of a sum: all carries wrapped in. */
  function Wrap(n: nat): word {
    if n == 0 then 0 else 1 + (n - 1) % 65535
  }

  predicate Congruent(a: int, b: int) {
    (a - b) % 65535 == 0
  }

  lemma WrapMeaning(n: nat)
    ensures Congruent(Wrap(n), n) && (Wrap(n) == 0 <==> n == 0)
  {
  }

  /** A wrapped sum is determined by its residue, and by being zero or not. */
  lemma WrapUnique(n: nat, w: word)
    requires Congruent(w, n) && (w == 0 <==> n == 0)
    ensures w == Wrap(n)
  {
    WrapMeaning(n);
  }

  /** One carry fold. */
  lemma FoldStep(n: nat)
    ensures Wrap(n % 0x1_0000 + n / 0x1_0000) == Wrap(n)
    ensures n >= 0x1_0000 ==> n % 0x1_0000 + n / 0x1_0000 < n
    ensures n < 0x1_0000 ==> Wrap(n) == n
  {
    var m, q := n % 0x1_0000 + n / 0x1_0000, n / 0x1_0000;
    assert n == m + 65535 * q;
    WrapMeaning(m);
    assert Congruent(Wrap(m), n);
    WrapUnique(n, Wrap(m));
  }

  lemma WrapSum(a: nat, b: nat)
    ensures Wrap(Wrap(a) + b) == Wrap(a + b)
  {
    WrapMeaning(a);
    WrapMeaning(Wrap(a) + b);
    WrapUnique(a + b, Wrap(Wrap(a) + b));
  }

  lemma {:induction false} WordSumAppend(a: seq<byte>, b: seq<byte>)
    requires |a| % 2 == 0
    ensures WordSum(a + b) == WordSum(a) + WordSum(b)
    ensures NetSum(a + b) == NetSum(a) + NetSum(b)
  {
    if a == [] {
      assert a + b == b;
    } else {
      assert (a + b)[2..] == a[2..] + b;
      WordSumAppend(a[2..], b);
    }
  }

  // ---------------------------------------------------------------- the code

  /** `inchksum`. */
  method InChksum(data: seq<byte>) returns (r: word)
    ensures r == Wrap(WordSum(data))
  {
    var sum: nat := 0;
    var wrd: nat := 0;
    var slen := |data|;
    while slen >= 2
      invariant wrd + slen == |data| && slen >= 0
      invariant sum + WordSum(data[wrd..]) == WordSum(data)
    {
      assert data[wrd..][2..] == data[wrd + 2..];
      sum := sum + (data[wrd] as int) + 256 * (data[wrd + 1] as int);
      wrd := wrd + 2;
      slen := slen - 2;
    }
    if slen > 0 {
      sum := sum + data[wrd];
    }
    while sum / 0x1_0000 != 0
      invariant Wrap(sum) == Wrap(WordSum(data))
      decreases sum
    {
      FoldStep(sum);
      sum := sum % 0x1_0000 + sum / 0x1_0000;
    }
    FoldStep(sum);
    r := sum;
  }

  /** The message that section 8.1 of RFC 8200 sums: the pseudo header, with a 32-bit length
      and three zero bytes before the next header, and the data. */
  function Message(addrs: seq<byte>, protocol: byte, data: seq<byte>): seq<byte>
    requires |data| < 0x1_0000
  {
    addrs + [0, 0, |data| / 256, |data| % 256] + [0, 0, 0, protocol] + data
  }

  /** One's complement, with 0xFFFF for zero. */
  function Complement(sum: word): word {
    if sum == 0xffff then 0xffff else 0xffff - sum
  }

  /** `ipv6_checksum`; `addrs` are the source and the destination, adjacent in the header.
      The code sums its own, shorter pseudo header and folds the carries just twice. */
  method Ipv6Checksum(addrs: seq<byte>, protocol: byte, data: seq<byte>) returns (r: word)
    requires |addrs| == 32 && |data| < 0x1_0000
    ensures r == Complement(Wrap(WordSum(Message(addrs, protocol, data))))
  {
    var pseudo: seq<byte> := [|data| / 256, |data| % 256, 0, 0, 0, protocol];
    var a := InChksum(addrs);
    var b := InChksum(pseudo);
    var c := InChksum(data);
    var chksum: nat := (a as int) + (b as int) + (c as int);
    ghost var total := chksum;
    chksum := chksum / 0x1_0000 + chksum % 0x1_0000;
    chksum := chksum + chksum / 0x1_0000;
    TwoFolds(total);
    SameMessage(addrs, protocol, data, pseudo);
    WrapThree(WordSum(addrs), WordSum(pseudo), WordSum(data));
    r := 0xffff - chksum % 0x1_0000;
    if r == 0 {
      r := 0xffff;
    }
  }

  /** Two folds are enough for the sum of three wrapped words. */
  lemma TwoFolds(n: nat)
    requires n <= 3 * 0xffff
    ensures var y := n / 0x1_0000 + n % 0x1_0000;
            (y + y / 0x1_0000) % 0x1_0000 == Wrap(n)
  {
    var y := n / 0x1_0000 + n % 0x1_0000;
    FoldStep(n);
    FoldStep(y);
  }

  lemma WrapThree(a: nat, b: nat, c: nat)
    ensures Wrap(Wrap(a) + Wrap(b) + Wrap(c)) == Wrap(a + b + c)
  {
    WrapSum(c, Wrap(a) + Wrap(b));
    WrapSum(b, Wrap(a) + c);
    WrapSum(a, b + c);
  }

  lemma SameMessage(addrs: seq<byte>, protocol: byte, data: seq<byte>, pseudo: seq<byte>)
    requires |addrs| == 32 && |data| < 0x1_0000
    requires pseudo == [|data| / 256, |data| % 256, 0, 0, 0, protocol]
    ensures WordSum(Message(addrs, protocol, data)) == WordSum(addrs) + WordSum(pseudo) + WordSum(data)
  {
    var len: seq<byte>, next: seq<byte> := [0, 0, |data| / 256, |data| % 256], [0, 0, 0, protocol];
    WordSumAppend(addrs, len);
    WordSumAppend(addrs + len, next);
    WordSumAppend(addrs + len + next, data);
    FourBytes(len);
    FourBytes(next);
    FourBytes(pseudo[2..]);
    assert WordSum(pseudo) == pseudo[0] + 256 * (pseudo[1] as int) + WordSum(pseudo[2..]);
  }

  lemma FourBytes(d: seq<byte>)
    requires |d| == 4
    ensures WordSum(d) == d[0] + 256 * (d[1] as int) + d[2] + 256 * (d[3] as int)
  {
    var e := d[2..];
    assert e[2..] == [] && e[0] == d[2] && e[1] == d[3];
    assert WordSum(e) == (e[0] as int) + 256 * (e[1] as int);
  }

  // ---------------------------------------------------------------- verification of a packet

  /** The checksum field of an ICMPv6 message: bytes 2 and 3. */
  function Field(data: seq<byte>): word
    requires |data| >= 4
  {
    (data[2] as int) + 256 * (data[3] as int)
  }

  function WithField(data: seq<byte>, c: word): seq<byte>
    requires |data| >= 4
  {
    data[2 := c % 256][3 := c / 256]
  }

  lemma FieldCounts(data: seq<byte>, c: word)
    requires |data| >= 4
    ensures WordSum(WithField(data, c)) == WordSum(WithField(data, 0)) + c
    ensures Field(WithField(data, c)) == c
    ensures WithField(data, Field(data)) == data
  {
    var d, z := WithField(data, c), WithField(data, 0);
    assert d[2..][2..] == z[2..][2..] == data[4..];
  }

  lemma MessageSum(addrs: seq<byte>, protocol: byte, data: seq<byte>, c: word)
    requires |addrs| == 32 && 4 <= |data| < 0x1_0000
    ensures WordSum(Message(addrs, protocol, WithField(data, c))) ==
            WordSum(Message(addrs, protocol, WithField(data, 0))) + c
  {
    FieldCounts(data, c);
    var pseudo: seq<byte> := [|data| / 256, |data| % 256, 0, 0, 0, protocol];
    SameMessage(addrs, protocol, WithField(data, c), pseudo);
    SameMessage(addrs, protocol, WithField(data, 0), pseudo);
  }

  /** The comparison in `l4_ipv6_icmpv6`: save the field, clear it, recompute. */
  method Matches(addrs: seq<byte>, protocol: byte, data: seq<byte>) returns (same: bool)
    requires |addrs| == 32 && 4 <= |data| < 0x1_0000
    ensures same <==> Field(data) != 0 && Congruent(WordSum(Message(addrs, protocol, data)), 0)
  {
    var csum := Field(data);
    var cleared := WithField(data, 0);
    var computed := Ipv6Checksum(addrs, protocol, cleared);
    same := computed == csum;
    FieldCounts(data, csum);
    MessageSum(addrs, protocol, data, csum);
    ComplementMeaning(WordSum(Message(addrs, protocol, cleared)), csum);
  }

  /** The complement is the one non-zero word that brings the sum to zero. */
  lemma ComplementMeaning(n: nat, c: word)
    ensures Complement(Wrap(n)) == c <==> c != 0 && Congruent(n + c, 0)
  {
    WrapMeaning(n);
    var k := Complement(Wrap(n));
    assert Congruent(n + k, 0);
    if c != 0 && Congruent(n + c, 0) {
      assert Congruent(c, k);
    }
  }

  /** A message sent with the computed checksum passes the comparison. */
  lemma SentMessagesMatch(addrs: seq<byte>, protocol: byte, data: seq<byte>)
    requires |addrs| == 32 && 4 <= |data| < 0x1_0000
    ensures var c := Complement(Wrap(WordSum(Message(addrs, protocol, WithField(data, 0)))));
            c != 0 && Congruent(WordSum(Message(addrs, protocol, WithField(data, c))), 0)
  {
    var n := WordSum(Message(addrs, protocol, WithField(data, 0)));
    var c := Complement(Wrap(n));
    ComplementMeaning(n, c);
    MessageSum(addrs, protocol, data, c);
  }

  // ---------------------------------------------------------------- byte order

  function Swapped(w: word): word {
    w % 256 * 256 + w / 256
  }

  lemma {:induction false} SumsAgree(d: seq<byte>)
    ensures Congruent(256 * WordSum(d), NetSum(d)) && (WordSum(d) == 0 <==> NetSum(d) == 0)
  {
    if |d| >= 2 {
      SumsAgree(d[2..]);
      assert 256 * WordSum(d) - NetSum(d) == 65535 * d[1] + (256 * WordSum(d[2..]) - NetSum(d[2..]));
    }
  }

  lemma SwapMeaning(w: word)
    ensures Congruent(256 * w, Swapped(w)) && (w == 0 <==> Swapped(w) == 0)
    ensures Complement(Swapped(w)) == Swapped(Complement(w))
  {
    var hi, lo := w / 256, w % 256;
    assert w == 256 * hi + lo;
    assert 256 * w - Swapped(w) == 65535 * hi;
    if w != 0xffff {
      assert 0xffff - w == 256 * (255 - hi) + (255 - lo);
      assert (0xffff - w) / 256 == 255 - hi && (0xffff - w) % 256 == 255 - lo;
    }
  }

  /** The little-endian computation leaves on the wire the bytes of the checksum that the
      standards define in network byte order. */
  lemma WireChecksum(message: seq<byte>)
    ensures Swapped(Complement(Wrap(WordSum(message)))) == Complement(Wrap(NetSum(message)))
  {
    var n, m := WordSum(message), NetSum(message);
    SumsAgree(message);
    WrapMeaning(n);
    SwapMeaning(Wrap(n));
    Times256(Wrap(n), n);
    Chain(Swapped(Wrap(n)), 256 * (Wrap(n) as int), 256 * n);
    Chain(Swapped(Wrap(n)), 256 * n, m);
    WrapUnique(m, Swapped(Wrap(n)));
  }

  lemma Times256(a: int, b: int)
    requires Congruent(a, b)
    ensures Congruent(256 * a, 256 * b)
  {
    var q := (a - b) / 65535;
    assert 256 * a - 256 * b == 65535 * (256 * q);
  }

  lemma Chain(a: int, b: int, c: int)
    requires (Congruent(a, b) || Congruent(b, a)) && Congruent(b, c)
    ensures Congruent(a, c)
  {
  }
}
