/** Addresses and networks as Go's `net` package represents them: an address
    is a byte string (4 bytes for IPv4, 16 for IPv6) and a network is an
    address with a prefix length. `Contains` compares masked bytes the way
    `(*IPNet).Contains` does; `SamePrefix` is the bit-level reading of the
    same thing, and `ContainsIffSamePrefix` proves the two agree. */
module IpNet {

  type Byte = b: int | 0 <= b < 256

  type IP = seq<Byte>

  /** A `net.IP` of one of the two families; IPv4 is the one for which
      `To4()` is non-nil. */
  predicate IsAddress(ip: IP) {
    |ip| == 4 || |ip| == 16
  }

  /** The 16-byte form of an IPv4 address: ten zero bytes, two 0xff bytes,
      then the four IPv4 bytes. */
  predicate IsV4Mapped(ip: IP) {
    |ip| == 16 && ip[..12] == [0, 0, 0, 0, 0, 0, 0, 0, 0, 0, 0xff, 0xff]
  }

  /** An `IPNet`: an address and the number of leading one bits of its mask. */
  datatype Net = Net(addr: IP, prefix: nat)

  predicate WellFormed(n: Net) {
    IsAddress(n.addr) && n.prefix <= 8 * |n.addr|
  }

  /** `2^k` for the shift amounts inside one byte. */
  function Pow2(k: nat): (r: nat)
    requires k <= 8
    ensures 0 < r <= 256
  {
    match k
    case 0 => 1 case 1 => 2 case 2 => 4 case 3 => 8 case 4 => 16
    case 5 => 32 case 6 => 64 case 7 => 128 case _ => 256
  }

  /** How many of the mask's one bits fall into byte `i`. */
  function MaskBits(prefix: nat, i: nat): (r: nat)
    ensures r <= 8
  {
    if prefix <= 8 * i then 0 else if prefix - 8 * i >= 8 then 8 else prefix - 8 * i
  }

  /** `b & m` where `m` is the byte whose `k` leading bits are one. */
  function KeepTop(b: Byte, k: nat): Byte
    requires k <= 8
  {
    (b / Pow2(8 - k)) * Pow2(8 - k)
  }

  /** `(*IPNet).Contains`: the families agree and every byte agrees with the
      network address under the mask. */
  predicate Contains(n: Net, ip: IP) {
    && |ip| == |n.addr|
    && forall i :: 0 <= i < |ip| ==>
         KeepTop(ip[i], MaskBits(n.prefix, i)) == KeepTop(n.addr[i], MaskBits(n.prefix, i))
  }

  /** Bit `t` of a byte, counting from the most significant one. */
  function ByteBit(b: Byte, t: nat): nat
    requires t < 8
  {
    (b / Pow2(7 - t)) % 2
  }

  /** Bit `j` of an address, in network (big-endian) order. */
  function Bit(ip: IP, j: nat): nat
    requires j < 8 * |ip|
  {
    ByteBit(ip[j / 8], j % 8)
  }

  /** The first `k` bits of `a` and `b` are equal. */
  predicate SamePrefix(a: IP, b: IP, k: nat)
    requires |a| == |b| && k <= 8 * |a|
  {
    forall j :: 0 <= j < k ==> Bit(a, j) == Bit(b, j)
  }

  /** The `k` high bits of a byte, as a number. */
  function High(b: Byte, k: nat): nat
    requires k <= 8
  {
    b / Pow2(8 - k)
  }

  lemma HighStep(b: Byte, k: nat)
    requires k < 8
    ensures High(b, k + 1) == 2 * High(b, k) + ByteBit(b, k)
  {
  }

  lemma KeepTopIsHigh(b1: Byte, b2: Byte, k: nat)
    requires k <= 8
    ensures KeepTop(b1, k) == KeepTop(b2, k) <==> High(b1, k) == High(b2, k)
  {
  }

  /** Masking is idempotent: a masked byte is its own mask. */
  lemma KeepTopTwice(b: Byte, k: nat)
    requires k <= 8
    ensures KeepTop(KeepTop(b, k), k) == KeepTop(b, k)
  {
  }

  /** Masking two bytes with `k` leading ones gives the same byte exactly
      when their first `k` bits agree. */
  lemma KeepTopIffBits(b1: Byte, b2: Byte, k: nat)
    requires k <= 8
    ensures KeepTop(b1, k) == KeepTop(b2, k) <==>
            forall t :: 0 <= t < k ==> ByteBit(b1, t) == ByteBit(b2, t)
  {
    KeepTopIsHigh(b1, b2, k);
    HighIffBits(b1, b2, k);
  }

  lemma {:induction false} HighIffBits(b1: Byte, b2: Byte, k: nat)
    requires k <= 8
    ensures High(b1, k) == High(b2, k) <==>
            forall t :: 0 <= t < k ==> ByteBit(b1, t) == ByteBit(b2, t)
  {
    if k == 0 {
    } else {
      HighIffBits(b1, b2, k - 1);
      HighStep(b1, k - 1);
      HighStep(b2, k - 1);
    }
  }

  /** Containment means the leading `prefix` bits are equal. */
  lemma ContainsIffSamePrefix(n: Net, ip: IP)
    requires n.prefix <= 8 * |n.addr|
    ensures Contains(n, ip) <==> |ip| == |n.addr| && SamePrefix(ip, n.addr, n.prefix)
  {
    if |ip| == |n.addr| {
      if Contains(n, ip) {
        forall j | 0 <= j < n.prefix ensures Bit(ip, j) == Bit(n.addr, j) {
          var i, t := j / 8, j % 8;
          KeepTopIffBits(ip[i], n.addr[i], MaskBits(n.prefix, i));
        }
      }
      if SamePrefix(ip, n.addr, n.prefix) {
        forall i | 0 <= i < |ip|
          ensures KeepTop(ip[i], MaskBits(n.prefix, i)) == KeepTop(n.addr[i], MaskBits(n.prefix, i))
        {
          var k := MaskBits(n.prefix, i);
          forall t | 0 <= t < k ensures ByteBit(ip[i], t) == ByteBit(n.addr[i], t) {
            var j := 8 * i + t;
            assert j / 8 == i && j % 8 == t;
            assert Bit(ip, j) == Bit(n.addr, j);
          }
          KeepTopIffBits(ip[i], n.addr[i], k);
        }
      }
    }
  }

  /** The network of a single address: a mask as long as the address. */
  function HostNet(ip: IP): (n: Net)
    requires IsAddress(ip)
    ensures WellFormed(n)
    ensures forall x :: Contains(n, x) <==> x == ip
  {
    var n := Net(ip, 8 * |ip|);
    assert forall i :: 0 <= i < |ip| ==> MaskBits(n.prefix, i) == 8;
    assert forall x :: Contains(n, x) ==> x == ip by {
      forall x | Contains(n, x) ensures x == ip {
        assert forall i :: 0 <= i < |ip| ==> x[i] == KeepTop(x[i], 8) == KeepTop(ip[i], 8) == ip[i];
      }
    }
    n
  }

  /** A zero-length prefix (`0.0.0.0/0`, `::/0`) covers its whole family. */
  lemma ZeroPrefixContainsFamily(a: IP, x: IP)
    ensures Contains(Net(a, 0), x) <==> |x| == |a|
  {
  }

  /** Shortening the prefix only widens a network. */
  lemma ShorterPrefixWidens(a: IP, p: nat, q: nat, x: IP)
    requires q <= p <= 8 * |a|
    requires Contains(Net(a, p), x)
    ensures Contains(Net(a, q), x)
  {
    ContainsIffSamePrefix(Net(a, p), x);
    ContainsIffSamePrefix(Net(a, q), x);
  }
}
