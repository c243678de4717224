/** A simplified, IPv4-only instance of the address grammar: dotted-quad
    addresses (`net.ParseIP`), `a.b.c.d/n` networks (`net.ParseCIDR`) and
    `host:port` splitting (`net.SplitHostPort`). IPv6 text is rejected by
    all three. It exists so that concrete configurations can be evaluated. */
module Ipv4Text {
  import opened Wrappers
  import opened Text
  import opened IpNet
  import opened NetSyntax

  predicate IsDigit(c: char) {
    '0' <= c <= '9'
  }

  predicate AllDigits(s: string) {
    forall i :: 0 <= i < |s| ==> IsDigit(s[i])
  }

  /** The value of a string of decimal digits. */
  function Decimal(s: string): nat
    requires AllDigits(s)
    decreases |s|
  {
    if |s| == 0 then 0
    else Decimal(s[..|s| - 1]) * 10 + (s[|s| - 1] as int - '0' as int)
  }

  /** One dotted-quad field: one to three digits, no leading zero, at most
      255. */
  function ParseOctet(s: string): (r: Option<Byte>)
    ensures r.Some? ==> 1 <= |s| <= 3 && AllDigits(s) && r.value == Decimal(s)
  {
    if 1 <= |s| <= 3 && AllDigits(s) && (|s| == 1 || s[0] != '0') && Decimal(s) <= 255
    then Some(Decimal(s))
    else None
  }

  function ParseIPv4(s: string): (r: Option<IP>)
    ensures r.Some? ==> |r.value| == 4
  {
    var f := Split(s, '.');
    if |f| != 4 then None
    else
      match (ParseOctet(f[0]), ParseOctet(f[1]), ParseOctet(f[2]), ParseOctet(f[3]))
      case (Some(a), Some(b), Some(c), Some(d)) => Some([a, b, c, d])
      case _ => None
  }

  /** `ip` with every bit after the first `prefix` cleared: `IP.Mask`. */
  function MaskAddr(ip: IP, prefix: nat): IP {
    seq(|ip|, i requires 0 <= i < |ip| => KeepTop(ip[i], MaskBits(prefix, i)))
  }

  /** Masking the address of a network does not change which addresses it
      contains, so `net.ParseCIDR` may return the masked address. */
  lemma MaskKeepsNet(ip: IP, prefix: nat, x: IP)
    ensures Contains(Net(MaskAddr(ip, prefix), prefix), x) <==> Contains(Net(ip, prefix), x)
  {
    var m := MaskAddr(ip, prefix);
    forall i | 0 <= i < |ip|
      ensures KeepTop(m[i], MaskBits(prefix, i)) == KeepTop(ip[i], MaskBits(prefix, i))
    {
      KeepTopTwice(ip[i], MaskBits(prefix, i));
    }
  }

  function ParseCIDRv4(s: string): (r: Option<Net>)
    ensures r.Some? ==> WellFormed(r.value) && |r.value.addr| == 4
  {
    var parts := Split(s, '/');
    if |parts| != 2 || |parts[1]| == 0 || !AllDigits(parts[1]) then None
    else
      var bits := Decimal(parts[1]);
      match ParseIPv4(parts[0])
      case Some(ip) => if bits <= 32 then Some(Net(MaskAddr(ip, bits), bits)) else None
      case None => None
  }

  /** Position of the last occurrence of `c` in `s`. */
  function LastIndex(s: string, c: char): (r: Option<nat>)
    ensures r.Some? ==> r.value < |s| && s[r.value] == c
    ensures r.Some? ==> forall k :: r.value < k < |s| ==> s[k] != c
    ensures r.None? ==> forall k :: 0 <= k < |s| ==> s[k] != c
    decreases |s|
  {
    if |s| == 0 then None
    else if s[|s| - 1] == c then Some(|s| - 1)
    else LastIndex(s[..|s| - 1], c)
  }

  /** The host part of `host:port`: the port starts after the last colon,
      and the host may hold no colon and neither bracket. */
  function SplitHostV4(s: string): Option<string> {
    match LastIndex(s, ':')
    case None => None
    case Some(i) =>
      var host := s[..i];
      if ':' in host || '[' in s || ']' in s then None else Some(host)
  }

  const V4: Syntax := Syntax(ParseIPv4, ParseCIDRv4, SplitHostV4)

  lemma V4Valid()
    ensures Valid(V4)
  {
  }
}
