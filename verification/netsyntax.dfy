/** The textual address grammar of Go's `net` package, taken as given: the
    model does not re-implement `net.ParseIP`, `net.ParseCIDR` or
    `net.SplitHostPort`, it receives them as a `Syntax`. The guarantees the
    filter relies on are collected in `Valid`. */
module NetSyntax {
  import opened Wrappers
  import opened IpNet

  /** `parseIP` is `net.ParseIP` (absent for nil); `parseCIDR` is the
      network result of `net.ParseCIDR` (absent on error); `splitHost` is the
      host part of `net.SplitHostPort` (absent on error). */
  datatype Syntax = Syntax(
    parseIP: string -> Option<IP>,
    parseCIDR: string -> Option<Net>,
    splitHost: string -> Option<string>)

  /** Parsed addresses are of one family and parsed networks have a mask
      no longer than their address. An IPv4 address is always given in its
      4-byte form, never as an IPv4-mapped IPv6 address, so that "4 bytes"
      means what `To4() != nil` means in Go. */
  ghost predicate Valid(syn: Syntax) {
    && (forall s :: syn.parseIP(s).Some? ==> IsAddress(syn.parseIP(s).value) && !IsV4Mapped(syn.parseIP(s).value))
    && (forall s :: syn.parseCIDR(s).Some? ==> WellFormed(syn.parseCIDR(s).value) && !IsV4Mapped(syn.parseCIDR(s).value.addr))
  }
}
