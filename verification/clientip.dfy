/** The request headers and `getClientIP`, which attributes a request to an
    address: the first `X-Forwarded-For` element if it parses, else the peer
    address without its port, else the whole peer address, else none. */
module ClientIp {
  import opened Wrappers
  import opened Text
  import opened IpNet
  import opened NetSyntax

  /** One header name with all the values it was sent with. */
  datatype Header = Header(name: string, values: seq<string>)

  /** Header names are the keys of a Go map, so they never repeat. */
  ghost predicate UniqueNames(headers: seq<Header>) {
    forall i, j :: 0 <= i < j < |headers| ==> headers[i].name != headers[j].name
  }

  /** The first value of a header, or "" when it has none. */
  function FirstValue(h: Header): string {
    if |h.values| == 0 then "" else h.values[0]
  }

  /** `headers[i]` is the first header named `key`. */
  predicate FirstNamed(headers: seq<Header>, key: string, i: int) {
    0 <= i < |headers| && headers[i].name == key && forall k :: 0 <= k < i ==> headers[k].name != key
  }

  /** `http.Header.Get`: the first value stored under `key`, or "" when the
      header is missing or has no values. */
  function HeaderGet(headers: seq<Header>, key: string): (v: string)
    ensures (forall i :: 0 <= i < |headers| ==> headers[i].name != key) ==> v == ""
    ensures forall i :: FirstNamed(headers, key, i) ==> v == FirstValue(headers[i])
    decreases |headers|
  {
    if |headers| == 0 then ""
    else if headers[0].name == key then FirstValue(headers[0])
    else
      var rest := headers[1..];
      assert forall i :: 1 <= i < |headers| ==> headers[i] == rest[i - 1];
      assert forall i :: FirstNamed(headers, key, i) ==> FirstNamed(rest, key, i - 1);
      HeaderGet(rest, key)
  }

  /** With unique names the lookup does not depend on where the header sits. */
  lemma HeaderGetAt(headers: seq<Header>, key: string, h: Header)
    requires UniqueNames(headers) && h in headers && h.name == key
    ensures HeaderGet(headers, key) == FirstValue(h)
  {
    var i :| 0 <= i < |headers| && headers[i] == h;
    assert FirstNamed(headers, key, i);
  }

  /** Reordering a header map does not change what `Get` returns. */
  lemma HeaderGetIgnoresOrder(h1: seq<Header>, h2: seq<Header>, key: string)
    requires UniqueNames(h1) && UniqueNames(h2) && multiset(h1) == multiset(h2)
    ensures HeaderGet(h1, key) == HeaderGet(h2, key)
  {
    if h: Header :| h in h1 && h.name == key {
      assert h in multiset(h1);
      assert h in h2;
      HeaderGetAt(h1, key, h);
      HeaderGetAt(h2, key, h);
    } else {
      forall i | 0 <= i < |h2| ensures h2[i].name != key {
        assert h2[i] in multiset(h2);
        assert h2[i] in h1;
      }
    }
  }

  const ForwardedFor: string := "X-Forwarded-For"

  /** `net.ParseIP` of the peer address: of its host part when
      `net.SplitHostPort` accepts it, of the whole string otherwise. */
  function PeerIP(syn: Syntax, remoteAddr: string): Option<IP> {
    match syn.splitHost(remoteAddr)
    case None => syn.parseIP(remoteAddr)
    case Some(host) => syn.parseIP(host)
  }

  /** `getClientIP`. */
  function GetClientIP(syn: Syntax, headers: seq<Header>, remoteAddr: string): (r: Option<IP>)
    ensures LeadingPiece(HeaderGet(headers, ForwardedFor), ',', Split(HeaderGet(headers, ForwardedFor), ',')[0])
    ensures forall f :: LeadingPiece(HeaderGet(headers, ForwardedFor), ',', f) ==>
              var fwd := syn.parseIP(TrimSpace(f));
              && (HeaderGet(headers, ForwardedFor) != "" && fwd.Some? ==> r == fwd)
              && (HeaderGet(headers, ForwardedFor) == "" || fwd.None? ==> r == PeerIP(syn, remoteAddr))
  {
    var xff := HeaderGet(headers, ForwardedFor);
    var first := Split(xff, ',')[0];
    LeadingFieldIsFirstSplit(xff);
    var fwd := if xff != "" then syn.parseIP(TrimSpace(first)) else None;
    if fwd.Some? then fwd else PeerIP(syn, remoteAddr)
  }

  /** The first piece of `strings.Split(s, ",")` is the leading field, and
      the leading field is unique. */
  lemma LeadingFieldIsFirstSplit(s: string)
    ensures LeadingPiece(s, ',', Split(s, ',')[0])
    ensures forall f :: LeadingPiece(s, ',', f) ==> f == Split(s, ',')[0]
  {
    var k := 0;
    while k < |s| && s[k] != ','
      invariant 0 <= k <= |s|
      invariant forall i :: 0 <= i < k ==> s[i] != ','
    {
      k := k + 1;
    }
    SplitFirst(s, ',', s[..k]);
    assert forall f :: LeadingPiece(s, ',', f) ==> f == s[..k];
  }

  /** The trust assumption made explicit: whoever sends the request chooses
      its address. Whatever the peer, a forwarded-for header holding one
      parseable address makes that address the client's. */
  lemma ForwardedForDecides(syn: Syntax, headers: seq<Header>, remoteAddr: string, claimed: string, ip: IP)
    requires HeaderGet(headers, ForwardedFor) == claimed && claimed != ""
    requires forall k :: 0 <= k < |claimed| ==> claimed[k] != ','
    requires syn.parseIP(TrimSpace(claimed)) == Some(ip)
    ensures GetClientIP(syn, headers, remoteAddr) == Some(ip)
  {
    assert claimed[..|claimed|] == claimed;
    assert LeadingPiece(claimed, ',', claimed);
  }
}
