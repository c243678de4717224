/** The filter itself: construction from the configuration (`New`) and the
    per-request decision (`ServeHTTP`), whose nested loop is proved equal to
    a closed form that does not depend on the order of the headers. */
module Decision {
  import opened Wrappers
  import opened Regex
  import opened Rules
  import opened IpNet
  import opened NetSyntax
  import opened AllowList
  import opened ClientIp

  /** The plugin configuration. */
  datatype Config = Config(
    requestHeaders: seq<HeaderConfig>,
    whitelistRequestHeaders: seq<HeaderConfig>,
    allowedIPs: seq<string>,
    log: bool)

  /** The compiled filter; immutable once built. */
  datatype Filter = Filter(
    blockRules: seq<Rule>,
    whitelistRules: seq<Rule>,
    allowedNets: seq<Net>,
    log: bool)

  /** What the filter sees of a request: its headers, in the order the
      header map is iterated, and the peer address `host[:port]`. */
  datatype Request = Request(headers: seq<Header>, remoteAddr: string)

  /** Forward calls the next handler; Reject answers 403 and does not. */
  datatype Outcome = Forward | Reject

  /** `New`: the allow-list never fails; a bad pattern in the blocklist or,
      failing that, in the whitelist stops construction. */
  function New(eng: Engine, syn: Syntax, c: Config): (r: Result<Filter, ConfigError>)
    ensures r.Success? <==>
              && (forall i :: 0 <= i < |c.requestHeaders| ==> EntryOk(eng, c.requestHeaders[i]))
              && (forall i :: 0 <= i < |c.whitelistRequestHeaders| ==> EntryOk(eng, c.whitelistRequestHeaders[i]))
    ensures r.Success? ==>
              && r.value.blockRules == Compiled(c.requestHeaders)
              && r.value.whitelistRules == Compiled(c.whitelistRequestHeaders)
              && r.value.allowedNets == ParseAllowedIPs(syn, c.allowedIPs)
              && r.value.log == c.log
    ensures r.Failure? && (forall i :: 0 <= i < |c.requestHeaders| ==> EntryOk(eng, c.requestHeaders[i])) ==>
              exists i :: 0 <= i < |c.whitelistRequestHeaders| && Offends(eng, c.whitelistRequestHeaders[i], r.error.expr)
    ensures r.Failure? && !(forall i :: 0 <= i < |c.requestHeaders| ==> EntryOk(eng, c.requestHeaders[i])) ==>
              exists i :: 0 <= i < |c.requestHeaders| && Offends(eng, c.requestHeaders[i], r.error.expr)
  {
    var nets := ParseAllowedIPs(syn, c.allowedIPs);
    match PrepareRules(eng, c.requestHeaders)
    case Failure(e) => Failure(e)
    case Success(block) =>
      match PrepareRules(eng, c.whitelistRequestHeaders)
      case Failure(e) => Failure(e)
      case Success(white) => Success(Filter(block, white, nets, c.log))
  }

  /** Some block rule applies to header `h`. */
  predicate Flagged(eng: Engine, f: Filter, h: Header) {
    exists j :: 0 <= j < |f.blockRules| && ApplyRule(eng, f.blockRules[j], h.name, h.values)
  }

  /** Header `h` is flagged and no whitelist rule clears it. */
  predicate Offending(eng: Engine, f: Filter, h: Header) {
    Flagged(eng, f, h) && !IsWhitelisted(eng, h.name, h.values, f.whitelistRules)
  }

  /** The decision in closed form, for a request attributed to `ip`:
      reject exactly when some header is flagged and not whitelisted and the
      address is not allowed. */
  predicate RejectsFrom(eng: Engine, f: Filter, req: Request, ip: Option<IP>) {
    !IsIPAllowed(ip, f.allowedNets) && exists h :: h in req.headers && Offending(eng, f, h)
  }

  predicate Rejects(eng: Engine, syn: Syntax, f: Filter, req: Request) {
    RejectsFrom(eng, f, req, GetClientIP(syn, req.headers, req.remoteAddr))
  }

  /** The rule loop of `ServeHTTP` for one header: each block rule in
      turn; a match that is whitelisted, or whose client address is allowed,
      moves on to the next rule (the `continue`s are in the rule loop); any
      other match denies the request at once. The client address is resolved
      by `resolve`, only when a match is not whitelisted. */
  method CheckHeader(eng: Engine, f: Filter, req: Request, h: Header, resolve: Request -> Option<IP>)
    returns (deny: bool)
    ensures deny <==> Offending(eng, f, h) && !IsIPAllowed(resolve(req), f.allowedNets)
  {
    var j := 0;
    while j < |f.blockRules|
      invariant 0 <= j <= |f.blockRules|
      invariant || IsIPAllowed(resolve(req), f.allowedNets)
                || IsWhitelisted(eng, h.name, h.values, f.whitelistRules)
                || forall t :: 0 <= t < j ==> !ApplyRule(eng, f.blockRules[t], h.name, h.values)
    {
      if ApplyRule(eng, f.blockRules[j], h.name, h.values) {
        if IsWhitelisted(eng, h.name, h.values, f.whitelistRules) {
          j := j + 1;
          continue;
        }
        var clientIP := resolve(req);
        if IsIPAllowed(clientIP, f.allowedNets) {
          j := j + 1;
          continue;
        }
        return true;
      }
      j := j + 1;
    }
    return false;
  }

  /** The header loop around `CheckHeader`: the first denial answers 403
      without calling the next handler; a request no header denies is
      forwarded. */
  method Serve(eng: Engine, f: Filter, req: Request, resolve: Request -> Option<IP>) returns (o: Outcome)
    ensures o == Reject <==> RejectsFrom(eng, f, req, resolve(req))
  {
    var i := 0;
    while i < |req.headers|
      invariant 0 <= i <= |req.headers|
      invariant IsIPAllowed(resolve(req), f.allowedNets) || forall k :: 0 <= k < i ==> !Offending(eng, f, req.headers[k])
    {
      var deny := CheckHeader(eng, f, req, req.headers[i], resolve);
      if deny {
        assert req.headers[i] in req.headers;
        return Reject;
      }
      i := i + 1;
    }
    return Forward;
  }

  /** `ServeHTTP`: the loops above with `getClientIP` as the resolver. */
  method ServeHTTP(eng: Engine, syn: Syntax, f: Filter, req: Request) returns (o: Outcome)
    ensures o == Reject <==> Rejects(eng, syn, f, req)
  {
    o := Serve(eng, f, req, (r: Request) => GetClientIP(syn, r.headers, r.remoteAddr));
  }

  /** The decision does not depend on the order in which the header map is
      walked. */
  lemma DecisionIgnoresHeaderOrder(eng: Engine, syn: Syntax, f: Filter, r1: Request, r2: Request)
    requires UniqueNames(r1.headers) && UniqueNames(r2.headers)
    requires multiset(r1.headers) == multiset(r2.headers) && r1.remoteAddr == r2.remoteAddr
    ensures Rejects(eng, syn, f, r1) <==> Rejects(eng, syn, f, r2)
  {
    HeaderGetIgnoresOrder(r1.headers, r2.headers, ForwardedFor);
    assert GetClientIP(syn, r1.headers, r1.remoteAddr) == GetClientIP(syn, r2.headers, r2.remoteAddr);
    forall h ensures h in r1.headers <==> h in r2.headers {
      assert h in r1.headers <==> h in multiset(r1.headers);
      assert h in r2.headers <==> h in multiset(r2.headers);
    }
  }

  /** A filter with at least the same whitelist rules and allowed networks
      rejects no request the original forwards, whatever address the
      request is attributed to. */
  lemma MoreLenientNeverRejectsMore(eng: Engine, f1: Filter, f2: Filter, req: Request, ip: Option<IP>)
    requires f1.blockRules == f2.blockRules
    requires forall r :: r in f1.whitelistRules ==> r in f2.whitelistRules
    requires forall n :: n in f1.allowedNets ==> n in f2.allowedNets
    requires RejectsFrom(eng, f2, req, ip)
    ensures RejectsFrom(eng, f1, req, ip)
  {
    if IsIPAllowed(ip, f1.allowedNets) {
      AllowedMonotone(ip, f1.allowedNets, f2.allowedNets);
    }
    var h :| h in req.headers && Offending(eng, f2, h);
    if IsWhitelisted(eng, h.name, h.values, f1.whitelistRules) {
      WhitelistMonotone(eng, h.name, h.values, f1.whitelistRules, f2.whitelistRules);
    }
    assert Offending(eng, f1, h);
  }

  /** The same at the level of the configuration: appending whitelist
      entries and allow-list entries never turns Forward into Reject. */
  lemma AddingExemptionsNeverRejectsMore(
    eng: Engine, syn: Syntax, c: Config, moreWhite: seq<HeaderConfig>, moreIPs: seq<string>, req: Request, ip: Option<IP>)
    requires forall i :: 0 <= i < |c.requestHeaders| ==> EntryOk(eng, c.requestHeaders[i])
    requires forall i :: 0 <= i < |c.whitelistRequestHeaders| ==> EntryOk(eng, c.whitelistRequestHeaders[i])
    requires forall i :: 0 <= i < |moreWhite| ==> EntryOk(eng, moreWhite[i])
    ensures New(eng, syn, c).Success?
    ensures New(eng, syn, c.(whitelistRequestHeaders := c.whitelistRequestHeaders + moreWhite,
                             allowedIPs := c.allowedIPs + moreIPs)).Success?
    ensures RejectsFrom(eng, New(eng, syn, c.(whitelistRequestHeaders := c.whitelistRequestHeaders + moreWhite,
                                              allowedIPs := c.allowedIPs + moreIPs)).value, req, ip)
            ==> RejectsFrom(eng, New(eng, syn, c).value, req, ip)
  {
    var c2 := c.(whitelistRequestHeaders := c.whitelistRequestHeaders + moreWhite,
                 allowedIPs := c.allowedIPs + moreIPs);
    PrepareRulesAppend(eng, c.whitelistRequestHeaders, moreWhite);
    ParseAllowedIPsAppend(syn, c.allowedIPs, moreIPs);
    var f1, f2 := New(eng, syn, c).value, New(eng, syn, c2).value;
    assert f2.whitelistRules == f1.whitelistRules + PrepareRules(eng, moreWhite).value;
    assert f2.allowedNets == f1.allowedNets + ParseAllowedIPs(syn, moreIPs);
    if RejectsFrom(eng, f2, req, ip) {
      MoreLenientNeverRejectsMore(eng, f1, f2, req, ip);
    }
  }
}
