/** Worked configurations, evaluated with the literal matcher and the IPv4
    grammar: a bot-blocking rule beside a country whitelist, an allow-listed
    network, forwarded and peer addresses, and a malformed pattern. */
module Scenarios {
  import opened Wrappers
  import opened Text
  import opened Regex
  import opened Rules
  import opened IpNet
  import opened NetSyntax
  import opened Ipv4Text
  import opened AllowList
  import opened ClientIp
  import opened Decision

  lemma ParseNines()
    ensures ParseIPv4("9.9.9.9") == Some([9, 9, 9, 9])
  {
    assert Join(["9", "9", "9", "9"], '.') == "9.9.9.9";
    SplitOfJoin(["9", "9", "9", "9"], '.');
  }

  lemma ParseTenOne()
    ensures ParseIPv4("10.0.0.1") == Some([10, 0, 0, 1])
  {
    assert Join(["10", "0", "0", "1"], '.') == "10.0.0.1";
    SplitOfJoin(["10", "0", "0", "1"], '.');
    assert "10"[..1] == "1";
    assert ParseOctet("10") == Some(10);
  }

  /** The first element of a forwarded-for chain is the client, whatever
      the peer. */
  lemma ForwardedForFirstElement(peer: string)
    ensures GetClientIP(V4, [Header(ForwardedFor, ["9.9.9.9, 10.0.0.1"])], peer) == Some([9, 9, 9, 9])
  {
    var xff := "9.9.9.9, 10.0.0.1";
    assert HeaderGet([Header(ForwardedFor, [xff])], ForwardedFor) == xff;
    assert xff[..7] == "9.9.9.9";
    assert LeadingPiece(xff, ',', "9.9.9.9");
    TrimSpaceKeeps("9.9.9.9");
    ParseNines();
  }

  lemma HostOfPeer()
    ensures SplitHostV4("10.0.0.1:5000") == Some("10.0.0.1")
  {
    var s := "10.0.0.1:5000";
    assert s[8] == ':';
    assert s[..8] == "10.0.0.1";
  }

  /** Without a forwarded-for header the peer address, port removed, is
      the client. */
  lemma PeerAddressFallback(headers: seq<Header>)
    requires HeaderGet(headers, ForwardedFor) == ""
    ensures GetClientIP(V4, headers, "10.0.0.1:5000") == Some([10, 0, 0, 1])
  {
    assert LeadingPiece("", ',', "");
    HostOfPeer();
    ParseTenOne();
  }

  /** With the IPv4 grammar, a bare allow-list address becomes a /32
      network that holds that address and no other. */
  lemma BareV4AddressIsHostNet()
    ensures ParsePart(V4, "10.0.0.1") == Some(Net([10, 0, 0, 1], 32))
    ensures forall x :: Contains(ParsePart(V4, "10.0.0.1").value, x) <==> x == [10, 0, 0, 1]
  {
    V4Valid();
    ParseTenOne();
    SplitNone("10.0.0.1", '/');
  }

  /** Parsing a single entry reads its comma-separated pieces in order. */
  lemma SingleEntry(syn: Syntax, e: string)
    ensures ParseAllowedIPs(syn, [e]) == EntryNets(syn, Split(e, ','))
  {
    assert [e][1..] == [];
    assert Pieces([e]) == Split(e, ',') + [];
  }

  lemma PaddedPiece(junk: string)
    requires |junk| > 0 && !IsSpace(junk[0]) && !IsSpace(junk[|junk| - 1])
    ensures TrimSpace(" " + junk) == junk
  {
    assert (" " + junk)[1..] == junk;
    assert DropLeft(" " + junk) == DropLeft(junk);
    TrimSpaceKeeps(junk);
  }

  /** An entry holding a CIDR and, after a comma and a blank, an unparsable
      piece yields the CIDR alone. */
  lemma CidrThenJunk(syn: Syntax, cidr: string, junk: string, n: Net)
    requires forall k :: 0 <= k < |cidr| ==> cidr[k] != ','
    requires forall k :: 0 <= k < |junk| ==> junk[k] != ','
    requires |cidr| > 0 && !IsSpace(cidr[0]) && !IsSpace(cidr[|cidr| - 1])
    requires |junk| > 0 && !IsSpace(junk[0]) && !IsSpace(junk[|junk| - 1])
    requires syn.parseCIDR(cidr) == Some(n)
    requires syn.parseCIDR(junk).None? && syn.parseIP(junk).None?
    ensures ParseAllowedIPs(syn, [cidr + ", " + junk]) == [n]
  {
    var padded := " " + junk;
    CommaBlank(cidr, junk);
    TrimSpaceKeeps(cidr);
    PaddedPiece(junk);
    assert PieceNets(syn, cidr) == [n];
    assert PieceNets(syn, padded) == [];
    SingleEntry(syn, cidr + ", " + junk);
    assert [cidr, padded][1..][1..] == [];
  }

  lemma CommaBlank(a: string, b: string)
    requires forall k :: 0 <= k < |a| ==> a[k] != ','
    requires forall k :: 0 <= k < |b| ==> b[k] != ','
    ensures Split(a + ", " + b, ',') == [a, " " + b]
  {
    assert a + ", " + b == Join([a, " " + b], ',');
    SplitOfJoin([a, " " + b], ',');
  }

  /** An entry holding one bare address yields its host network. */
  lemma BareAddress(syn: Syntax, host: string, ip: IP)
    requires forall k :: 0 <= k < |host| ==> host[k] != ','
    requires |host| > 0 && !IsSpace(host[0]) && !IsSpace(host[|host| - 1])
    requires syn.parseCIDR(host).None? && syn.parseIP(host) == Some(ip)
    ensures ParseAllowedIPs(syn, [host]) == [Net(ip, if |ip| == 4 then 32 else 128)]
  {
    SplitNone(host, ',');
    TrimSpaceKeeps(host);
    SingleEntry(syn, host);
  }

  /** An entry holding a CIDR and an unparsable piece, then an entry holding
      a bare address: the CIDR is kept as parsed, the unparsable piece is
      skipped and the bare address becomes a host network, in that order. */
  lemma AllowListEntries(syn: Syntax, cidr: string, junk: string, host: string, n: Net, ip: IP)
    requires forall k :: 0 <= k < |cidr| ==> cidr[k] != ','
    requires forall k :: 0 <= k < |junk| ==> junk[k] != ','
    requires forall k :: 0 <= k < |host| ==> host[k] != ','
    requires |cidr| > 0 && !IsSpace(cidr[0]) && !IsSpace(cidr[|cidr| - 1])
    requires |junk| > 0 && !IsSpace(junk[0]) && !IsSpace(junk[|junk| - 1])
    requires |host| > 0 && !IsSpace(host[0]) && !IsSpace(host[|host| - 1])
    requires syn.parseCIDR(cidr) == Some(n)
    requires syn.parseCIDR(junk).None? && syn.parseIP(junk).None?
    requires syn.parseCIDR(host).None? && syn.parseIP(host) == Some(ip)
    ensures ParseAllowedIPs(syn, [cidr + ", " + junk, host]) == [n, Net(ip, if |ip| == 4 then 32 else 128)]
  {
    CidrThenJunk(syn, cidr, junk, n);
    BareAddress(syn, host, ip);
    ParseAllowedIPsAppend(syn, [cidr + ", " + junk], [host]);
    assert [cidr + ", " + junk] + [host] == [cidr + ", " + junk, host];
  }

  /** Block anything whose value contains `bot`, under any header name. */
  const BotRule := Rule(None, Some(Regexp("bot")))

  /** Exempt a `Cf-Ipcountry` header whose value contains `VN`. */
  const CountryRule := Rule(Some(Regexp("Cf-Ipcountry")), Some(Regexp("VN")))

  const BotFilter := Filter([BotRule], [CountryRule], [], false)

  lemma CountryRuleSkipsOtherNames(values: seq<string>)
    ensures !IsWhitelisted(Literal, "User-Agent", values, [CountryRule])
  {
    OccursIff("Cf-Ipcountry", "User-Agent");
  }

  /** A value-only rule is checked against every header, whatever its name. */
  lemma ValueOnlyRuleFlagsAnyName(name: string)
    ensures Flagged(Literal, BotFilter, Header(name, ["bot"]))
  {
    assert ["bot"][0] == "bot";
    assert MatchString(Literal, Regexp("bot"), ["bot"][0]);
    assert ApplyRule(Literal, BotFilter.blockRules[0], name, ["bot"]);
  }

  /** The whitelist clears the header it matches, not the request: a blocked
      user agent is rejected even beside a whitelisted country header. */
  lemma WhitelistIsPerHeader(remoteAddr: string)
    ensures Rejects(Literal, V4, BotFilter,
                    Request([Header("User-Agent", ["bot"]), Header("Cf-Ipcountry", ["VN"])], remoteAddr))
  {
    var ua := Header("User-Agent", ["bot"]);
    ValueOnlyRuleFlagsAnyName("User-Agent");
    CountryRuleSkipsOtherNames(["bot"]);
    assert Offending(Literal, BotFilter, ua);
    assert ua in [ua, Header("Cf-Ipcountry", ["VN"])];
  }

  /** The header the whitelist matches is cleared even though a block rule
      flags it. */
  lemma WhitelistedHeaderForwarded(remoteAddr: string)
    ensures !Rejects(Literal, V4, BotFilter, Request([Header("Cf-Ipcountry", ["VN bot"])], remoteAddr))
  {
    var h := Header("Cf-Ipcountry", ["VN bot"]);
    assert "Cf-Ipcountry"[..12] == "Cf-Ipcountry";
    assert "VN bot"[..2] == "VN";
    assert MatchString(Literal, Regexp("Cf-Ipcountry"), h.name);
    assert MatchString(Literal, Regexp("VN"), h.values[0]);
    assert Admits(Literal, CountryRule, h.name, h.values);
    assert !Offending(Literal, BotFilter, h);
  }

  lemma TenNetHoldsPeer()
    ensures Contains(Net([10, 0, 0, 0], 8), [10, 0, 0, 1])
  {
  }

  /** A flagged request from an allowed network is forwarded. */
  lemma AllowedClientForwarded()
    ensures !Rejects(Literal, V4, BotFilter.(allowedNets := [Net([10, 0, 0, 0], 8)]),
                     Request([Header("User-Agent", ["bot"])], "10.0.0.1:5000"))
  {
    var headers := [Header("User-Agent", ["bot"])];
    assert HeaderGet(headers, ForwardedFor) == "";
    PeerAddressFallback(headers);
    TenNetHoldsPeer();
    assert IsIPAllowed(Some([10, 0, 0, 1]), [Net([10, 0, 0, 0], 8)]);
  }

  /** A pattern the engine rejects stops construction, naming the pattern. */
  lemma MalformedPatternStopsNew(eng: Engine, syn: Syntax, p: string)
    requires p != "" && !eng.compiles(p) && eng.compiles("User-Agent")
    ensures New(eng, syn, Config([HeaderConfig("User-Agent", p)], [], [], false)) == Failure(InvalidPattern(p))
  {
  }
}
