# headerblock, modelled in Dafny

`headerblock` is a Traefik middleware plugin that answers `403 Forbidden` to a
request when one of its headers matches a block rule, unless that header is
also matched by a whitelist rule or the client address falls inside an
allow-listed network. Rules are pairs of regular expressions over the
header name and its values; either half may be empty. The allow-list is a
list of strings, each holding comma-separated CIDRs or bare addresses. The
client address is the first `X-Forwarded-For` element when it parses.
Otherwise it is the peer address.

This project models `headerblock.go` as pure functions plus the two nested
loops of `ServeHTTP`:

| module | file | models |
|---|---|---|
| `Wrappers` | wrappers.dfy | `Option` (Go's nil results) and `Result` (construction that panics) |
| `Text` | text.dfy | `strings.Split` with a one-character separator, `strings.TrimSpace` |
| `Regex` | regex.dfy | the regular-expression capability the plugin uses. It is a parameter (`Engine`), plus a literal substring matcher for worked cases |
| `Rules` | rules.dfy | `prepareRules`, `applyRule`, `isWhitelisted` |
| `IpNet` | ipnet.dfy | `net.IP`, `net.IPNet` and `(*IPNet).Contains`, as masked byte comparison. It is proved equal to leading-bit equality |
| `NetSyntax` | netsyntax.dfy | `net.ParseIP`, `net.ParseCIDR` and `net.SplitHostPort`, as a parameter (`Syntax`) |
| `Ipv4Text` | ipv4text.dfy | a small IPv4-only `Syntax`, used to evaluate concrete cases |
| `AllowList` | allowlist.dfy | `parseAllowedIPs`, `isIPAllowed` |
| `ClientIp` | clientip.dfy | `http.Header.Get`, `getClientIP` |
| `Decision` | decision.dfy | `New`, and `ServeHTTP` as loops proved equal to a closed form |
| `Scenarios` | scenarios.dfy | worked configurations |

## Closed form of `ServeHTTP`

`Decision.ServeHTTP` runs the header loop and the rule loop as written.
Its contract says it rejects exactly when both of these hold:

- the client address is not allowed, and
- some header is matched by some block rule while no whitelist rule admits that header.

That closed form is `Decision.Rejects`. It quantifies over the set of headers,
so the outcome cannot depend on the order in which Go walks the header map
(`Decision.DecisionIgnoresHeaderOrder`).

Two readings of the configuration suggest themselves but are not what the
code does. The model follows the code:

- One might expect a whitelist rule or an allowed address that clears a match to move on to the next header. The `continue` at lines 182 and 196 moves on to the next block rule instead. The outcome is the same either way: the whitelist test depends only on the header, and the address test only on the request. Only the log lines differ.
- One might expect a whitelist rule to clear the whole request. It clears only the header it matches: a whitelisted `Cf-Ipcountry: VN` header does not rescue a request whose `User-Agent` is blocked (`Scenarios.WhitelistIsPerHeader`).

Trust assumption: `X-Forwarded-For` is taken from the request as sent.
Whoever sends a request therefore chooses the address it is judged by
(`ClientIp.ForwardedForDecides`). The code relies on Traefik to sanitise the
header before the plugin runs.

## Model

| member | source | states |
|---|---|---|
| Text.SplitJoin | headerblock.go:53 | no piece of `strings.Split` holds the separator, and joining the pieces gives back the input |
| Text.SplitOfJoin | headerblock.go:53 | splitting the join of separator-free pieces returns exactly those pieces (the other half of the round trip) |
| Text.SplitFirst | headerblock.go:94-96 | the first piece of a split is the text before the first separator, or the whole string (`Text.LeadingPiece`) |
| Text.DropLeftWindow | headerblock.go:56 | trimming on the left removes exactly the longest all-white-space prefix |
| Text.DropRightWindow | headerblock.go:56 | trimming on the right removes exactly the longest all-white-space suffix |
| Text.TrimSpaceSpec | headerblock.go:56 | the trimmed string is a window of the input between an all-white-space prefix and suffix |
| Text.TrimSpaceEnds | headerblock.go:56 | the trimmed string neither starts nor ends with white space |
| Text.TrimSpaceKeeps | headerblock.go:96 | a string that neither starts nor ends with white space is left unchanged, so trimming is idempotent |
| Text.TrimSpaceEmpty | headerblock.go:56-59 | trimming gives "" exactly when the piece is all white space, which is when the piece is skipped |
| Rules.CompileRule | headerblock.go:141-148 | an entry compiles exactly when each non-empty pattern compiles. An empty pattern gives no matcher. On failure the error names the first pattern that panics, the name before the value |
| Rules.PrepareRules | headerblock.go:138-151 | succeeds exactly when every entry compiles. It then returns one rule per entry, in order. Otherwise the error names an offending pattern of an entry all of whose predecessors compile |
| Rules.PrepareRulesAppend | headerblock.go:140-149 | compiling a concatenation of entry lists gives the concatenation of their rules |
| Rules.SomeValueMatches | headerblock.go:224-228 | the value loop finds a match exactly when some value matches |
| Rules.ApplyRule | headerblock.go:219-231 | a name-only rule blocks exactly when the name matches. A rule with a value pattern blocks exactly when some value matches and the name pattern is absent or matches. A rule with no patterns blocks nothing |
| Rules.IsWhitelisted | headerblock.go:153-170 | the header is whitelisted exactly when some whitelist rule admits it: its name pattern is absent or matches, and its value pattern is absent or matches some value |
| Rules.BlockIffAdmitsUnlessEmpty | headerblock.go:219-231 | a rule blocks a header exactly when it would admit it as a whitelist rule, unless both patterns are empty |
| Rules.ValueOnlyRuleIgnoresName | headerblock.go:223 | a rule without a name pattern treats every header name alike |
| Rules.WhitelistMonotone | headerblock.go:154-168 | adding whitelist rules never un-whitelists a header |
| IpNet.ContainsIffSamePrefix | headerblock.go:118 | masked byte comparison holds exactly when the address has the network's family and agrees with it on the first `prefix` bits |
| IpNet.HostNet | headerblock.go:70-77 | the network built from a bare address with a full-length mask contains that address and nothing else |
| Ipv4Text.MaskKeepsNet | headerblock.go:61-62 | the network `net.ParseCIDR` returns, whose address has the host bits cleared, contains the same addresses as the written address under the same prefix |
| IpNet.ZeroPrefixContainsFamily | headerblock.go:118 | a /0 network contains every address of its family and no other |
| IpNet.ShorterPrefixWidens | headerblock.go:118 | shortening a prefix never drops an address the network contained |
| AllowList.ParsePart | headerblock.go:61-79 | a piece yields a network exactly when it parses as a CIDR or as an address. CIDR wins when both parse. A bare address becomes a /32 (IPv4) or /128 (IPv6) network that contains only that address |
| AllowList.ParseAllowedIPs | headerblock.go:48-89 | the result is the per-piece networks of all entries, in configuration order. A network is in the result exactly when some configured piece yields it. Nothing fails |
| AllowList.ParseAllowedIPsAppend | headerblock.go:51-86 | entries are read independently: appending entries appends their networks |
| AllowList.UnparsableEntrySkipped | headerblock.go:81-84 | an entry none of whose pieces parses changes nothing |
| AllowList.IsIPAllowed | headerblock.go:112-123 | an address is allowed exactly when it is present and some network contains it |
| AllowList.AllowedMonotone | headerblock.go:117-121 | more networks never withdraw an allowance |
| ClientIp.HeaderGet | headerblock.go:93 | `Get` returns the first value of the first header with that name, or "" when there is none |
| ClientIp.HeaderGetIgnoresOrder | headerblock.go:93 | with unique header names, `Get` does not depend on the order of the headers |
| ClientIp.GetClientIP | headerblock.go:91-110 | a non-empty `X-Forwarded-For` whose leading field parses after trimming decides the address. Otherwise the peer address decides: its host part when it splits into host and port, else the whole string |
| ClientIp.LeadingFieldIsFirstSplit | headerblock.go:94-96 | `parts[0]` is the unique text before the first comma |
| ClientIp.ForwardedForDecides | headerblock.go:92-99 | whatever the peer, a forwarded-for header holding one parseable address makes that address the client's |
| Decision.New | headerblock.go:125-136 | construction succeeds exactly when every block and whitelist pattern compiles. It then holds the compiled rule of each entry, in configuration order, and the parsed allow-list. Otherwise it fails on a block pattern, or, when all of those compile, on a whitelist pattern |
| Decision.CheckHeader | headerblock.go:174-212 | the rule loop denies exactly when some block rule matches the header, the header is not whitelisted, and the client address is not allowed |
| Decision.Serve | headerblock.go:173-216 | the header loop rejects exactly when the closed form holds for the resolved client address |
| Decision.ServeHTTP | headerblock.go:172-217 | the handler rejects exactly when the closed form holds for the address `getClientIP` gives |
| Decision.DecisionIgnoresHeaderOrder | headerblock.go:173 | two requests with the same headers in different map orders get the same outcome |
| Decision.MoreLenientNeverRejectsMore | headerblock.go:178-197 | with the same block rules, more whitelist rules and more allowed networks never turn Forward into Reject, whatever address the request is attributed to |
| Decision.AddingExemptionsNeverRejectsMore | headerblock.go:127-132 | appending whitelist entries that compile, or any allow-list entries, to a configuration that builds still builds and never turns Forward into Reject, whatever address the request is attributed to |
| Scenarios.ForwardedForFirstElement | headerblock.go:93-98 | `X-Forwarded-For: 9.9.9.9, 10.0.0.1` attributes the request to 9.9.9.9, whatever the peer |
| Scenarios.BareV4AddressIsHostNet | headerblock.go:70-77 | the allow-list item `10.0.0.1` becomes the /32 network that contains 10.0.0.1 and no other address |
| Scenarios.PeerAddressFallback | headerblock.go:93-109 | for any headers without a forwarded-for value, peer `10.0.0.1:5000` is the client 10.0.0.1 |
| Scenarios.AllowListEntries | headerblock.go:51-79 | entries `"<cidr>, <junk>"` and `"<address>"` yield the CIDR's network and then the address's host network, with the junk skipped |
| Scenarios.ValueOnlyRuleFlagsAnyName | headerblock.go:223 | a value-only rule flags a matching value under any header name |
| Scenarios.WhitelistIsPerHeader | headerblock.go:175-183 | a blocked `User-Agent` is rejected even beside a whitelisted `Cf-Ipcountry` header |
| Scenarios.WhitelistedHeaderForwarded | headerblock.go:178-183 | a header that is blocked but also whitelisted lets the request through |
| Scenarios.AllowedClientForwarded | headerblock.go:186-197 | a blocked request from an allowed network is forwarded |
| Scenarios.MalformedPatternStopsNew | headerblock.go:141-146 | a block pattern the engine rejects stops construction, and the error names that pattern |

## Left out

- Logging (`log.Printf`, the `Log` flag's effect): it never changes the outcome. The flag is carried through `New` and then unused.
- HTTP plumbing: the `ResponseWriter`, the `next` handler, `ctx` and the plugin `name`. The decision is returned as `Forward` (call `next`) or `Reject` (write 403).
- `CreateConfig` (lines 32-37): it only returns a configuration with logging off.
- The regular-expression engine: `regexp` syntax and matching are a parameter (`Engine`). `regexp.MustCompile`'s panic is a `Failure`.
- `net.ParseIP`, `net.ParseCIDR` and `net.SplitHostPort`: a parameter (`Syntax`). `Ipv4Text.V4` is only a simplified IPv4 instance, without IPv6, zones or bracketed hosts, used for the worked cases.
- IPv4-mapped IPv6 addresses: an address is 4 bytes exactly when Go's `To4()` is non-nil. `NetSyntax.Valid` requires the parsers to return IPv4 addresses in their 4-byte form, never in the mapped 16-byte form. The cross-family matching `(*IPNet).Contains` does for mapped addresses is not modelled.
- Header name canonicalisation (`textproto.CanonicalMIMEHeaderKey`): header names arrive as Go stores them.
- The map iteration order of `req.Header`: the model takes any order, and `Decision.DecisionIgnoresHeaderOrder` shows that the order does not matter.
- `strings.TrimSpace` works on UTF-8 bytes, the model on characters. The white-space set is `unicode.IsSpace`'s.
- The `len(parts) > 0` guard at line 95: it always holds, because `Text.Split` never returns an empty list.
- Concurrency: the filter is immutable after `New`, so concurrent requests cannot interfere.
