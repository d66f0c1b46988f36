# simpleblocklist — a verified model

A model of the Traefik plugin `simpleblocklist` (package `simpleblocklist`,
file `simpleblocklist.go`). The plugin is an HTTP middleware. It reads a
blocklist file of IP addresses once, at construction. For each request it
takes the candidate client addresses from the `X-Forwarded-For` and
`X-Real-IP` headers, walks them in order, and then does one of two things.
It forwards the request to the next handler, or it answers with a bare status
code.

The model has five files:

- `wrappers.dfy`: `Option` and `Result`.
- `text.dfy` (module `Text`): Go's `strings.TrimSpace` and
  `strings.FieldsFunc` with a comma separator, with their round-trip
  properties.
- `netip.dfy` (module `NetIP`): the byte-level behaviour of `net.IP` that the
  plugin relies on. This covers `To4`, `Equal` with IPv4-in-IPv6
  equivalence, `IsLoopback`, `IsLinkLocalUnicast`, `IsLinkLocalMulticast`,
  and `IPNet.Contains` through `networkNumberAndMask`. Bytes are `bv8`, so
  the masks are real bitwise ANDs.
- `blocklist.dfy` (module `Blocklist`): the plugin itself.
  - `Config` is a class, because `New` writes the defaulted status code
    back into the caller's configuration.
  - `CreateConfig` and `New`.
  - `LoadBlacklistedIPs`, `CollectRemoteIP` and `InitPrivateIPBlocks` are
    loops that build sequences, as the Go code does.
  - `ParseIP`, and `IsPrivateIP` with its block search.
  - `SimpleBlocklist` is a class with fields set once. Its `ServeHTTP` is
    the nested scan with early returns.
  - The loops of `LoadBlacklistedIPs`, `CollectRemoteIP` and `ServeHTTP`
    are proved equal to specification functions (`KeptIPs`,
    `ParsedPrefix`/`Candidates`, `Classify`/`Handle`). The loop of
    `InitPrivateIPBlocks` is proved against `ensures` clauses that
    quantify over the eight literals.
- `properties.dfy` (module `BlocklistProperties`): the lemmas about those
  specification functions.

The standard library's address grammar is not modelled. `net.ParseIP` and
`net.ParseCIDR` are parameters of function type: `IPParser` and
`CIDRParser`. An `IP` is a sequence of 4 or 16 bytes, so any parser yields
well-formed addresses. The file system is also a parameter. It maps a path
to the file's lines, or to `None` when the file cannot be opened or read.
`http.StatusText`'s table is written out as the set of codes Go's
`net/http` names.

### Where the model follows the code rather than the tests

- Blocklist lines are parsed only as bare addresses (simpleblocklist.go:99).
  A CIDR line such as `2001:db8::/32` and a line such as
  `10.0.0.1  # With comment` do not parse, so they are dropped like comments.
  The test cases at simpleblocklist_test.go:64-75 and :106-111 expect
  CIDR and inline-comment entries to match. Two of those test addresses,
  192.168.1.100 and 10.0.0.1, are also private. With local requests allowed
  they are forwarded before the blocklist is consulted
  (`FirstDecisiveCandidateDecides`).
- `RemoteAddr` is never consulted (simpleblocklist.go:151-183). The
  candidates are the `X-Forwarded-For` fields and then the `X-Real-IP`
  fields, and `X-Real-IP` may itself hold several comma-separated fields.
  simpleblocklist_test.go:100-105 expects the peer address to be checked.
- A header field that does not parse is not skipped. Extraction fails, and
  the response is the constant 403, not the configured code
  (simpleblocklist.go:113-118). All fields are parsed before any candidate is
  examined. So a malformed later field gives 403 even when an earlier
  candidate is private or blacklisted (`UnparsableFieldForbids`).
- Blocklist matching is `IP.Equal` against single addresses, not range
  containment. The private test also counts IPv4 link-local multicast
  (224.0.0.0/24) and IPv6 link-local multicast (`ffX2::/16`), through
  `IsLinkLocalMulticast`.

## Model

| member | source | states |
|---|---|---|
| `Text.TrimSpace` | simpleblocklist.go:186 | the trimmed text neither starts nor ends with a space |
| `Text.TrimSpaceIsInfix` | simpleblocklist.go:99 | what trimming keeps is a contiguous part of the line, and everything cut off on either side is whitespace |
| `Text.TrimSpaceIgnoresPadding` | simpleblocklist.go:186 | padding a text with spaces on either side does not change the trimmed result |
| `Text.Fields` | simpleblocklist.go:154-162 | every field of a header value is non-empty and holds no comma |
| `Text.FieldsAtComma` | simpleblocklist.go:159 | every comma is a cut point: the fields of `a,b` are the fields of `a` followed by those of `b`, so doubled, leading and trailing commas yield no empty field |
| `Text.FieldsOfField` | simpleblocklist.go:159 | a non-empty text without a comma is exactly one field |
| `Text.FieldsOfJoin` | simpleblocklist.go:159 | splitting undoes joining: non-empty comma-free fields joined by commas split back into exactly those fields, in order |
| `Text.ConcatOfFields` | simpleblocklist.go:162 | splitting drops only the commas: the fields put back together are the header value with its commas removed |
| `NetIP.To4Spec` | simpleblocklist.go:215 | `To4` accepts exactly the 4-byte and IPv4-mapped 16-byte addresses and returns their last four bytes |
| `NetIP.EqualIffSame16` | simpleblocklist.go:140 | `IP.Equal` holds exactly when the canonical 16-byte forms are identical, so a v4 address equals its v4-mapped form |
| `NetIP.EqualIffSameShortForm` | simpleblocklist.go:140 | `IP.Equal` holds exactly when the short forms (the form `Contains` compares) are identical |
| `NetIP.EqualIsEquivalence` | simpleblocklist.go:140 | `IP.Equal` is reflexive, symmetric and transitive |
| `NetIP.ClassesRespectEqual` | simpleblocklist.go:215-220 | equal addresses agree on loopback, link-local unicast, link-local multicast and containment in any network |
| `NetIP.ContainsV4Network` | simpleblocklist.go:220 | an IPv4 network contains exactly the IPv4 addresses, in either form, that agree with it under the mask |
| `NetIP.ContainsV6Network` | simpleblocklist.go:220 | an IPv6 network contains exactly the non-IPv4 addresses that agree with it under the mask |
| `NetIP.MaskedEqualAt` | simpleblocklist.go:220 | the byte-by-byte masked comparison holds exactly when every byte agrees under its mask byte |
| `Blocklist.CreateConfig` | simpleblocklist.go:35-41 | a fresh configuration with no path, local requests allowed and not logged, and denial code 403 |
| `Blocklist.LoadBlacklistedIPs` | simpleblocklist.go:89-110 | an unreadable file is a load error; otherwise the result is `KeptIPs` of the file's lines |
| `Blocklist.KeptIPsAppend` | simpleblocklist.go:96-103 | loading two runs of lines yields the first run's addresses followed by the second's |
| `Blocklist.ParseIP` | simpleblocklist.go:185-191 | a failure carries the untrimmed text of the field that did not parse |
| `Blocklist.ParsedPrefix` | simpleblocklist.go:164-180 | the parsed addresses are the parses of the leading fields, in order; if any field is left, it does not parse |
| `Blocklist.ParsedPrefixDeterminedBy` | simpleblocklist.go:164-180 | those properties determine the parsed prefix uniquely |
| `Blocklist.Candidates` | simpleblocklist.go:151-183 | success exactly when every field parses, giving the fields' addresses in order; otherwise the error names the first field that does not parse |
| `Blocklist.CollectRemoteIP` | simpleblocklist.go:151-183 | returns the addresses parsed before the first bad field, and an error naming that field exactly when one exists |
| `Blocklist.InitPrivateIPBlocks` | simpleblocklist.go:193-212 | succeeds exactly when all eight literals parse, giving their networks in listed order; otherwise a panic on the first literal that fails |
| `Blocklist.AnyBlockContains` | simpleblocklist.go:219-225 | true exactly when some network of the table contains the address |
| `Blocklist.IsPrivateIP` | simpleblocklist.go:214-226 | true exactly when the address is loopback, link-local unicast or link-local multicast, or lies in some network of the table |
| `Blocklist.IsBlacklisted` | simpleblocklist.go:139-145 | true exactly when some blocklist entry is `IP.Equal` to the address |
| `Blocklist.Classify` | simpleblocklist.go:120-148 | the decision over candidates is either forwarding or a denial with the configured code |
| `Blocklist.Handle` | simpleblocklist.go:112-149 | the response is forwarding, a denial with the configured code, or 403 |
| `Blocklist.SimpleBlocklist.ServeHTTP` | simpleblocklist.go:112-149 | the nested scan with early returns gives exactly `Handle` for the middleware's policy |
| `Blocklist.New` | simpleblocklist.go:55-87 | empty path, unreadable file and unrecognised non-zero code fail, in that order; with a valid configuration a private-range literal that does not parse is a panic naming that literal; code 0 becomes 403 in the config too; on success the handler holds the loaded addresses, a recognised code and the parsed table |
| `BlocklistProperties.PrivateIPIsReserved` | simpleblocklist.go:214-226 | with the standard table, `isPrivateIP` holds exactly for the reserved ranges written out from RFC 1918, 3927, 4291 and 4193 |
| `BlocklistProperties.PrivateBlocksCover` | simpleblocklist.go:195-204 | the eight networks together contain exactly 127/8, 10/8, 172.16/12, 192.168/16 and 169.254/16, plus `::1`, fe80::/10 and fc00::/7 |
| `BlocklistProperties.BuiltTableIsReserved` | simpleblocklist.go:193-212 | when `ParseCIDR` gives the standard networks, the table `New` stores is exactly them, and its private test is the reserved-range test |
| `BlocklistProperties.IsPrivateIPRespectsEqual` | simpleblocklist.go:214-226 | equal addresses are both private or both not, for any table |
| `BlocklistProperties.IsBlacklistedRespectsEqual` | simpleblocklist.go:139-140 | equal addresses are both blacklisted or both not |
| `BlocklistProperties.KeptIPsMembership` | simpleblocklist.go:96-103 | an address is loaded exactly when some line, once trimmed, parses to it |
| `BlocklistProperties.KeptIPsLine` | simpleblocklist.go:98-102 | a line that does not parse adds nothing and leaves the lines around it alone; a line that parses adds its address in place |
| `BlocklistProperties.ParseIPIgnoresPadding` | simpleblocklist.go:185-190 | spaces around a field change neither whether it parses nor its address |
| `BlocklistProperties.ParsedPrefixAppend` | simpleblocklist.go:164-180 | once the first list of fields parses completely, parsing goes on into the second |
| `BlocklistProperties.CandidatesFromHeaders` | simpleblocklist.go:158-182 | on success the candidates are the `X-Forwarded-For` addresses followed by the `X-Real-IP` addresses, and the peer address changes nothing |
| `BlocklistProperties.HandleIgnoresRemoteAddr` | simpleblocklist.go:151-183 | the peer address never changes the candidates or the response, whether or not the headers parse |
| `BlocklistProperties.UnparsableFieldForbids` | simpleblocklist.go:113-118 | any field that does not parse makes the response 403, whatever the configured code and whatever the other candidates |
| `BlocklistProperties.NoHeadersForwards` | simpleblocklist.go:148 | with neither header present the request is forwarded |
| `BlocklistProperties.FirstDecisiveCandidateDecides` | simpleblocklist.go:120-145 | the first private or blacklisted candidate decides and later ones are ignored; a private one is checked first, even when also blacklisted |
| `BlocklistProperties.NoDecisiveCandidateForwards` | simpleblocklist.go:146-148 | when no candidate is private or blacklisted, the empty list included, the request is forwarded |
| `BlocklistProperties.ClassifyRespectsEqual` | simpleblocklist.go:120-146 | writing any candidate in an `IP.Equal` form, such as IPv4 versus IPv4-mapped, does not change the decision |

## Left out

- The text grammar of `net.ParseIP` and `net.ParseCIDR`. They are
  parameters, so the model holds for any parser. The private-range results
  assume `ParseCIDR` returns the standard networks for the eight literals
  (`BuiltTableIsReserved` states this).
- File I/O. The file is a parameter that maps a path to its lines, or to
  `None` when `os.Open` or the scanner fails. How `bufio.Scanner` splits
  lines, and its "token too long" error, are folded into that `None`.
- Logging through `infoLogger` (simpleblocklist.go:73-76, 115, 127, 132,
  141). It changes no decision. `logLocalRequests`, `name` and
  `IP.String` are kept or computed only for it.
- The `http.Handler`/`ResponseWriter` plumbing and `context.Context`. A
  call to `next` is the outcome `Forward`, and `WriteHeader(code)` is
  `Deny(code)`. Each path produces exactly one outcome because the result is
  a single value.
- `Header.Get`'s key canonicalisation and multi-valued headers. A request
  carries the first value of each header, or `""` when the header is absent.
- Go strings are byte strings. The model's strings are sequences of Unicode
  scalar values, so invalid UTF-8 is not modelled.
- Blocklist.New: a panic in `initPrivateIPBlocks` is returned as
  `Failure(Panic(cidr))` instead of unwinding the caller. By then the
  default code has already been written back into the configuration, as in
  the source.
- NetIP.Contains: Go accepts a nil address against a malformed network. The
  model's addresses always have 4 or 16 bytes, so that case cannot arise.
