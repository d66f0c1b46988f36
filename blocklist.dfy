/**
 * The simple-blocklist middleware: configuration and construction, the
 * blocklist loader, candidate-address extraction from the forwarding
 * headers, the private-range table and the per-request decision.
 *
 * The standard library's address parsers (`net.ParseIP`, `net.ParseCIDR`)
 * and the file system are not modelled; they are passed in as functions.
 */
module Blocklist {
  import opened Wrappers
  import opened Text
  import opened NetIP

  /** `net.ParseIP` applied to an already trimmed text. */
  type IPParser = string -> Option<IP>
  /** The network part of `net.ParseCIDR`'s result. */
  type CIDRParser = string -> Option<IPNet>
  /** The lines of the file at a path, or `None` when it cannot be opened or read. */
  type FileSystem = string -> Option<seq<string>>

  const DefaultDeniedRequestHTTPStatusCode := 403
  /** `http.StatusForbidden`, written when candidate extraction fails. */
  const StatusForbidden := 403

  /** The codes `http.StatusText` has a text for. */
  const StatusCodes: set<int> := {
    100, 101, 102, 103,
    200, 201, 202, 203, 204, 205, 206, 207, 208, 226,
    300, 301, 302, 303, 304, 305, 307, 308,
    400, 401, 402, 403, 404, 405, 406, 407, 408, 409, 410, 411, 412, 413, 414, 415, 416, 417, 418,
    421, 422, 423, 424, 425, 426, 428, 429, 431, 451,
    500, 501, 502, 503, 504, 505, 506, 507, 508, 510, 511
  }

  /** `len(http.StatusText(code)) != 0`. */
  predicate RecognizedStatus(code: int) {
    code in StatusCodes
  }

  /** What a request offers the middleware: the two header values (`""` when absent) and the peer address. */
  datatype Request = Request(xForwardedFor: string, xRealIP: string, remoteAddr: string)

  /** Either `next` handles the request, or a bare status is written. */
  datatype Outcome = Forward | Deny(code: int)

  datatype Error =
    | NoBlacklistPath
    | LoadFailed
    | InvalidStatusCode
    | ParseFailed(addr: string)
    | Panic(cidr: string)

  /** The plugin configuration; `New` writes the defaulted status code back into it. */
  class Config {
    var blacklistPath: string
    var allowLocalRequests: bool
    var logLocalRequests: bool
    var httpStatusCodeDeniedRequest: int

    constructor (path: string, allowLocal: bool, logLocal: bool, code: int)
      ensures blacklistPath == path && allowLocalRequests == allowLocal
      ensures logLocalRequests == logLocal && httpStatusCodeDeniedRequest == code
    {
      blacklistPath := path;
      allowLocalRequests := allowLocal;
      logLocalRequests := logLocal;
      httpStatusCodeDeniedRequest := code;
    }
  }

  /** The default configuration: no path, local requests allowed and not logged, denial with 403. */
  method CreateConfig() returns (c: Config)
    ensures fresh(c)
    ensures c.blacklistPath == "" && c.allowLocalRequests && !c.logLocalRequests
    ensures c.httpStatusCodeDeniedRequest == DefaultDeniedRequestHTTPStatusCode
  {
    c := new Config("", true, false, DefaultDeniedRequestHTTPStatusCode);
  }

  // ---------------------------------------------------------------- loading

  /** The addresses a blocklist file yields: one per line whose trimmed text parses, in file order. */
  function KeptIPs(lines: seq<string>, parse: IPParser): (ips: seq<IP>)
    ensures |ips| <= |lines|
  {
    if lines == [] then []
    else
      var head := match parse(TrimSpace(lines[0])) case Some(ip) => [ip] case None => [];
      head + KeptIPs(lines[1..], parse)
  }

  /** Loading distributes over concatenation of files: each line contributes on its own. */
  lemma {:induction false} KeptIPsAppend(a: seq<string>, b: seq<string>, parse: IPParser)
    ensures KeptIPs(a + b, parse) == KeptIPs(a, parse) + KeptIPs(b, parse)
  {
    if a == [] {
      assert a + b == b;
    } else {
      assert (a + b)[0] == a[0];
      assert (a + b)[1..] == a[1..] + b;
      KeptIPsAppend(a[1..], b, parse);
    }
  }

  /**
   * `loadBlacklistedIPs`: fails only when the file cannot be read; every
   * line that does not parse as a bare address is skipped.
   */
  method LoadBlacklistedIPs(path: string, fs: FileSystem, parse: IPParser) returns (r: Result<seq<IP>, Error>)
    ensures fs(path).None? ==> r == Failure(LoadFailed)
    ensures fs(path).Some? ==> r == Success(KeptIPs(fs(path).value, parse))
  {
    var file := fs(path);
    if file.None? {
      return Failure(LoadFailed);
    }
    var lines := file.value;
    var ips: seq<IP> := [];
    var i := 0;
    while i < |lines|
      invariant 0 <= i <= |lines|
      invariant ips == KeptIPs(lines[..i], parse)
    {
      var ip := parse(TrimSpace(lines[i]));
      assert lines[..i + 1] == lines[..i] + [lines[i]];
      KeptIPsAppend(lines[..i], [lines[i]], parse);
      if ip.Some? {
        ips := ips + [ip.value];
      }
      i := i + 1;
    }
    assert lines[..i] == lines;
    return Success(ips);
  }

  // ------------------------------------------------------ candidate extraction

  /** `parseIP`: the address the trimmed text denotes, or an error naming the untrimmed text. */
  function ParseIP(parse: IPParser, addr: string): (r: Result<IP, Error>)
    ensures r.Failure? ==> r.error == ParseFailed(addr)
  {
    match parse(TrimSpace(addr))
    case None => Failure(ParseFailed(addr))
    case Some(ip) => Success(ip)
  }

  /**
   * The addresses of the leading fields that parse, up to the first one
   * that does not: each is the parse of its field, and when the prefix is
   * shorter than the fields, the next field does not parse.
   */
  function ParsedPrefix(fields: seq<string>, parse: IPParser): (ips: seq<IP>)
    ensures |ips| <= |fields|
    ensures forall k :: 0 <= k < |ips| ==> parse(TrimSpace(fields[k])) == Some(ips[k])
    ensures |ips| < |fields| ==> parse(TrimSpace(fields[|ips|])).None?
  {
    if fields == [] then []
    else
      match ParseIP(parse, fields[0])
      case Failure(_) => []
      case Success(ip) => [ip] + ParsedPrefix(fields[1..], parse)
  }

  /** The header fields that become candidates: those of `X-Forwarded-For`, then those of `X-Real-IP`. */
  function CandidateFields(req: Request): seq<string> {
    Fields(req.xForwardedFor) + Fields(req.xRealIP)
  }

  /**
   * The candidate list of a request: every field parses, and the list holds
   * their addresses in order; otherwise the error names the first field that
   * does not parse.
   */
  function Candidates(req: Request, parse: IPParser): (r: Result<seq<IP>, Error>)
    ensures r.Success? <==> forall k :: 0 <= k < |CandidateFields(req)| ==> parse(TrimSpace(CandidateFields(req)[k])).Some?
    ensures r.Success? ==> |r.value| == |CandidateFields(req)|
    ensures r.Success? ==> forall k :: 0 <= k < |r.value| ==> parse(TrimSpace(CandidateFields(req)[k])) == Some(r.value[k])
    ensures r.Failure? ==> exists k :: 0 <= k < |CandidateFields(req)| && r.error == ParseFailed(CandidateFields(req)[k])
                                   && parse(TrimSpace(CandidateFields(req)[k])).None?
                                   && forall j :: 0 <= j < k ==> parse(TrimSpace(CandidateFields(req)[j])).Some?
  {
    var fields := CandidateFields(req);
    var ips := ParsedPrefix(fields, parse);
    if |ips| == |fields| then Success(ips) else Failure(ParseFailed(fields[|ips|]))
  }

  lemma {:induction false} ParsedPrefixDeterminedBy(fields: seq<string>, parse: IPParser, ips: seq<IP>)
    requires |ips| <= |fields|
    requires forall k :: 0 <= k < |ips| ==> parse(TrimSpace(fields[k])) == Some(ips[k])
    requires |ips| < |fields| ==> parse(TrimSpace(fields[|ips|])).None?
    ensures ParsedPrefix(fields, parse) == ips
  {
    if fields != [] {
      if ips == [] {
        assert parse(TrimSpace(fields[0])).None?;
      } else {
        assert parse(TrimSpace(fields[0])) == Some(ips[0]);
        ParsedPrefixDeterminedBy(fields[1..], parse, ips[1..]);
        assert ips == [ips[0]] + ips[1..];
      }
    }
  }

  /**
   * `collectRemoteIP`: parses the fields of `X-Forwarded-For` and then of
   * `X-Real-IP`, stopping at the first that does not parse. Like the source,
   * it returns the addresses parsed so far together with the error.
   */
  method CollectRemoteIP(req: Request, parse: IPParser) returns (ipList: seq<IP>, err: Option<Error>)
    ensures ipList == ParsedPrefix(CandidateFields(req), parse)
    ensures err.None? <==> |ipList| == |CandidateFields(req)|
    ensures err.Some? ==> err.value == ParseFailed(CandidateFields(req)[|ipList|])
  {
    var xForwardedForIPs := Fields(req.xForwardedFor);
    var xRealIPList := Fields(req.xRealIP);
    ghost var fields := xForwardedForIPs + xRealIPList;
    ipList := [];
    var i := 0;
    while i < |xForwardedForIPs|
      invariant 0 <= i <= |xForwardedForIPs| && |ipList| == i
      invariant forall k :: 0 <= k < i ==> parse(TrimSpace(fields[k])) == Some(ipList[k])
    {
      var ipAddress := ParseIP(parse, xForwardedForIPs[i]);
      if ipAddress.Failure? {
        ParsedPrefixDeterminedBy(fields, parse, ipList);
        return ipList, Some(ipAddress.error);
      }
      ipList := ipList + [ipAddress.value];
      i := i + 1;
    }
    var j := 0;
    while j < |xRealIPList|
      invariant 0 <= j <= |xRealIPList| && |ipList| == |xForwardedForIPs| + j
      invariant forall k :: 0 <= k < |ipList| ==> parse(TrimSpace(fields[k])) == Some(ipList[k])
    {
      var ipAddress := ParseIP(parse, xRealIPList[j]);
      if ipAddress.Failure? {
        ParsedPrefixDeterminedBy(fields, parse, ipList);
        return ipList, Some(ipAddress.error);
      }
      ipList := ipList + [ipAddress.value];
      j := j + 1;
    }
    ParsedPrefixDeterminedBy(fields, parse, ipList);
    return ipList, None;
  }

  // ---------------------------------------------------------- private ranges

  /** `p` extended with zero bytes to sixteen bytes. */
  function Pad16(p: seq<Byte>): (r: seq<Byte>)
    requires |p| <= IPv6Len
    ensures |r| == IPv6Len && r[..|p|] == p
    ensures forall i :: |p| <= i < IPv6Len ==> r[i] == 0
  {
    p + seq(IPv6Len - |p|, _ => 0)
  }

  /** The eight CIDR literals the private-range table is built from, in order. */
  const PrivateCIDRs: seq<string> := [
    "127.0.0.0/8",     // IPv4 loopback
    "10.0.0.0/8",      // RFC 1918
    "172.16.0.0/12",   // RFC 1918
    "192.168.0.0/16",  // RFC 1918
    "169.254.0.0/16",  // RFC 3927 link-local
    "::1/128",         // IPv6 loopback
    "fe80::/10",       // IPv6 link-local
    "fc00::/7"         // IPv6 unique local
  ]

  /** The networks `net.ParseCIDR` makes of `PrivateCIDRs`, in the same order. */
  const PrivateBlocks: seq<IPNet> := [
    IPNet([127, 0, 0, 0], [0xff, 0, 0, 0]),
    IPNet([10, 0, 0, 0], [0xff, 0, 0, 0]),
    IPNet([172, 16, 0, 0], [0xff, 0xf0, 0, 0]),
    IPNet([192, 168, 0, 0], [0xff, 0xff, 0, 0]),
    IPNet([169, 254, 0, 0], [0xff, 0xff, 0, 0]),
    IPNet(IPv6Loopback, seq(IPv6Len, _ => 0xff)),
    IPNet(Pad16([0xfe, 0x80]), Pad16([0xff, 0xc0])),
    IPNet(Pad16([0xfc]), Pad16([0xfe]))
  ]

  /** Every private-range literal is accepted by `parseCIDR`. */
  predicate LiteralsParse(parseCIDR: CIDRParser) {
    forall k :: 0 <= k < |PrivateCIDRs| ==> parseCIDR(PrivateCIDRs[k]).Some?
  }

  /**
   * `initPrivateIPBlocks`: the parsed literals in their listed order, or a
   * panic on the first literal that does not parse.
   */
  method InitPrivateIPBlocks(parseCIDR: CIDRParser) returns (r: Result<seq<IPNet>, Error>)
    ensures r.Success? <==> LiteralsParse(parseCIDR)
    ensures r.Success? ==> |r.value| == |PrivateCIDRs|
    ensures r.Success? ==> forall k :: 0 <= k < |r.value| ==> parseCIDR(PrivateCIDRs[k]) == Some(r.value[k])
    ensures r.Failure? ==> exists k :: 0 <= k < |PrivateCIDRs| && r.error == Panic(PrivateCIDRs[k])
                                   && parseCIDR(PrivateCIDRs[k]).None?
                                   && forall j :: 0 <= j < k ==> parseCIDR(PrivateCIDRs[j]).Some?
  {
    var privateIPBlocks: seq<IPNet> := [];
    for i := 0 to |PrivateCIDRs|
      invariant |privateIPBlocks| == i
      invariant forall k :: 0 <= k < i ==> parseCIDR(PrivateCIDRs[k]) == Some(privateIPBlocks[k])
    {
      var block := parseCIDR(PrivateCIDRs[i]);
      if block.None? {
        return Failure(Panic(PrivateCIDRs[i]));
      }
      privateIPBlocks := privateIPBlocks + [block.value];
    }
    return Success(privateIPBlocks);
  }

  /** Some network of `blocks` contains `ip` (the loop of `isPrivateIP`). */
  function AnyBlockContains(blocks: seq<IPNet>, ip: IP): (r: bool)
    ensures r <==> exists k :: 0 <= k < |blocks| && Contains(blocks[k], ip)
  {
    if blocks == [] then false
    else Contains(blocks[0], ip) || AnyBlockContains(blocks[1..], ip)
  }

  /** `isPrivateIP`: a loopback or link-local address, or one inside some network of `blocks`. */
  predicate IsPrivateIP(ip: IP, blocks: seq<IPNet>): (r: bool)
    ensures r <==> IsLoopback(ip) || IsLinkLocalUnicast(ip) || IsLinkLocalMulticast(ip)
                   || exists k :: 0 <= k < |blocks| && Contains(blocks[k], ip)
  {
    IsLoopback(ip) || IsLinkLocalUnicast(ip) || IsLinkLocalMulticast(ip) || AnyBlockContains(blocks, ip)
  }

  // ---------------------------------------------------------- the decision

  /** Some blocklist entry is `IP.Equal` to `ip` (the inner loop of `ServeHTTP`). */
  function IsBlacklisted(ip: IP, blacklistedIPs: seq<IP>): (r: bool)
    ensures r <==> exists k :: 0 <= k < |blacklistedIPs| && Equal(ip, blacklistedIPs[k])
  {
    if blacklistedIPs == [] then false
    else Equal(ip, blacklistedIPs[0]) || IsBlacklisted(ip, blacklistedIPs[1..])
  }

  /** What the decision depends on once the middleware is built. */
  datatype Policy = Policy(blacklistedIPs: seq<IP>, privateIPRanges: seq<IPNet>, allowLocalRequests: bool, deniedCode: int)

  /**
   * The decision over a candidate list: the first candidate that is private
   * or blacklisted decides; a private one forwards or denies as local
   * requests are allowed or not, a blacklisted one denies; with no such
   * candidate the request is forwarded.
   */
  function Classify(p: Policy, candidates: seq<IP>): (r: Outcome)
    ensures r == Forward || r == Deny(p.deniedCode)
  {
    if candidates == [] then Forward
    else if IsPrivateIP(candidates[0], p.privateIPRanges) then
      if p.allowLocalRequests then Forward else Deny(p.deniedCode)
    else if IsBlacklisted(candidates[0], p.blacklistedIPs) then Deny(p.deniedCode)
    else Classify(p, candidates[1..])
  }

  /** The response to a request: 403 when extraction fails, else the decision over its candidates. */
  function Handle(p: Policy, req: Request, parse: IPParser): (r: Outcome)
    ensures r == Forward || r == Deny(p.deniedCode) || r == Deny(StatusForbidden)
  {
    match Candidates(req, parse)
    case Failure(_) => Deny(StatusForbidden)
    case Success(candidates) => Classify(p, candidates)
  }

  /** The built middleware. Its fields are set once by `New` and only read afterwards. */
  class SimpleBlocklist {
    const blacklistedIPs: seq<IP>
    const allowLocalRequests: bool
    const logLocalRequests: bool
    const privateIPRanges: seq<IPNet>
    const httpStatusCodeDeniedRequest: int
    const name: string

    constructor (blacklisted: seq<IP>, allowLocal: bool, logLocal: bool, ranges: seq<IPNet>, code: int, name: string)
      ensures blacklistedIPs == blacklisted && allowLocalRequests == allowLocal && logLocalRequests == logLocal
      ensures privateIPRanges == ranges && httpStatusCodeDeniedRequest == code && this.name == name
    {
      blacklistedIPs := blacklisted;
      allowLocalRequests := allowLocal;
      logLocalRequests := logLocal;
      privateIPRanges := ranges;
      httpStatusCodeDeniedRequest := code;
      this.name := name;
    }

    function AsPolicy(): Policy {
      Policy(blacklistedIPs, privateIPRanges, allowLocalRequests, httpStatusCodeDeniedRequest)
    }

    /**
     * `ServeHTTP`: 403 when a header field does not parse; otherwise the
     * candidates are walked in order and the first private or blacklisted
     * one decides, and the request is forwarded when none does.
     */
    method ServeHTTP(req: Request, parse: IPParser) returns (outcome: Outcome)
      ensures outcome == Handle(AsPolicy(), req, parse)
    {
      var reqIPAddr, err := CollectRemoteIP(req, parse);
      if err.Some? {
        return Deny(StatusForbidden);
      }
      var i := 0;
      while i < |reqIPAddr|
        invariant 0 <= i <= |reqIPAddr|
        invariant Classify(AsPolicy(), reqIPAddr) == Classify(AsPolicy(), reqIPAddr[i..])
      {
        var ipAddress := reqIPAddr[i];
        assert reqIPAddr[i..][1..] == reqIPAddr[i + 1..];
        if IsPrivateIP(ipAddress, privateIPRanges) {
          if allowLocalRequests {
            return Forward;
          } else {
            return Deny(httpStatusCodeDeniedRequest);
          }
        }
        var j := 0;
        while j < |blacklistedIPs|
          invariant 0 <= j <= |blacklistedIPs|
          invariant IsBlacklisted(ipAddress, blacklistedIPs) == IsBlacklisted(ipAddress, blacklistedIPs[j..])
        {
          assert blacklistedIPs[j..][1..] == blacklistedIPs[j + 1..];
          if Equal(ipAddress, blacklistedIPs[j]) {
            return Deny(httpStatusCodeDeniedRequest);
          }
          j := j + 1;
        }
        i := i + 1;
      }
      return Forward;
    }
  }

  // ---------------------------------------------------------- construction

  /**
   * `New`: rejects an empty blocklist path, an unreadable blocklist and a
   * non-zero status code without a status text; a zero code is replaced by
   * 403, also in the caller's configuration. A literal of the private-range
   * table that does not parse panics.
   */
  method New(config: Config, name: string, fs: FileSystem, parse: IPParser, parseCIDR: CIDRParser)
    returns (r: Result<SimpleBlocklist, Error>)
    modifies config
    ensures config.blacklistPath == old(config.blacklistPath)
    ensures config.allowLocalRequests == old(config.allowLocalRequests)
    ensures config.logLocalRequests == old(config.logLocalRequests)
    ensures old(config.blacklistPath) == "" ==> r == Failure(NoBlacklistPath)
    ensures old(config.blacklistPath) != "" && fs(old(config.blacklistPath)).None? ==> r == Failure(LoadFailed)
    ensures old(config.blacklistPath) != "" && fs(old(config.blacklistPath)).Some?
            && old(config.httpStatusCodeDeniedRequest) != 0 && !RecognizedStatus(old(config.httpStatusCodeDeniedRequest))
            ==> r == Failure(InvalidStatusCode)
    ensures config.httpStatusCodeDeniedRequest ==
            if old(config.blacklistPath) != "" && fs(old(config.blacklistPath)).Some? && old(config.httpStatusCodeDeniedRequest) == 0
            then DefaultDeniedRequestHTTPStatusCode
            else old(config.httpStatusCodeDeniedRequest)
    ensures r.Success? <==> old(config.blacklistPath) != "" && fs(old(config.blacklistPath)).Some?
                            && (old(config.httpStatusCodeDeniedRequest) == 0 || RecognizedStatus(old(config.httpStatusCodeDeniedRequest)))
                            && LiteralsParse(parseCIDR)
    ensures old(config.blacklistPath) != "" && fs(old(config.blacklistPath)).Some?
            && (old(config.httpStatusCodeDeniedRequest) == 0 || RecognizedStatus(old(config.httpStatusCodeDeniedRequest)))
            && !LiteralsParse(parseCIDR)
            ==> r.Failure? && r.error.Panic?
    ensures r.Failure? && r.error.Panic? ==> r.error.cidr in PrivateCIDRs && parseCIDR(r.error.cidr).None?
    ensures r.Success? ==> fresh(r.value)
    ensures r.Success? ==> r.value.blacklistedIPs == KeptIPs(fs(config.blacklistPath).value, parse)
    ensures r.Success? ==> r.value.allowLocalRequests == config.allowLocalRequests
    ensures r.Success? ==> r.value.logLocalRequests == config.logLocalRequests
    ensures r.Success? ==> r.value.httpStatusCodeDeniedRequest == config.httpStatusCodeDeniedRequest
    ensures r.Success? ==> RecognizedStatus(r.value.httpStatusCodeDeniedRequest)
    ensures r.Success? ==> |r.value.privateIPRanges| == |PrivateCIDRs|
    ensures r.Success? ==> forall k :: 0 <= k < |PrivateCIDRs| ==> parseCIDR(PrivateCIDRs[k]) == Some(r.value.privateIPRanges[k])
    ensures r.Success? ==> r.value.name == name
  {
    if |config.blacklistPath| == 0 {
      return Failure(NoBlacklistPath);
    }
    var blacklistedIPs := LoadBlacklistedIPs(config.blacklistPath, fs, parse);
    if blacklistedIPs.Failure? {
      return Failure(LoadFailed);
    }
    if config.httpStatusCodeDeniedRequest != 0 {
      if !RecognizedStatus(config.httpStatusCodeDeniedRequest) {
        return Failure(InvalidStatusCode);
      }
    } else {
      config.httpStatusCodeDeniedRequest := DefaultDeniedRequestHTTPStatusCode;
    }
    var privateIPRanges := InitPrivateIPBlocks(parseCIDR);
    if privateIPRanges.Failure? {
      return Failure(privateIPRanges.error);
    }
    var handler := new SimpleBlocklist(blacklistedIPs.value, config.allowLocalRequests, config.logLocalRequests,
                                       privateIPRanges.value, config.httpStatusCodeDeniedRequest, name);
    return Success(handler);
  }
}
