/**
 * Properties of the blocklist model: what loading keeps, what extraction
 * yields, how the decision picks its outcome, and which addresses the
 * private-range table covers.
 */
module BlocklistProperties {
  import opened Wrappers
  import opened Text
  import opened NetIP
  import opened Blocklist

  // ------------------------------------------------------ private ranges

  /**
   * The reserved ranges, written from their definitions: IPv4 loopback
   * 127.0.0.0/8, the RFC 1918 ranges 10.0.0.0/8, 172.16.0.0/12 and
   * 192.168.0.0/16, link-local 169.254.0.0/16 (RFC 3927) and link-local
   * multicast 224.0.0.0/24 for IPv4 (in either form); the IPv6 loopback
   * `::1`, link-local unicast fe80::/10 and link-local multicast ff02::/16
   * (RFC 4291, sections 2.5.3, 2.5.6 and 2.7, any flags) and unique-local
   * fc00::/7 (RFC 4193) for IPv6.
   */
  predicate ReservedAddress(ip: IP) {
    match To4(ip)
    case Some(a) =>
      a[0] == 127
      || a[0] == 10
      || (a[0] == 172 && 16 <= a[1] <= 31)
      || (a[0] == 192 && a[1] == 168)
      || (a[0] == 169 && a[1] == 254)
      || (a[0] == 224 && a[1] == 0 && a[2] == 0)
    case None =>
      ip == IPv6Loopback
      || (ip[0] == 0xfe && 0x80 <= ip[1] <= 0xbf)
      || ip[0] == 0xfc || ip[0] == 0xfd
      || (ip[0] == 0xff && ip[1] & 0x0f == 0x02)
  }

  lemma {:induction false} AnyOfEightBlocks(blocks: seq<IPNet>, ip: IP)
    requires |blocks| == 8
    ensures AnyBlockContains(blocks, ip) <==>
      Contains(blocks[0], ip) || Contains(blocks[1], ip) || Contains(blocks[2], ip) || Contains(blocks[3], ip)
      || Contains(blocks[4], ip) || Contains(blocks[5], ip) || Contains(blocks[6], ip) || Contains(blocks[7], ip)
  {
    if AnyBlockContains(blocks, ip) {
      var k :| 0 <= k < |blocks| && Contains(blocks[k], ip);
      assert k == 0 || k == 1 || k == 2 || k == 3 || k == 4 || k == 5 || k == 6 || k == 7;
    }
  }

  /** An IPv4 network whose mask is zero past its first two bytes. */
  lemma V4Block(n: IPNet, ip: IP)
    requires |n.ip| == IPv4Len && |n.mask| == IPv4Len && n.mask[2] == 0 && n.mask[3] == 0
    ensures Contains(n, ip) <==>
              (To4(ip).Some?
               && SameUnderMask(n.ip[0], To4(ip).value[0], n.mask[0])
               && SameUnderMask(n.ip[1], To4(ip).value[1], n.mask[1]))
  {
    ContainsV4Network(n, ip);
    if To4(ip).Some? {
      MaskedEqualFirstTwo(n.ip, To4(ip).value, n.mask);
    }
  }

  /** An IPv6 network whose mask is zero past its first two bytes. */
  lemma V6Block(n: IPNet, ip: IP)
    requires |n.ip| == IPv6Len && n.ip[11] == 0 && |n.mask| == IPv6Len
    requires forall i :: 2 <= i < IPv6Len ==> n.mask[i] == 0
    ensures Contains(n, ip) <==>
              (To4(ip).None?
               && SameUnderMask(n.ip[0], ip[0], n.mask[0])
               && SameUnderMask(n.ip[1], ip[1], n.mask[1]))
  {
    assert To4(n.ip).None? by {
      To4Spec(n.ip);
      assert n.ip[..12][11] != V4InV6Prefix[11];
    }
    ContainsV6Network(n, ip);
    if To4(ip).None? {
      MaskedEqualFirstTwo(n.ip, ip, n.mask);
    }
  }

  lemma LoopbackV4Block(ip: IP)
    ensures Contains(PrivateBlocks[0], ip) <==> To4(ip).Some? && To4(ip).value[0] == 127
  {
    V4Block(PrivateBlocks[0], ip);
  }

  lemma Rfc1918Blocks(ip: IP)
    ensures Contains(PrivateBlocks[1], ip) <==> To4(ip).Some? && To4(ip).value[0] == 10
    ensures Contains(PrivateBlocks[2], ip) <==> To4(ip).Some? && To4(ip).value[0] == 172 && 16 <= To4(ip).value[1] <= 31
    ensures Contains(PrivateBlocks[3], ip) <==> To4(ip).Some? && To4(ip).value[0] == 192 && To4(ip).value[1] == 168
  {
    V4Block(PrivateBlocks[1], ip);
    V4Block(PrivateBlocks[2], ip);
    if To4(ip).Some? {
      var b := To4(ip).value[1];
      assert SameUnderMask(16, b, 0xf0) <==> 16 <= b <= 31;
    }
    V4Block(PrivateBlocks[3], ip);
  }

  lemma LinkLocalV4Block(ip: IP)
    ensures Contains(PrivateBlocks[4], ip) <==> To4(ip).Some? && To4(ip).value[0] == 169 && To4(ip).value[1] == 254
  {
    V4Block(PrivateBlocks[4], ip);
  }

  lemma LoopbackV6Block(ip: IP)
    ensures To4(IPv6Loopback).None?
    ensures Contains(PrivateBlocks[5], ip) <==> ip == IPv6Loopback
  {
    To4Spec(IPv6Loopback);
    assert IPv6Loopback[..12][11] != V4InV6Prefix[11];
    ContainsV6Network(PrivateBlocks[5], ip);
    if |ip| == IPv6Len {
      MaskedEqualFull(PrivateBlocks[5].ip, ip, PrivateBlocks[5].mask);
    }
  }

  lemma LinkLocalV6Block(ip: IP)
    ensures Contains(PrivateBlocks[6], ip) <==> To4(ip).None? && ip[0] == 0xfe && 0x80 <= ip[1] <= 0xbf
  {
    assert PrivateBlocks[6].ip[11] == 0;
    V6Block(PrivateBlocks[6], ip);
  }

  lemma UniqueLocalBlock(ip: IP)
    ensures Contains(PrivateBlocks[7], ip) <==> To4(ip).None? && (ip[0] == 0xfc || ip[0] == 0xfd)
  {
    assert PrivateBlocks[7].ip[11] == 0;
    V6Block(PrivateBlocks[7], ip);
  }

  /** The private-range table contains exactly the reserved unicast ranges. */
  lemma PrivateBlocksCover(ip: IP)
    ensures AnyBlockContains(PrivateBlocks, ip) <==>
      match To4(ip)
      case Some(a) =>
        a[0] == 127 || a[0] == 10 || (a[0] == 172 && 16 <= a[1] <= 31)
        || (a[0] == 192 && a[1] == 168) || (a[0] == 169 && a[1] == 254)
      case None =>
        ip == IPv6Loopback || (ip[0] == 0xfe && 0x80 <= ip[1] <= 0xbf) || ip[0] == 0xfc || ip[0] == 0xfd
  {
    AnyOfEightBlocks(PrivateBlocks, ip);
    LoopbackV4Block(ip);
    Rfc1918Blocks(ip);
    LinkLocalV4Block(ip);
    LoopbackV6Block(ip);
    LinkLocalV6Block(ip);
    UniqueLocalBlock(ip);
  }

  /**
   * With the table `net.ParseCIDR` builds from the eight literals,
   * `isPrivateIP` holds exactly for the reserved addresses.
   */
  lemma PrivateIPIsReserved(ip: IP)
    ensures IsPrivateIP(ip, PrivateBlocks) <==> ReservedAddress(ip)
  {
    PrivateBlocksCover(ip);
    LoopbackV6Block(ip);
  }

  /**
   * When `net.ParseCIDR` gives the standard networks for the eight
   * literals, the table `New` stores is `PrivateBlocks`, so its private
   * addresses are exactly the reserved ones.
   */
  lemma BuiltTableIsReserved(parseCIDR: CIDRParser, ranges: seq<IPNet>, ip: IP)
    requires forall k :: 0 <= k < |PrivateCIDRs| ==> parseCIDR(PrivateCIDRs[k]) == Some(PrivateBlocks[k])
    requires |ranges| == |PrivateCIDRs|
    requires forall k :: 0 <= k < |PrivateCIDRs| ==> parseCIDR(PrivateCIDRs[k]) == Some(ranges[k])
    ensures ranges == PrivateBlocks
    ensures IsPrivateIP(ip, ranges) <==> ReservedAddress(ip)
  {
    assert forall k :: 0 <= k < |ranges| ==> ranges[k] == PrivateBlocks[k];
    PrivateIPIsReserved(ip);
  }

  /** Classification looks at addresses only up to `IP.Equal`: an IPv4 address and its mapped form are alike. */
  lemma {:induction false} IsPrivateIPRespectsEqual(a: IP, b: IP, blocks: seq<IPNet>)
    requires Equal(a, b)
    ensures IsPrivateIP(a, blocks) == IsPrivateIP(b, blocks)
  {
    if blocks != [] {
      ClassesRespectEqual(a, b, blocks[0]);
      IsPrivateIPRespectsEqual(a, b, blocks[1..]);
    } else {
      ClassesRespectEqual(a, b, IPNet([], []));
    }
  }

  lemma {:induction false} IsBlacklistedRespectsEqual(a: IP, b: IP, blacklistedIPs: seq<IP>)
    requires Equal(a, b)
    ensures IsBlacklisted(a, blacklistedIPs) == IsBlacklisted(b, blacklistedIPs)
  {
    if blacklistedIPs != [] {
      EqualIsEquivalence(a, b, blacklistedIPs[0]);
      EqualIsEquivalence(b, a, blacklistedIPs[0]);
      IsBlacklistedRespectsEqual(a, b, blacklistedIPs[1..]);
    }
  }

  // ---------------------------------------------------------- loading

  /**
   * An address is in the loaded blocklist exactly when some line of the
   * file, once trimmed, parses to it.
   */
  lemma {:induction false} KeptIPsMembership(lines: seq<string>, parse: IPParser, x: IP)
    ensures x in KeptIPs(lines, parse) <==> exists i :: 0 <= i < |lines| && parse(TrimSpace(lines[i])) == Some(x)
  {
    if lines != [] {
      KeptIPsMembership(lines[1..], parse, x);
      if exists i :: 0 <= i < |lines| && parse(TrimSpace(lines[i])) == Some(x) {
        var i :| 0 <= i < |lines| && parse(TrimSpace(lines[i])) == Some(x);
        if i > 0 {
          assert lines[1..][i - 1] == lines[i];
        }
      }
      if x in KeptIPs(lines[1..], parse) {
        var i :| 0 <= i < |lines| - 1 && parse(TrimSpace(lines[1..][i])) == Some(x);
        assert lines[i + 1] == lines[1..][i];
      }
    }
  }

  /**
   * Each line contributes on its own and in place: a line that does not
   * parse (a comment, a CIDR range, an address followed by a comment) adds
   * nothing and does not disturb the lines before or after it; a line that
   * parses adds its address at its position.
   */
  lemma KeptIPsLine(before: seq<string>, line: string, after: seq<string>, parse: IPParser)
    ensures parse(TrimSpace(line)).None? ==>
      KeptIPs(before + [line] + after, parse) == KeptIPs(before, parse) + KeptIPs(after, parse)
    ensures parse(TrimSpace(line)).Some? ==>
      KeptIPs(before + [line] + after, parse) == KeptIPs(before, parse) + [parse(TrimSpace(line)).value] + KeptIPs(after, parse)
  {
    KeptIPsAppend(before + [line], after, parse);
    KeptIPsAppend(before, [line], parse);
    assert [line][1..] == [];
    var mid := KeptIPs([line], parse);
    assert mid == (match parse(TrimSpace(line)) case Some(ip) => [ip] case None => []);
    var x, z := KeptIPs(before, parse), KeptIPs(after, parse);
    assert (x + mid) + z == x + mid + z;
    if parse(TrimSpace(line)).None? {
      assert x + [] + z == x + z;
    }
  }

  // ---------------------------------------------------------- extraction

  /** Spaces around a header field do not change whether or how it parses. */
  lemma ParseIPIgnoresPadding(parse: IPParser, p: string, addr: string, q: string)
    requires AllSpace(p) && AllSpace(q)
    ensures ParseIP(parse, p + addr + q).Success? == ParseIP(parse, addr).Success?
    ensures ParseIP(parse, addr).Success? ==> ParseIP(parse, p + addr + q).value == ParseIP(parse, addr).value
  {
    TrimSpaceIgnoresPadding(p, addr, q);
  }

  lemma ParsedPrefixAppend(a: seq<string>, b: seq<string>, parse: IPParser)
    requires |ParsedPrefix(a, parse)| == |a|
    ensures ParsedPrefix(a + b, parse) == ParsedPrefix(a, parse) + ParsedPrefix(b, parse)
  {
    var x, y := ParsedPrefix(a, parse), ParsedPrefix(b, parse);
    var fields, ips := a + b, x + y;
    forall k | 0 <= k < |ips|
      ensures parse(TrimSpace(fields[k])) == Some(ips[k])
    {
      if k < |a| {
        assert fields[k] == a[k] && ips[k] == x[k];
      } else {
        assert fields[k] == b[k - |a|] && ips[k] == y[k - |a|];
      }
    }
    if |ips| < |fields| {
      assert fields[|ips|] == b[|y|];
    }
    ParsedPrefixDeterminedBy(fields, parse, ips);
  }

  /**
   * On success the candidates are the addresses of the `X-Forwarded-For`
   * fields followed by those of the `X-Real-IP` fields; the peer address
   * plays no part.
   */
  lemma CandidatesFromHeaders(req: Request, parse: IPParser, remoteAddr: string)
    requires Candidates(req, parse).Success?
    ensures Candidates(req, parse).value ==
            ParsedPrefix(Fields(req.xForwardedFor), parse) + ParsedPrefix(Fields(req.xRealIP), parse)
    ensures Candidates(req.(remoteAddr := remoteAddr), parse) == Candidates(req, parse)
  {
    var a, b := Fields(req.xForwardedFor), Fields(req.xRealIP);
    var all := ParsedPrefix(a + b, parse);
    ParsedPrefixDeterminedBy(a, parse, all[..|a|]);
    ParsedPrefixAppend(a, b, parse);
  }

  /**
   * The peer address of the connection never affects the response: the
   * candidates come from the two headers only, whether or not they parse.
   */
  lemma HandleIgnoresRemoteAddr(p: Policy, req: Request, parse: IPParser, remoteAddr: string)
    ensures Candidates(req.(remoteAddr := remoteAddr), parse) == Candidates(req, parse)
    ensures Handle(p, req.(remoteAddr := remoteAddr), parse) == Handle(p, req, parse)
  {
  }

  /**
   * A header field that does not parse makes the response 403 whatever the
   * configured code, even when an earlier candidate is private or
   * blacklisted: extraction fails before any candidate is examined.
   */
  lemma UnparsableFieldForbids(p: Policy, req: Request, parse: IPParser, k: nat)
    requires k < |CandidateFields(req)| && parse(TrimSpace(CandidateFields(req)[k])).None?
    ensures Handle(p, req, parse) == Deny(StatusForbidden)
  {
  }

  /** Without either header there are no candidates and the request is forwarded. */
  lemma NoHeadersForwards(p: Policy, req: Request, parse: IPParser)
    requires req.xForwardedFor == "" && req.xRealIP == ""
    ensures Handle(p, req, parse) == Forward
  {
    assert CandidateFields(req) == [];
  }

  // ---------------------------------------------------------- the decision

  /** A candidate that ends the walk: private, or else blacklisted. */
  predicate Decisive(p: Policy, ip: IP) {
    IsPrivateIP(ip, p.privateIPRanges) || IsBlacklisted(ip, p.blacklistedIPs)
  }

  /**
   * The first decisive candidate settles the request and nothing after it
   * is looked at: a private one forwards when local requests are allowed
   * and denies with the configured code when not, even if it is also
   * blacklisted; a blacklisted one denies with the configured code.
   */
  lemma {:induction false} FirstDecisiveCandidateDecides(p: Policy, before: seq<IP>, ip: IP, after: seq<IP>)
    requires forall k :: 0 <= k < |before| ==> !Decisive(p, before[k])
    requires Decisive(p, ip)
    ensures Classify(p, before + [ip] + after) ==
            if IsPrivateIP(ip, p.privateIPRanges) then (if p.allowLocalRequests then Forward else Deny(p.deniedCode))
            else Deny(p.deniedCode)
  {
    var cs := before + [ip] + after;
    if before == [] {
      assert cs[0] == ip;
    } else {
      assert cs[0] == before[0] && !Decisive(p, before[0]);
      assert cs[1..] == before[1..] + [ip] + after;
      FirstDecisiveCandidateDecides(p, before[1..], ip, after);
    }
  }

  /** With no decisive candidate, including with no candidate at all, the request is forwarded. */
  lemma {:induction false} NoDecisiveCandidateForwards(p: Policy, candidates: seq<IP>)
    requires forall k :: 0 <= k < |candidates| ==> !Decisive(p, candidates[k])
    ensures Classify(p, candidates) == Forward
  {
    if candidates != [] {
      assert !Decisive(p, candidates[0]);
      NoDecisiveCandidateForwards(p, candidates[1..]);
    }
  }

  /**
   * The decision depends on the candidates only up to `IP.Equal`: writing an
   * IPv4 candidate in its IPv4-mapped form does not change the outcome.
   */
  lemma {:induction false} ClassifyRespectsEqual(p: Policy, cs: seq<IP>, ds: seq<IP>)
    requires |cs| == |ds|
    requires forall k :: 0 <= k < |cs| ==> Equal(cs[k], ds[k])
    ensures Classify(p, cs) == Classify(p, ds)
  {
    if cs != [] {
      IsPrivateIPRespectsEqual(cs[0], ds[0], p.privateIPRanges);
      IsBlacklistedRespectsEqual(cs[0], ds[0], p.blacklistedIPs);
      ClassifyRespectsEqual(p, cs[1..], ds[1..]);
    }
  }
}
