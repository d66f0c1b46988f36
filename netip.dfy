/**
 * The part of Go's `net` package the blocklist uses, at byte level: the
 * 4- and 16-byte forms of an address, IPv4-in-IPv6 equivalence, the
 * address-class predicates and `IPNet.Contains`.
 */
module NetIP {
  import opened Wrappers

  type Byte = bv8

  /** An address as `net.ParseIP` yields it: 4 bytes (IPv4) or 16 bytes (IPv6 or IPv4-mapped). */
  type IP = s: seq<Byte> | |s| == 4 || |s| == 16 witness [0, 0, 0, 0]

  const IPv4Len := 4
  const IPv6Len := 16

  /** The first twelve bytes of an IPv4-mapped IPv6 address, `::ffff:0:0/96`. */
  const V4InV6Prefix: seq<Byte> := [0, 0, 0, 0, 0, 0, 0, 0, 0, 0, 0xff, 0xff]

  /** `::1`. */
  const IPv6Loopback: seq<Byte> := [0, 0, 0, 0, 0, 0, 0, 0, 0, 0, 0, 0, 0, 0, 0, 1]

  predicate IsZeros(s: seq<Byte>) {
    forall i :: 0 <= i < |s| ==> s[i] == 0
  }

  /**
   * `IP.To4`: the 4-byte form of an IPv4 address, given either as 4 bytes
   * or as an IPv4-mapped 16-byte address; `None` for any other input.
   */
  function To4(ip: seq<Byte>): (r: Option<seq<Byte>>)
    ensures r.Some? ==> |r.value| == IPv4Len
    ensures |ip| == IPv4Len ==> r == Some(ip)
  {
    if |ip| == IPv4Len then Some(ip)
    else if |ip| == IPv6Len && IsZeros(ip[0..10]) && ip[10] == 0xff && ip[11] == 0xff then Some(ip[12..16])
    else None
  }

  /** `To4` recognises exactly the 4-byte and the IPv4-mapped addresses, and keeps their last four bytes. */
  lemma To4Spec(ip: seq<Byte>)
    ensures To4(ip).Some? <==> |ip| == IPv4Len || (|ip| == IPv6Len && ip[..12] == V4InV6Prefix)
    ensures To4(ip).Some? ==> To4(ip).value == ip[|ip| - IPv4Len..]
  {
    if |ip| == IPv6Len {
      assert ip[..12] == ip[0..10] + [ip[10], ip[11]];
    }
  }

  /** The form `IPNet.Contains` compares in: the 4-byte form when there is one, else the address itself. */
  function ShortForm(ip: seq<Byte>): seq<Byte> {
    match To4(ip)
    case Some(v4) => v4
    case None => ip
  }

  /**
   * `IP.Equal`: addresses of equal length compare bytewise; a 4-byte and a
   * 16-byte address are equal when the long one is the IPv4-mapped form of
   * the short one.
   */
  predicate Equal(a: seq<Byte>, b: seq<Byte>) {
    if |a| == |b| then a == b
    else if |a| == IPv4Len && |b| == IPv6Len then b[..12] == V4InV6Prefix && a == b[12..]
    else if |a| == IPv6Len && |b| == IPv4Len then a[..12] == V4InV6Prefix && a[12..] == b
    else false
  }

  /** The 16-byte form of an address (IPv4 addresses become IPv4-mapped). */
  function To16(ip: IP): (r: seq<Byte>)
    ensures |r| == IPv6Len && r[IPv6Len - |ip|..] == ip
    ensures |ip| == IPv4Len ==> r[..12] == V4InV6Prefix
  {
    if |ip| == IPv4Len then V4InV6Prefix + ip else ip
  }

  /** `IP.IsLoopback`: 127.0.0.0/8 for IPv4 (in either form), `::1` otherwise. */
  predicate IsLoopback(ip: IP) {
    match To4(ip)
    case Some(v4) => v4[0] == 127
    case None => Equal(ip, IPv6Loopback)
  }

  /** `IP.IsLinkLocalUnicast`: 169.254.0.0/16 for IPv4, fe80::/10 for IPv6. */
  predicate IsLinkLocalUnicast(ip: IP) {
    match To4(ip)
    case Some(v4) => v4[0] == 169 && v4[1] == 254
    case None => |ip| == IPv6Len && ip[0] == 0xfe && ip[1] & 0xc0 == 0x80
  }

  /** `IP.IsLinkLocalMulticast`: 224.0.0.0/24 for IPv4, ff02::/16 (any flags nibble) for IPv6. */
  predicate IsLinkLocalMulticast(ip: IP) {
    match To4(ip)
    case Some(v4) => v4[0] == 224 && v4[1] == 0 && v4[2] == 0
    case None => |ip| == IPv6Len && ip[0] == 0xff && ip[1] & 0x0f == 0x02
  }

  /** `net.IPNet`: a network number and a mask, as the standard library stores them. */
  datatype IPNet = IPNet(ip: seq<Byte>, mask: seq<Byte>)

  /**
   * `networkNumberAndMask`: the network number (in short form when IPv4)
   * and a mask of the same length; the pair of empty sequences stands for
   * Go's `nil, nil` when the two do not fit together.
   */
  function NetworkNumberAndMask(n: IPNet): (r: (seq<Byte>, seq<Byte>))
    ensures |r.0| == |r.1|
    ensures r.0 != [] ==> r.0 == ShortForm(n.ip) && (|r.0| == IPv4Len || |r.0| == IPv6Len)
  {
    var ip := ShortForm(n.ip);
    if |ip| != IPv4Len && |ip| != IPv6Len then ([], [])
    else if |n.mask| == IPv4Len then
      if |ip| != IPv4Len then ([], []) else (ip, n.mask)
    else if |n.mask| == IPv6Len then
      if |ip| == IPv4Len then (ip, n.mask[12..]) else (ip, n.mask)
    else ([], [])
  }

  /** Two bytes agree on the bits a mask byte selects. */
  predicate SameUnderMask(x: Byte, y: Byte, k: Byte) {
    x & k == y & k
  }

  /** Bytewise agreement under the mask over sequences of one length, compared from the first byte on. */
  predicate MaskedEqual(a: seq<Byte>, b: seq<Byte>, m: seq<Byte>)
    requires |a| == |b| == |m|
  {
    m == [] || (SameUnderMask(a[0], b[0], m[0]) && MaskedEqual(a[1..], b[1..], m[1..]))
  }

  /**
   * `IPNet.Contains`: the address, in short form, has the network's length
   * and agrees with the network number on every bit the mask selects.
   */
  predicate Contains(n: IPNet, ip: seq<Byte>) {
    var (nn, m) := NetworkNumberAndMask(n);
    var x := ShortForm(ip);
    |x| == |nn| && MaskedEqual(nn, x, m)
  }

  /** `IP.Equal` compares canonical 16-byte forms: it is the equality of `To16`. */
  lemma EqualIffSame16(a: IP, b: IP)
    ensures Equal(a, b) <==> To16(a) == To16(b)
  {
    To4Spec(a);
    To4Spec(b);
    if |a| == IPv4Len && |b| == IPv6Len {
      if To16(a) == To16(b) {
        assert b[..12] == To16(a)[..12];
        assert b[12..] == To16(a)[12..];
      }
    } else if |a| == IPv6Len && |b| == IPv4Len {
      if To16(a) == To16(b) {
        assert a[..12] == To16(b)[..12];
        assert a[12..] == To16(b)[12..];
      }
    } else if |a| == IPv4Len && To16(a) == To16(b) {
      assert a == To16(a)[12..] == To16(b)[12..] == b;
    }
  }

  /** `IP.Equal` is equality of short forms, the form `IPNet.Contains` compares in. */
  lemma EqualIffSameShortForm(a: IP, b: IP)
    ensures Equal(a, b) <==> ShortForm(a) == ShortForm(b)
  {
    To4Spec(a);
    To4Spec(b);
    EqualIffSame16(a, b);
    if ShortForm(a) == ShortForm(b) {
      if To4(a).Some? {
        assert To16(a) == To16(a)[..12] + To16(a)[12..];
        assert To16(b) == To16(b)[..12] + To16(b)[12..];
      }
    }
  }

  /** `IP.Equal` is an equivalence relation on addresses. */
  lemma EqualIsEquivalence(a: IP, b: IP, c: IP)
    ensures Equal(a, a)
    ensures Equal(a, b) ==> Equal(b, a)
    ensures Equal(a, b) && Equal(b, c) ==> Equal(a, c)
  {
    EqualIffSame16(a, a);
    EqualIffSame16(a, b);
    EqualIffSame16(b, a);
    EqualIffSame16(b, c);
    EqualIffSame16(a, c);
  }

  /**
   * Every address predicate of the model treats an IPv4 address and its
   * IPv4-mapped form alike: equal addresses are both loopback or neither,
   * and so on, and lie in the same networks.
   */
  lemma ClassesRespectEqual(a: IP, b: IP, n: IPNet)
    requires Equal(a, b)
    ensures IsLoopback(a) == IsLoopback(b)
    ensures IsLinkLocalUnicast(a) == IsLinkLocalUnicast(b)
    ensures IsLinkLocalMulticast(a) == IsLinkLocalMulticast(b)
    ensures Contains(n, a) == Contains(n, b)
  {
    EqualIffSameShortForm(a, b);
    To4Spec(a);
    To4Spec(b);
    if To4(a).Some? {
      assert To4(b).Some?;
    } else {
      assert To4(b).None?;
      assert a == b;
    }
  }

  /** Against an IPv4 network, `Contains` holds exactly for IPv4 addresses (either form) matching under the mask. */
  lemma ContainsV4Network(n: IPNet, ip: IP)
    requires |n.ip| == IPv4Len && |n.mask| == IPv4Len
    ensures Contains(n, ip) <==> To4(ip).Some? && MaskedEqual(n.ip, To4(ip).value, n.mask)
  {
    assert NetworkNumberAndMask(n) == (n.ip, n.mask);
  }

  /** Against an IPv6 network, `Contains` holds exactly for non-IPv4 addresses matching under the mask. */
  lemma ContainsV6Network(n: IPNet, ip: IP)
    requires |n.ip| == IPv6Len && To4(n.ip).None? && |n.mask| == IPv6Len
    ensures Contains(n, ip) <==> To4(ip).None? && MaskedEqual(n.ip, ip, n.mask)
  {
    assert NetworkNumberAndMask(n) == (n.ip, n.mask);
  }

  /** `MaskedEqual` is agreement under the mask at every position. */
  lemma {:induction false} MaskedEqualAt(a: seq<Byte>, b: seq<Byte>, m: seq<Byte>)
    requires |a| == |b| == |m|
    ensures MaskedEqual(a, b, m) <==> forall i :: 0 <= i < |m| ==> SameUnderMask(a[i], b[i], m[i])
  {
    if m != [] {
      MaskedEqualAt(a[1..], b[1..], m[1..]);
      assert forall i :: 0 <= i < |m| - 1 ==> a[1..][i] == a[i + 1] && b[1..][i] == b[i + 1] && m[1..][i] == m[i + 1];
    }
  }

  /** Under an all-ones mask, masked equality is plain equality. */
  lemma MaskedEqualFull(a: seq<Byte>, b: seq<Byte>, m: seq<Byte>)
    requires |a| == |b| == |m|
    requires forall i :: 0 <= i < |m| ==> m[i] == 0xff
    ensures MaskedEqual(a, b, m) <==> a == b
  {
    MaskedEqualAt(a, b, m);
    if MaskedEqual(a, b, m) {
      forall i | 0 <= i < |m|
        ensures a[i] == b[i]
      {
        assert SameUnderMask(a[i], b[i], m[i]);
      }
    }
  }

  /** Masked equality under a mask that is zero past its first two bytes. */
  lemma MaskedEqualFirstTwo(a: seq<Byte>, b: seq<Byte>, m: seq<Byte>)
    requires |a| == |b| == |m| && 2 <= |m|
    requires forall i :: 2 <= i < |m| ==> m[i] == 0
    ensures MaskedEqual(a, b, m) <==> SameUnderMask(a[0], b[0], m[0]) && SameUnderMask(a[1], b[1], m[1])
  {
    MaskedEqualAt(a, b, m);
    if SameUnderMask(a[0], b[0], m[0]) && SameUnderMask(a[1], b[1], m[1]) {
      forall i | 0 <= i < |m|
        ensures SameUnderMask(a[i], b[i], m[i])
      {
        if 2 <= i {
          assert m[i] == 0;
        }
      }
    }
  }
}
