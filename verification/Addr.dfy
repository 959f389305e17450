/** src/addr.h and normalize_src of src/main.c: the address key behind both tables. */
module Addr {
  import opened Bytes

  const AF_INET: bv16 := 2
  const AF_INET6: bv16 := 10

  type Bytes4 = s: seq<byte> | |s| == 4 witness Zeros(4)
  type Bytes16 = s: seq<byte> | |s| == 16 witness Zeros(16)

  /** A UDP peer address, as recvfrom fills it in. */
  datatype SockAddr = V4(addr4: Bytes4, port: nat) | V6(addr6: Bytes16, port: nat)

  /** ip_addr_t. Field-wise equality is ip_eq. */
  datatype Ip = Ip(family: bv16, addr: Bytes16)

  function FromSockaddr(ss: SockAddr): Ip {
    match ss
    case V4(a, _) => Ip(AF_INET, a + Zeros(12))
    case V6(a, _) => Ip(AF_INET6, a)
  }

  const MAPPED_PREFIX: seq<byte> := [0, 0, 0, 0, 0, 0, 0, 0, 0, 0, 0xff, 0xff]

  /** IN6_IS_ADDR_V4MAPPED */
  predicate IsV4Mapped(a: Bytes16) {
    a[..12] == MAPPED_PREFIX
  }

  /** normalize_src: the address that goes into the rule, and the key the tables use. */
  function Normalize(src: SockAddr): (r: (SockAddr, Ip)) {
    match src
    case V4(_, _) => (src, FromSockaddr(src))
    case V6(a, port) =>
      if IsV4Mapped(a) then (V4(a[12..], port), Ip(AF_INET, a[12..] + Zeros(12)))
      else (src, FromSockaddr(src))
  }

  function RuleAddr(src: SockAddr): SockAddr { Normalize(src).0 }

  function Key(src: SockAddr): Ip { Normalize(src).1 }

  /** The host an address denotes: a mapped IPv6 address is its IPv4 host. */
  datatype Host = Host4(a4: Bytes4) | Host6(a6: Bytes16)

  function HostOf(s: SockAddr): Host {
    match s
    case V4(a, _) => Host4(a)
    case V6(a, _) => if Zeros(10) + [0xff, 0xff] <= a then Host4(a[12..]) else Host6(a)
  }

  lemma MappedMeans(a: Bytes16)
    ensures IsV4Mapped(a) <==> Zeros(10) + [0xff, 0xff] <= a
  {
    assert MAPPED_PREFIX == Zeros(10) + [0xff, 0xff];
  }

  /** The table key and the rule address both name the sending host, and nothing else does:
      two senders share a key exactly when they are the same host. */
  lemma KeyNamesHost(s: SockAddr, t: SockAddr)
    ensures FromSockaddr(RuleAddr(s)) == Key(s)
    ensures HostOf(RuleAddr(s)) == HostOf(s)
    ensures Key(s) == Key(t) <==> HostOf(s) == HostOf(t)
  {
    hide Zeros, IsV4Mapped;
    HostKept(s);
    SameV4Key(s);
    SameV4Key(t);
    if Key(s) == Key(t) && HostOf(s).Host4? {
      assert HostOf(s).a4 == Key(s).addr[..4] == HostOf(t).a4;
    }
  }

  lemma HostKept(s: SockAddr)
    ensures HostOf(RuleAddr(s)) == HostOf(s) && FromSockaddr(RuleAddr(s)) == Key(s)
  {
    if s.V6? {
      MappedMeans(s.addr6);
    }
  }

  lemma SameV4Key(s: SockAddr)
    ensures match HostOf(s)
            case Host4(a) => Key(s) == Ip(AF_INET, a + Zeros(12)) && (a + Zeros(12))[..4] == a
            case Host6(a) => Key(s) == Ip(AF_INET6, a)
  {
    if s.V6? {
      MappedMeans(s.addr6);
    }
  }

  function XorWord(x: word, y: word): word { x ^ y }

  /** The family word xored with the little-endian words of the address bytes. */
  function Folded(family: bv16, addr: seq<byte>): word {
    var n := |addr|;
    if n < 4 then family as word
    else XorWord(Folded(family, addr[..n - 4]), Pack(addr[n - 1], addr[n - 2], addr[n - 3], addr[n - 4]))
  }

  /** The three shift-and-xor steps that end ip_hash32. */
  function Avalanche(h: word): word {
    var h1 := h ^ (h >> 16);
    var h2 := h1 ^ (h1 >> 8);
    h2 ^ (h2 >> 4)
  }

  /** The three steps together xor the word with itself shifted right by every multiple of four. */
  lemma AvalancheMeans(h: word)
    ensures Avalanche(h) == h ^ (h >> 4) ^ (h >> 8) ^ (h >> 12) ^ (h >> 16) ^ (h >> 20) ^ (h >> 24) ^ (h >> 28)
  {
  }

  function Hash32(ip: Ip): word {
    Avalanche(Folded(ip.family, ip.addr))
  }

  method ComputeHash32(ip: Ip) returns (h: word)
    ensures h == Hash32(ip)
  {
    hide Avalanche, XorWord, Pack;
    h := ip.family as word;
    for i := 0 to 4
      invariant h == Folded(ip.family, ip.addr[..4 * i])
    {
      h := XorWord(h, Pack(ip.addr[4 * i + 3], ip.addr[4 * i + 2], ip.addr[4 * i + 1], ip.addr[4 * i]));
      assert ip.addr[..4 * i + 4][..4 * i] == ip.addr[..4 * i];
    }
    assert ip.addr[..16] == ip.addr;
    h := Avalanche(h);
  }

  /** h & (TABLE_SIZE - 1) */
  function Home(ip: Ip): (idx: nat)
    ensures idx < 64
  {
    (Hash32(ip) & 63) as nat
  }

  /** The slot of 192.0.2.1 on a little-endian host. */
  lemma HomeExample()
    ensures Home(Key(V4([192, 0, 2, 1], 0))) == 61
  {
    var a: Bytes16 := [192, 0, 2, 1] + Zeros(12);
    assert a[..12][..8] == a[..8] && a[..8][..4] == a[..4];
    assert Folded(AF_INET, a[..4]) == 0x010200c2;
    ZeroWord();
    assert Folded(AF_INET, a[..8]) == 0x010200c2;
    assert Folded(AF_INET, a[..12]) == 0x010200c2;
    assert Folded(AF_INET, a) == 0x010200c2;
  }

  lemma ZeroWord()
    ensures Pack(0, 0, 0, 0) == 0
  {
  }
}
