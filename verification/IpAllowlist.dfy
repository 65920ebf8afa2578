/**
  The panel's IP allowlist (plain addresses and CIDR blocks, RFC 4632 section 3.1), and the test for
  internal addresses that outgoing requests must not reach.

  A 32- or 128-bit machine word is its bits, most significant first, so that both address families
  share one proof. Parsing an address is the caller's `parse`.
 */
module IpAllowlist {
  import opened Text

  // --------------------------------------------------------------- machine words

  type Word = seq<bool>

  function Value(w: Word): nat {
    if w == [] then 0 else 2 * Value(w[..|w| - 1]) + if w[|w| - 1] then 1 else 0
  }

  function Zeros(n: nat): (r: Word)
    ensures |r| == n && forall k :: 0 <= k < n ==> !r[k]
  {
    seq(n, _ => false)
  }

  /** `MAX` of an `n`-bit type. */
  function Ones(n: nat): (r: Word)
    ensures |r| == n && forall k :: 0 <= k < n ==> r[k]
  {
    seq(n, _ => true)
  }

  /** `w << places`; shifting by the whole width or more is an overflow. */
  function ShiftLeft(w: Word, places: nat): (r: Word)
    requires places < |w|
    ensures |r| == |w|
  {
    w[places..] + Zeros(places)
  }

  function And(a: Word, b: Word): (r: Word)
    requires |a| == |b|
    ensures |r| == |a| && forall k :: 0 <= k < |r| ==> (r[k] <==> a[k] && b[k])
  {
    seq(|a|, k requires 0 <= k < |a| => a[k] && b[k])
  }

  function Mask(width: nat, bits: nat): (r: Word)
    requires bits <= width
    ensures |r| == width
  {
    if bits == 0 then Zeros(width) else ShiftLeft(Ones(width), width - bits)
  }

  function Pow2(n: nat): (r: nat)
    ensures r > 0
  {
    if n == 0 then 1 else 2 * Pow2(n - 1)
  }

  lemma DivUnique(x: nat, p: nat, q: nat, r: nat)
    requires p > 0 && r < p && x == p * q + r
    ensures x / p == q
  {
    var d := x / p;
    assert x == p * d + x % p;
    if d < q {
      MulStep(p, d, q);
    } else if d > q {
      MulStep(p, q, d);
    }
  }

  lemma MulStep(p: nat, a: nat, b: nat)
    requires a < b
    ensures p * a + p <= p * b
  {
    assert p * b == p * a + p * (b - a);
    assert p * (b - a) == p + p * (b - a - 1);
  }

  lemma HalveThenDivide(x: nat, p: nat)
    requires p > 0
    ensures (x / 2) / p == x / (2 * p)
  {
    var q, r := x / (2 * p), x % (2 * p);
    assert x == 2 * p * q + r;
    assert x == 2 * (p * q) + r;
    assert x / 2 == p * q + r / 2;
    DivUnique(x / 2, p, q, r / 2);
  }

  /** The leading `bits` bits are the value divided by the weight of the rest. */
  lemma {:induction false} LeadingBits(w: Word, bits: nat)
    requires bits <= |w|
    ensures Value(w[..bits]) == Value(w) / Pow2(|w| - bits)
    decreases |w|
  {
    if bits == |w| {
      assert w[..bits] == w;
    } else {
      var v := w[..|w| - 1];
      LeadingBits(v, bits);
      assert v[..bits] == w[..bits];
      assert Value(w) / 2 == Value(v);
      HalveThenDivide(Value(w), Pow2(|v| - bits));
    }
  }

  lemma {:induction false} ValueInjective(a: Word, b: Word)
    requires |a| == |b| && Value(a) == Value(b)
    ensures a == b
    decreases |a|
  {
    if a != [] {
      ValueInjective(a[..|a| - 1], b[..|b| - 1]);
      assert a == a[..|a| - 1] + [a[|a| - 1]] && b == b[..|b| - 1] + [b[|b| - 1]];
    }
  }

  /** The mask keeps exactly the leading bits. */
  lemma MaskIsPrefix(width: nat, bits: nat)
    requires bits <= width
    ensures forall k :: 0 <= k < width ==> (Mask(width, bits)[k] <==> k < bits)
  {
  }

  /**
    For every prefix length, 0 and the full width included: the masked words agree exactly when the integers
    agree above the remaining bits.
   */
  lemma MaskTestIsPrefixEquality(n: Word, c: Word, bits: nat)
    requires |n| == |c| && bits <= |n|
    ensures And(n, Mask(|n|, bits)) == And(c, Mask(|n|, bits))
            <==> Value(n) / Pow2(|n| - bits) == Value(c) / Pow2(|c| - bits)
  {
    MaskIsPrefix(|n|, bits);
    LeadingBits(n, bits);
    LeadingBits(c, bits);
    var an, ac := And(n, Mask(|n|, bits)), And(c, Mask(|n|, bits));
    if an == ac {
      forall k | 0 <= k < bits ensures n[k] == c[k] {
        assert an[k] == ac[k];
      }
      assert n[..bits] == c[..bits];
    }
    if Value(n[..bits]) == Value(c[..bits]) {
      ValueInjective(n[..bits], c[..bits]);
      forall k | 0 <= k < |n| ensures an[k] == ac[k] {
        if k < bits {
          assert n[..bits][k] == c[..bits][k];
        }
      }
    }
  }

  // ------------------------------------------------------------------- entries

  type Word32 = w: Word | |w| == 32 witness Zeros(32)
  type Word128 = w: Word | |w| == 128 witness Zeros(128)

  datatype IpAddr = V4(v4: Word32) | V6(v6: Word128)
  {
    /** `u32::from` or `u128::from` of the address. */
    function Word(): (w: Word)
      ensures |w| == Width()
    {
      match this
      case V4(w) => w
      case V6(w) => w
    }

    function Width(): nat { if V4? then 32 else 128 }
  }

  type Parser = string -> Option<IpAddr>

  /** `ip_entry_covers` */
  predicate Covers(parse: Parser, entry: string, client: IpAddr) {
    var e := Trim(entry);
    match SplitOnce(e, '/')
    case None => parse(e) == Some(client)
    case Some((net, bits)) =>
      match (parse(Trim(net)), ParseU32(Trim(bits)))
      case (Some(n), Some(b)) =>
        && n.V4? == client.V4? && b <= n.Width()
        && And(n.Word(), Mask(n.Width(), b)) == And(client.Word(), Mask(n.Width(), b))
      case _ => false
  }

  /** `valid_panel_ip_entry` */
  predicate ValidEntry(parse: Parser, entry: string) {
    var e := Trim(entry);
    match SplitOnce(e, '/')
    case None => parse(e).Some?
    case Some((net, bits)) =>
      match (parse(Trim(net)), ParseU32(Trim(bits)))
      case (Some(V4(_)), Some(b)) => b <= 32
      case (Some(V6(_)), Some(b)) => b <= 128
      case _ => false
  }

  /** A block covers exactly the addresses of its family that share its leading bits. */
  lemma BlockCovers(parse: Parser, entry: string, net: string, bits: string, client: IpAddr)
    requires SplitOnce(Trim(entry), '/') == Some((net, bits))
    ensures Covers(parse, entry, client) <==>
            && parse(Trim(net)).Some? && ParseU32(Trim(bits)).Some?
            && var n, b := parse(Trim(net)).value, ParseU32(Trim(bits)).value;
               && n.V4? == client.V4? && b <= client.Width()
               && Value(n.Word()) / Pow2(client.Width() - b) == Value(client.Word()) / Pow2(client.Width() - b)
  {
    hide Trim, SplitOnce, ParseU32, And, Mask, Value, Pow2;
    if parse(Trim(net)).Some? && ParseU32(Trim(bits)).Some? {
      var n, b := parse(Trim(net)).value, ParseU32(Trim(bits)).value;
      if n.V4? == client.V4? && b <= client.Width() {
        MaskTestIsPrefixEquality(n.Word(), client.Word(), b);
      }
    }
  }

  /**
    An entry passes validation exactly when some address is covered by it: what is accepted can never lock
    everyone out by itself.
   */
  lemma ValidIffCoversSomething(parse: Parser, entry: string)
    ensures ValidEntry(parse, entry) <==> exists client :: Covers(parse, entry, client)
  {
    if ValidEntry(parse, entry) {
      var client := match SplitOnce(Trim(entry), '/')
        case None => parse(Trim(entry)).value
        case Some((net, _)) => parse(Trim(net)).value;
      assert Covers(parse, entry, client);
    }
  }

  predicate AnyCovers(parse: Parser, entries: seq<string>, client: IpAddr) {
    entries != [] &&
    ((Trim(entries[0]) != [] && Covers(parse, Trim(entries[0]), client)) || AnyCovers(parse, entries[1..], client))
  }

  /** `panel_ip_allowed` */
  predicate PanelIpAllowed(parse: Parser, list: string, client: string) {
    var ip := parse(Trim(client));
    ip.Some? && AnyCovers(parse, SplitCommas(list), ip.value)
  }

  lemma {:induction false} AnyCoversExists(parse: Parser, entries: seq<string>, client: IpAddr)
    ensures AnyCovers(parse, entries, client) <==>
            exists k :: 0 <= k < |entries| && Trim(entries[k]) != [] && Covers(parse, entries[k], client)
  {
    if entries != [] {
      TrimTwice(entries[0]);
      AnyCoversExists(parse, entries[1..], client);
      assert forall k :: 0 <= k < |entries[1..]| ==> entries[1..][k] == entries[k + 1];
      if exists k :: 0 <= k < |entries| && Trim(entries[k]) != [] && Covers(parse, entries[k], client) {
        var k :| 0 <= k < |entries| && Trim(entries[k]) != [] && Covers(parse, entries[k], client);
        assert k > 0 ==> entries[1..][k - 1] == entries[k];
      }
    }
  }

  lemma TrimTwice(s: string)
    ensures Trim(Trim(s)) == Trim(s)
  {
    var w, v := TrimShape(s);
    TrimCore([], Trim(s), []);
    assert [] + Trim(s) + [] == Trim(s);
  }

  /** A list admits a client exactly when the client's address parses and some entry that is not blank covers it. */
  lemma ListAdmitsIffEntryCovers(parse: Parser, entries: seq<string>, client: string)
    requires entries != [] && forall k :: 0 <= k < |entries| ==> ',' !in entries[k]
    ensures PanelIpAllowed(parse, JoinBy(entries, ','), client) <==>
            && parse(Trim(client)).Some?
            && exists k :: 0 <= k < |entries| && Trim(entries[k]) != []
                           && Covers(parse, entries[k], parse(Trim(client)).value)
  {
    SplitsJoined(entries);
    if parse(Trim(client)).Some? {
      AnyCoversExists(parse, entries, parse(Trim(client)).value);
    }
  }
}

/** Internal addresses, and the four ways an IPv4 address is embedded in an IPv6 one. */
module InternalAddresses {

  datatype Ipv4 = Ipv4(a: bv8, b: bv8, c: bv8, d: bv8)
  datatype Ipv6 = Ipv6(s0: bv16, s1: bv16, s2: bv16, s3: bv16, s4: bv16, s5: bv16, s6: bv16, s7: bv16)

  /** `v4_is_internal` */
  predicate V4IsInternal(v: Ipv4) {
    || v.a == 127
    || v.a == 10 || (v.a == 172 && 16 <= v.b <= 31) || (v.a == 192 && v.b == 168)
    || (v.a == 169 && v.b == 254)
    || (v.a == 0 && v.b == 0 && v.c == 0 && v.d == 0)
    || (v.a == 255 && v.b == 255 && v.c == 255 && v.d == 255)
    || v.a == 169
    || (v.a == 100 && (v.b & 0xC0) == 0x40)
  }

  function High(s: bv16): bv8 { ((s >> 8) & 0xff) as bv8 }

  function Low(s: bv16): bv8 { (s & 0xff) as bv8 }

  /** `v6_is_internal` */
  predicate V6IsInternal(v: Ipv6) {
    var isLoopback := v == Ipv6(0, 0, 0, 0, 0, 0, 0, 1);
    var isUnspecified := v == Ipv6(0, 0, 0, 0, 0, 0, 0, 0);
    var lowV4 := Ipv4(High(v.s6), Low(v.s6), High(v.s7), Low(v.s7));
    var isMapped := v.s0 == 0 && v.s1 == 0 && v.s2 == 0 && v.s3 == 0 && v.s4 == 0 && v.s5 == 0xffff;
    var isNat64 := v.s0 == 0x0064 && v.s1 == 0xff9b && v.s2 == 0 && v.s3 == 0 && v.s4 == 0 && v.s5 == 0;
    var isV4Compat := v.s0 == 0 && v.s1 == 0 && v.s2 == 0 && v.s3 == 0 && v.s4 == 0 && v.s5 == 0;
    || isLoopback || isUnspecified
    || ((isMapped || isNat64 || isV4Compat) && V4IsInternal(lowV4))
    || (v.s0 == 0x2002 && V4IsInternal(Ipv4(High(v.s1), Low(v.s1), High(v.s2), Low(v.s2))))
    || (v.s0 & 0xfe00) == 0xfc00
    || (v.s0 & 0xffc0) == 0xfe80
  }

  function Segment(high: bv8, low: bv8): bv16 { ((high as bv16) << 8) | (low as bv16) }

  /** RFC 4291, section 2.5.5.2. */
  function Mapped(v: Ipv4): Ipv6 { Ipv6(0, 0, 0, 0, 0, 0xffff, Segment(v.a, v.b), Segment(v.c, v.d)) }

  /** RFC 6052, section 2.1: the well-known prefix. */
  function Nat64(v: Ipv4): Ipv6 { Ipv6(0x64, 0xff9b, 0, 0, 0, 0, Segment(v.a, v.b), Segment(v.c, v.d)) }

  /** RFC 4291, section 2.5.5.1. */
  function Compatible(v: Ipv4): Ipv6 { Ipv6(0, 0, 0, 0, 0, 0, Segment(v.a, v.b), Segment(v.c, v.d)) }

  /** RFC 3056, section 2: any subnet and interface below the embedded address. */
  function SixToFour(v: Ipv4, s3: bv16, s4: bv16, s5: bv16, s6: bv16, s7: bv16): Ipv6 {
    Ipv6(0x2002, Segment(v.a, v.b), Segment(v.c, v.d), s3, s4, s5, s6, s7)
  }

  lemma SegmentHalves(high: bv8, low: bv8)
    ensures High(Segment(high, low)) == high && Low(Segment(high, low)) == low
  {
  }

  /**
    An embedded address is internal exactly when the IPv4 address is — except that `::1`, the embedding of
    0.0.0.1, is the IPv6 loopback.
   */
  lemma EmbeddingsKeepInternal(v: Ipv4, s3: bv16, s4: bv16, s5: bv16, s6: bv16, s7: bv16)
    ensures V6IsInternal(Mapped(v)) <==> V4IsInternal(v)
    ensures V6IsInternal(Nat64(v)) <==> V4IsInternal(v)
    ensures V6IsInternal(SixToFour(v, s3, s4, s5, s6, s7)) <==> V4IsInternal(v)
    ensures V6IsInternal(Compatible(v)) <==> V4IsInternal(v) || v == Ipv4(0, 0, 0, 1)
  {
    SegmentHalves(v.a, v.b);
    SegmentHalves(v.c, v.d);
  }

  /** The masks are the documented blocks: 100.64.0.0/10, fc00::/7 and fe80::/10. */
  lemma MasksAreBlocks(b: bv8, s: bv16)
    ensures (b & 0xC0) == 0x40 <==> 64 <= b <= 127
    ensures (s & 0xfe00) == 0xfc00 <==> 0xfc00 <= s <= 0xfdff
    ensures (s & 0xffc0) == 0xfe80 <==> 0xfe80 <= s <= 0xfebf
  {
  }

  /** The address as one number. */
  function Number(v: Ipv4): nat {
    v.a as nat * 0x100_0000 + v.b as nat * 0x1_0000 + v.c as nat * 0x100 + v.d as nat
  }

  lemma CgnatBits(b: bv8)
    ensures (b & 0xC0) == 0x40 <==> 64 <= b as nat <= 127
  {
    MasksAreBlocks(b, 0);
  }

  lemma Halves(a: bv8, b: bv8)
    ensures a == 172 <==> a as nat == 172
    ensures 16 <= b <= 31 <==> 16 <= b as nat <= 31
  {
  }

  /** The internal IPv4 addresses are 127/8, 10/8, 172.16/12, 192.168/16, 169/8, 100.64/10 and two hosts. */
  lemma InternalV4AreBlocks(v: Ipv4)
    ensures V4IsInternal(v) <==>
            || 0x7f00_0000 <= Number(v) <= 0x7fff_ffff
            || 0x0a00_0000 <= Number(v) <= 0x0aff_ffff
            || 0xac10_0000 <= Number(v) <= 0xac1f_ffff
            || 0xc0a8_0000 <= Number(v) <= 0xc0a8_ffff
            || 0xa900_0000 <= Number(v) <= 0xa9ff_ffff
            || 0x6440_0000 <= Number(v) <= 0x647f_ffff
            || Number(v) == 0 || Number(v) == 0xffff_ffff
  {
    CgnatBits(v.b);
    Halves(v.a, v.b);
  }

  lemma WholeSegment(s: bv16)
    ensures Segment(High(s), Low(s)) == s
  {
  }

  /** The address embeds this IPv4 address in one of the four ways. */
  predicate Embeds(v: Ipv6, u: Ipv4) {
    v == Mapped(u) || v == Nat64(u) || v == Compatible(u) || v == SixToFour(u, v.s3, v.s4, v.s5, v.s6, v.s7)
  }

  /** The internal IPv6 addresses: the loopback, fc00::/7, fe80::/10, and what embeds an internal IPv4 address. */
  lemma InternalV6Iff(v: Ipv6)
    ensures V6IsInternal(v) <==>
            || v == Ipv6(0, 0, 0, 0, 0, 0, 0, 1)
            || 0xfc00 <= v.s0 <= 0xfdff || 0xfe80 <= v.s0 <= 0xfebf
            || exists u :: Embeds(v, u) && V4IsInternal(u)
  {
    hide V4IsInternal, V6IsInternal, Embeds;
    MasksAreBlocks(0, v.s0);
    if v == Ipv6(0, 0, 0, 0, 0, 0, 0, 1) || (v.s0 & 0xfe00) == 0xfc00 || (v.s0 & 0xffc0) == 0xfe80 {
      NamedAreInternal(v);
    }
    if V6IsInternal(v) {
      InternalEmbeds(v);
    }
    forall u | Embeds(v, u) && V4IsInternal(u) ensures V6IsInternal(v) {
      EmbedderIsInternal(v, u);
    }
  }

  lemma NamedAreInternal(v: Ipv6)
    requires v == Ipv6(0, 0, 0, 0, 0, 0, 0, 1) || (v.s0 & 0xfe00) == 0xfc00 || (v.s0 & 0xffc0) == 0xfe80
    ensures V6IsInternal(v)
  {
    hide V4IsInternal, High, Low;
  }

  lemma EmbedderIsInternal(v: Ipv6, u: Ipv4)
    requires Embeds(v, u) && V4IsInternal(u)
    ensures V6IsInternal(v)
  {
    hide V4IsInternal, V6IsInternal, Segment;
    EmbeddingsKeepInternal(u, v.s3, v.s4, v.s5, v.s6, v.s7);
  }

  lemma InternalEmbeds(v: Ipv6)
    requires V6IsInternal(v)
    ensures v == Ipv6(0, 0, 0, 0, 0, 0, 0, 1) || (v.s0 & 0xfe00) == 0xfc00 || (v.s0 & 0xffc0) == 0xfe80
            || exists u :: Embeds(v, u) && V4IsInternal(u)
  {
    hide V4IsInternal, Segment, High, Low;
    WholeSegment(v.s6);
    WholeSegment(v.s7);
    WholeSegment(v.s1);
    WholeSegment(v.s2);
    var low := Ipv4(High(v.s6), Low(v.s6), High(v.s7), Low(v.s7));
    var high := Ipv4(High(v.s1), Low(v.s1), High(v.s2), Low(v.s2));
    ZeroIsInternal();
    ZeroEmbedded();
    assert v.s0 == 0x2002 ==> v == SixToFour(high, v.s3, v.s4, v.s5, v.s6, v.s7);
    assert v.s0 == 0x2002 ==> Embeds(v, high);
  }

  lemma ZeroIsInternal()
    ensures V4IsInternal(Ipv4(0, 0, 0, 0))
  {
  }

  lemma ZeroEmbedded()
    ensures Embeds(Ipv6(0, 0, 0, 0, 0, 0, 0, 0), Ipv4(0, 0, 0, 0))
  {
  }
}
