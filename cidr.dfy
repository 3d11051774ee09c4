/**
 * CIDR blocks as Python's `ipaddress.IPv4Network(text, strict=False)` reads
 * them, their network and broadcast addresses (section 3.1 of RFC 4632:
 * network = base AND mask, broadcast = network OR NOT mask) and the
 * addresses `hosts()` yields.
 */
module Cidr {
  import opened Wrappers
  import opened Text
  import opened IPv4

  /** A prefix length. */
  type Prefix = p: int | 0 <= p <= 32

  function Pow2(k: nat): (r: nat)
    ensures r >= 1
  {
    if k == 0 then 1 else 2 * Pow2(k - 1)
  }

  /** Bitwise AND of two naturals, bit by bit from the least significant end. */
  function BitAnd(a: nat, b: nat): nat
    decreases a
  {
    if a == 0 || b == 0 then 0
    else 2 * BitAnd(a / 2, b / 2) + (if a % 2 == 1 && b % 2 == 1 then 1 else 0)
  }

  /** Bitwise OR of two naturals, bit by bit from the least significant end. */
  function BitOr(a: nat, b: nat): nat
    decreases a
  {
    if a == 0 then b
    else if b == 0 then a
    else 2 * BitOr(a / 2, b / 2) + (if a % 2 == 1 || b % 2 == 1 then 1 else 0)
  }

  /** `2^k` grows with `k`, doubling at least once per step. */
  lemma {:induction false} Pow2Grows(k: nat, n: nat)
    requires k < n
    ensures 2 * Pow2(k) <= Pow2(n)
  {
    if k + 1 < n {
      Pow2Grows(k, n - 1);
    }
  }

  lemma Pow2Below(k: nat, n: nat)
    requires k <= n
    ensures Pow2(k) <= Pow2(n)
    ensures 0 < k ==> Pow2(k) % 2 == 0 && Pow2(k) >= 2
  {
    if k < n {
      Pow2Grows(k, n);
    }
    if 0 < k {
      var h := Pow2(k - 1);
      assert Pow2(k) == 2 * h;
    }
  }

  lemma Pow2Full()
    ensures Pow2(32) == AddressCount
  {
    assert Pow2(2) == 4;
    assert Pow2(4) == 16;
    assert Pow2(8) == 256 by {
      assert Pow2(6) == 64;
    }
    assert Pow2(12) == 4096 by {
      assert Pow2(10) == 1024;
    }
    assert Pow2(16) == 65536 by {
      assert Pow2(14) == 16384;
    }
    assert Pow2(20) == 0x10_0000 by {
      assert Pow2(18) == 0x4_0000;
    }
    assert Pow2(24) == 0x100_0000 by {
      assert Pow2(22) == 0x40_0000;
    }
    assert Pow2(28) == 0x1000_0000 by {
      assert Pow2(26) == 0x400_0000;
    }
    assert Pow2(30) == 0x4000_0000;
  }

  /** Number of addresses in a block of prefix length `p`. */
  function BlockSize(p: Prefix): (r: nat)
    ensures 1 <= r <= AddressCount
    ensures p < 32 ==> r % 2 == 0 && r >= 2
  {
    Pow2Full();
    Pow2Below(32 - p, 32);
    Pow2(32 - p)
  }

  /** The netmask: `p` one bits followed by `32 - p` zero bits. */
  function MaskValue(p: Prefix): Addr
  {
    AddressCount - BlockSize(p)
  }

  /** The hostmask, `NOT mask` in 32 bits. */
  function HostMask(p: Prefix): Addr
  {
    BlockSize(p) - 1
  }

  /** A positive multiple of `m` is at least `m`. */
  lemma {:induction false} MulAtLeast(m: nat, d: nat)
    requires d >= 1
    ensures m * d >= m
  {
    if d > 1 {
      MulAtLeast(m, d - 1);
      assert m * d == m * (d - 1) + m;
    }
  }

  /** `a % m` is the remainder of any division `a == m * u + w` with `0 <= w < m`. */
  lemma ModUnique(a: nat, m: nat, u: nat, w: nat)
    requires m > 0 && a == m * u + w && w < m
    ensures a % m == w && a / m == u
  {
    var q, r := a / m, a % m;
    assert m * q + r == m * u + w;
    if q > u {
      var d := q - u;
      assert m * q == m * u + m * d;
      MulAtLeast(m, d);
      assert false;
    } else if q < u {
      var d := u - q;
      assert m * u == m * q + m * d;
      MulAtLeast(m, d);
      assert false;
    }
  }

  /** Taking the low `k` bits, split off the lowest one. */
  lemma ModPow2Step(a: nat, k: nat)
    requires k > 0
    ensures a % Pow2(k) == a % 2 + 2 * ((a / 2) % Pow2(k - 1))
  {
    var P := Pow2(k - 1);
    var q := a / 2;
    var u, v := q / P, q % P;
    assert q == P * u + v;
    assert a == (2 * P) * u + (2 * v + a % 2);
    ModUnique(a, Pow2(k), u, 2 * v + a % 2);
  }

  /** AND with all ones below bit `n` keeps a number below `2^n`. */
  lemma {:induction false} AndAllOnes(a: nat, n: nat)
    requires a < Pow2(n)
    ensures BitAnd(a, Pow2(n) - 1) == a
  {
    if a > 0 && n > 0 {
      AndAllOnes(a / 2, n - 1);
    }
  }

  /** The value of the low `k` bits of `a`, bit by bit. */
  function LowBits(a: nat, k: nat): nat
  {
    if k == 0 then 0 else a % 2 + 2 * LowBits(a / 2, k - 1)
  }

  /** The low `k` bits are the remainder modulo `2^k`. */
  lemma {:induction false} LowBitsMod(a: nat, k: nat)
    ensures LowBits(a, k) == a % Pow2(k)
  {
    if k > 0 {
      LowBitsMod(a / 2, k - 1);
      ModPow2Step(a, k);
    }
  }

  /** A number below `2^k` is its own low `k` bits. */
  lemma {:induction false} LowBitsBelow(a: nat, k: nat)
    requires a < Pow2(k)
    ensures LowBits(a, k) == a
  {
    if k > 0 {
      LowBitsBelow(a / 2, k - 1);
    }
  }

  /** AND with `n - k` high ones and `k` low zeros clears the low `k` bits. */
  lemma {:induction false} AndMask(a: nat, n: nat, k: nat)
    requires k <= n && a < Pow2(n)
    ensures Pow2(k) <= Pow2(n)
    ensures BitAnd(a, Pow2(n) - Pow2(k)) == a - LowBits(a, k)
  {
    if k == 0 {
      AndAllOnes(a, n);
    } else if n == k {
      LowBitsBelow(a, k);
    } else {
      Pow2Below(k, n);
      var m, m2 := Pow2(n) - Pow2(k), Pow2(n - 1) - Pow2(k - 1);
      HalveMask(n, k);
      AndEven(a, m, m2);
      AndMask(a / 2, n - 1, k - 1);
    }
  }

  /** The mask with `n - k` high ones and `k` low zeros, halved, is the one with one bit fewer of each. */
  lemma HalveMask(n: nat, k: nat)
    requires 0 < k < n
    ensures Pow2(n) - Pow2(k) > 0 && (Pow2(n) - Pow2(k)) % 2 == 0
    ensures (Pow2(n) - Pow2(k)) / 2 == Pow2(n - 1) - Pow2(k - 1)
  {
    Pow2Grows(k - 1, n - 1);
    var P, Q := Pow2(n - 1), Pow2(k - 1);
    ModUnique(Pow2(n) - Pow2(k), 2, P - Q, 0);
  }

  /** AND with an even number: the lowest bit is zero, the rest is AND of the halves. */
  lemma AndEven(a: nat, m: nat, half: nat)
    requires m > 0 && m % 2 == 0 && m / 2 == half
    ensures BitAnd(a, m) == 2 * BitAnd(a / 2, half)
  {
  }

  /** OR with `k` low ones fills the low bits of a multiple of `2^k`. */
  lemma {:induction false} OrLowOnes(a: nat, k: nat)
    requires a % Pow2(k) == 0
    ensures BitOr(a, Pow2(k) - 1) == a + Pow2(k) - 1
  {
    if k > 0 && a > 0 {
      ModPow2Step(a, k);
      var b := Pow2(k) - 1;
      assert b % 2 == 1 && b / 2 == Pow2(k - 1) - 1;
      OrLowOnes(a / 2, k - 1);
      assert BitOr(a, b) == 2 * BitOr(a / 2, b / 2) + 1;
    }
  }

  /** Rounding down to a multiple of `B` stays a whole block below a multiple `B * N`. */
  lemma RoundDown(x: nat, B: nat, N: nat)
    requires B > 0 && x < B * N
    ensures (x - x % B) % B == 0
    ensures x - x % B + B <= B * N
  {
    var q := x / B;
    assert x == B * q + x % B;
    ModUnique(x - x % B, B, q, 0);
    MulBelow(B, q, N);
    var e := N - q;
    assert B * N == B * q + B * e;
    MulAtLeast(B, e);
  }

  /** A multiple `B * q` below `B * N` has `q < N`. */
  lemma MulBelow(B: nat, q: nat, N: nat)
    requires B > 0 && B * q < B * N
    ensures q < N
  {
  }

  /** Block size times block count is the address space. */
  lemma {:induction false} BlockCount(p: Prefix)
    ensures BlockSize(p) * Pow2(p) == AddressCount
  {
    Pow2Add(32 - p, p);
    Pow2Full();
  }

  lemma {:induction false} Pow2Add(a: nat, b: nat)
    ensures Pow2(a + b) == Pow2(a) * Pow2(b)
  {
    if a > 0 {
      Pow2Add(a - 1, b);
    }
  }

  /**
   * `base AND mask`, the network address of the block of prefix length `p`
   * holding `base`: the largest multiple of the block size not above `base`.
   */
  function NetworkAddress(base: Addr, p: Prefix): (r: Addr)
    ensures r <= base < r + BlockSize(p)
    ensures r + BlockSize(p) <= AddressCount
  {
    MaskAnd(base, p);
    BlockRoom(base, p);
    BitAnd(base, MaskValue(p))
  }

  /** AND with the netmask rounds down to a multiple of the block size. */
  lemma MaskAnd(base: Addr, p: Prefix)
    ensures BitAnd(base, MaskValue(p)) == base - base % BlockSize(p)
  {
    var k := 32 - p;
    Pow2Full();
    assert MaskValue(p) == Pow2(32) - Pow2(k);
    AndMask(base, 32, k);
    assert BitAnd(base, MaskValue(p)) == base - LowBits(base, k);
    LowBitsMod(base, k);
    assert BlockSize(p) == Pow2(k);
  }

  /** Rounding down to a multiple of the block size leaves room for a whole block. */
  lemma BlockRoom(base: Addr, p: Prefix)
    ensures (base - base % BlockSize(p)) % BlockSize(p) == 0
    ensures base - base % BlockSize(p) + BlockSize(p) <= AddressCount
  {
    BlockCount(p);
    RoundDown(base, BlockSize(p), Pow2(p));
  }

  /** The network address is a multiple of the block size. */
  lemma NetworkAligned(base: Addr, p: Prefix)
    ensures NetworkAddress(base, p) % BlockSize(p) == 0
  {
    MaskAnd(base, p);
    BlockRoom(base, p);
  }

  /** Two multiples of `B` less than `B` apart are equal. */
  lemma AlignedUnique(x: nat, y: nat, B: nat)
    requires B > 0 && x % B == 0 && y % B == 0 && y <= x < y + B
    ensures x == y
  {
    var j := y / B;
    assert y == B * j + y % B;
    ModUnique(x, B, j, x - y);
  }

  /** An address already cleared of host bits is its own network address. */
  lemma NetworkIdempotent(base: Addr, p: Prefix)
    ensures NetworkAddress(NetworkAddress(base, p), p) == NetworkAddress(base, p)
  {
    var x := NetworkAddress(base, p);
    NetworkAligned(base, p);
    NetworkAligned(x, p);
    AlignedUnique(x, NetworkAddress(x, p), BlockSize(p));
  }

  /** `network OR NOT mask`, the broadcast address: the last address of the block. */
  function BroadcastAddress(base: Addr, p: Prefix): (r: Addr)
    ensures r == NetworkAddress(base, p) + BlockSize(p) - 1
  {
    NetworkAligned(base, p);
    OrLowOnes(NetworkAddress(base, p), 32 - p);
    BitOr(NetworkAddress(base, p), HostMask(p))
  }

  /** An `IPv4Network` object: its network address (host bits already cleared) and prefix length. */
  datatype Network = Network(address: Addr, prefix: Prefix)

  /** Which `hosts()` the running CPython has for the two smallest blocks. */
  datatype HostsRule =
    /** Newer CPython: a /31 yields both its addresses (RFC 3021), a /32 its one address. */
    | PointToPoint
    /** Older CPython: every block yields `range(network + 1, broadcast)`, so /31 and /32 yield nothing. */
    | Classic

  /** The addresses `n.hosts()` yields under `rule`, stated without reference to how they are enumerated. */
  predicate IsHost(x: int, n: Network, rule: HostsRule)
  {
    var net := NetworkAddress(n.address, n.prefix);
    var bcast := BroadcastAddress(n.address, n.prefix);
    (net < x < bcast) || (rule == PointToPoint && n.prefix >= 31 && net <= x <= bcast)
  }

  /** A half-open range `[lo, hi)` of address values, empty when `hi <= lo`. */
  datatype Span = Span(lo: int, hi: int)

  /** The values `n.hosts()` yields, in increasing order, as the range of its loop. */
  function HostSpan(n: Network, rule: HostsRule): (r: Span)
    ensures 0 <= r.lo && r.hi <= AddressCount
    ensures forall x :: IsHost(x, n, rule) <==> r.lo <= x < r.hi
  {
    var net := NetworkAddress(n.address, n.prefix);
    var bcast := BroadcastAddress(n.address, n.prefix);
    if rule == PointToPoint && n.prefix == 31 then Span(net, bcast + 1)
    else if rule == PointToPoint && n.prefix == 32 then Span(n.address, n.address + 1)
    else Span(net + 1, bcast)
  }

  /** For prefix lengths up to 30, under either rule, `hosts()` is the block without its network and broadcast addresses. */
  lemma HostsExcludeEnds(n: Network, rule: HostsRule)
    requires n.prefix <= 30
    ensures !IsHost(NetworkAddress(n.address, n.prefix), n, rule)
    ensures !IsHost(BroadcastAddress(n.address, n.prefix), n, rule)
    ensures HostSpan(n, rule).hi - HostSpan(n, rule).lo == BlockSize(n.prefix) - 2
  {
    Pow2Below(2, 32 - n.prefix);
  }

  /** Under either rule every address `hosts()` yields lies in the block. */
  lemma HostsInsideBlock(x: int, n: Network, rule: HostsRule)
    requires IsHost(x, n, rule)
    ensures NetworkAddress(n.address, n.prefix) <= x <= BroadcastAddress(n.address, n.prefix)
  {
  }

  /** A /31 yields both its addresses under the newer rule and none under the older. */
  lemma HostsOf31(n: Network, rule: HostsRule)
    requires n.prefix == 31
    ensures var s := HostSpan(n, rule);
            s.hi - s.lo == (if rule == PointToPoint then 2 else 0)
  {
  }

  /** A /32 yields its one address under the newer rule and none under the older. */
  lemma HostsOf32(n: Network, rule: HostsRule)
    requires n.prefix == 32
    ensures IsHost(n.address, n, rule) <==> rule == PointToPoint
    ensures forall x :: IsHost(x, n, rule) ==> x == n.address
  {
  }

  /** The netmask of prefix length `p`, searched from `p0` up. */
  function PrefixOfMaskFrom(m: int, p0: Prefix): (r: Option<Prefix>)
    ensures r.Some? ==> p0 <= r.value && MaskValue(r.value) == m
    decreases 32 - p0
  {
    if MaskValue(p0) == m then Some(p0)
    else if p0 == 32 then None
    else PrefixOfMaskFrom(m, p0 + 1)
  }

  /** The prefix length whose netmask is `m`, if `m` is a netmask (`_prefix_from_ip_int`). */
  function PrefixOfMask(m: int): (r: Option<Prefix>)
    ensures r.Some? ==> MaskValue(r.value) == m
  {
    PrefixOfMaskFrom(m, 0)
  }

  /** The search from `p0` up fails only when no prefix length from `p0` on has netmask `m`. */
  lemma {:induction false} PrefixOfMaskFromNone(m: int, p0: Prefix)
    ensures PrefixOfMaskFrom(m, p0).None? <==> forall q: Prefix :: p0 <= q ==> MaskValue(q) != m
    decreases 32 - p0
  {
    if MaskValue(p0) != m && p0 < 32 {
      PrefixOfMaskFromNone(m, p0 + 1);
    }
  }

  /** `m` is a netmask exactly when the search finds a prefix length for it. */
  lemma PrefixOfMaskNone(m: int)
    ensures PrefixOfMask(m).None? <==> forall q: Prefix :: MaskValue(q) != m
  {
    PrefixOfMaskFromNone(m, 0);
  }

  /**
   * The text after '/': a prefix length in ASCII digits (leading zeros allowed),
   * or else a dotted netmask, or else a dotted hostmask.
   */
  function ParsePrefix(s: string): Result<Prefix, Error>
  {
    if s != [] && AllDigits(s) then
      if DecimalValue(s) <= 32 then Success(DecimalValue(s)) else Failure(NetmaskValueError)
    else
      match Parse(s)
      case None => Failure(NetmaskValueError)
      case Some(m) =>
        match PrefixOfMask(m)
        case Some(p) => Success(p)
        case None =>
          match PrefixOfMask(AddressCount - 1 - m)
          case Some(p) => Success(p)
          case None => Failure(NetmaskValueError)
  }

  /** `IPv4Network(t, strict=False)`: a base address, then an optional '/' and a prefix, host bits of the base cleared. */
  function ParseNetwork(t: string): (r: Result<Network, Error>)
    ensures r.Success? ==> NetworkAddress(r.value.address, r.value.prefix) == r.value.address
  {
    var parts := Split(t, '/');
    if |parts| > 2 then Failure(AddressValueError)
    else
      match Parse(parts[0])
      case None => Failure(AddressValueError)
      case Some(base) =>
        match (if |parts| == 1 then Success(32) else ParsePrefix(parts[1]))
        case Failure(e) => Failure(e)
        case Success(p) =>
          NetworkIdempotent(base, p);
          Success(Network(NetworkAddress(base, p), p))
  }

  /** The decimal text of a prefix length. */
  function PrefixText(p: Prefix): string
  {
    OctetText(p)
  }

  lemma PrefixTextRoundTrip(p: Prefix)
    ensures ParsePrefix(PrefixText(p)) == Success(p)
    ensures '/' !in PrefixText(p)
  {
    OctetTextRoundTrip(p);
  }

  /** Non-strict parsing: a base with host bits set is masked to its network, not rejected. */
  lemma NonStrict(base: Addr, p: Prefix)
    ensures ParseNetwork(Format(base) + "/" + PrefixText(p)) == Success(Network(NetworkAddress(base, p), p))
  {
    var parts := [Format(base), PrefixText(p)];
    FormatChars(base);
    assert !AddressChar('/');
    PrefixTextRoundTrip(p);
    assert Join(parts, '/') == Format(base) + "/" + PrefixText(p);
    SplitJoin(parts, '/');
    ParseFormat(base);
  }

  /** Masks of distinct prefix lengths differ. */
  lemma MaskInjective(p: Prefix, q: Prefix)
    requires p < q
    ensures MaskValue(p) < MaskValue(q)
  {
    Pow2Grows(32 - q, 32 - p);
  }

  /** A dotted netmask after '/' gives its prefix length. */
  lemma DottedNetmask(p: Prefix)
    ensures ParsePrefix(Format(MaskValue(p))) == Success(p)
  {
    var m := MaskValue(p);
    FormatChars(m);
    assert Format(m)[1] == '.' || Format(m)[2] == '.' || Format(m)[3] == '.';
    ParseFormat(m);
    PrefixOfMaskNone(m);
    assert PrefixOfMask(m).Some?;
    var q := PrefixOfMask(m).value;
    if q < p { MaskInjective(q, p); } else if p < q { MaskInjective(p, q); }
  }
}
