/**
 * `expand_ip_ranges`: each range token is read as a CIDR block, an
 * inclusive start-end interval or a bare entry, chosen by the characters it
 * holds; the distinct address texts they denote are gathered in one set. A
 * token that raises while it is read contributes nothing.
 */
module Expander {
  import opened Wrappers
  import opened Text
  import opened IPv4
  import opened Cidr

  /** What one token was read as. */
  datatype Range =
    /** A token holding '/': a CIDR block. */
    | Block(net: Network)
    /** A token holding '-' but no '/': the values `first` to `last`, both included. */
    | Interval(first: Addr, last: Addr)
    /** Any other token: its stripped text, not checked to be an address. */
    | Single(text: string)

  /** How a token is read, or the error raised while reading it. Nothing is added before this completes. */
  function ParseRange(t: string): (r: Result<Range, Error>)
    ensures '/' in t ==> r.Success? ==> r.value.Block?
    ensures '/' !in t && '-' in t ==> r.Success? ==> r.value.Interval?
    ensures '/' !in t && '-' !in t ==> r == Success(Single(Strip(t)))
  {
    if '/' in t then
      match ParseNetwork(t)
      case Failure(e) => Failure(e)
      case Success(n) => Success(Block(n))
    else if '-' in t then
      var sides := Split(t, '-');
      if |sides| != 2 then Failure(UnpackError)
      else
        match (Parse(Strip(sides[0])), Parse(Strip(sides[1])))
        case (Some(a), Some(b)) => Success(Interval(a, b))
        case _ => Failure(AddressValueError)
    else Success(Single(Strip(t)))
  }

  /** The texts of the address values in `[lo, hi)`. */
  function AddrTexts(lo: int, hi: int): set<string>
    requires 0 <= lo && hi <= AddressCount
  {
    Image(Format, lo, hi)
  }

  /** The images under `f` of the values in `[lo, hi)`. */
  function Image(f: Addr -> string, lo: int, hi: int): set<string>
  {
    set x: Addr | lo <= x < hi :: f(x)
  }

  /** An injective `f` maps `[lo, hi)` to `hi - lo` distinct images. */
  lemma {:induction false} ImageCount(f: Addr -> string, lo: int, hi: int)
    requires 0 <= lo && hi <= AddressCount
    requires forall x: Addr, y: Addr :: f(x) == f(y) ==> x == y
    ensures |Image(f, lo, hi)| == if lo <= hi then hi - lo else 0
    decreases hi - lo
  {
    if hi <= lo {
      assert Image(f, lo, hi) == {};
    } else {
      ImageCount(f, lo, hi - 1);
      assert Image(f, lo, hi) == Image(f, lo, hi - 1) + {f(hi - 1)};
    }
  }

  /** The texts a read token denotes. */
  function Denote(r: Range, rule: HostsRule): set<string>
  {
    match r
    case Block(n) => var s := HostSpan(n, rule); AddrTexts(s.lo, s.hi)
    case Interval(a, b) => AddrTexts(a, b + 1)
    case Single(text) => {text}
  }

  /** What token `t` adds to the set: all it denotes, or nothing when reading it raised. */
  function Contribution(t: string, rule: HostsRule): set<string>
  {
    match ParseRange(t)
    case Success(r) => Denote(r, rule)
    case Failure(_) => {}
  }

  /** The union of the contributions of all tokens in `tokens`. */
  function Expansion(tokens: set<string>, rule: HostsRule): set<string>
  {
    set t, a | t in tokens && a in Contribution(t, rule) :: a
  }

  /** `for ip_int in range(lo, hi): ips.add(str(IPv4Address(ip_int)))`. */
  method AddTexts(ips: set<string>, lo: int, hi: int) returns (r: set<string>)
    requires 0 <= lo && hi <= AddressCount
    ensures r == ips + AddrTexts(lo, hi)
  {
    r := ips;
    var x := lo;
    while x < hi
      invariant lo <= x && (lo <= hi ==> x <= hi)
      invariant r == ips + AddrTexts(lo, if x < hi then x else hi)
    {
      r := r + {Format(x)};
      x := x + 1;
    }
  }

  /**
   * The body of the loop over tokens: read the token, then add what it
   * denotes; an error raised while reading is caught and nothing is added.
   */
  method AddToken(ips: set<string>, t: string, rule: HostsRule) returns (r: set<string>)
    ensures r == ips + Contribution(t, rule)
  {
    r := ips;
    match ParseRange(t) {
      case Failure(_) =>
      case Success(Block(n)) =>
        var span := HostSpan(n, rule);
        r := AddTexts(ips, span.lo, span.hi);
      case Success(Interval(a, b)) =>
        r := AddTexts(ips, a, b + 1);
      case Success(Single(text)) =>
        r := ips + {text};
    }
  }

  /**
   * `expand_ip_ranges(ip_ranges)` over the set `main` passes it. The tokens are
   * taken in an unspecified order (the set's iteration order); the result does
   * not depend on it.
   */
  method ExpandIpRanges(ipRanges: set<string>, rule: HostsRule) returns (ips: set<string>)
    ensures ips == Expansion(ipRanges, rule)
  {
    ips := {};
    var rest := ipRanges;
    while rest != {}
      invariant rest <= ipRanges
      invariant ips == Expansion(ipRanges - rest, rule)
      decreases rest
    {
      var t :| t in rest;
      ips := AddToken(ips, t, rule);
      ExpansionAdd(ipRanges - rest, t, rule);
      assert ipRanges - (rest - {t}) == (ipRanges - rest) + {t};
      rest := rest - {t};
    }
  }

  /** Adding one token adds exactly its contribution. */
  lemma ExpansionAdd(tokens: set<string>, t: string, rule: HostsRule)
    ensures Expansion(tokens + {t}, rule) == Expansion(tokens, rule) + Contribution(t, rule)
  {
  }

  /** Which texts are in `AddrTexts(lo, hi)`: exactly the canonical texts of values in `[lo, hi)`. */
  lemma AddrTextsHas(lo: int, hi: int, s: string)
    requires 0 <= lo && hi <= AddressCount
    ensures s in AddrTexts(lo, hi) <==> Parse(s).Some? && lo <= Parse(s).value < hi
  {
    if s in AddrTexts(lo, hi) {
      var x :| lo <= x < hi && s == Format(x);
      ParseFormat(x);
    }
    if Parse(s).Some? && lo <= Parse(s).value < hi {
      FormatParse(s);
    }
  }

  /** `[lo, hi)` gives `hi - lo` distinct texts. */
  lemma AddrTextsCount(lo: int, hi: int)
    requires 0 <= lo && hi <= AddressCount
    ensures |AddrTexts(lo, hi)| == if lo <= hi then hi - lo else 0
  {
    forall x: Addr, y: Addr | Format(x) == Format(y) ensures x == y {
      FormatInjective(x, y);
    }
    ImageCount(Format, lo, hi);
  }

  /** How a token holding '-' but no '/' is read: split on '-', two sides, each stripped and parsed. */
  lemma DashBranch(t: string)
    requires '/' !in t && '-' in t
    ensures ParseRange(t) ==
              var sides := Split(t, '-');
              if |sides| != 2 then Failure(UnpackError)
              else if Parse(Strip(sides[0])).Some? && Parse(Strip(sides[1])).Some? then
                Success(Interval(Parse(Strip(sides[0])).value, Parse(Strip(sides[1])).value))
              else Failure(AddressValueError)
  {
  }

  /** How "A-B" is read when its sides hold no '-' or '/' and strip to valid addresses. */
  lemma IntervalReads(t: string, sideA: string, sideB: string, a: Addr, b: Addr)
    requires t == sideA + "-" + sideB
    requires '-' !in sideA && '-' !in sideB && '/' !in sideA && '/' !in sideB
    requires Parse(Strip(sideA)) == Some(a) && Parse(Strip(sideB)) == Some(b)
    ensures ParseRange(t) == Success(Interval(a, b))
  {
    SplitTwo(sideA, sideB, '-');
    JoinedHas(sideA, sideB, '-', '/');
    DashBranch(t);
  }

  /** What "A-B" adds: the texts of the values from `a` to `b`. */
  lemma IntervalContribution(t: string, sideA: string, sideB: string, a: Addr, b: Addr, rule: HostsRule)
    requires t == sideA + "-" + sideB
    requires '-' !in sideA && '-' !in sideB && '/' !in sideA && '/' !in sideB
    requires Parse(Strip(sideA)) == Some(a) && Parse(Strip(sideB)) == Some(b)
    ensures Contribution(t, rule) == AddrTexts(a, b + 1)
  {
    IntervalReads(t, sideA, sideB, a, b);
  }

  /**
   * The values from `a` to `b`, both included, give exactly their own texts:
   * `b - a + 1` of them, and none when `a > b`.
   */
  lemma IntervalTexts(a: Addr, b: Addr)
    ensures forall s :: s in AddrTexts(a, b + 1) <==> Parse(s).Some? && a <= Parse(s).value <= b
    ensures |AddrTexts(a, b + 1)| == if a <= b then b - a + 1 else 0
    ensures a <= b ==> Format(a) in AddrTexts(a, b + 1) && Format(b) in AddrTexts(a, b + 1)
    ensures a > b ==> AddrTexts(a, b + 1) == {}
  {
    forall s ensures s in AddrTexts(a, b + 1) <==> Parse(s).Some? && a <= Parse(s).value <= b {
      AddrTextsHas(a, b + 1, s);
    }
    AddrTextsCount(a, b + 1);
    if a <= b {
      ParseFormat(a);
      ParseFormat(b);
    }
  }

  /**
   * An interval token "A-B" whose stripped sides parse to `a` and `b` adds
   * the texts of exactly the values from `a` to `b`, both included:
   * `b - a + 1` distinct texts, and nothing when `a > b` (no swap).
   */
  lemma IntervalToken(t: string, sideA: string, sideB: string, a: Addr, b: Addr, rule: HostsRule)
    requires t == sideA + "-" + sideB
    requires '-' !in sideA && '-' !in sideB && '/' !in sideA && '/' !in sideB
    requires Parse(Strip(sideA)) == Some(a) && Parse(Strip(sideB)) == Some(b)
    ensures forall s :: s in Contribution(t, rule) <==> Parse(s).Some? && a <= Parse(s).value <= b
    ensures |Contribution(t, rule)| == if a <= b then b - a + 1 else 0
    ensures a <= b ==> Format(a) in Contribution(t, rule) && Format(b) in Contribution(t, rule)
    ensures a > b ==> Contribution(t, rule) == {}
  {
    IntervalContribution(t, sideA, sideB, a, b, rule);
    IntervalTexts(a, b);
  }

  /** A '-' token (no '/') that does not split into exactly two sides raises on unpacking and adds nothing. */
  lemma IntervalUnpackFails(t: string, rule: HostsRule)
    requires '/' !in t && multiset(t)['-'] >= 2
    ensures ParseRange(t) == Failure(UnpackError)
    ensures Contribution(t, rule) == {}
  {
    SplitCount(t, '-');
  }

  /**
   * '/' takes precedence over '-': a token holding '/' is read only as a CIDR
   * block. It adds nothing if the block does not parse, and otherwise exactly
   * the addresses `hosts()` yields for it.
   */
  lemma CidrToken(t: string, rule: HostsRule)
    requires '/' in t
    ensures ParseNetwork(t).Failure? ==> Contribution(t, rule) == {}
    ensures ParseNetwork(t).Success? ==>
              forall s :: s in Contribution(t, rule) <==>
                Parse(s).Some? && IsHost(Parse(s).value, ParseNetwork(t).value, rule)
  {
    if ParseNetwork(t).Success? {
      var n := ParseNetwork(t).value;
      var span := HostSpan(n, rule);
      forall s ensures s in Contribution(t, rule) <==> Parse(s).Some? && IsHost(Parse(s).value, n, rule) {
        AddrTextsHas(span.lo, span.hi, s);
      }
    }
  }

  /** How "base/p" is read: as the block of `base` with host bits cleared. */
  lemma CidrReads(base: Addr, p: Prefix)
    ensures ParseRange(Format(base) + "/" + PrefixText(p)) == Success(Block(Network(NetworkAddress(base, p), p)))
  {
    var t := Format(base) + "/" + PrefixText(p);
    NonStrict(base, p);
    assert t[|Format(base)|] == '/';
  }

  /**
   * A CIDR token "base/p" is read non-strictly: host bits in the base are
   * cleared, so it adds the same as its network's token.
   */
  lemma CidrTokenNonStrict(base: Addr, p: Prefix, rule: HostsRule)
    ensures Contribution(Format(base) + "/" + PrefixText(p), rule)
            == Contribution(Format(NetworkAddress(base, p)) + "/" + PrefixText(p), rule)
  {
    CidrReads(base, p);
    CidrReads(NetworkAddress(base, p), p);
    NetworkIdempotent(base, p);
  }

  /** Every address a CIDR token "base/p" adds lies within its block. */
  lemma CidrTokenInside(base: Addr, p: Prefix, rule: HostsRule)
    ensures forall s :: s in Contribution(Format(base) + "/" + PrefixText(p), rule) ==>
              Parse(s).Some? && NetworkAddress(base, p) <= Parse(s).value <= BroadcastAddress(base, p)
  {
    var n := Network(NetworkAddress(base, p), p);
    CidrReads(base, p);
    NetworkIdempotent(base, p);
    var span := HostSpan(n, rule);
    forall s | s in AddrTexts(span.lo, span.hi)
      ensures Parse(s).Some? && NetworkAddress(base, p) <= Parse(s).value <= BroadcastAddress(base, p)
    {
      AddrTextsHas(span.lo, span.hi, s);
      HostsInsideBlock(Parse(s).value, n, rule);
    }
  }

  /** For `p <= 30`, a CIDR token "base/p" adds exactly the addresses strictly between its network and broadcast addresses. */
  lemma CidrTokenHosts(base: Addr, p: Prefix, rule: HostsRule)
    requires p <= 30
    ensures Contribution(Format(base) + "/" + PrefixText(p), rule)
            == AddrTexts(NetworkAddress(base, p) + 1, BroadcastAddress(base, p))
  {
    CidrReads(base, p);
    NetworkIdempotent(base, p);
  }

  /**
   * For `p <= 30`, a CIDR token "base/p" adds neither its network nor its
   * broadcast address, and `2^(32-p) - 2` addresses in all.
   */
  lemma CidrTokenCount(base: Addr, p: Prefix, rule: HostsRule)
    requires p <= 30
    ensures var c := Contribution(Format(base) + "/" + PrefixText(p), rule);
            Format(NetworkAddress(base, p)) !in c && Format(BroadcastAddress(base, p)) !in c
            && |c| == BlockSize(p) - 2
  {
    var net := NetworkAddress(base, p);
    var n := Network(net, p);
    CidrReads(base, p);
    NetworkIdempotent(base, p);
    var span := HostSpan(n, rule);
    HostsExcludeEnds(n, rule);
    AddrTextsCount(span.lo, span.hi);
    ParseFormat(net);
    ParseFormat(BroadcastAddress(base, p));
    AddrTextsHas(span.lo, span.hi, Format(net));
    AddrTextsHas(span.lo, span.hi, Format(BroadcastAddress(base, p)));
  }

  /** A block or an interval denotes address texts only. */
  lemma DenoteParses(r: Range, rule: HostsRule, x: string)
    requires !r.Single? && x in Denote(r, rule)
    ensures Parse(x).Some?
  {
    match r
    case Block(n) =>
      var span := HostSpan(n, rule);
      AddrTextsHas(span.lo, span.hi, x);
    case Interval(a, b) =>
      AddrTextsHas(a, b + 1, x);
  }

  /** A token holding '/' or '-' adds address texts only, whether it reads or raises. */
  lemma RangeTextsParse(t: string, rule: HostsRule, x: string)
    requires ('/' in t || '-' in t) && x in Contribution(t, rule)
    ensures Parse(x).Some?
  {
    DenoteParses(ParseRange(t).value, rule, x);
  }

  /** A token with neither '/' nor '-' adds its stripped text, unchecked. */
  lemma BareToken(t: string, rule: HostsRule)
    requires '/' !in t && '-' !in t
    ensures Contribution(t, rule) == {Strip(t)}
  {
    var s := Strip(t);
    assert ParseRange(t) == Success(Single(s));
    assert Contribution(t, rule) == Denote(Single(s), rule);
    DenoteSingle(s, rule);
  }

  lemma DenoteSingle(s: string, rule: HostsRule)
    ensures Denote(Single(s), rule) == {s}
  {
  }

  /** The union is over tokens: a text is in it exactly when some token contributes it. */
  lemma ExpansionHas(tokens: set<string>, a: string, rule: HostsRule)
    ensures a in Expansion(tokens, rule) <==> exists t :: t in tokens && a in Contribution(t, rule)
  {
  }

  /** A token that raises while it is read changes nothing; the other tokens are unaffected. */
  lemma ErrorIsolation(tokens: set<string>, t: string, rule: HostsRule)
    requires ParseRange(t).Failure?
    ensures Expansion(tokens + {t}, rule) == Expansion(tokens - {t}, rule)
  {
    ExpansionAdd(tokens - {t}, t, rule);
    assert tokens + {t} == (tokens - {t}) + {t};
  }

  /** A token that reads is added whole: all it denotes is in the result. */
  lemma AllOrNothing(tokens: set<string>, t: string, rule: HostsRule)
    requires t in tokens && ParseRange(t).Success?
    ensures Denote(ParseRange(t).value, rule) <= Expansion(tokens, rule)
  {
    forall a | a in Denote(ParseRange(t).value, rule) ensures a in Expansion(tokens, rule) {
      assert a in Contribution(t, rule);
    }
  }

  /** Expanding a union of token sets is the union of the expansions, whatever overlaps. */
  lemma ExpansionUnion(x: set<string>, y: set<string>, rule: HostsRule)
    ensures Expansion(x + y, rule) == Expansion(x, rule) + Expansion(y, rule)
  {
  }
}
