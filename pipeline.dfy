/**
 * `main`: the range lists of both sources are merged into one set of tokens,
 * expanded, counted and saved. The fetched lists are inputs here.
 */
module Pipeline {
  import opened Wrappers
  import opened Text
  import opened IPv4
  import opened Cidr
  import opened Expander
  import opened Store

  /** `set(ripe_ranges + ipdeny_ranges)`: the distinct tokens of both lists. */
  function AllRanges(ripe: seq<string>, ipdeny: seq<string>): (r: set<string>)
    ensures forall t :: t in r <==> t in ripe || t in ipdeny
  {
    set t | t in ripe + ipdeny
  }

  /**
   * One run of `main` on the two fetched lists: the number of distinct
   * entries printed, the text left in the output file and whether saving raised.
   */
  method Run(ripe: seq<string>, ipdeny: seq<string>, rule: HostsRule) returns (count: nat, text: string, raised: bool)
    ensures count == |Expansion(AllRanges(ripe, ipdeny), rule)|
    ensures raised <==> !AllAddresses(Expansion(AllRanges(ripe, ipdeny), rule))
    ensures raised ==> text == []
    ensures !raised ==> text == FileText(SortedByAddress(Expansion(AllRanges(ripe, ipdeny), rule)))
  {
    var allRanges := AllRanges(ripe, ipdeny);
    var allIps := ExpandIpRanges(allRanges, rule);
    count := |allIps|;
    text, raised := SaveIps(allIps);
  }

  /** A bare token (no '/', no '-') whose stripped text is not an address. */
  predicate Garbage(t: string)
  {
    '/' !in t && '-' !in t && Parse(Strip(t)).None?
  }

  /**
   * Saving raises exactly when some token is a bare entry that is not an
   * address: blocks and intervals only ever add address texts, and a bare
   * entry is added unchecked.
   */
  lemma SaveRaisesIff(tokens: set<string>, rule: HostsRule)
    ensures !AllAddresses(Expansion(tokens, rule)) <==> exists t :: t in tokens && Garbage(t)
  {
    if !AllAddresses(Expansion(tokens, rule)) {
      var x :| x in Expansion(tokens, rule) && Parse(x).None?;
      var t :| t in tokens && x in Contribution(t, rule);
      if '/' in t || '-' in t {
        RangeTextsParse(t, rule, x);
      } else {
        BareToken(t, rule);
        assert Garbage(t);
      }
    }
    if exists t :: t in tokens && Garbage(t) {
      var t :| t in tokens && Garbage(t);
      BareToken(t, rule);
      assert Strip(t) in Contribution(t, rule);
    }
  }

  /** The tokens of both sources together expand to the union of what each source's tokens expand to. */
  lemma SourcesCombine(ripe: seq<string>, ipdeny: seq<string>, rule: HostsRule)
    ensures Expansion(AllRanges(ripe, ipdeny), rule)
            == Expansion(AllRanges(ripe, []), rule) + Expansion(AllRanges([], ipdeny), rule)
  {
    assert AllRanges(ripe, ipdeny) == AllRanges(ripe, []) + AllRanges([], ipdeny);
    ExpansionUnion(AllRanges(ripe, []), AllRanges([], ipdeny), rule);
  }

  /** When both fetches fail (each returns an empty list), nothing is expanded and an empty file is written without raising. */
  lemma NoRanges(rule: HostsRule)
    ensures Expansion(AllRanges([], []), rule) == {}
    ensures AllAddresses({}) && FileText(SortedByAddress({})) == []
  {
    assert AllRanges([], []) == {};
  }

  /** Four pieces joined. */
  lemma Join4(a: string, b: string, c: string, d: string, sep: char)
    ensures Join([a, b, c, d], sep) == a + [sep] + b + [sep] + c + [sep] + d
  {
    var t := [a, b, c, d];
    assert t[1..][1..][1..] == [d];
    assert t[1..][1..] == [c, d];
    assert t[1..] == [b, c, d];
    assert Join([c, d], sep) == c + [sep] + d;
    assert Join([b, c, d], sep) == b + [sep] + (c + [sep] + d);
    assert Join(t, sep) == a + [sep] + (b + [sep] + (c + [sep] + d));
  }

  /** In the network 10.0.0.0/24 the text of host `k` is "10.0.0.k". */
  lemma TenNet(k: Octet)
    ensures Format(0x0A00_0000 + k) == "10.0.0." + OctetText(k)
  {
    var n := 0x0A00_0000 + k;
    assert Octets(n) == [10, 0, 0, k];
    assert OctetTexts(Octets(n)) == ["10", "0", "0", OctetText(k)];
    Join4("10", "0", "0", OctetText(k), '.');
  }

  /** The network address of a base already aligned to the block is the base itself. */
  lemma AlignedBase(base: Addr, p: Prefix)
    requires base % BlockSize(p) == 0
    ensures NetworkAddress(base, p) == base
  {
    NetworkAligned(base, p);
    AlignedUnique(base, NetworkAddress(base, p), BlockSize(p));
  }

  /** A /30 block token adds its two middle addresses. */
  lemma Block30(n: Addr, rule: HostsRule)
    requires n % 4 == 0
    ensures Contribution(Format(n) + "/" + PrefixText(30), rule) == AddrTexts(n + 1, n + 3)
  {
    assert BlockSize(30) == 4;
    AlignedBase(n, 30);
    CidrTokenHosts(n, 30, rule);
  }

  /** A canonical address text can be a side of an interval. */
  lemma CanonicalSide(n: Addr)
    ensures '-' !in Format(n) && '/' !in Format(n) && Parse(Strip(Format(n))) == Some(n)
  {
    FormatChars(n);
    assert !AddressChar('-') && !AddressChar('/');
    StripStripped(Format(n));
    ParseFormat(n);
  }

  /** An interval token written with canonical texts adds the values between them. */
  lemma CanonicalInterval(a: Addr, b: Addr, rule: HostsRule)
    ensures Contribution(Format(a) + "-" + Format(b), rule) == AddrTexts(a, b + 1)
  {
    CanonicalSide(a);
    CanonicalSide(b);
    IntervalContribution(Format(a) + "-" + Format(b), Format(a), Format(b), a, b, rule);
  }

  /** Two lists of one token each give the set of both tokens. */
  lemma AllRangesPair(c: string, d: string)
    ensures AllRanges([c], [d]) == {c, d}
  {
  }

  /** Two tokens add what each adds. */
  lemma ExpansionPair(c: string, d: string, rule: HostsRule)
    ensures Expansion({c, d}, rule) == Contribution(c, rule) + Contribution(d, rule)
  {
    ExpansionAdd({}, c, rule);
    assert {} + {c} == {c};
    ExpansionAdd({c}, d, rule);
    assert {c} + {d} == {c, d};
  }

  /** What a block "n/30" from one source and an interval "n+5 - n+6" from the other expand to. */
  lemma ExampleExpansion(n: Addr, rule: HostsRule)
    requires n % 4 == 0 && n + 6 < AddressCount
    ensures Expansion(AllRanges([Format(n) + "/" + PrefixText(30)], [Format(n + 5) + "-" + Format(n + 6)]), rule)
            == AddrTexts(n + 1, n + 3) + AddrTexts(n + 5, n + 7)
  {
    var c := Format(n) + "/" + PrefixText(30);
    var d := Format(n + 5) + "-" + Format(n + 6);
    AllRangesPair(c, d);
    ExpansionPair(c, d, rule);
    Block30(n, rule);
    CanonicalInterval(n + 5, n + 6, rule);
  }

  /**
   * A block "n/30" from one source and an interval "n+5 - n+6" from the other
   * give a file of four lines: n+1, n+2, n+5, n+6 (with n = 10.0.0.0:
   * 10.0.0.1, 10.0.0.2, 10.0.0.5, 10.0.0.6; see `TenNet`).
   */
  lemma ExampleFile(n: Addr, rule: HostsRule)
    requires n % 4 == 0 && n + 6 < AddressCount
    ensures var ips := Expansion(AllRanges([Format(n) + "/" + PrefixText(30)], [Format(n + 5) + "-" + Format(n + 6)]), rule);
            AllAddresses(ips) && SortedByAddress(ips) == [Format(n + 1), Format(n + 2), Format(n + 5), Format(n + 6)]
  {
    var ips := Expansion(AllRanges([Format(n) + "/" + PrefixText(30)], [Format(n + 5) + "-" + Format(n + 6)]), rule);
    ExampleExpansion(n, rule);
    ExampleLines(n);
    SortedUnique(ips, [Format(n + 1), Format(n + 2), Format(n + 5), Format(n + 6)]);
  }

  /** The four lines enumerate the expansion in increasing order. */
  lemma ExampleLines(n: Addr)
    requires n + 6 < AddressCount
    ensures var ips := AddrTexts(n + 1, n + 3) + AddrTexts(n + 5, n + 7);
            var lines := [Format(n + 1), Format(n + 2), Format(n + 5), Format(n + 6)];
            AllAddresses(ips) && (forall x :: x in lines <==> x in ips) && StrictlySorted(lines)
  {
    var ips := AddrTexts(n + 1, n + 3) + AddrTexts(n + 5, n + 7);
    var lines := [Format(n + 1), Format(n + 2), Format(n + 5), Format(n + 6)];
    forall x | x in ips ensures Parse(x).Some? && x in lines {
      AddrTextsHas(n + 1, n + 3, x);
      AddrTextsHas(n + 5, n + 7, x);
      ExampleValueOnLines(n, x);
    }
    forall x | x in lines ensures x in ips {
      AddrTextsHas(n + 1, n + 3, x);
      AddrTextsHas(n + 5, n + 7, x);
      ParseFormat(n + 1);
      ParseFormat(n + 2);
      ParseFormat(n + 5);
      ParseFormat(n + 6);
    }
    ExampleSorted(n);
  }

  /** Each address in the two ranges is on one of the four lines. */
  lemma ExampleValueOnLines(n: Addr, x: string)
    requires n + 6 < AddressCount && Parse(x).Some?
    requires n + 1 <= Parse(x).value < n + 3 || n + 5 <= Parse(x).value < n + 7
    ensures x == Format(n + 1) || x == Format(n + 2) || x == Format(n + 5) || x == Format(n + 6)
  {
    FormatParse(x);
  }

  /** The four lines are in increasing address order. */
  lemma ExampleSorted(n: Addr)
    requires n + 6 < AddressCount
    ensures StrictlySorted([Format(n + 1), Format(n + 2), Format(n + 5), Format(n + 6)])
  {
    var lines := [Format(n + 1), Format(n + 2), Format(n + 5), Format(n + 6)];
    var values := [n + 1, n + 2, n + 5, n + 6];
    forall i, j | 0 <= i < j < 4 ensures Before(lines[i], lines[j]) {
      assert lines[i] == Format(values[i]) && lines[j] == Format(values[j]);
      BeforeFormat(values[i], values[j]);
    }
  }

  /** Address texts sort as their addresses. */
  lemma BeforeFormat(a: Addr, b: Addr)
    requires a < b
    ensures Before(Format(a), Format(b))
  {
    ParseFormat(a);
    ParseFormat(b);
  }

  /** An empty token is a bare entry that is not an address, so a list holding one makes saving raise. */
  lemma EmptyGarbage(tokens: set<string>, rule: HostsRule)
    requires "" in tokens
    ensures Garbage("") && !AllAddresses(Expansion(tokens, rule))
  {
    StripStripped("");
    assert Split("", '.') == [""];
    SaveRaisesIff(tokens, rule);
  }
}
