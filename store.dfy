/**
 * `save_ips`: the set of entries written one per line, in increasing address
 * order (`sorted(ip_list, key=IPv4Address)`), to a file opened for writing.
 * The file is modelled by the text written to it.
 */
module Store {
  import opened Text
  import opened IPv4

  /** The sort key `IPv4Address(x)` can be computed for every entry. */
  predicate AllAddresses(ips: set<string>)
  {
    forall x :: x in ips ==> Parse(x).Some?
  }

  /** `x` sorts strictly before `y`. */
  predicate Before(x: string, y: string)
  {
    Parse(x).Some? && Parse(y).Some? && Parse(x).value < Parse(y).value
  }

  /** Lines in strictly increasing address order. */
  predicate StrictlySorted(lines: seq<string>)
  {
    forall i, j :: 0 <= i < j < |lines| ==> Before(lines[i], lines[j])
  }

  /** `m` is the entry of `ips` with the least address. */
  predicate IsFirst(m: string, ips: set<string>)
  {
    m in ips && forall y :: y in ips ==> y == m || Before(m, y)
  }

  /** Two texts with the same address are the same text. */
  lemma SameKey(x: string, y: string)
    requires Parse(x).Some? && Parse(y).Some? && Parse(x).value == Parse(y).value
    ensures x == y
  {
    FormatParse(x);
    FormatParse(y);
  }

  /** A non-empty set of addresses has a first entry. */
  lemma {:induction false} FirstExists(ips: set<string>)
    requires ips != {} && AllAddresses(ips)
    ensures exists m :: IsFirst(m, ips)
    decreases |ips|
  {
    var x :| x in ips;
    if ips == {x} {
      assert IsFirst(x, ips);
    } else {
      FirstExists(ips - {x});
      var m :| IsFirst(m, ips - {x});
      if Parse(x).value < Parse(m).value {
        forall y | y in ips ensures y == x || Before(x, y) {
          if y != x && y != m {
            assert Before(m, y);
          }
        }
        assert IsFirst(x, ips);
      } else {
        if Parse(x).value == Parse(m).value {
          SameKey(x, m);
        }
        assert IsFirst(m, ips);
      }
    }
  }

  /** The first entry is unique. */
  lemma FirstUnique(m: string, n: string, ips: set<string>)
    requires IsFirst(m, ips) && IsFirst(n, ips)
    ensures m == n
  {
  }

  /**
   * `sorted(ips, key=IPv4Address)`: every entry once, in strictly
   * increasing address order.
   */
  function SortedByAddress(ips: set<string>): (r: seq<string>)
    requires AllAddresses(ips)
    ensures |r| == |ips|
    ensures forall x :: x in r <==> x in ips
    ensures StrictlySorted(r)
    decreases |ips|
  {
    if ips == {} then []
    else
      FirstExists(ips);
      var m :| IsFirst(m, ips);
      var rest := SortedByAddress(ips - {m});
      FirstBeforeRest(m, ips, rest);
      SortedCons(m, rest);
      [m] + rest
  }

  /** The first entry sorts before every other one. */
  lemma FirstBeforeRest(m: string, ips: set<string>, rest: seq<string>)
    requires IsFirst(m, ips)
    requires forall x :: x in rest <==> x in ips - {m}
    ensures forall j :: 0 <= j < |rest| ==> Before(m, rest[j])
  {
    forall j | 0 <= j < |rest| ensures Before(m, rest[j]) {
      assert rest[j] in ips - {m};
    }
  }

  /** An entry before all of a sorted list can lead it. */
  lemma SortedCons(m: string, rest: seq<string>)
    requires forall j :: 0 <= j < |rest| ==> Before(m, rest[j])
    requires StrictlySorted(rest)
    ensures StrictlySorted([m] + rest)
  {
    var r := [m] + rest;
    forall i, j | 0 <= i < j < |r| ensures Before(r[i], r[j]) {
      assert r[j] == rest[j - 1];
      if i > 0 {
        assert r[i] == rest[i - 1];
      }
    }
  }

  /**
   * Sorting by address has one possible outcome: any strictly increasing
   * enumeration of the entries is `SortedByAddress(ips)`.
   */
  lemma {:induction false} SortedUnique(ips: set<string>, lines: seq<string>)
    requires AllAddresses(ips)
    requires forall x :: x in lines <==> x in ips
    requires StrictlySorted(lines)
    ensures lines == SortedByAddress(ips)
    decreases |ips|
  {
    if lines == [] {
      assert forall x :: x !in ips;
      assert ips == {};
    } else {
      assert lines[0] in ips;
      var r := SortedByAddress(ips);
      SortedHeadFirst(ips, lines);
      SortedHeadFirst(ips, r);
      FirstUnique(lines[0], r[0], ips);
      SortedTailRest(ips, lines);
      SortedTail(ips, r);
      SortedUnique(ips - {lines[0]}, lines[1..]);
      SameHeadTail(lines, r);
    }
  }

  /** A sorted enumeration starts with the first entry. */
  lemma SortedHeadFirst(ips: set<string>, lines: seq<string>)
    requires forall x :: x in lines <==> x in ips
    requires StrictlySorted(lines) && lines != []
    ensures IsFirst(lines[0], ips)
  {
    forall y | y in ips ensures y == lines[0] || Before(lines[0], y) {
      var j :| 0 <= j < |lines| && lines[j] == y;
      if j > 0 {
        assert Before(lines[0], lines[j]);
      }
    }
  }

  /** After its head, a sorted enumeration enumerates the rest, still sorted. */
  lemma SortedTailRest(ips: set<string>, lines: seq<string>)
    requires forall x :: x in lines <==> x in ips
    requires StrictlySorted(lines) && lines != []
    ensures forall x :: x in lines[1..] <==> x in ips - {lines[0]}
    ensures StrictlySorted(lines[1..])
  {
    var tail := lines[1..];
    forall x ensures x in tail <==> x in ips - {lines[0]} {
      if x in tail {
        var j :| 0 <= j < |tail| && tail[j] == x;
        assert Before(lines[0], lines[j + 1]);
      }
      if x in ips - {lines[0]} {
        var j :| 0 <= j < |lines| && lines[j] == x;
        assert tail[j - 1] == x;
      }
    }
    forall i, j | 0 <= i < j < |tail| ensures Before(tail[i], tail[j]) {
      assert Before(lines[i + 1], lines[j + 1]);
    }
  }

  /** After its first entry, the sorted list is the sorted rest of the set. */
  lemma SortedTail(ips: set<string>, r: seq<string>)
    requires AllAddresses(ips) && ips != {} && r == SortedByAddress(ips)
    ensures r[0] in ips && r[1..] == SortedByAddress(ips - {r[0]})
  {
  }

  lemma SameHeadTail(a: seq<string>, b: seq<string>)
    requires a != [] && b != [] && a[0] == b[0] && a[1..] == b[1..]
    ensures a == b
  {
    assert a == [a[0]] + a[1..];
    assert b == [b[0]] + b[1..];
  }

  lemma PrefixStep(lines: seq<string>, i: nat)
    requires i < |lines|
    ensures lines[..i + 1] == lines[..i] + [lines[i]]
  {
  }

  /** What writing `"{ip}\n"` for each line in turn leaves in the file. */
  function FileText(lines: seq<string>): string
  {
    if lines == [] then [] else lines[0] + "\n" + FileText(lines[1..])
  }

  /** Writing one more line appends it. */
  lemma {:induction false} FileTextAppend(lines: seq<string>, line: string)
    ensures FileText(lines + [line]) == FileText(lines) + line + "\n"
    decreases |lines|
  {
    if lines == [] {
      assert [] + [line] == [line];
    } else {
      FileTextAppend(lines[1..], line);
      assert (lines + [line])[1..] == lines[1..] + [line];
    }
  }

  /** The file is the lines joined by line feeds, with one after the last. */
  lemma {:induction false} FileTextJoin(lines: seq<string>)
    ensures FileText(lines) == Join(lines + [""], '\n')
    decreases |lines|
  {
    if lines != [] {
      FileTextJoin(lines[1..]);
      assert (lines + [""])[1..] == lines[1..] + [""];
    }
  }

  /**
   * Reading the file back and splitting it at line feeds gives the lines,
   * then the empty text after the last line feed.
   */
  lemma ReadBack(lines: seq<string>)
    requires forall k :: 0 <= k < |lines| ==> '\n' !in lines[k]
    ensures Split(FileText(lines), '\n') == lines + [""]
  {
    FileTextJoin(lines);
    SplitJoin(lines + [""], '\n');
  }

  /** An address text holds no line feed. */
  lemma AddressLine(x: string)
    requires Parse(x).Some?
    ensures '\n' !in x
  {
    FormatParse(x);
    FormatChars(Parse(x).value);
    assert !AddressChar('\n');
  }

  /** The file `save_ips` writes reads back as the sorted entries, one per line. */
  lemma SavedReadsBack(ips: set<string>)
    requires AllAddresses(ips)
    ensures Split(FileText(SortedByAddress(ips)), '\n') == SortedByAddress(ips) + [""]
  {
    var lines := SortedByAddress(ips);
    forall k | 0 <= k < |lines| ensures '\n' !in lines[k] {
      AddressLine(lines[k]);
    }
    ReadBack(lines);
  }

  /**
   * `save_ips(file_path, ips)`. Opening the file for writing empties it;
   * computing the sort key raises for an entry that is not an address, before
   * any line is written. `text` is what the file then holds.
   */
  method SaveIps(ips: set<string>) returns (text: string, raised: bool)
    ensures raised <==> !AllAddresses(ips)
    ensures raised ==> text == []
    ensures !raised ==> text == FileText(SortedByAddress(ips))
  {
    text := [];
    if !AllAddresses(ips) {
      return [], true;
    }
    raised := false;
    var lines := SortedByAddress(ips);
    for i := 0 to |lines|
      invariant text == FileText(lines[..i])
    {
      FileTextAppend(lines[..i], lines[i]);
      PrefixStep(lines, i);
      text := text + lines[i] + "\n";
    }
    assert lines[..|lines|] == lines;
  }
}
