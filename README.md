# Country IP list builder: range expansion and sorted save

The script `Change_here_country_code.py` builds a block list for one country.
It fetches the country's IPv4 ranges from two registries (RIPEstat and
ipdeny.com), merges the two lists into one set of range tokens, expands every
token into individual address texts, and writes them sorted by address, one
per line, to `~/ips_list.dat`.

This project models the part that turns tokens into the saved file:

- `expand_ip_ranges`. A token holding `/` is read as a CIDR block, non-strictly
  (host bits of the base are cleared). It adds what `hosts()` yields. A token
  holding `-` but no `/` is split at every `-`; a token with more than one `-`
  raises on unpacking. Each of the two sides is stripped and read as an address. It adds every address from the first to the last, both
  included, and nothing when first > last. Any other token is stripped and
  added as it is. A token that raises while it is read adds nothing, and the
  loop goes on.
- `save_ips`. It sorts with the key `IPv4Address(x)` and writes `"{ip}\n"` per
  entry. The file is opened for writing first, so when some entry is not an
  address the file is left empty and the call raises.
- `main`. It takes the set of both lists, expands it, counts the result and
  saves it. The two fetched lists are parameters of `Pipeline.Run`.

Python's `ipaddress` rules are written out:

- Dotted-quad octets have 1 to 3 ASCII digits, no leading zero, and a value of
  at most 255.
- The text after `/` may be a prefix length in digits (leading zeros allowed),
  a dotted netmask or a dotted hostmask.
- The network address is `base AND netmask` and the broadcast address is
  `network OR hostmask` (section 3.1 of RFC 4632).
- The CIDR text is handed to `IPv4Network` unstripped. Interval sides and bare
  tokens are stripped with Python's `str.isspace()` set.

What `hosts()` yields for /31 and /32 differs between CPython releases. The
parameter `Cidr.HostsRule` selects the behaviour:

- `PointToPoint`: a /31 yields both of its addresses and a /32 yields its one
  address.
- `Classic`: every block yields only the addresses strictly between its
  network and broadcast addresses.

Every result for prefix lengths up to 30 holds under both rules.

A malformed bare token (such as `abc` or `999.1.1.1`) is not skipped, as one
might expect. The code adds it verbatim, and `save_ips` then raises on it
after emptying the file. The model follows the code:
`Pipeline.SaveRaisesIff` states exactly when saving raises.

Files:

- `wrappers.dfy`: `Option`, `Result`.
- `text.dfy`: `strip`, `split`, `join`.
- `ipv4.dfy`: address text and value.
- `cidr.dfy`: blocks, masks, `hosts()`.
- `expander.dfy`: tokens and `expand_ip_ranges`.
- `store.dfy`: `save_ips`.
- `pipeline.dfy`: `main`, plus worked examples.

## Model

| member | source | states |
|---|---|---|
| Text.StripStart | Change_here_country_code.py:51-52 | `strip()` removes from the front a run of whitespace only; what is left is a suffix of the text that does not start with whitespace |
| Text.StripEnd | Change_here_country_code.py:51-52 | the same at the back: what is left is a prefix, behind it only whitespace, and it does not end with whitespace |
| Text.Strip | Change_here_country_code.py:56 | the stripped token has whitespace at neither end |
| Text.StripStripped | Change_here_country_code.py:56 | a text with no surrounding whitespace is left unchanged by `strip()` |
| Text.StripIdempotent | Change_here_country_code.py:56 | stripping twice is stripping once |
| Text.Split | Change_here_country_code.py:50 | `split(sep)` at every separator, never fewer than one piece; what the pieces are is stated by `Text.JoinSplit`, `Text.SplitPieces`, `Text.SplitJoin` and `Text.SplitCount` |
| Text.JoinSplit | Change_here_country_code.py:50 | the pieces of `split('-')` joined with `-` give back the token |
| Text.SplitPieces | Change_here_country_code.py:50 | no piece of `split('-')` holds `-` |
| Text.SplitJoin | Change_here_country_code.py:50 | splitting undoes joining pieces that hold no separator |
| Text.SplitCount | Change_here_country_code.py:50 | `split(sep)` has one more piece than the token has separators, so the two-name unpacking succeeds exactly for one `-` |
| Text.SplitTwo | Change_here_country_code.py:50 | `"A-B".split('-')` is `[A, B]` when neither side holds `-` |
| IPv4.ParseOctet | Change_here_country_code.py:51-52 | one dotted-quad octet: 1-3 ASCII digits, no leading zero, at most 255, else no value; `IPv4.OctetTextRoundTrip` and `IPv4.OctetTextCanonical` state that it reads exactly the canonical octet texts |
| IPv4.Format | Change_here_country_code.py:54 | `str(IPv4Address(n))`: the four octets in decimal joined by dots; its inverse is `IPv4.Parse` (`IPv4.ParseFormat`, `IPv4.FormatParse`) |
| IPv4.Parse | Change_here_country_code.py:38 | `int(IPv4Address(s))` at lines 38, 51 and 52: exactly four dot-separated octets, or no value where `ipaddress` raises; its inverse is `IPv4.Format` |
| IPv4.OctetsFromOctets | Change_here_country_code.py:51-52 | an address value is rebuilt from its four octets |
| IPv4.FromOctetsOctets | Change_here_country_code.py:51-52 | four octets are recovered from the value they build |
| IPv4.OctetTextRoundTrip | Change_here_country_code.py:54 | an octet's decimal text is 1-3 digits and reads back as the octet |
| IPv4.OctetTextCanonical | Change_here_country_code.py:51-52 | an octet text that reads is the canonical text of its value (no leading zero) |
| IPv4.ParseFormat | Change_here_country_code.py:54 | `IPv4Address(str(IPv4Address(n)))` is `n` for every 32-bit value |
| IPv4.FormatParse | Change_here_country_code.py:51-52 | a text that reads as an address is exactly the canonical text of that address |
| IPv4.FormatInjective | Change_here_country_code.py:54 | distinct values have distinct texts |
| IPv4.FormatChars | Change_here_country_code.py:48 | an address text is digits and dots, at least 7 characters, and with no whitespace at its ends |
| Cidr.AndMask | Change_here_country_code.py:46 | AND with `n - k` high ones clears exactly the low `k` bits |
| Cidr.OrLowOnes | Change_here_country_code.py:47 | OR with `k` low ones fills the low bits of a multiple of `2^k` |
| Cidr.NetworkAddress | Change_here_country_code.py:46 | `base AND netmask` is at most `base`, less than one block below it, and leaves room for a whole block |
| Cidr.NetworkAligned | Change_here_country_code.py:46 | the network address is a multiple of the block size |
| Cidr.NetworkIdempotent | Change_here_country_code.py:46 | masking the network address again changes nothing |
| Cidr.BroadcastAddress | Change_here_country_code.py:47 | `network OR hostmask` is the last address of the block |
| Cidr.IsHost | Change_here_country_code.py:47 | which addresses `hosts()` yields, stated without the loop: strictly inside the block, or the whole /31 or /32 under `PointToPoint`; `Cidr.HostSpan` is proved to enumerate exactly these |
| Cidr.HostSpan | Change_here_country_code.py:47 | the loop range over `hosts()` holds exactly the addresses `IsHost` describes |
| Cidr.HostsExcludeEnds | Change_here_country_code.py:47 | up to /30, `hosts()` skips the network and broadcast addresses and yields block size minus 2 addresses |
| Cidr.HostsInsideBlock | Change_here_country_code.py:47 | every host lies between the network and broadcast addresses |
| Cidr.HostsOf31 | Change_here_country_code.py:47 | a /31 yields 2 addresses under `PointToPoint` and 0 under `Classic` |
| Cidr.HostsOf32 | Change_here_country_code.py:47 | a /32 yields only its own address, and only under `PointToPoint` |
| Cidr.PrefixOfMask | Change_here_country_code.py:46 | a prefix length found for a mask has that netmask |
| Cidr.PrefixOfMaskNone | Change_here_country_code.py:46 | the search fails exactly when no prefix length has that netmask |
| Cidr.MaskInjective | Change_here_country_code.py:46 | longer prefixes have strictly larger netmasks |
| Cidr.ParsePrefix | Change_here_country_code.py:46 | the text after `/`: a prefix length in ASCII digits up to 32, else a dotted netmask, else a dotted hostmask, else an error; `Cidr.PrefixTextRoundTrip` and `Cidr.DottedNetmask` are its round trips |
| Cidr.ParseNetwork | Change_here_country_code.py:46 | a network that reads has its host bits already cleared |
| Cidr.PrefixTextRoundTrip | Change_here_country_code.py:46 | the decimal text of a prefix length reads back as it |
| Cidr.NonStrict | Change_here_country_code.py:46 | `IPv4Network("base/p", strict=False)` is the block of `base` with host bits cleared, not an error |
| Cidr.DottedNetmask | Change_here_country_code.py:46 | a dotted netmask after `/` reads as its prefix length |
| Expander.ParseRange | Change_here_country_code.py:45-56 | `/` forces a block reading, `-` without `/` an interval reading, and anything else is the stripped token, unchecked |
| Expander.Contribution | Change_here_country_code.py:44-58 | what one pass of the `try` adds: all the read token denotes, or nothing when reading raised; `Expander.AddToken` is proved to add exactly this |
| Expander.Expansion | Change_here_country_code.py:41-59 | the result of `expand_ip_ranges`: the union of all tokens' contributions; `Expander.ExpandIpRanges` is proved to compute it |
| Expander.ImageCount | Change_here_country_code.py:53-54 | an injective map sends `[lo, hi)` to `hi - lo` distinct texts |
| Expander.AddrTextsHas | Change_here_country_code.py:53-54 | a text is among those added for `[lo, hi)` exactly when it reads as an address in `[lo, hi)` |
| Expander.AddrTextsCount | Change_here_country_code.py:53-54 | `[lo, hi)` adds `hi - lo` distinct texts, or none |
| Expander.AddTexts | Change_here_country_code.py:53-54 | the address loop adds to the set exactly the texts of `[lo, hi)` |
| Expander.AddToken | Change_here_country_code.py:44-58 | one pass of the token loop adds exactly the token's contribution; an error adds nothing |
| Expander.ExpandIpRanges | Change_here_country_code.py:41-59 | the result is the union of every token's contribution, whatever order the set is iterated in |
| Expander.ExpansionAdd | Change_here_country_code.py:43-58 | one more token adds exactly its contribution |
| Expander.ExpansionUnion | Change_here_country_code.py:41-59 | expanding a union of token sets gives the union of the expansions |
| Expander.ErrorIsolation | Change_here_country_code.py:57-58 | a token that raises while it is read leaves the result as if it were absent |
| Expander.AllOrNothing | Change_here_country_code.py:44-58 | a token that reads is added whole |
| Expander.IntervalReads | Change_here_country_code.py:49-52 | `"A-B"` with sides that strip to addresses `a`, `b` reads as the interval `a..b` |
| Expander.IntervalContribution | Change_here_country_code.py:49-54 | such a token adds the texts of `[a, b + 1)` |
| Expander.IntervalTexts | Change_here_country_code.py:53-54 | the texts of `a..b` are exactly the addresses from `a` to `b`: `b - a + 1` of them including both ends, or none when `a > b` |
| Expander.IntervalToken | Change_here_country_code.py:49-54 | an interval token adds exactly the addresses from `a` to `b` (both ends, count `b - a + 1`), and nothing when reversed |
| Expander.IntervalUnpackFails | Change_here_country_code.py:50 | a token with two or more `-` (and no `/`) fails to unpack and adds nothing |
| Expander.CidrToken | Change_here_country_code.py:45-48 | a `/` token adds nothing if the block does not read, else exactly its `hosts()` |
| Expander.CidrReads | Change_here_country_code.py:46 | `"base/p"` reads as the network of `base` with prefix `p` |
| Expander.CidrTokenNonStrict | Change_here_country_code.py:46 | `"base/p"` adds the same as the token of its network address |
| Expander.CidrTokenInside | Change_here_country_code.py:46-48 | all a CIDR token adds lies between its network and broadcast addresses |
| Expander.CidrTokenHosts | Change_here_country_code.py:46-48 | up to /30 a CIDR token adds exactly the addresses strictly between network and broadcast |
| Expander.CidrTokenCount | Change_here_country_code.py:46-48 | up to /30 it adds neither end and `2^(32-p) - 2` addresses |
| Expander.DenoteParses | Change_here_country_code.py:45-54 | a block or an interval denotes address texts only |
| Expander.RangeTextsParse | Change_here_country_code.py:45-54 | a `/` or `-` token adds only texts that read as addresses |
| Expander.BareToken | Change_here_country_code.py:55-56 | a token with neither `/` nor `-` adds its stripped text and nothing else |
| Store.SameKey | Change_here_country_code.py:38 | two entries with equal sort keys are the same entry |
| Store.FirstExists | Change_here_country_code.py:38 | a non-empty set of addresses has an entry with the least key |
| Store.SortedByAddress | Change_here_country_code.py:38 | `sorted(ips, key=IPv4Address)` lists every entry once, in strictly increasing address order |
| Store.SortedUnique | Change_here_country_code.py:38 | any strictly increasing listing of the entries is that sorted list |
| Store.FileText | Change_here_country_code.py:39 | the text written by `f.write(f"{ip}\n")` for each line in turn; `Store.FileTextJoin` and `Store.ReadBack` state its shape |
| Store.FileTextAppend | Change_here_country_code.py:39 | writing one more line appends it and a line feed |
| Store.FileTextJoin | Change_here_country_code.py:39 | the file is the lines joined by line feeds, ending in one |
| Store.ReadBack | Change_here_country_code.py:39 | splitting the file at line feeds gives the lines back (then an empty piece) |
| Store.AddressLine | Change_here_country_code.py:39 | an address line holds no line feed |
| Store.SavedReadsBack | Change_here_country_code.py:36-39 | the saved file reads back as the sorted entries, one per line |
| Store.SaveIps | Change_here_country_code.py:36-39 | `save_ips` raises exactly when some entry is not an address, leaving the file empty; otherwise the file holds the sorted entries, one per line |
| Pipeline.AllRanges | Change_here_country_code.py:67 | a token is in the merged set exactly when it is in either list |
| Pipeline.Run | Change_here_country_code.py:67-76 | the printed count is the size of the expansion; the file and the raise are as `save_ips` gives for it |
| Pipeline.SaveRaisesIff | Change_here_country_code.py:36-59 | saving raises exactly when some token is a bare entry that does not strip to an address |
| Pipeline.SourcesCombine | Change_here_country_code.py:67-69 | the merged lists expand to the union of what each list expands to |
| Pipeline.NoRanges | Change_here_country_code.py:64-69 | when both fetches give empty lists, nothing is expanded and an empty file is written without raising |
| Pipeline.TenNet | Change_here_country_code.py:54 | in 10.0.0.0/24 the text of host `k` is `"10.0.0.k"` |
| Pipeline.Block30 | Change_here_country_code.py:45-48 | an aligned /30 token adds its two middle addresses |
| Pipeline.CanonicalInterval | Change_here_country_code.py:49-54 | `"a-b"` in canonical texts adds the addresses from `a` to `b` |
| Pipeline.ExampleExpansion | Change_here_country_code.py:67-69 | a /30 from one source and a two-address interval from the other expand to both pairs |
| Pipeline.ExampleFile | Change_here_country_code.py:67-76 | for that input the file holds four lines, `n+1, n+2, n+5, n+6`, in that order |
| Pipeline.EmptyGarbage | Change_here_country_code.py:55-56 | an empty token is added as an empty entry, so saving raises |

## Left out

- Fetching (lines 7-27): HTTP, JSON decoding and UTF-8 decoding. The fetched lists are parameters of `Pipeline.Run`. An empty ipdeny body still gives the one-token list `[""]`, which `Pipeline.EmptyGarbage` covers.
- `load_existing_ips` (lines 29-34): `main` never calls it.
- The output path (`Path.home() / 'ips_list.dat'`) and the file system. The file is modelled by the text handed to `write`, and a failure to open or write it is not modelled.
- Newline translation: line 37 opens the file in text mode, so on Windows each `"\n"` reaches the disk as `"\r\n"`. `Store.FileText` is the text handed to `write`, not the bytes on disk.
- Printing: the error messages in the `except` blocks and the two messages in `main`. `Pipeline.Run` returns the printed count as `count`.
- The country constant on line 62: it only feeds the fetchers.
- The message text of each exception. `IPv4.Error` only names which error was raised.
- Python's limit on the number of digits `int()` converts. A longer prefix length raises a different error there, and it is caught the same way.
- The CPython version that decides `hosts()` for /31 and /32. It is the parameter `Cidr.HostsRule`, not a fixed choice.
- The iteration order of the token set and the order in which addresses are added. Sets are unordered in the model, and `Expander.ExpandIpRanges` picks tokens in an unspecified order.
- Text.Split: its contract states only that there is at least one piece. What the pieces are is stated by the lemmas `Text.JoinSplit`, `Text.SplitPieces`, `Text.SplitJoin` and `Text.SplitCount`.
- Expander.CidrTokenHosts: stated for prefix lengths up to 30. /31 and /32 are covered by `Cidr.HostsOf31`, `Cidr.HostsOf32` and `Expander.CidrToken`.
