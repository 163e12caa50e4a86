# OnlineCounter presence-tracking core, in Dafny

OnlineCounter watches the access log of a proxy server and counts, per
inbound, the client addresses seen in the last two minutes. The model covers
the two pieces that do the work.

- **The presence store** (`pkg/bolt/bolt.go`) is a single bolt bucket. It
  maps the key `inbound + ":" + ip` to the RFC 3339 time the pair was last
  seen. There is no expiry index. Every query scans the whole bucket in key
  order. The two per-inbound scans delete the entries under their prefix
  that are corrupt or at least 120 seconds old. The aggregate scan only
  reads.
- **The log-line handler** (`internal/adapter/log/tail.go`) searches each
  line for `from (\[?[a-fA-F0-9:.]+\]?):\d+ accepted .* \[(.*?)\]`. It cuts
  the client address and the inbound tag out of the match. It then records
  the pair, unless `isLocalOrPrivateIP` rejects the address as unparsable,
  loopback or in one of the four private blocks.

The model has six modules:

- `wrappers.dfy` (`Wrappers`): `Option`.
- `text.dfy` (`Text`): the functions of Go's `strings` package that the core
  calls: `HasPrefix`, `TrimPrefix`, `Index`, `SplitN(s, sep, 2)`, `Split`,
  `Trim`, `TrimSpace`, and `len` in UTF-8 bytes.
- `net.dfy` (`Net`): `net.ParseIP` as Go implements it on top of
  `netip.ParseAddr`, plus `IP.To4`, `IP.IsLoopback`, `net.ParseCIDR`,
  `CIDRMask` and `IPNet.Contains`. Alongside them are the round trips
  showing that the text forms of IPv4 and IPv6 addresses and blocks parse
  back to their bytes.
- `matcher.dfy` (`LineMatch`): the regular expression written as a
  backtracking search with Go's leftmost-first priorities. Lemmas prove the
  search sound (it returns only matches) and complete (it finds a match
  whenever one exists, and the leftmost one), and give its result on
  well-formed access lines.
- `bolt.dfy` (`Bolt`): the bucket as the `BoltDB` class. Its `entries` field
  is a sequence of entries in strictly increasing key order, and its methods
  follow the source's loops:
  - `Put` inserts or overwrites an entry;
  - the per-inbound scans delete at a cursor;
  - the aggregate folds over the entries.

  Each method is proved against functions of the old contents (`Select`,
  `Where`, `KeysWhere`, `Tally`). Lemmas about those functions carry the
  store's promises.
- `logtail.dfy` (`LogTail`): the classifier, the extraction, the forwarding
  decision and `ProcessLogLine`, which is the step that writes to the store.

Time is an integer count of nanoseconds, passed in where the source calls
`time.Now()`. A stored value is modelled by what `time.Parse(time.RFC3339, v)`
gives back:

- `At(instant)` when the value parses, or `Corrupt` when it does not;
- a value `AddIP` writes comes back as `now` truncated to whole seconds,
  because the RFC 3339 text it writes has no fraction (`Bolt.Format`).

Three behaviours of the code are easy to misread, and the model keeps each
as the code has it:

- **Link-local addresses are forwarded.** `isLocalOrPrivateIP` tests only
  loopback and the four listed blocks (`internal/adapter/log/tail.go:85-99`),
  so `169.254.1.1` is forwarded (`LogTail.Example169`).
- **A failed write is ignored.** The repository drops the error `AddIP`
  returns (`internal/repository/user_repository.go:21`), so `ProcessLogLine`
  returns nothing, and a key that is too large leaves the store as it was.
- **An entry exactly 120 seconds old is both counted and deleted.** The
  aggregate skips only entries *more* than 120 seconds old
  (`pkg/bolt/bolt.go:123`), so it still counts such an entry. The
  per-inbound scans keep only entries *less* than 120 seconds old
  (`pkg/bolt/bolt.go:64`), so they drop and delete it (`Bolt.AgeIsTtl`).

## Model

| member | source | states |
|---|---|---|
| Bolt.Format | pkg/bolt/bolt.go:40 | The stored time of `now`, as Parse reads it back: the whole second at or below `now`, less than a second before it. |
| Bolt.Active | pkg/bolt/bolt.go:59-64 | What the per-inbound scans count: only a value that parses, and always the value AddIP writes at that same instant. |
| Bolt.Recent | pkg/bolt/bolt.go:122-123 | What the aggregate counts: every value the per-inbound scans count, and besides them exactly the values that are 120 s old to the nanosecond. |
| Bolt.KeyLessTransitive | pkg/bolt/bolt.go:55 | Bolt's byte-wise key order is transitive. |
| Bolt.KeyLessTotal | pkg/bolt/bolt.go:55 | Bolt's key order is total: two keys are equal or one precedes the other. |
| Bolt.KeyLessCommonPrefix | pkg/bolt/bolt.go:57 | A shared prefix such as `inbound + ":"` does not change the order of two keys. |
| Bolt.SortedKeysDistinct | pkg/bolt/bolt.go:43 | A bucket in key order holds each key at most once, so a key written twice is one entry. |
| Bolt.MapOfValues | pkg/bolt/bolt.go:55 | Every entry the cursor visits is the key's value in the bucket's map. |
| Bolt.MapOfSize | pkg/bolt/bolt.go:55 | The bucket has exactly one entry per key of its map. |
| Bolt.BoltDB.Put | pkg/bolt/bolt.go:43 | Bucket.Put: refuses an empty key and a key of more than 32768 UTF-8 bytes and then changes nothing. Otherwise it maps the key to the value, keeps every other key, and keeps the key order. |
| Bolt.BoltDB.AddIP | pkg/bolt/bolt.go:38-45 | Maps `inbound:ip` to the truncated `now` and nothing else changes. It fails, leaving the bucket as it was, exactly when the key exceeds bolt's key size. |
| Bolt.Visit | pkg/bolt/bolt.go:56-68 | One cursor step under `prefix`: a corrupt entry, or one at least the TTL old, is deleted with the cursor left on the next entry. Any other entry is stepped over. Only an active prefixed entry is a hit. |
| Bolt.BoltDB.GetActiveIPCount | pkg/bolt/bolt.go:47-75 | Returns the number of keys under `inbound:` whose value parses and is less than 120 s old, future times included. Afterwards the bucket is the old one without the corrupt or expired entries under that prefix. |
| Bolt.BoltDB.ListActiveIPs | pkg/bolt/bolt.go:77-105 | Returns the addresses, prefix removed, of those same keys, in key order. There are as many as GetActiveIPCount counts, and `ip` is listed exactly when `inbound:ip` is active. It deletes what GetActiveIPCount deletes. |
| Bolt.SelectContents | pkg/bolt/bolt.go:55-69 | Filtering the entries in cursor order is filtering the bucket's map: the scan's result is a function of the contents alone. |
| Bolt.SelectCount | pkg/bolt/bolt.go:55-70 | The number of entries a scan accepts is the number of keys the rule accepts. |
| Bolt.SweepDone | pkg/bolt/bolt.go:55-70 | A finished sweep leaves exactly the surviving entries, still in key order, and its count is the number of active prefixed keys. |
| Bolt.ListedAddresses | pkg/bolt/bolt.go:85-99 | `ip` is among the listed addresses exactly when `prefix + ip` is an active key, and the list is strictly ascending. |
| Bolt.ListedFor | pkg/bolt/bolt.go:85-99 | The same for `inbound + ":"`, and the list is as long as the number of active keys under it. |
| Bolt.BoltDB.GetTotalUsersCount | pkg/bolt/bolt.go:107-132 | Changes nothing and never fails. Its total is the number of keys that contain ':' and whose value parses and is not more than 120 s old. It has an entry for exactly the inbounds (text before the first ':') with at least one such key, with that number of keys, and the total is the sum of the per-inbound counts. |
| Bolt.TallyMeaning | pkg/bolt/bolt.go:115-128 | The fold over the entries counts the tallied entries in total and per inbound, has a key only for inbounds with a tallied entry, and its total is the sum of its counts. |
| Bolt.TallyCounts | pkg/bolt/bolt.go:115-128 | The same facts stated on the bucket's map instead of the entry sequence. |
| Bolt.RecordedIsActive | pkg/bolt/bolt.go:59-64 | After `inbound:ip` is recorded at `n`, at any `now` less than 120 s after `n`'s whole second the key is active under `inbound`. The per-inbound count is then at least one and ListActiveIPs lists `ip`, whatever else the bucket holds. |
| Bolt.RecordThenList | pkg/bolt/bolt.go:38-45 | AddIP, then ListActiveIPs less than 120 s after the recorded second: the write fails exactly when the key is too large; otherwise the address is listed. |
| Bolt.AgeIsTtl | pkg/bolt/bolt.go:123 | An entry exactly 120 s old is tallied by the aggregate (line 123) but neither counted nor kept by the per-inbound scans (lines 64-67). |
| Bolt.TagPrefix | pkg/bolt/bolt.go:57 | For colon-free tags, `u:a` starts with `t:` exactly when `u == t`. |
| Bolt.OtherTagsUntouched | pkg/bolt/bolt.go:57 | The scans for a colon-free tag `t` neither count nor delete nor change an entry of another colon-free tag, `t + "x"` included. |
| Bolt.SweepIdempotent | pkg/bolt/bolt.go:55-70 | A second sweep at the same instant deletes nothing more and counts the same keys. |
| Text.TrimPrefix | pkg/bolt/bolt.go:88 | strings.TrimPrefix: with the prefix, the rest after it; without it, the string unchanged. |
| Text.TrimPrefixOfConcat | pkg/bolt/bolt.go:88 | Removing `prefix` from `prefix + ip` gives `ip` back. |
| Text.SplitN2 | pkg/bolt/bolt.go:117-121 | strings.SplitN(s, ":", 2): two parts exactly when the separator occurs; they join back to `s` and the first holds no separator. Otherwise one part, `s`. |
| Text.ByteLen | pkg/bolt/bolt.go:43 | Go's len of a string: between one and four bytes per character, one per ASCII character. |
| Text.Index | internal/adapter/log/tail.go:69 | strings.Index: the first occurrence of the separator, or -1 exactly when there is none. |
| Text.Before | internal/adapter/log/tail.go:69 | The text before the first separator is a prefix free of it, followed by the separator when there is one, or the whole text. |
| Text.Split | internal/adapter/log/tail.go:65 | strings.Split: at least one piece, the first being the text before the first separator. No piece holds the separator, and joined with it the pieces give the text back. |
| Text.Trim | internal/adapter/log/tail.go:62 | strings.Trim: the slice left after dropping the cut set from both ends, which does not start or end with a cut character, and the text unchanged when it holds none. |
| Text.TrimSpace | internal/adapter/log/tail.go:70 | strings.TrimSpace: the result neither starts nor ends with Unicode white space. |
| Text.TrimAvoids | internal/adapter/log/tail.go:70 | Trimming cannot create an occurrence of a separator. |
| Net.ParseIP | internal/adapter/log/tail.go:81 | net.ParseIP yields 16 bytes or nothing. |
| Net.ParseIPv4Canonical | internal/adapter/log/tail.go:81 | The converse of the IPv4 round trip: any text the IPv4 parser accepts is the dotted-decimal text of the four bytes it yields, with no leading zeros and no other characters. |
| Net.ParseIPv6Chars | internal/adapter/log/tail.go:81 | Text the IPv6 parser accepts holds only hex digits, ':' and '.'. |
| Net.ParseIPAccepts | internal/adapter/log/tail.go:81 | Whatever net.ParseIP accepts is either the dotted-decimal text of an IPv4 address, which it yields in IPv4-mapped form, or text with a ':' made of hex digits, ':' and '.' only. |
| Net.ParseIPRejects | internal/adapter/log/tail.go:81-84 | Text holding any character other than a hex digit, ':' or '.' does not parse, so the classifier rejects it. |
| Net.IsLoopback | internal/adapter/log/tail.go:85 | IP.IsLoopback: a 4-byte address is loopback exactly when its first byte is 127; a 16-byte one exactly when it is ::1 or IPv4-mapped with first IPv4 byte 127. |
| Net.ParseCIDR | internal/adapter/log/tail.go:95 | A parsed block has a mask of 4 or 16 bytes and a network number of the same length. |
| Net.NetContains | internal/adapter/log/tail.go:96 | IPNet.Contains never matches across families: a 16-byte address it contains is IPv4-mapped exactly when the network is IPv4. |
| Net.To4 | internal/adapter/log/tail.go:96 | IP.To4: four bytes exactly for an IPv4 address in either form; a 16-byte address has them exactly when it is IPv4-mapped. |
| Net.CIDRMask | internal/adapter/log/tail.go:95 | net.CIDRMask: a mask exists only for 32 or 128 bits and a prefix length within them, with a byte per 8 bits. |
| Net.MaskBytes | internal/adapter/log/tail.go:95 | Byte `k` of a mask with `ones` leading ones has the top `ones - 8k` bits set. |
| Net.ParseIPv4Quad | internal/adapter/log/tail.go:81 | The dotted-decimal text of any four bytes parses back to those bytes. |
| Net.ParseAddrQuad | internal/adapter/log/tail.go:81 | netip.ParseAddr reads that text as the IPv4 address of those bytes. |
| Net.ParseIPQuad | internal/adapter/log/tail.go:81 | net.ParseIP reads that text as the IPv4-mapped form of the bytes. |
| Net.ParseIPv6Full | internal/adapter/log/tail.go:81 | Eight hex groups written in full parse back to their 16 bytes. |
| Net.ParseIPv6Compressed | internal/adapter/log/tail.go:81 | Groups around a "::" parse back to those groups with the missing groups as zeros. |
| Net.ParseIPFull | internal/adapter/log/tail.go:81 | net.ParseIP reads eight full groups as their bytes. |
| Net.ParseIPCompressed | internal/adapter/log/tail.go:81 | net.ParseIP reads compressed IPv6 text as its groups with zeros in the gap. |
| Net.ParseAddrNeither | internal/adapter/log/tail.go:81-84 | Text with no '.', ':' or '%' is not an address. |
| Net.ParseCIDRQuad | internal/adapter/log/tail.go:95 | net.ParseCIDR of `a.b.c.d/n`: the address under the n-bit mask, and that mask. |
| Net.ParseCIDRCompressed | internal/adapter/log/tail.go:95 | net.ParseCIDR of compressed IPv6 text and `/n`: the bytes under the n-bit mask of 16 bytes, and that mask. |
| LineMatch.SearchFirst | internal/adapter/log/tail.go:57 | The search's result is the pattern anchored at the start it reports. |
| LineMatch.GreedyLongest | internal/adapter/log/tail.go:56 | The greedy `.*` ends at the last " [" after which the rest of the pattern matches: no later one works. |
| LineMatch.FindSubmatch | internal/adapter/log/tail.go:56-57 | The groups FindStringSubmatch returns: group 1 has the shape `\[?[a-fA-F0-9:.]+\]?`, and group 2 holds no ']' and no newline. |
| LineMatch.FindSound | internal/adapter/log/tail.go:56-57 | What FindStringSubmatch returns is a match of the whole pattern, and its group 2 holds no ']', as the lazy `.*?` makes it. |
| LineMatch.FindComplete | internal/adapter/log/tail.go:56-57 | Whenever the pattern matches anywhere, FindStringSubmatch finds a match starting no later, so it reports the leftmost. |
| LineMatch.FindAccessLine | internal/adapter/log/tail.go:56-57 | On an access line with a well-formed address, port, target and tag segment, followed by any text without '[', the groups are the address as written and the tag segment. |
| LogTail.PrivateNets | internal/adapter/log/tail.go:88-95 | Each of the four block texts parses: 10.0.0.0/8, 172.16.0.0/12, 192.168.0.0/16 and fc00::/7, each with its mask. |
| LogTail.In10 | internal/adapter/log/tail.go:89 | 10.0.0.0/8 contains exactly the IPv4 addresses whose first byte is 10. |
| LogTail.In172 | internal/adapter/log/tail.go:90 | 172.16.0.0/12 contains exactly the IPv4 addresses 172.16-31.x.y. |
| LogTail.In192 | internal/adapter/log/tail.go:91 | 192.168.0.0/16 contains exactly the IPv4 addresses 192.168.x.y. |
| LogTail.InFc | internal/adapter/log/tail.go:92 | fc00::/7 contains exactly the IPv6 addresses, not IPv4-mapped, whose first byte is 0xfc or 0xfd. |
| LogTail.InBlocks | internal/adapter/log/tail.go:94-99 | The loop over the blocks finds one exactly when some block parses to a network containing the address. |
| LogTail.InPrivateBlocks | internal/adapter/log/tail.go:88-99 | The loop finds a block exactly for the addresses in one of the four private ranges. |
| LogTail.IsLocalOrPrivateIP | internal/adapter/log/tail.go:80-101 | True for text ParseIP rejects. For text it accepts, true exactly when the address is loopback or in a private range. |
| LogTail.ClassifyQuad | internal/adapter/log/tail.go:80-101 | A dotted quad is rejected exactly when it is in 127/8, 10/8, 172.16/12 or 192.168/16. |
| LogTail.ClassifyV6 | internal/adapter/log/tail.go:85-99 | A 16-byte address with a non-zero first byte is loopback or private exactly when that byte is 0xfc or 0xfd. |
| LogTail.ClassifyCompressed | internal/adapter/log/tail.go:80-101 | Compressed IPv6 text whose first byte is non-zero is rejected exactly when that byte is 0xfc or 0xfd. |
| LogTail.ClassifyLoopback6 | internal/adapter/log/tail.go:85-87 | The compressed text of ::1 is rejected. |
| LogTail.Example127 | internal/adapter/log/tail.go:85-87 | Rejects "127.0.0.1" (loopback). |
| LogTail.ExampleLoopback6 | internal/adapter/log/tail.go:85-87 | Rejects "::1" (loopback). |
| LogTail.Example192 | internal/adapter/log/tail.go:88-99 | Rejects "192.168.1.5" (private). |
| LogTail.ExampleFc | internal/adapter/log/tail.go:88-99 | Rejects "fc00::1" (unique local). |
| LogTail.Example8888 | internal/adapter/log/tail.go:100 | Accepts "8.8.8.8". |
| LogTail.Example2001 | internal/adapter/log/tail.go:100 | Accepts "2001:4860:4860::8888". |
| LogTail.Example169 | internal/adapter/log/tail.go:88-100 | Accepts the link-local "169.254.1.1", which is in no listed block. |
| LogTail.ExampleNotAnIP | internal/adapter/log/tail.go:81-84 | Rejects "not-an-ip" (fails closed). |
| LogTail.ExampleThreeFields | internal/adapter/log/tail.go:81-84 | Rejects "1.2.3" (three fields do not parse). |
| LogTail.TagOf | internal/adapter/log/tail.go:69-70 | The tag (first word cut at its first ">>", then space-trimmed) holds no ">>", holds no space when the word holds none, and has no white space at its ends. |
| LogTail.Extract | internal/adapter/log/tail.go:56-70 | Yields an access exactly when the pattern matches the line. The `len(inboundParts) < 1` guard never fires. |
| LogTail.TrimBrackets | internal/adapter/log/tail.go:62 | Trimming "[]" off group 1 removes exactly the optional brackets the pattern allows. |
| LogTail.ExtractShape | internal/adapter/log/tail.go:62-70 | The extracted address is group 1 without its optional brackets, a non-empty run of hex digits, ':' and '.'. The tag has no space, no ">>" and no white space at its ends. |
| LogTail.TrimAddress | internal/adapter/log/tail.go:62 | A bracketed or bare address comes out of the trim without its brackets. |
| LogTail.ExtractAccessLine | internal/adapter/log/tail.go:56-70 | On a well-formed access line, bracketed or not and followed by any text without '[', the extraction gives the bare address and the tag of the segment's first word. |
| LogTail.PlainTag | internal/adapter/log/tail.go:65-70 | A word without white space or '>' followed by a space and more text gives that word as the tag. |
| LogTail.EmptyGroupTag | internal/adapter/log/tail.go:65-68 | An access line whose tag segment is "[]" is still extracted, with an empty tag. |
| LogTail.Forwarded | internal/adapter/log/tail.go:72-74 | A line is forwarded exactly when it is extracted and the classifier accepts its address. The forwarded access is then the extracted one, with an address that parses, is not loopback and is in no private range. |
| LogTail.ProcessLogLine | internal/adapter/log/tail.go:54-78 | A line that is not forwarded leaves the store as it was. A forwarded line records `tag:ip` at `now` and changes nothing else, or leaves the store as it was when the key is too large. |
| LogTail.ForwardPublicLine | internal/adapter/log/tail.go:56-77 | The line "… from 8.8.8.8:51234 accepted tcp:example.com:443 [in-443 >> direct]" is forwarded as tag "in-443" and address "8.8.8.8". |
| LogTail.ExtractPrivateLine | internal/adapter/log/tail.go:56-70 | The same line with "[fc00::1]" extracts the address without brackets. |
| LogTail.DropPrivateLine | internal/adapter/log/tail.go:72-74 | That bracketed private address is not forwarded. |
| LogTail.ForwardDocLine | internal/adapter/log/tail.go:56-77 | The line "... from 8.8.8.8:443 accepted tcp [proxy-in >> direct]" is forwarded as ("proxy-in", "8.8.8.8"). |
| LogTail.ForwardDocV6Line | internal/adapter/log/tail.go:56-77 | The line "... from [2001:db8::1]:443 accepted tcp [proxy-in >> direct]" is forwarded as ("proxy-in", "2001:db8::1"), brackets stripped. |
| LogTail.ExampleDb8 | internal/adapter/log/tail.go:100 | Accepts "2001:db8::1". |

## Left out

- The file following in `TailLogFile` (`internal/adapter/log/tail.go:37-52`) and the `log.Printf` calls are I/O.
- Opening the database and creating the bucket (`NewBoltDB`, `Close`) are left out. The store starts from an existing bucket.
- Bolt transactions, durability and concurrent access: each operation is one atomic step over the bucket.
- Bolt's cursor behaviour after a `Delete` is left out. The model's cursor always lands on the next entry, so nothing is skipped or revisited.
- `time.Now()` is a parameter.
- RFC 3339 text is abstracted by what `time.Parse` recovers (`Stamp`). Years outside 0-9999, which `Format` writes but `Parse` refuses, are not modelled.
- Bolt.BoltDB.Put: only the empty-key and key-size errors are modelled. The value-size, read-only-transaction and missing-bucket errors cannot arise from these callers.
- Bolt.BoltDB.GetActiveIPCount, Bolt.BoltDB.ListActiveIPs: these return no error value, because the transaction errors they pass on are not modelled.
- The age test `now.Sub(ts)` is unbounded subtraction. Go's saturation of `Duration` at the 64-bit limits is not modelled.
- `handler.go`, `main.go` and `types.go` are not part of this model, beyond the result datatype `TotalUsersCountResult`.
- The use-case and repository `AddUser` pass-throughs are folded into `LogTail.ProcessLogLine`. The repository drops the error `AddIP` returns.
- `LogTail.BlockHolds` stands in for a block `net.ParseCIDR` rejects, where Go would dereference a nil network. It contains nothing. All four listed blocks parse (`LogTail.PrivateNets`), so this case does not arise.
- Strings are sequences of Unicode code points. Log lines holding invalid UTF-8 bytes, and the regexp's handling of them, are not modelled.
- LineMatch.FindAccessLine, LogTail.ExtractAccessLine: their closed form covers access lines with no 'f' before "from " and no '[' after the tag segment's opening one. Lines with more text after the closing ']' are covered when that text has no '['. Other lines are covered only by `LineMatch.FindSubmatch`, `LineMatch.FindSound` and `LineMatch.FindComplete`.
- IPv4-mapped IPv6 text such as `::ffff:10.0.0.1` is parsed and classified as IPv4, as Go does, through `Net.To4`. No lemma states a concrete instance.
- Text.TrimSpace: its contract states only the trimmed ends, not which slice of the input it returns. `Text.Trim` states that.
