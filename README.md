# Log-Sentinel analysis core in Dafny

Log-Sentinel reads an SSH authentication log and reports on failed password attempts. Its
analysis has three parts, all in `app.py`:

- the line pattern `SSH_FAIL_REGEX`. It finds `Failed password for`, an optional
  `invalid user `, a user name, ` from ` and a dotted-quad address;
- the aggregation in `parse_log_file`. It collects the user name and address of every
  matching line, counts them with `collections.Counter`, and keeps the five most common of
  each with `most_common(5)`;
- the geolocation step. Each distinct address among the top five is looked up with
  `get_ip_geolocation`, and the address's count is added to the location record.

The model has six modules:

- `Outcomes` (`outcomes.dfy`): `Option`, `Result` and `Min`.
- `SshMatcher` (`ssh_matcher.dfy`): the regular expression as a hand-written matcher with
  the search order of Python's `re` engine:
  - start positions are tried from the left;
  - the optional group is tried first;
  - the user name is lazy and does not cross a newline;
  - the last octet is greedy.

  `IsMatch` describes the pattern independently of the matcher. The lemmas prove that the
  matcher returns a match when one exists, that what it returns is a match, and that it is the
  first match in the engine's order.
- `SshExamples` (`ssh_examples.dfy`): the matcher on the line
  `Failed password for invalid user admin from 10.0.0.1 port 22 ssh2`, which yields
  ("admin", "10.0.0.1"), and on the out-of-range address 999.999.999.999, which is captured whole.
- `Frequency` (`frequency.dfy`): `Counter` as a table that keeps first-seen order, and
  `most_common(n)` as a stable sort by count followed by taking the first n entries.
- `Geolocation` (`geolocation.dfy`): `get_ip_geolocation` as a total function of the address
  and of the service's answer. The answer is the abstract datatype `Response`: a failed
  request, or a JSON object whose fields may each be missing, `null` or present.
- `LogAnalysis` (`log_analysis.dfy`): `parse_log_file`, split into three methods:
  - `CollectFailures` is the loop over the lines;
  - `LocateAll` is the loop over `unique_top_ips`;
  - `ParseLogFile` puts them together.

  Python does not fix the order in which it iterates a set. `LocateAll` therefore picks the
  next address with `:|` and returns the visiting order as a ghost out-parameter. The lemmas
  quantify over every such order.

Where the code and its documentation disagree, the model follows the code. The documentation
says a default record is used whenever the lookup goes wrong. In the code, a `success` answer
without a `query` field raises a `KeyError` at `data['query']`. The `except` clause does not
catch it, so it escapes `parse_log_file`. The model gives this case the outcome
`Failure(MissingQuery)`.

## Model

| member | source | states |
|---|---|---|
| SshMatcher.DigitRunDigits | app.py:16 | every character of the digit run at i is an ASCII digit |
| SshMatcher.DigitRunMaximal | app.py:16 | every run of digits that starts at i fits within the counted run |
| SshMatcher.OctetDotSound | app.py:16 | a `\d{1,3}\.` scan that succeeds has found one to three digits followed by a dot |
| SshMatcher.OctetDotFinds | app.py:16 | any one to three digits followed by a dot are found by the `\d{1,3}\.` scan, at that dot |
| SshMatcher.LastOctetSound | app.py:16 | the last octet found is one to three digits |
| SshMatcher.LastOctetFinds | app.py:16 | the greedy last octet found reaches at least as far as any octet at that position |
| SshMatcher.ScanAddressSound | app.py:16 | an address found is four octets of one to three digits separated by dots |
| SshMatcher.ScanAddressFinds | app.py:16 | any dotted quad of 1-3 digit runs is found, with no bound on the octet values (999.999.999.999 is captured); the scan puts the dots in the same places and ends no earlier |
| SshMatcher.AddressDotsUnique | app.py:16 | two dotted quads at the same position have their dots in the same places |
| SshMatcher.ScanUserSound | app.py:16 | a user name found by the lazy scan ends at a ` from ` followed by an address, with no newline in it |
| SshMatcher.ScanUserComplete | app.py:16 | the lazy scan finds a user name no longer than any that ends at a ` from ` followed by an address without a newline |
| SshMatcher.UserScanSound | app.py:16 | a user name found is non-empty, contains no newline, and is followed by ` from ` and an address |
| SshMatcher.SpanIsMatch | app.py:16 | helper that folds the parts of a match into `IsMatch`: the phrase, an optional `invalid user `, a user name, ` from ` and an address |
| SshMatcher.MatchAtParts | app.py:16 | an anchored match starts with the phrase, its user name starts right after the phrase or after `invalid user `, and the user scan from there found the rest |
| SshMatcher.MatchAtSound | app.py:16 | what the anchored scan returns is a match of the pattern |
| SshMatcher.MatchAtFirst | app.py:16 | every match at a position is found there, and the anchored scan returns one that comes no later in the engine's order |
| SshMatcher.SearchFromSound | app.py:61 | the search from a position returns only matches of the pattern |
| SshMatcher.SearchFromFirst | app.py:61 | a match at or after a position means the search from it succeeds, and returns a match that comes no later in the engine's order |
| SshMatcher.MatchesRanked | app.py:16 | the engine's order on two different matches is strict, so there is a single first match |
| SshMatcher.SearchSound | app.py:61 | `SSH_FAIL_REGEX.search` never reports a false match |
| SshMatcher.SearchFirst | app.py:61 | the search finds a match whenever the line has one, and returns the first in the engine's order: leftmost start, `invalid user ` taken when possible, shortest user name, longest last octet |
| SshMatcher.MatchIffPattern | app.py:61-62 | a line yields a record exactly when the pattern matches it somewhere |
| SshMatcher.MatchGroups | app.py:61-64 | the record holds group 1 (user) and group 2 (address) of the first match |
| SshExamples.SamplePieces | app.py:16 | where the phrase, `invalid user `, the user name, ` from ` and the address stand in the sample line `Failed password for invalid user admin from 10.0.0.1 port 22 ssh2` |
| SshExamples.SameFromSlice | app.py:16 | a literal part of the pattern occurs wherever a slice of the line equals it |
| SshExamples.NoNewlineSlice | app.py:16 | a slice without a newline is text that `.+?` may consume |
| SshExamples.SampleIsMatch | app.py:16 | the pattern matches the sample line with `invalid user ` taken by the optional group |
| SshExamples.PiecesMatch | app.py:16 | a line laid out as the sample matches at the sample's positions |
| SshExamples.AddressPiece | app.py:16 | 10.0.0.1 in the sample line is a dotted quad with its dots at 46, 48 and 50 |
| SshExamples.PiecesFirst | app.py:16 | no match of such a line comes before the sample's positions in the engine's order |
| SshExamples.PiecesRecord | app.py:61-64 | a line laid out as the sample yields ("admin", "10.0.0.1") |
| SshExamples.SampleRecord | app.py:61-64 | the sample line yields the user "admin", not "invalid user admin", and the address "10.0.0.1" |
| SshExamples.WideAddress | app.py:16 | 999.999.999.999 is captured whole as an address: the octets are not range-checked |
| Frequency.FirstSeen | app.py:67 | the index of the first occurrence of a key, or the length when the key does not occur |
| Frequency.BumpKnown | app.py:67 | counting a known key adds one to its count, in place, and changes no other entry |
| Frequency.BumpNew | app.py:67 | counting a new key appends the entry (key, 1) |
| Frequency.TallySpec | app.py:67 | `Counter(xs)` holds every element of xs once, in first-seen order, with its number of occurrences |
| Frequency.TallySize | app.py:67 | `Counter(xs)` has one entry per distinct element of xs |
| Frequency.LookupTally | app.py:80 | `counter[k]` is the number of occurrences of k, and 0 for an absent k |
| Frequency.TallySum | app.py:67 | the counts of `Counter(xs)` add up to the length of xs |
| Frequency.InsertPermutes | app.py:68 | insertion into the sorted rest keeps every entry |
| Frequency.SortPermutes | app.py:68 | sorting by count is a permutation of the table |
| Frequency.InsertRanked | app.py:68 | inserting an entry seen before all others into a ranked table keeps it ranked |
| Frequency.SortRanked | app.py:68 | sorting a first-seen-ordered table ranks it: larger counts first, ties in first-seen order |
| Frequency.TopNFromTally | app.py:68 | every entry of `most_common(n)` is an entry of the Counter |
| Frequency.MostCommonCounts | app.py:68 | `most_common(n)` has min(n, number of distinct keys) entries, each an element of the input with its exact count, no key twice |
| Frequency.MostCommonRanked | app.py:68 | `most_common(n)` is sorted by count, non-increasing, with equal counts in order of first appearance |
| Frequency.MostCommonComplete | app.py:68 | a key of the input left out of `most_common(n)` means n entries were kept, each ranked ahead of it |
| Frequency.MostCommonSum | app.py:66-68 | the counts of `most_common(n)` add up to at most the input length, and to exactly that when there are at most n distinct keys |
| Geolocation.GeolocateOutcome | app.py:21-52 | only a success answer without `query` raises; a failed request or any other status gives the default record: the requested address, Unknown, ??, 0, 0 |
| Geolocation.GeolocateReported | app.py:34-42 | on a success answer the record holds the echoed `query` (None when it is null), the country and code, or Unknown and ?? when missing, or None when null, and each coordinate, or 0 when it is missing or null |
| Geolocation.GeolocateNamesAddress | app.py:34-52 | when the service echoes the requested address or reports no success, the record names the requested address |
| LogAnalysis.RecordsSnoc | app.py:60-64 | one more line appends its record, when it matches, after those of the earlier lines |
| LogAnalysis.CollectFailures | app.py:56-64 | the loop over the lines leaves in `found_users` and `found_ips` the user and address of every matching line, in line order |
| LogAnalysis.LocateAll | app.py:72-81 | the loop over `unique_top_ips` looks each address up at most once and stops at the first lookup that raises, which is then the last address visited, every earlier lookup having succeeded; it raises exactly when some address's lookup does; on success it has visited every address once and each record carries its looked-up location and counter value |
| LogAnalysis.ParseLogFile | app.py:54-88 | the report holds the number of matches, the two top-five lists and the geolocation records of the order visited; it is a failure exactly when some top address's lookup raises, and then that address is the last one looked up, after lookups that all succeeded |
| LogAnalysis.MatchedSnoc | app.py:60-62 | one more line adds one matching line exactly when it matches |
| LogAnalysis.LinesFromSnoc | app.py:60-64 | one more line adds one line from address a exactly when its match names a |
| LogAnalysis.LinesForSnoc | app.py:60-63 | one more line adds one line for user u exactly when its match names u |
| LogAnalysis.TotalFailures | app.py:60-66 | `total_failures`, the length of `found_ips` and that of `found_users` all equal the number of matching lines |
| LogAnalysis.AddressCount | app.py:67 | `ip_counts[a]` is the number of lines whose match names address a |
| LogAnalysis.UserCount | app.py:69 | `user_counts[u]` is the number of lines whose match names user u |
| LogAnalysis.TopCounts | app.py:67-70 | each top-five list has min(5, distinct keys) entries, and each entry's count is the number of lines naming its key, at least 1 |
| LogAnalysis.TopSums | app.py:66-70 | the counts of each top-five list add up to at most `total_failures`, and to exactly that when at most five distinct keys were found |
| LogAnalysis.LocateSpec | app.py:77-81 | the geolocation loop succeeds exactly when no lookup raises; then record i is the location of address i with its counter value |
| LogAnalysis.VisitOnce | app.py:75-77 | an enumeration of a set visits each address once and has the set's size |
| LogAnalysis.GeoDataSpec | app.py:75-81 | a successful report has one record per distinct top address, no address twice; each record is that address's lookup result with its count, which is the number of lines naming it and the count `top_5_ips` lists for it |
| LogAnalysis.FailureIff | app.py:36 | for any full visiting order, the analysis raises exactly when the lookup of some top address raises |
| LogAnalysis.ImagePermutes | app.py:77-81 | one record per visited address, in two orders of the same addresses, gives the same records reordered |
| LogAnalysis.OrderIrrelevant | app.py:75-77 | any two visiting orders of `unique_top_ips` both succeed or both fail, and give the same totals, the same top lists and the same `geo_data` up to order |

## Left out

- The Flask routes `index` and `analyze_log`, the upload folder and saving the file (app.py:9-12 and the routes after line 90) are HTTP and filesystem plumbing.
- Opening the file and decoding it as UTF-8 with `errors='ignore'` are left out. The input is the sequence of decoded lines; each may keep its trailing newline, which the user name cannot cross.
- The HTTP request in `get_ip_geolocation`, its timeout and the debugging `print`s are network I/O and console output. The request's outcome is the parameter `lookup`: an address's `Response`.
- A failed request is one `Response` constructor, `RequestFailed`. It stands for a connection error, a timeout, an error status raised by `raise_for_status` and a body that is not JSON; the code handles all of these the same way. A body that is not JSON counts as a `RequestException` from requests 2.27 on (`requests.exceptions.JSONDecodeError`), which the model assumes; with an older requests the `ValueError` would escape `get_ip_geolocation` as the missing-`query` `KeyError` does.
- An answer that is JSON but not an object (a list, a number) is not modelled; the service always answers with an object.
- `lat` and `lon` are JSON numbers, usually floats. They are modelled as integers, which keeps the only rule that matters: missing or `null` gives 0.
- The iteration order of the set `unique_top_ips` is not fixed by Python. The model takes any order and proves that the result does not depend on it up to the order of `geo_data` (`OrderIrrelevant`).
- Python's `\d` also matches non-ASCII digits. It is modelled as the ASCII digits `0`-`9`.
- The page script `static/js/main.js` is user-interface code: charts, a map and display formatting. It is not part of this model.
- `Report.topIps` and `Report.topUsers` are sequences of (key, count) entries where Python has lists of tuples.
