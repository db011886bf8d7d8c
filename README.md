# asset-watcher: the asset processor

asset-watcher lists the IP-address records of a cloud organisation and reports
them. Its asset processor (`processor.go`) does three things:

- It pulls search results one by one from an `AssetIterator` until the iterator
  reports that it is done.
- It derives each record's project and IP address.
- It drops the records the configuration rejects, and maps the rest, in order,
  to `ProcessedAsset` rows.

The configuration can reject a record in three ways: it is reserved while
reserved addresses are excluded; its project is on the exclude list; or an
include list is given and its project is not on it. The two project lists are
comma-separated strings, split and trimmed by `splitString`.

The model has three files:

- `wrappers.dfy` holds `Option` and `Result`.
- `strings.dfy` holds the two functions of Go's `strings` package the
  processor calls: `TrimSpace`, with Go's white-space set, and `Split`. It
  also holds `Index`, the search that the `Split` model is built from, and
  `Join`, which is there only to state that `Split` loses nothing.
- `processor.dfy` holds the processor itself:
  - the datatypes: the search record, its typed attribute values, the
    configuration, the output row, and the iterator's answers;
  - `splitString` as the method `SplitString`, whose loop is specified by the
    function `Compact`;
  - `getIPAddress` and `getProjectID` as functions;
  - the iterator as the class `AssetIterator`;
  - `ProcessAssets` as a method. It splits the project lists, then runs its
    loop in `ReadAssets`, with the filter for one record in `ProcessRecord`.
    The result is specified by the functions `Select`, `AssetsIn` and
    `ReadCount`.

For a one-character separator, such as the "," of the project lists, a
separator at the start, at the end or next to another contributes nothing to
what `splitString` returns. For a longer separator this holds at the start,
but not always at the end: `strings.Split` searches from the left, so a
separator that overlaps itself can match across the text before a trailing
copy. Split on "aba", the input "ababa" gives the pieces "" and "ba", while
"ab" gives "ab".

The iterator class answers successive `Next` calls from a fixed list of
answers: a record, an error, or the end marker. Only a record moves it
forward, so an error or the end marker is repeated, as in the mock iterator of
`processor_mock_test.go`. Once the list is used up it answers with the end
marker.

## Model

| member | source | states |
|---|---|---|
| Strings.TrimLeftSpec | processor.go:46 | the left trim removes the longest all-white-space prefix, leaving a suffix of the input that is empty or starts with a non-space |
| Strings.TrimRightSpec | processor.go:46 | the right trim removes the longest all-white-space suffix, leaving a prefix of the input that is empty or ends with a non-space |
| Strings.Trim | processor.go:46 | `strings.TrimSpace`: the result has no white space at either end, is empty exactly when the input is all white space, and is no longer than the input; `TrimSpec` says which slice of the input it is |
| Strings.TrimSpec | processor.go:46 | `strings.TrimSpace` gives the slice of the input between a leading and a trailing all-white-space part; with `Trim`'s own contract, exactly the outer white space is removed |
| Strings.TrimTrimmed | processor.go:54 | trimming a string with no white space at its ends gives it back (trimming is idempotent) |
| Strings.IndexFrom | processor.go:50 | a position found from `from` lies at or after `from` and leaves room for the separator |
| Strings.IndexFromSpec | processor.go:50 | the position found is an occurrence with no earlier one at or after `from`; none is found only when there is no occurrence |
| Strings.Index | processor.go:50 | `strings.Index`: a found position leaves room for the separator |
| Strings.IndexSpec | processor.go:50 | `strings.Index` finds the first occurrence, and finds nothing only when the separator does not occur |
| Strings.SplitSpec | processor.go:50 | `strings.Split` with a non-empty separator: at least one piece, no piece holds the separator, and the pieces joined by the separator give back the input |
| Strings.SplitLeadingSeparator | processor.go:50 | a split of an input that starts with the separator begins with an empty piece, followed by the pieces of the rest |
| Strings.SplitAround | processor.go:50 | for a one-character separator, splitting `a + sep + b` gives the pieces of `a` followed by the pieces of `b` |
| Strings.SplitTrailing | processor.go:50 | a trailing one-character separator adds an empty last piece |
| Strings.SplitDouble | processor.go:50 | two one-character separators in a row give an empty piece between the pieces on either side |
| Strings.SplitNonEmpty | processor.go:148-149 | with a non-empty separator, `strings.Split` gives at least one piece, so the `len(parts) > 0` guard always holds |
| Strings.JoinExplode | processor.go:50 | with an empty separator, the single-character pieces join back to the input |
| Strings.JoinSplit | processor.go:50 | round trip: joining the pieces of a split with the same separator gives back the input |
| Strings.SplitPiecesFree | processor.go:50 | with a non-empty separator, no piece of a split contains the separator |
| Strings.SplitLastPiece | processor.go:148-150 | the last piece of a split is a suffix of the input; it is the whole input when there is one piece, and otherwise it directly follows an occurrence of the separator |
| Processor.Compact | processor.go:53-58 | every string kept by the loop is non-empty and has no white space at either end |
| Processor.SplitString | processor.go:45-61 | the result is the non-empty trims of the split pieces, in order; a blank input gives the empty list; every element is non-empty and trimmed |
| Processor.CompactLength | processor.go:51-58 | the result never has more strings than the split has pieces |
| Processor.CompactAppend | processor.go:53-58 | the loop works piece by piece: compacting distributes over concatenation, so order is kept |
| Processor.CompactMembers | processor.go:53-58 | a string is in the result exactly when it is the non-empty trim of some piece |
| Processor.CompactEmpty | processor.go:53-58 | the result is empty exactly when every piece is blank |
| Processor.JoinBlank | processor.go:46-50 | every piece of an all-white-space string is all white space |
| Processor.BlankSplitsToNothing | processor.go:46-58 | the early return for a blank input agrees with what the loop would give |
| Processor.EmptyPieceVanishes | processor.go:55 | an empty piece anywhere among the pieces contributes nothing to the result |
| Processor.LeadingSeparatorVanishes | processor.go:50-58 | a leading separator gives an empty first piece, and the result is that of the input without it |
| Processor.TrailingSeparatorVanishes | processor.go:50-58 | a trailing one-character separator, such as the configuration's ",", changes nothing in the result |
| Processor.DoubleSeparatorVanishes | processor.go:50-58 | a doubled one-character separator gives the same result as a single one |
| Processor.GetIPAddress | processor.go:125-142 | `getIPAddress`: the result is "N/A" or the string stored under "address"; `GetIPAddressSpec` says which |
| Processor.GetIPAddressSpec | processor.go:125-142 | the address is the string stored under "address" when there is one; missing attributes, a missing field map, a missing key, a nil value or a non-string value give "N/A" |
| Processor.NumericAddressIgnored | processor.go:135 | a number stored under "address" gives "N/A" |
| Processor.LastSegmentUnique | processor.go:150 | a path has only one segment after its last slash |
| Processor.SplitLastSegment | processor.go:148-150 | the last piece of a split on "/" is what follows the path's last slash, or the whole path when it has no slash, and contains no slash |
| Processor.GetProjectID | processor.go:144-155 | `getProjectID`: "N/A" for any parent type but the project type; `GetProjectIDSpec` gives the project parent's case |
| Processor.GetProjectIDSpec | processor.go:144-155 | the project is "N/A" unless the parent type is exactly the project type; for a project parent it is the last segment of the parent's resource name |
| Processor.ProjectIDWithoutSlash | processor.go:147-151 | a project path without a slash (the empty path among them) comes back unchanged |
| Processor.ProjectIDTrailingSlash | processor.go:147-151 | a project path ending in a slash, "//" among them, gives the empty project |
| Processor.ProjectIDOfProjectPath | processor.go:147-151 | the resource name "//cloudresourcemanager.googleapis.com/projects/P" gives project P |
| Processor.FiltersOf | processor.go:69-70 | the configured lists, split on "," and trimmed: a blank list gives no project, and every listed project is non-empty with no white space at either end; the reserved flag is passed through |
| Processor.Keep | processor.go:90-103 | the filter of one record; a project on the exclude list rejects the record even when the include list names it too |
| Processor.ToProcessedAsset | processor.go:106-113 | the row of a record: its address is "N/A" or the stored address, and its project is "N/A" unless the parent is a project |
| Processor.Select | processor.go:90-114 | the rows for the kept records are never more than the records |
| Processor.AssetsIn | processor.go:77-86 | the records carried by a run of iterator answers are never more than the answers |
| Processor.ReadCount | processor.go:76-84 | the loop reads records up to, and not including, the first answer that is not a record |
| Processor.AssetIterator.constructor | processor_mock_test.go:18-22 | a fresh iterator stands at the first of its answers |
| Processor.AssetIterator.Next | processor_mock_test.go:25-38 | the next answer is the answer at the current position, or the end marker past the list; only a record moves the position forward |
| Processor.ProcessAssets | processor.go:64-123 | the project lists are split on ","; the iterator advances by exactly the records read; an error from the iterator gives the prefixed error and no rows; otherwise the rows are the kept records' rows, in order |
| Processor.ReadAssets | processor.go:76-122 | the loop of `ProcessAssets`, with the same contract for already split project lists |
| Processor.ProcessRecord | processor.go:87-114 | a record gives a row exactly when it passes the reserved check, the exclude list and the include list, and that row carries its name, location, state, address, project and formatted creation time |
| Processor.SelectNext | processor.go:105-114 | reading one more record appends its row, if it is kept, to the rows so far |
| Processor.SelectMembers | processor.go:90-114 | a row is in the output exactly when it is the row of some record that passes the filters |
| Processor.SelectSound | processor.go:90-105 | every row passes all filters: it is not "RESERVED" while reserved records are excluded, its project is not excluded, and its project is included whenever the include list is non-empty |
| Processor.SelectComplete | processor.go:90-114 | every record that passes the filters has its row in the output |
| Processor.SelectAppend | processor.go:105-114 | rows come out in the order of their records |
| Processor.SelectUnfiltered | processor.go:98-114 | with no filter configured, every record gives its row: a 1:1 mapping in order |
| Processor.AssetsInPrefix | processor.go:77-86 | the records read before the first non-record answer are exactly those answers' records, one per answer |
| Processor.ReadCountAt | processor.go:76-84 | the read count is the first position that holds no record |

## Left out

- Logging: the debug messages and the `totalAssets` counter they report (processor.go:67, 72, 86, 117-120). They only feed the log and do not affect the result.
- Time formatting: `AsTime().Format("2006-01-02 15:04:05")` (processor.go:112) is a library call. It is the parameter `formatTime`, which the model does not interpret. A nil creation time, which Go formats as the Unix epoch, is whatever `formatTime` gives for the timestamp passed.
- `NewAssetProcessor` (processor.go:38-43) only stores a logger and the configuration. The configuration is the `Config` parameter; the logger is not modelled.
- The context argument of `ProcessAssets` is unused apart from logging, and is not modelled.
- A nil search result returned together with a nil error is not modelled. Every record answer carries a record; Go's nil-safe getters would read it as a record with empty fields.
- `errors.Is(err, iterator.Done)` also accepts an error that wraps the end marker. The model has one end marker and treats every other error as an error.
- Errors are strings: `%w` wrapping keeps the original error value, while the model keeps its message behind the prefix.
- Strings are sequences of Unicode characters, not UTF-8 bytes. Invalid UTF-8 and Go's byte-level `strings.Split` on such input are not modelled.
- Attribute values: a number is a `real` rather than a float64, and struct and list values have no contents, because only their kind matters here.
- The other files of the repository (fetching, output, Slack, configuration loading, logging set-up, main) are not part of this model. `Config` holds only the three fields the processor reads.
- Go's `strings.TrimSpace`, `strings.Index` and `strings.Split` are modelled from their documented behaviour. The Go standard library's source is not part of this model.
