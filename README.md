# ms_undraw: catalog synchronisation and corpus analysis, in Dafny

The repository holds two small Go batch tools. This project models and proves the logic of both.

- **cmd/update/update.go** mirrors the unDraw illustration catalog.
  - `getIllustrations` reads the paginated catalog API until a page says `hasMore == false`.
  - It then overwrites every entry's `Id` with `kebabCase(Title)` and sorts the entries by `Id` in place.
  - `downloadIllustrations` saves each entry's SVG as `illustrations/<id>.svg`.
  - `updateLib` generates `lib/illustrations.g.dart`: an enum with one member per entry, and a map from each member to its asset path. It then runs `dart format` on the file.
  - `main` chains the three steps.
- **cmd/analyse/analyse.go** scans every SVG in the asset directory for quoted colour tokens, `"(#[a-f0-9]{3,8}|none)"`. It keeps two tallies, updated in place:
  - per colour, the number of files that use it;
  - per file, the number of distinct colours it uses.

  A colour met twice in one file counts once, through the per-file `doubles` map. `removeDuplicates` is an order-preserving deduplication. Its only call site is commented out.

The modules and what they cover:

| module | file | covers |
|---|---|---|
| `Outcomes` | outcomes.dfy | the fatal failures and the `Result`/`Option` wrappers |
| `Identifiers` | identifiers.dfy | `kebabCase`, as pure functions and lemmas |
| `Ordering` | ordering.dfy | Go's `<` on strings, the order the sort uses |
| `Catalog` | catalog.dfy | `getIllustrations` |
| `Publish` | publish.dfy | `downloadIllustrations`, `updateLib` and `main` of the update tool |
| `Analysis` | analysis.dfy | `removeDuplicates`, the colour scanner and the two tallies |

**Form of the model.** Each part takes the form of the Go code it models:
- `kebabCase` is a chain of pure rewrites, so it is modelled as functions.
- The loops are methods with loop invariants. Each method is proved against a specification function:
  - `FetchPages` against `Paginate`;
  - `DownloadIllustrations` against `Downloaded`;
  - `Analyse` against `Tally`;
  - `CountFile` against `IncEach`/`IncBy` of `Dedup`;
  - `RemoveDuplicates` against `Dedup`.
- The in-place `Id` update and the in-place sort work on an `array`.

The outside world comes in as parameters:
- The page source is a sequence of page-fetch results, one per page index. Each is a decoded page or the failure of the request, of the body read, or of decoding.
- The update tool's `Environment` says:
  - whether the asset directory can be created;
  - what each image URL yields;
  - which paths can be written;
  - whether `dart format` succeeds.
- The analysis tool gets the directory listing with each file's read result.

Every `log.Fatalln` and `log.Panicln` becomes an `Err` carrying the kind of failure.

**Naming function.** The specification functions and lemmas about identifier assignment, downloads and the library take a naming function `nameOf`. They hold for any naming. The methods that model the source instantiate `nameOf` with `KebabCase`, so their contracts speak of `KebabCase` itself.

**Behaviour of the code worth knowing:**
- **Void rewrite.** The rewrite is not anchored to the whole identifier. `strings.Replace(value, "void", "void_", 1)` puts `_` after the first `void` anywhere, so `"avoid"` becomes `"avoid_"` (`Identifiers.KebabCaseAvoid`).
- **Download order.** `main` downloads the sorted list (update.go:163-166). So the enum and the map list the members in the same, sorted, order (`Publish.Sync`).
- **Duplicate identifiers.** `updateLib` emits one member per entry, duplicates included (`Publish.UpdateLib`). For downloads, a later entry with the same identifier overwrites the file of the earlier one (`Publish.DownloadedLastWriteWins`).
- **`dart format` failure.** This failure is fatal in the code. The model reports it as its own failure kind, `FormatError`.

## Model

| member | source | states |
|---|---|---|
| Identifiers.TrimStart | cmd/update/update.go:73 | the first index from `i` on that is not ASCII white space: everything skipped is white space |
| Identifiers.TrimStop | cmd/update/update.go:73 | one past the last non-space character of a slice: everything cut is white space |
| Identifiers.TrimSpace | cmd/update/update.go:73 | `strings.TrimSpace`: the result neither starts nor ends with white space and is no longer than the input |
| Identifiers.TrimSpaceSlice | cmd/update/update.go:73 | the trimmed text is a contiguous slice of the input with only white space before and after it |
| Identifiers.LowerChar | cmd/update/update.go:73 | lower-casing a character leaves no upper-case letter and keeps digits digits |
| Identifiers.ToLower | cmd/update/update.go:73 | `strings.ToLower` maps every character by LowerChar and keeps the length |
| Identifiers.ReplaceChar | cmd/update/update.go:74-75 | `strings.ReplaceAll` of one character: every `from` becomes `to`, everything else stays, same length |
| Identifiers.Normalize | cmd/update/update.go:73-75 | trim, lower-case, spaces and hyphens to `_`: no space, hyphen or upper-case letter remains, the length is the trimmed length, and it starts with a digit iff the trimmed title does |
| Identifiers.PrefixLeadingDigits | cmd/update/update.go:77-80 | the `^\d+` rewrite: a string starting with a digit gets `_` in front, any other string is unchanged, and the result never starts with a digit |
| Identifiers.EscapeVoid | cmd/update/update.go:81 | the first-`void` rewrite keeps a clean string clean, keeps the first character and never shortens |
| Identifiers.EscapeVoidLength | cmd/update/update.go:81 | without `void` the string is unchanged; with it, exactly one character is inserted |
| Identifiers.FirstVoid | cmd/update/update.go:81 | where the first occurrence of `void` starts: an occurrence with none before it |
| Identifiers.EscapeVoidFirst | cmd/update/update.go:81 | the underscore is inserted right after the first `void`, wherever it is, and nowhere else |
| Identifiers.KebabCase | cmd/update/update.go:72-83 | the identifier holds no space, no hyphen and no upper-case letter, and never starts with a digit |
| Identifiers.ContainsVoidUnderscore | cmd/update/update.go:77-81 | the leading `_` of the digit rewrite neither creates nor hides a `void` |
| Identifiers.KebabCaseLength | cmd/update/update.go:72-83 | identifier length = trimmed length + 1 for a leading digit + 1 if the normalized title holds `void` |
| Identifiers.KebabCaseLeadingDigits | cmd/update/update.go:77-81 | a title whose trimmed form starts with a digit becomes the void rewrite of `"_" + normalized title`, so it starts with `_` |
| Identifiers.TrimSpaceKeeps | cmd/update/update.go:73 | trimming a string without white space at its ends changes nothing |
| Identifiers.ToLowerKeeps | cmd/update/update.go:73 | lower-casing a string without upper-case letters changes nothing |
| Identifiers.ReplaceCharKeeps | cmd/update/update.go:74-75 | replacing a character that does not occur changes nothing |
| Identifiers.EscapeVoidKeeps | cmd/update/update.go:81 | a string without any `v` passes the void rewrite unchanged |
| Identifiers.KebabCaseVoid | cmd/update/update.go:81 | `"Void"` becomes `"void_"` |
| Identifiers.KebabCaseAvoid | cmd/update/update.go:81 | `"avoid"` becomes `"avoid_"`: the rewrite is not anchored to the whole word |
| Identifiers.KebabCaseOnce | cmd/update/update.go:74-81 | `"void void"` becomes `"void__void"`: only the first `void` is rewritten |
| Identifiers.NormalizeDigitsExample | cmd/update/update.go:73-75 | `"3D Art"` normalizes to `"3d_art"` |
| Identifiers.KebabCaseDigits | cmd/update/update.go:72-83 | `"3D Art"` becomes `"_3d_art"` |
| Identifiers.KebabCaseTrims | cmd/update/update.go:72-83 | `" Go-Team "` becomes `"go_team"` |
| Ordering.Less | cmd/update/update.go:66 | Go's `<` on strings: the first differing character decides, and a proper prefix sorts first |
| Ordering.LessIrreflexive | cmd/update/update.go:66 | no string sorts before itself |
| Ordering.LessAsymmetric | cmd/update/update.go:66 | two strings never sort before each other |
| Ordering.LessTransitive | cmd/update/update.go:66 | the string order is transitive |
| Ordering.LessTotal | cmd/update/update.go:66 | any two different strings are ordered one way or the other |
| Ordering.NotAfterTransitive | cmd/update/update.go:65-67 | "not after" is transitive, so neighbour order gives global order |
| Catalog.Collected | cmd/update/update.go:54 | the entries of a run of pages, appended in request order; a failed page contributes none |
| Catalog.Paginate | cmd/update/update.go:32-59 | the outcome of the request loop: the failure of the first stopping page, or the entries of every page up to and including the first page without more |
| Catalog.FirstStop | cmd/update/update.go:32-58 | the page at which the request loop stops: it failed or has no more, and every earlier page succeeded with more to come |
| Catalog.CollectedAppend | cmd/update/update.go:54 | the entries of two page runs are the concatenation of their entries |
| Catalog.PaginateFirstStops | cmd/update/update.go:36-57 | a failing first page is the outcome; a first page without more gives exactly its entries |
| Catalog.PaginateFirstHasMore | cmd/update/update.go:32-59 | a first page with more puts its entries ahead of the rest of the catalog, and a later failure is the outcome |
| Catalog.PaginateIgnoresLaterPages | cmd/update/update.go:56-58 | pages after the first stopping page are never requested: they do not change the outcome |
| Catalog.PaginateEmptyCatalog | cmd/update/update.go:32-59 | an empty first page without more gives an empty catalog |
| Catalog.FetchPages | cmd/update/update.go:32-59 | the request loop returns Paginate: the first failure, or the entries of pages 0..k concatenated in request order, where k is the first page without more |
| Catalog.WithIds | cmd/update/update.go:61-63 | each entry with `id` replaced by the name of its title, everything else kept |
| Catalog.NeighboursSorted | cmd/update/update.go:65-67 | neighbours in order make the whole list ordered |
| Catalog.AssignIds | cmd/update/update.go:61-63 | after the in-place loop the array holds exactly its old entries with `id` set to the name of the title |
| Catalog.SortById | cmd/update/update.go:65-67 | after the in-place sort the array is non-decreasing by `id` and a permutation of what it held |
| Catalog.InsertLast | cmd/update/update.go:65-67 | one insertion step: the prefix through `i` is ordered, the array is a permutation, and the entries after `i` are untouched |
| Catalog.Swap | cmd/update/update.go:65-67 | exchanges two entries, leaves the others, and keeps the multiset |
| Catalog.GetIllustrations | cmd/update/update.go:29-70 | fails exactly when pagination fails, with its failure; otherwise the result is sorted by `id` and is a permutation of the collected entries with their KebabCase identifiers |
| Catalog.SortedEntriesHaveIds | cmd/update/update.go:61-67 | after sorting, every entry's `id` is the name of its title, and no entry is lost or added |
| Publish.AssetPath | cmd/update/update.go:112 | the file an asset is saved to: `illustrations/<name>.svg` |
| Publish.AssetPathInjective | cmd/update/update.go:112 | different identifiers give different asset files |
| Publish.SaveOne | cmd/update/update.go:100-116 | one entry's download: the failure of the request or body read, a store failure when the file cannot be written, otherwise the bytes written |
| Publish.Downloaded | cmd/update/update.go:93-121 | the download loop over the entries in order: the paths so far and the files written, or the first failure |
| Publish.DownloadedAfterFailure | cmd/update/update.go:100-116 | once an entry fails, later entries change nothing: the run ends with that failure |
| Publish.DownloadedPaths | cmd/update/update.go:93-121 | a successful run returns one path per entry, in input order, each `illustrations/<name>.svg`, and writes exactly those files |
| Publish.DownloadedOk | cmd/update/update.go:93-118 | the download loop succeeds iff every entry's image can be fetched and saved |
| Publish.DownloadedFirstFailure | cmd/update/update.go:100-116 | a failed run reports the failure of the first entry that failed, and every earlier entry was saved |
| Publish.DownloadedLastWriteWins | cmd/update/update.go:112-113 | an entry with no later entry of the same name has its own bytes in its file |
| Publish.DownloadIllustrations | cmd/update/update.go:85-122 | a failed mkdir is a store failure; otherwise the loop's outcome is Downloaded with KebabCase names |
| Publish.UpdateLib | cmd/update/update.go:124-158 | succeeds iff the library can be written and formatted, else a store or format failure; one enum member per entry in list order; map entry i pairs entry i's `id` with download i |
| Publish.Sync | cmd/update/update.go:160-168 | the run succeeds iff the catalog is read, the directory created, every asset saved and the library written and formatted; a failed run reports the failure of the step that stopped it: pagination, then a store failure for the directory, then the failure of the first asset of the sorted list that fails, then a store failure for the library write, else a format failure; the enum members are made, index by index, from a sorted list that is a permutation of the collected entries with their KebabCase identifiers; members and map entries are as many as catalog entries; map entry i pairs member i with its own asset path; the files written are exactly the map's paths, and a member's file holds its own asset unless a later member of the same name overwrote it |
| Publish.SyncFiles | cmd/update/update.go:93-118 | after a successful download, each member's file holds that member's asset unless a later entry of the same name overwrote it, and the files are the map's paths |
| Publish.SyncFileKeys | cmd/update/update.go:141-144 | the files written are exactly the paths the map lists |
| Publish.SavedIff | cmd/update/update.go:93-118 | saving every entry of the sorted list succeeds iff saving every collected entry does |
| Publish.LibraryOfSorted | cmd/update/update.go:129-144 | for a sorted list and its own paths, the map pairs each member with its own asset file, and the members are sorted and named after their titles |
| Analysis.Dedup | cmd/analyse/analyse.go:11-25 | each element kept at its first occurrence, later repeats dropped, order kept |
| Analysis.RemoveDuplicates | cmd/analyse/analyse.go:11-25 | the `encountered` loop returns Dedup of its input |
| Analysis.DedupElements | cmd/analyse/analyse.go:11-25 | the result has no repeated element, holds exactly the input's elements, and is no longer than the input |
| Analysis.DedupOfDistinct | cmd/analyse/analyse.go:15-22 | a list without repetitions is returned unchanged |
| Analysis.DedupIdempotent | cmd/analyse/analyse.go:11-25 | removing duplicates twice is removing them once |
| Analysis.FirstIndex | cmd/analyse/analyse.go:15-22 | the index of the first occurrence of an element |
| Analysis.DedupFirstOccurrenceOrder | cmd/analyse/analyse.go:15-22 | the result lists the elements in the order of their first occurrences in the input |
| Analysis.HexRun | cmd/analyse/analyse.go:55 | the length of the run of `[a-f0-9]` characters from a position: all of them hex, the next one not |
| Analysis.MatchAt | cmd/analyse/analyse.go:55-56 | a match found at a position is a colour token (`none`, or `#` and 3 to 8 lower-case hex digits) between two quotes there |
| Analysis.MatchAtComplete | cmd/analyse/analyse.go:55-56 | a quoted colour token at a position is what MatchAt finds there |
| Analysis.HexRunExact | cmd/analyse/analyse.go:55 | a run of `m` hex digits followed by a non-hex character has length `m` |
| Analysis.MatchesSound | cmd/analyse/analyse.go:55-56 | every match is a quoted colour token at or after the start, and the matches follow each other left to right without overlap |
| Analysis.MatchesComplete | cmd/analyse/analyse.go:55-56 | no quoted colour is missed: it starts a match or lies inside one |
| Analysis.MatchesCover | cmd/analyse/analyse.go:55-56 | a position where a match could start is covered by a match found from any earlier position |
| Analysis.Matches | cmd/analyse/analyse.go:56 | the matches of `FindAllStringSubmatch` from a position: the leftmost match, then the search resumes past its closing quote |
| Analysis.Colours | cmd/analyse/analyse.go:57-58 | the first submatch of every match, in order |
| Analysis.Scan | cmd/analyse/analyse.go:55-58 | the colours `match[1]` of all matches in a file's text, in order |
| Analysis.MatchAtQuoted | cmd/analyse/analyse.go:55-56 | a colour token written between quotes is matched where it stands |
| Analysis.MatchesQuoted | cmd/analyse/analyse.go:55-56 | a quoted colour token is the next match, and the search resumes right after its closing quote |
| Analysis.ScanExample | cmd/analyse/analyse.go:55-58 | the text `"#ff0000""#ff0000""none"` yields the colours `#ff0000`, `#ff0000`, `none` |
| Analysis.MatchAtUpperCase | cmd/analyse/analyse.go:55 | `"#FFF"` is not a colour: the pattern allows lower-case hex digits only |
| Analysis.MatchAtNineDigits | cmd/analyse/analyse.go:55 | a `#` with nine hex digits between quotes is not a colour |
| Analysis.Inc | cmd/analyse/analyse.go:69-71 | Go's `m[k] += 1`, where a missing key reads as zero |
| Analysis.IncEach | cmd/analyse/analyse.go:69 | one `+= 1` per key of a list, in order |
| Analysis.IncBy | cmd/analyse/analyse.go:71 | `n` times `+= 1` on the same key |
| Analysis.FileColours | cmd/analyse/analyse.go:52-72 | the colours of a file that pass the `doubles` check: its matched colours without repeats, in order of first appearance |
| Analysis.Tally | cmd/analyse/analyse.go:41-72 | the loop over the directory entries: each file bumps each of its distinct colours once and its own count once per colour; a file that cannot be read ends the run with that failure |
| Analysis.IncCounts | cmd/analyse/analyse.go:69-71 | `m[k] += 1` adds one to `k`, creating it if missing, and leaves every other key |
| Analysis.TallyAfterFailure | cmd/analyse/analyse.go:45-48 | once a file cannot be read, later files change nothing |
| Analysis.Analyse | cmd/analyse/analyse.go:30-75 | a failing directory listing is reported; otherwise the loop's outcome is Tally of the entries |
| Analysis.CountFile | cmd/analyse/analyse.go:52-72 | the `doubles` loop bumps each distinct colour of the file once, in first-occurrence order, and the file's count once per distinct colour |
| Analysis.DedupSnoc | cmd/analyse/analyse.go:60-71 | one more colour is kept iff it was not seen before in the file |
| Analysis.IncEachCounts | cmd/analyse/analyse.go:69 | incrementing each of distinct keys adds one to each and creates exactly the missing ones |
| Analysis.IncByCounts | cmd/analyse/analyse.go:71 | `n` increments of one key add `n` to it, and create it only if `n > 0` |
| Analysis.TallyCountsFiles | cmd/analyse/analyse.go:41-72 | after the loop, `colorScheme[c]` is the number of files whose matches include `c`, and `c` is a key iff some file has it |
| Analysis.TallyCountsColours | cmd/analyse/analyse.go:41-72 | after the loop, `colorsPerIllustration[n]` is the number of distinct colours of the files named `n`, and `n` is a key iff that number is positive |
| Analysis.ColoursNamedUnique | cmd/analyse/analyse.go:41-71 | with unique names, the colours counted under a file's name are its own distinct colours |
| Analysis.ColoursNamedAbsent | cmd/analyse/analyse.go:41-71 | a name no entry has counts no colours |
| Analysis.TallyPerFile | cmd/analyse/analyse.go:57-71 | with unique names, each file's count is its number of distinct colours, and a file without colours has no key rather than a zero |
| Analysis.TallyReadAll | cmd/analyse/analyse.go:41-48 | a run succeeds iff every file can be read |
| Analysis.TotalRemove | cmd/analyse/analyse.go:69-71 | the sum of a map's values is any key's value plus the sum of the rest |
| Analysis.TotalWithout | cmd/analyse/analyse.go:69-71 | the sum is a key's value, zero when missing, plus the sum without that key |
| Analysis.RemoveUpdated | cmd/analyse/analyse.go:69-71 | dropping a key just written gives the map without that key |
| Analysis.TotalUpdate | cmd/analyse/analyse.go:69-71 | writing `v` at `k` changes the sum by `v` minus the old value |
| Analysis.TotalInc | cmd/analyse/analyse.go:69-71 | `m[k] += 1` adds one to the sum |
| Analysis.TotalIncEach | cmd/analyse/analyse.go:69 | bumping each colour of a file adds the number of colours to the sum |
| Analysis.IncByWrite | cmd/analyse/analyse.go:71 | `n > 0` increments of one key equal one write of its value plus `n` |
| Analysis.TotalIncBy | cmd/analyse/analyse.go:71 | `n` increments of the file's count add `n` to the sum |
| Analysis.TallyTotals | cmd/analyse/analyse.go:69-71 | the sum of the colour tally equals the sum of the per-file tally |
| Analysis.DoubledColourCountsOnce | cmd/analyse/analyse.go:52-72 | a file matching `"#ff0000"` twice and `"none"` once gives `{#ff0000: 1, none: 1}` and a file count of 2, not 3 |
| Analysis.DoubledColourScanned | cmd/analyse/analyse.go:41-72 | a single file with the text `"#ff0000""#ff0000""none"` gives `{#ff0000: 1, none: 1}` and a file count of 2 |
| Analysis.OneFileTally | cmd/analyse/analyse.go:41-72 | a single file with the distinct colours `#ff0000`, `none` gives `{#ff0000: 1, none: 1}` and `{file: 2}` |
| Analysis.TwoFilesTally | cmd/analyse/analyse.go:41-72 | files with `{#ff0000, none}` and `{#ff0000}` give `{#ff0000: 2, none: 1}` and `{first: 2, second: 1}` |

## Left out

- HTTP requests, body reads and JSON decoding (cmd/update/update.go:36-52, 100-109) are not executed. They are the page source and the `fetch` function of the environment. The page URL built from the page index is therefore not modelled.
- Pagination requires a page source that stops: some page fails or has no more. The Go loop has no bound, so a source that always has more would loop forever. That case is outside the model.
- The file system and the `dart format` process are abstracted:
  - creating the directory and writing files are `mkdirOk` and `writable`;
  - formatting is `formatOk`;
  - `os.ReadDir` and `os.ReadFile` are the listing given to `Analyse` and each entry's read result.
- Publish.DownloadIllustrations: files written before a fatal failure stay on disk in the source. The model reports only the failure, not the partial store.
- Publish.Sync: a failed run reports its failure, but the files written before a failed download are not part of its outcome; its `files` is the store of a run whose downloads all succeeded.
- Publish.UpdateLib: models the structure of the generated Dart file (enum members with title and image, map entries), not its literal text. A failing `dart format` leaves the written file in place; the model reports only the failure.
- Publish.UpdateLib: requires no more downloads than entries. The source indexes the entries by the download index and would panic otherwise. `main` always passes one download per entry.
- Identifiers.TrimSpace: only ASCII white space is trimmed. Go's `strings.TrimSpace` also trims Unicode spaces.
- Identifiers.LowerChar: only ASCII letters are lower-cased. Go's `strings.ToLower` maps all of Unicode.
- Ordering.Less: compares characters by code point, which gives the same order as Go's byte-wise comparison of UTF-8 strings.
- Catalog.SortById: `sort.Slice` is modelled by an insertion sort with the same contract: sorted by `id`, and a permutation. The order of entries with equal identifiers is unspecified in the source and is not stated.
- The `nextPage` and `slug` fields of the API records are decoded but unused by the tools. The model keeps `slug` and leaves out `nextPage`'s meaning.
- Logging (`log.Printf`), `fmt.Println`, `json.MarshalIndent` and writing the two JSON reports (cmd/analyse/analyse.go:82-96) are left out. The model ends with the two tallies.
- The analysis scanner is modelled as a hand-written left-to-right matcher for the one fixed pattern. Go's general regular-expression engine is not modelled.
- Analysis.TallyPerFile requires unique directory-entry names, which `os.ReadDir` guarantees. With repeated names, the per-file count sums over the files of that name (Analysis.TallyCountsColours).
- `removeDuplicates` is modelled even though the tool never calls it.
