# itldims inventory CLI: dump parser and `get` search, in Dafny

`itldims` is a small command-line tool over an etcd-backed server inventory. It
fetches a text dump of the form `Key: <key> Value: <value> Key: ...` from an HTTP
endpoint, parses it into a key-to-value map (`parseKeyValuePairs`), and its `get`
command prints the entries that match both of two search terms, the second being
`servers` when only one is given. This project models those two pieces and proves
what they guarantee.

- `Text.dfy` (module `Text`) models what the tool calls from Go's `strings` package,
  over `seq<char>`: `Contains`, `Split` with a non-empty separator (with the `Index`
  Go builds it on) and `TrimSpace`. It adds `Join`, which the tool does not call, to
  state that the pieces of a split re-join to the input. It also counts occurrences
  of a separator. For a separator that cannot overlap itself (as `Key:`, `Value:`
  and `\n`), its lemmas prove that `Split` and `Join` are inverses and that `Split`
  gives one more piece than there are separators. They also characterise
  `TrimSpace` exactly.
- `Parser.dfy` (module `Parser`) models `parseKeyValuePairs`. It appears twice:
  - as the source's loop, the method `ParseKeyValuePairs`, which updates a map
    segment by segment;
  - as a left fold, `Parse` = `Build(Entries(Split(data, "Key:")))`.

  The method's loop invariant ties the map to the fold over the segments processed
  so far. Lemmas about the fold state the parser's guarantees:
  - stored keys and values are trimmed and hold no marker;
  - a segment counts exactly when it holds one `Value:`;
  - later duplicates win;
  - the entry count is bounded.
- `Selection.dfy` (module `Selection`) models the body of the `get` command:
  - the default second term `servers`;
  - the selection rule `Selected`: no brace in the key or the value, no `data` in
    the key, and each term a whole word of the key or the value;
  - whole-word matching as RE2's `\b` + literal + `\b`, stated without a regex
    engine;
  - the printed lines of an entry;
  - `Run`, the loop over the map, whose iteration order is left unspecified.
- `Examples.dfy` (module `Examples`) proves some concrete behaviours:
  - a duplicate key is overwritten;
  - an empty key is kept;
  - `server` is not matched inside `servers2`;
  - one complete search prints exactly three lines.

## Model

| member | source | states |
|---|---|---|
| Text.Contains | etcd-inventory/.history/itldims_20230808143112.go:47-48 | definition of `strings.Contains` (also used at line 59): `t` occurs at some position of `s`; `Index` is non-negative exactly when it holds |
| Text.Index | etcd-inventory/.history/itldims_20230808143112.go:106 | the result is non-negative exactly when the separator occurs, and then it is the leftmost occurrence; otherwise it is -1 |
| Text.Split | etcd-inventory/.history/itldims_20230808143112.go:106 | `strings.Split` yields at least one piece, no piece contains the separator, and joining the pieces with the separator gives back the input |
| Text.SplitJoin | etcd-inventory/.history/itldims_20230808143112.go:106 | for a separator that cannot overlap itself, splitting a join of separator-free pieces gives back exactly those pieces |
| Text.SplitLength | etcd-inventory/.history/itldims_20230808143112.go:114-115 | for a separator that cannot overlap itself, the number of pieces is the number of occurrences plus one, so `len(lines) == 2` means exactly one `Value:` |
| Text.SplitConcat | etcd-inventory/.history/itldims_20230808143112.go:114 | for a separator that cannot overlap itself (as `Key:` and `Value:`), the first cut is at the first separator: splitting `a + sep + b` with `a` separator-free gives `a` followed by the pieces of `b` |
| Text.SplitPiecesAreFactors | etcd-inventory/.history/itldims_20230808143112.go:106 | every piece is a contiguous factor of the input |
| Text.OccurrenceCountZero | etcd-inventory/.history/itldims_20230808143112.go:114-115 | the occurrence count is zero exactly when the separator does not occur |
| Text.IsSpace | etcd-inventory/.history/itldims_20230808143112.go:109 | definition of the white space `TrimSpace` removes: Go's `unicode.IsSpace`, the ASCII `\t \n \v \f \r` and blank, U+0085, U+00A0 and Unicode's White_Space characters above U+00FF |
| Text.TrimLeft | etcd-inventory/.history/itldims_20230808143112.go:109 | the result is a suffix of the input that does not start with white space, and every character dropped is white space |
| Text.TrimRight | etcd-inventory/.history/itldims_20230808143112.go:109 | the result is a prefix of the input that does not end with white space, and every character dropped is white space |
| Text.TrimSpace | etcd-inventory/.history/itldims_20230808143112.go:109 | the result neither starts nor ends with white space and is no longer than the input |
| Text.TrimSpaceSlice | etcd-inventory/.history/itldims_20230808143112.go:109 | the result is a slice `s[i..j]` of the input and everything removed before `i` and after `j` is white space |
| Text.TrimSpaceIdempotent | etcd-inventory/.history/itldims_20230808143112.go:109 | a general property of `TrimSpace`: trimming twice is trimming once |
| Text.TrimSpacePadded | etcd-inventory/.history/itldims_20230808143112.go:109 | white space around a trimmed middle part is exactly what is removed |
| Text.TrimSpaceEmpty | etcd-inventory/.history/itldims_20230808143112.go:109-112 | the trimmed segment is empty exactly when the segment is all white space |
| Parser.SegmentEntry | etcd-inventory/.history/itldims_20230808143112.go:109-119 | definition of what one `Key:` segment contributes: nothing when it is blank after trimming or does not cut into exactly two parts at `Value:`, otherwise the trimmed parts as key and value; `SegmentEntryIff` and `SegmentEntryMarkerFree` state its properties |
| Parser.Put | etcd-inventory/.history/itldims_20230808143112.go:118 | definition of one step of the loop: a contribution overwrites the key it names and leaves every other key alone, no contribution leaves the map as it is |
| Parser.Build | etcd-inventory/.history/itldims_20230808143112.go:104-120 | definition of the map after the contributions are applied left to right from the empty map; `BuildKeys` and `BuildLastWins` state its key set and values |
| Parser.Parse | etcd-inventory/.history/itldims_20230808143112.go:103-123 | definition of the parser's result as a fold over the `Key:` segments; `ParseKeyValuePairs` is proved to compute it, and `ParseKeys`, `ParseLaterOverwrites`, `ParseTrimmed`, `ParseHasNoMarkers`, `ParseBlank` and `ParseSize` state what it holds |
| Parser.ParseKeyValuePairs | etcd-inventory/.history/itldims_20230808143112.go:103-123 | the loop's final map is the fold `Parse(data)`; every stored key and value is trimmed and holds neither `Key:` nor `Value:` |
| Parser.BuildKeys | etcd-inventory/.history/itldims_20230808143112.go:118 | a key is in the map exactly when some contribution writes it |
| Parser.BuildLastWins | etcd-inventory/.history/itldims_20230808143112.go:118 | the last contribution writing a key decides its value |
| Parser.SegmentEntryIff | etcd-inventory/.history/itldims_20230808143112.go:109-115 | a segment contributes exactly when its trimmed text is non-empty and holds exactly one `Value:`; blank segments and segments with no or several markers are dropped |
| Parser.ParseTrimmed | etcd-inventory/.history/itldims_20230808143112.go:116-117 | every stored key and value has no leading or trailing white space |
| Parser.ParseBlank | etcd-inventory/.history/itldims_20230808143112.go:106-112 | an empty or all-white-space dump yields the empty map |
| Parser.SegmentEntryMarkerFree | etcd-inventory/.history/itldims_20230808143112.go:114-117 | what a `Key:`-free segment stores holds neither marker |
| Parser.ParseHasNoMarkers | etcd-inventory/.history/itldims_20230808143112.go:106-118 | no stored key or value contains `Key:` or `Value:` |
| Parser.EntriesKeys | etcd-inventory/.history/itldims_20230808143112.go:108-118 | a key is stored exactly when some segment writes it |
| Parser.ParseKeys | etcd-inventory/.history/itldims_20230808143112.go:106-118 | a key is in the result exactly when some `Key:` segment contributes a pair with that key |
| Parser.ParseLaterOverwrites | etcd-inventory/.history/itldims_20230808143112.go:118 | of several segments with the same trimmed key, the value kept is that of the last one |
| Parser.ParseSize | etcd-inventory/.history/itldims_20230808143112.go:106-118 | the result has at most as many entries as there are `Key:` segments, which is one more than the number of `Key:` markers |
| Selection.IsWord | etcd-inventory/.history/itldims_20230808143112.go:56-57 | definition of RE2's ASCII word characters `[0-9A-Za-z_]`, which `\b` is defined over |
| Selection.Boundary | etcd-inventory/.history/itldims_20230808143112.go:56-57 | definition of `\b` at a position: a word character on exactly one side, positions outside the text counting as non-word |
| Selection.MatchesAt | etcd-inventory/.history/itldims_20230808143112.go:56-57 | definition of a match of `\b` + `QuoteMeta(t)` + `\b` at position `i`: `t` occurs literally at `i` with a boundary before and after it |
| Selection.WholeWord | etcd-inventory/.history/itldims_20230808143112.go:56-61 | definition of a whole-word match anywhere in the text: `MatchesAt` holds at some position; `MatchString` is proved equal to it |
| Selection.MatchFrom | etcd-inventory/.history/itldims_20230808143112.go:56-57 | the scan from position `i` is true exactly when the term occurs with word boundaries on both sides at some position at or after `i` |
| Selection.MatchString | etcd-inventory/.history/itldims_20230808143112.go:56-61 | matching with `\b` + `QuoteMeta(t)` + `\b` is true exactly when `t` occurs literally with a word boundary before and after it |
| Selection.Selected | etcd-inventory/.history/itldims_20230808143112.go:47-61 | definition of the `get` filter: true exactly when neither key nor value holds a brace, the key does not contain `data`, and each term is a whole word of the key or of the value; `BraceNeverSelected`, `DataKeyNeverSelected`, `SelectedHasWholeWords` and `SelectedSymmetric` state its properties |
| Selection.SearchTerms | etcd-inventory/.history/itldims_20230808143112.go:42-53 | the first term is the first argument; the second is the second argument, or `servers` when only one is given |
| Selection.Render | etcd-inventory/.history/itldims_20230808143112.go:62-68 | definition of what is printed for one selected entry: `key=<key>`, the value cut at `\n`, and an empty line; `RenderLines` and `RenderOutput` state its shape and text |
| Selection.RenderLines | etcd-inventory/.history/itldims_20230808143112.go:62-68 | an entry prints as `key=<key>`, then the lines of the value, then one empty line: `OccurrenceCount(value, "\n") + 3` `Println` calls, the middle ones newline-free and joining by newlines to the value; the first may hold newlines, since a parsed key can contain them |
| Selection.RenderOutput | etcd-inventory/.history/itldims_20230808143112.go:62-68 | the text written for an entry is `key=<key>\n<value>\n\n` |
| Selection.Output | etcd-inventory/.history/itldims_20230808143112.go:65-68 | definition of the text `fmt.Println` writes for a sequence of lines, each followed by a newline; `OutputIsJoin` relates it to `Join` |
| Selection.RenderAll | etcd-inventory/.history/itldims_20230808143112.go:46-68 | definition of the lines printed for a sequence of keys of the map, entry after entry in that order; `Run`'s output is proved equal to it for the printed order |
| Selection.OutputIsJoin | etcd-inventory/.history/itldims_20230808143112.go:65-68 | printing lines one by one with `Println` writes them joined by newlines plus a final newline |
| Selection.Run | etcd-inventory/.history/itldims_20230808143112.go:46-70 | the keys printed are exactly the selected keys of the map, each once, and the output is their rendered lines in the order printed |
| Selection.BraceNeverSelected | etcd-inventory/.history/itldims_20230808143112.go:47-50 | an entry whose key or value holds `{` or `}` is never selected, whatever the terms |
| Selection.DataKeyNeverSelected | etcd-inventory/.history/itldims_20230808143112.go:59 | an entry whose key contains `data` is never selected |
| Selection.SelectedHasWholeWords | etcd-inventory/.history/itldims_20230808143112.go:55-61 | in a selected entry each term occurs literally, bounded by word boundaries, in the key or the value |
| Selection.SelectedSymmetric | etcd-inventory/.history/itldims_20230808143112.go:59-61 | swapping the two terms selects the same entries |
| Selection.NoMatchInsideWord | etcd-inventory/.history/itldims_20230808143112.go:56-57 | a term ending in a word character does not match as the prefix of a longer word |
| Selection.NoMatchAfterWord | etcd-inventory/.history/itldims_20230808143112.go:56-57 | a term starting with a word character does not match as the suffix of a longer word |
| Examples.ParseDuplicateKey | etcd-inventory/.history/itldims_20230808143112.go:106-118 | `Key: k Value: v1 Key: k Value: v2` parses to the single entry `k -> v2` |
| Examples.ParseEmptyKey | etcd-inventory/.history/itldims_20230808143112.go:109-118 | `Key:  Value: v` parses to `"" -> v`: an empty key is stored, only blank segments are dropped |
| Examples.WholeWordMatches | etcd-inventory/.history/itldims_20230808143112.go:56-61 | `server` matches in `the server runs` but not in `servers2`, and `serverA2` does not match in `the server runs` |
| Examples.RegionWestShown | etcd-inventory/.history/itldims_20230808143112.go:47-61 | the terms `servers` and `west` select `region west -> servers active` |
| Examples.DatabaseConfigHidden | etcd-inventory/.history/itldims_20230808143112.go:59 | `database config` is never selected |
| Examples.RenderSingleLine | etcd-inventory/.history/itldims_20230808143112.go:62-68 | a value without a newline prints as exactly `key=<key>`, the value, and an empty line |
| Examples.SearchOneOfTwo | etcd-inventory/.history/itldims_20230808143112.go:46-68 | over two entries of which only the first is selected, the search prints exactly that entry's three lines |
| Examples.SearchRegionWest | etcd-inventory/.history/itldims_20230808143112.go:42-68 | `get servers west` over `region west -> servers active` and `database config -> servers idle` prints `key=region west`, `servers active` and an empty line |

## Left out

- Fetching the dump (`fetchDataFromEtcdAPI`, lines 83-101) and the root command's connectivity probe (lines 19-29) are HTTP I/O. The parser takes the already-fetched body as a string, and `Run` takes the parsed map.
- The cobra wiring is not modelled: the command definitions, `init` (125-128), both `main` functions (75-79, 130-134) and the `--all` flag (127), which is registered but never read. `cobra.RangeArgs(1, 2)` (line 35) is not modelled either. It rejects other argument counts before `Run` is entered, so `Selection.Run` and `Selection.SearchTerms` require one or two arguments.
- `log.Fatalf` on a failed fetch (lines 38-40) ends the process. It is not part of the modelled logic.
- Map iteration order is not modelled (line 46). Go leaves it unspecified, so `Selection.Run` picks keys in an arbitrary order with `:|`. It also returns the printed order of the selected keys and states the output for that order.
- The regex engine (`regexp.MustCompile`, `QuoteMeta`) is replaced by the explicit predicate `Selection.MatchesAt`. It is a literal occurrence with RE2's ASCII `\b` on both sides, which is what the compiled pattern matches.
- Strings are modelled as sequences of Unicode characters, not as Go's byte strings. The markers and braces are ASCII, so the two views agree for valid UTF-8 input. Invalid UTF-8 is not modelled.
- White space for trimming is Go's `unicode.IsSpace` set, including its non-ASCII members, so nothing of `TrimSpace` is left out.
- `Text.Split` requires a non-empty separator. Every call in the source passes `"Key:"`, `"Value:"` or `"\n"`, and Go's rule for an empty separator goes unused.
- The source file does not compile as it stands: there is a stray `)` at line 81 and `main` is defined twice. The model follows the logic of the functions as written.
- The duplicate-key and empty-key parse examples are stated for every "plain" word (non-empty, trimmed, without `K` or `V`), not just for one literal dump.
- On the result size, the model follows the code. Two well-formed segments with the same trimmed key produce a single entry, so `Parser.ParseSize` bounds the number of entries by the number of segments. It does not equate the two.
