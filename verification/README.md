# rancher-metadata core, modelled in Dafny

rancher-metadata is a small HTTP server that answers per-client configuration
queries from one YAML document. The document maps versions to answers, and answers
map client keys to value trees. A client key is an address or `default`. This
project models the pure logic of `main.go` and proves properties of it:

- the value tree (`Values`);
- the load-time copying of `default` fields into every client map (`Merge`);
- the reload of the published tree, as a transition on the two package variables
  `answers` and `loading` (`Store`);
- the request side of the `metadata` handler (`Request`): choosing the version
  (including the synthesised `latest`), cutting the escaped path into segments,
  and decoding the segments until the first failure;
- the response-format choice and the plain-text renderer `respondText` (`Render`).

Helper modules model Go's `strings` routines and Go's `<` on strings (`Strings`),
`sort.Strings` (`Sorting`), and `%d` formatting (`Decimal`). `url.QueryEscape`,
`url.QueryUnescape` and `fmt.Sprintf("%f", …)` are not modelled. They are passed
in as a `Foreign.Routines` record. `answers.Matching` is passed in as a function
parameter. The outcome of `ParseAnswers` is an input to `Store.Reload`.

Go iterates over maps in an unspecified order. Where the result could depend on the
visit order, the model takes that order as a parameter. There are two such places: the
list `answers.Versions()` returns, which the `latest` search walks (main.go:276), and
the keys of a map being rendered (main.go:377). The model then proves that the result
does not depend on the order (`Request.LatestOrderIndependent`,
`Render.MapLinesOrderIndependent`). The merge loops over `neu`, the client maps and the
`default` map (main.go:137, 159, 162) take no order. Each client map is written on its
own, and the `default` map already holds all its own keys, so it gains none. The visit
order therefore cannot change the merged tree, and `Merge.MergeVersions` and
`Merge.MergeDefaults` are map comprehensions.

Go's `<` on strings compares bytes. On UTF-8 text, byte order and code-point order
agree, so `Strings.Less` compares characters.

For a missing `latest` in a tree with no versions, the code picks `""` as the version
and goes on to the path lookup (main.go:274-281, 304); `Request.SelectVersion` returns
`""` in that case.

## Model

| member | source | states |
|---|---|---|
| Merge.MergeClient | main.go:160-167 | a map-valued client entry gains exactly the default keys it lacks and keeps the value of every key it already has; a non-map entry is returned unchanged |
| Merge.MergeDefaults | main.go:158-170 | every client entry of the version is merged with the defaults; the set of client keys does not change |
| Merge.MergeAnswers | main.go:137-147 | when the version has a map-valued `default` entry, every client entry is merged with it and the `default` entry itself stays the same; otherwise the version is untouched; afterwards every map-valued client holds every default key |
| Merge.MergeVersions | main.go:137-147 | the merge over all versions keeps the version and client keys, and relates every client entry to its parsed entry by the merge relation |
| Merge.MergeDefaultsIdempotent | main.go:158-170 | merging the same defaults a second time changes nothing |
| Merge.MergeAnswersNoOpWhenApplied | main.go:137-147 | a version whose map-valued clients already hold every default key is left as it is |
| Merge.MergeAnswersIdempotent | main.go:137-147 | the per-version merge applied twice equals the merge applied once |
| Merge.MergeVersionsIdempotent | main.go:137-147 | loading the already merged tree again would publish the same tree |
| Store.Reload | main.go:132-156 | on a parse error the published answers are kept and returned together with the error, and `loading` stays raised; on success the merged tree is published and returned, with `loading` lowered and no error |
| Store.ReloadPublishesMergedTree | main.go:136-150 | after a successful reload, the published tree has the parsed versions and clients, with defaults applied in every version |
| Store.FailedReloadsKeepAnswers | main.go:183-190 | any run of failed reloads, handled one after another, leaves the published answers unchanged |
| Store.LastSuccessfulReloadWins | main.go:183-190 | after reloads handled in arrival order, the published tree is the merge of the last one that parsed |
| Store.ReloadAll | main.go:183-190 | the worker handles reload requests one after another; after a non-empty run, `loading` is raised exactly when the last request failed to parse |
| Store.Server.LoadAnswersFromFile | main.go:132-156 | the package-variable form of the reload: on failure the old answers are kept and returned with the parse error itself; on success the merged tree is published and returned with no error |
| Request.LatestFrom | main.go:275-280 | the search for the greatest version returns the start value or one of the keys, and is at least as great as the start value and every key |
| Request.LatestOrderIndependent | main.go:276-280 | the version the search returns does not depend on the order the keys are visited in |
| Request.SelectVersion | main.go:270-287 | an existing version key is used unchanged, a literal `latest` included; a missing `latest` becomes the greatest key, or `""` when there are none; any other missing version is refused |
| Request.PathSegments | main.go:289-290 | the segments contain no `/`; their number is the number of `/` in the trimmed path; joined after the dropped version segment with `/`, they rebuild the trimmed path |
| Request.PathSegmentsIgnoreTrailingSlash | main.go:289 | a trailing `/` does not change the segments |
| Request.UnescapeSegments | main.go:291-301 | decoding succeeds exactly when every segment decodes, and then it yields each segment's decoding in order; otherwise the error is that of the first segment that fails |
| Request.Metadata | main.go:264-313 | "Invalid version" with 404 exactly when the version is missing and not `latest`; 400 exactly when the version is accepted and some segment fails to decode, with the first failing segment's error as the message; whenever the version is accepted and every segment decodes, the response is the matcher's value for the selected version and the decoded segments, or "Not found" with 404 when it has none |
| Request.MetadataLiteralLatest | main.go:270-272 | a literal `latest` version is searched as `latest`, never replaced by the greatest key |
| Request.MetadataBadRequestSkipsMatching | main.go:298-304 | when a segment fails to decode, the tree lookup does not affect the response |
| Request.MetadataIgnoresTrailingSlash | main.go:289-304 | a request with a trailing `/` gets the same response as the one without |
| Render.ContentTypeOf | main.go:226-232 | JSON exactly when the negotiated type contains `json`; YAML exactly when it contains `yaml` but not `json`; text otherwise |
| Render.OffersSelectFormats | main.go:217-232 | of the offered media types, `text/plain` selects text, `application/json` selects JSON, and `application/yaml`, `application/x-yaml`, `text/yaml` and `text/x-yaml` select YAML |
| Render.YamlOffersSelectYaml | main.go:220-231 | each of the four YAML spellings on offer selects YAML |
| Render.NeitherIsText | main.go:230-231 | a type holding neither a `j` nor a `y` selects text |
| Render.JsonSuffix | main.go:226-227 | any type ending in `json` selects JSON |
| Render.YamlSuffix | main.go:228-229 | a type ending in `yaml`, with no `j` before it, selects YAML |
| Render.TrimFloat | main.go:363-367 | the float text is a prefix of its `%f` form; only `0` and `.` characters are removed; it never ends in `.` |
| Render.TrimFloatFixedPoint | main.go:365-366 | on `whole.frac`, the integer digits always survive; the fraction loses its trailing zeros; the point goes when no fraction digit is left |
| Render.TrimFloatDropsZeroFraction | main.go:364-367 | `4.000000` renders as `4` and `10.000000` as `10` |
| Render.TrimFloatKeepsSignificantFraction | main.go:364-367 | `3.500000` renders as `3.5` |
| Render.MapLine | main.go:378-384 | a map field's line is its escaped key followed by `/` and a newline when the value is a map or sequence, and by a newline alone otherwise |
| Render.MapLineReadBack | main.go:378-384 | when escaped keys hold no `/` (as `url.QueryEscape` guarantees), a map line ends in a newline, and in `/` before it exactly when the field's value is a map or sequence |
| Render.MapLines | main.go:374-391 | a map gives one line per key; the lines are sorted by their full text; as a multiset they are exactly the lines of the keys in Go's visit order, so lines that escape alike keep their count; every key has its line and every line is some key's |
| Render.MapLinesOrderIndependent | main.go:377-388 | the map lines do not depend on the order Go visits the keys in |
| Render.RenderMapOrderIndependent | main.go:374-391 | the text of a map does not depend on the key iteration order |
| Render.RenderMapLineCount | main.go:374-391 | the text of a map has exactly as many newlines as the map has keys |
| Render.SeqLine | main.go:394-412 | an element's line is its index in decimal followed by `=`, the escaped name and a newline for a map with a `name` field, by `/` and a newline for any other map or sequence, and by a newline alone otherwise |
| Render.SeqLines | main.go:392-413 | a sequence gives one line per element, in index order, each line being that element's index line |
| Render.SeqLineReadBack | main.go:397-412 | an element line starts with the element's index in decimal; after it comes `=` exactly for a map with a `name` field, `/` exactly for any other map or sequence, a newline exactly for a scalar |
| Render.RenderSeqText | main.go:392-413 | the text of a sequence is its element lines in index order, with exactly one newline per element |
| Render.RenderText | main.go:352-413 | null gives empty text; a string is written verbatim; an integer gives its `%d` text, which reads back as the integer; a bool gives `true` or `false`; a float gives its `%f` text trimmed by `TrimFloat`; a map gives its sorted key lines; a sequence gives its element lines in index order |
| Decimal.NatToString | main.go:362 | the decimal text of a natural number is non-empty digits with no leading zero, and reads back as the number |
| Decimal.IntToString | main.go:362 | `%d` text starts with `-` exactly for negative numbers, has no leading zero after the sign, and reads back as the number |
| Decimal.IntToStringInjective | main.go:362 | different integers never print alike |
| Strings.TrimRight | main.go:289 | the longest prefix not ending in the cut character, all that follows being that character |
| Strings.Split | main.go:290 | splitting always yields at least one piece |
| Strings.JoinSplit | main.go:290 | joining the pieces with the separator rebuilds the string |
| Strings.SplitCount | main.go:290 | there is one more piece than separators |
| Strings.Contains | main.go:226-228 | `strings.Contains` holds exactly when the substring occurs at some position |
| Strings.Less | main.go:277 | Go's `<` on strings: a string is never below itself, and a proper prefix comes before the longer string |
| Strings.LessTotal | main.go:277 | Go's string order is total: two different strings are ordered one way or the other |
| Sorting.Sort | main.go:388 | the result is sorted and is a rearrangement of the input |
| Sorting.SortedUnique | main.go:388 | two sorted rearrangements of the same strings are equal |

## Left out

- `main`, `parseFlags`, logging and the pid file (main.go:58-125) are process plumbing and are not modelled.
- `watchSignals`, `watchHttp` and `httpReload` (main.go:172-214) are not modelled as concurrent code. Their point is the channel handshake and the goroutine. Only the order in which the worker handles requests is kept, as `Store.ReloadAll`.
- `httputil.NegotiateContentType` (main.go:217-224) is a library call. `Render.ContentTypeOf` starts from the string it returns.
- `root` (main.go:235-262) is not modelled. It builds URLs through the router.
- `respondError`, `respondSuccess`, `respondJSON` and `respondYAML` (main.go:315-350, 419-435) are not modelled. They hand values to `json.Marshal`, `yaml.Marshal` and `http.Error`.
- The `Access-Control-Allow-Origin` header and the log lines of `metadata` are not modelled.
- `requestIp` (main.go:437-447) is header and peer-address plumbing. The client key is an opaque string argument.
- `answers.Matching`, `ParseAnswers` and `Versions()` (main.go:135, 276, 304) are not part of this model. Matching is a function parameter. The parse outcome is an input. `Versions()` is taken to list the version keys in some order.
- Store.ReloadAll: it covers only the reloads the worker goroutine handles (main.go:183-190). The event subscriber is handed `loadAnswersFromFile` directly (main.go:90-97). Its reloads bypass `reloadChan`, can run at the same time as the worker's, and are not serialised with them. `Store.LastSuccessfulReloadWins` says nothing about such interleavings.
- Request.Metadata: it takes one snapshot of the published answers. The handler reads the unsynchronised package variable `answers` three times (main.go:271, 276, 304). A reload between those reads could make the version check, the `latest` search and the lookup see different trees. The model does not describe that.
- `url.QueryEscape`, `url.QueryUnescape` and `%f` formatting are not defined here. They are the fields of `Foreign.Routines`. The line-count lemmas assume `Foreign.EscapeKeepsLines` (the escaping never yields a newline).
- Render.SeqLine: requires that a `name` field of a sequence element is a string. Go panics on `name.(string)` otherwise, and that panic is not modelled.
- Render.RenderText: it has no counterpart of the 500 "type I don't know how to handle" branch (main.go:414-415). The `Value` type is closed, so every value falls into one of the handled cases.
- Values.Value: integers are unbounded. No arithmetic is done on them, so Go's integer widths play no part.
- Merge.MergeDefaults: it works on values, while Go merges the parsed maps in place. The two agree as long as no map of the parsed tree is shared between two places.
- The `loading` flag has no reader in main.go. The model keeps its value but derives nothing from it.
