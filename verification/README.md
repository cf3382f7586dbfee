# gha-bump core, modelled in Dafny

gha-bump reads GitHub Actions workflow files and finds steps whose `uses:` is
an action reference pinned to a major tag, such as `actions/checkout@v3`. For
each one it asks GitHub for the action's latest release. When that release
has a higher major version, it rewrites the file so that the reference points
to the new major tag.

This project models the decision and transformation logic of `main.go`:

- **Resolver** (`resolver.dfy`): `suggestMajorUpgrade`.
  - It splits a reference `owner/repo[/path]@ref` at the first `@` and then at the first `/`.
  - It skips references that are not candidates.
  - It reads the latest tag from the redirect that GitHub's "latest release" endpoint answers with.
  - It compares the two major versions and suggests `v<N>` or nothing.
  - The HTTP round trip is an oracle `fetch` from a URL to `NoResponse | Reply(status, location)`.
  - The semantic-version parser is an oracle `parseMajor` from a tag to its major version, or to none when it cannot parse the tag.
- **Walker** (`workflow.dfy`): `processJobs` and `processJob`.
  - These are methods with loops, like the Go code.
  - They walk the decoded document through `jobs`, each job, its `steps`, and each step's `uses`.
  - Along the way they build the replacement map.
  - Go visits a map's keys in an unspecified order. The model picks the next key with `:|`, so every order is covered.
- **Rewriter** (`rewriter.dfy`): the text part of `applyReplacements`.
  - This is a method with a loop over the map's entries.
  - For each entry it replaces every literal occurrence of the old reference with its path, `@` and the new tag.
- **Support**:
  - `text.dfy` holds the parts of Go's `strings` package that the tool uses: `Index`, `Cut`, `HasPrefix`, `Split` and `ReplaceAll`. It also has `Join`, which the tool never calls; the lemmas use it to state what `Split` and `ReplaceAll` compute.
  - `decimal.dfy` is `%d` formatting together with its inverse.
  - `bump.dfy` connects the walker, the resolver and the rewriter.

### Behaviour worth knowing

- **Where the reference is split.** The reference is split at the first `@`, because the code uses `strings.Cut` (main.go:234).
- **Similar references.** Substitution is a literal `strings.ReplaceAll` (main.go:277). So the entry `a/b@v1` also rewrites the `a/b@v1` inside `a/b@v10`. `Rewriter.LongerReferenceAlsoRewritten` states this behaviour.
- **Re-running the tool.** A bumped reference settles only at the level of the decision. This needs upstream to be unchanged and the version parser to read `v<N>` as major N. `Resolver.BumpedReferenceSettles` and `Bump.RewrittenReferenceSettles` prove it under exactly these conditions. Nothing is claimed at the level of the text.

## Model

| member | source | states |
|---|---|---|
| `Text.Index` | main.go:234-238 | The result is the leftmost position where the pattern occurs: it occurs there and nowhere before. When there is no result, the pattern occurs nowhere. |
| `Text.HasPrefix` | main.go:246 | A string starts with the prefix exactly when `Index` finds the prefix at position 0. |
| `Text.Cut` | main.go:234-238 | When the separator is found, the input is `before + sep + after`, and the separator does not start anywhere inside `before`. When it is not found, the result is the whole input with an empty remainder. |
| `Text.CutAtFirst` | main.go:234-238 | Cutting `pre + c + post` at the character `c`, where `c` is not in `pre`, gives exactly `(pre, post, found)`. |
| `Text.CutMissing` | main.go:238-241 | Cutting at a character the string lacks gives `(s, "", not found)`. |
| `Text.Split` | main.go:325 | There is always at least one piece, and joining the pieces with the separator gives back the input. |
| `Text.SplitPiecesFree` | main.go:325 | No piece of a split contains the separator. |
| `Text.SplitPiecesLeftmost` | main.go:325 | Each separator that a split takes is the first one after the previous piece. So the split is the left-to-right reading of the input. |
| `Text.SplitCharCount` | main.go:325-326 | Splitting at a character gives one more piece than the number of times the character occurs. |
| `Text.LastPiece` | main.go:325-330 | When there are at least two pieces, the last piece contains no separator, and the input ends with the separator followed by that piece. |
| `Text.ReplaceAll` | main.go:277 | When a non-empty pattern does not occur, the text is unchanged. |
| `Text.ReplaceAllIsSplitJoin` | main.go:277 | Replacing equals splitting at the pattern and joining with the replacement. The text between occurrences is kept, and every occurrence, taken left to right without overlap, is replaced. |
| `Text.ReplaceAllSelf` | main.go:277 | Replacing a pattern with itself leaves any text unchanged, including for the empty pattern. |
| `Decimal.Format` | main.go:263 | The `%d` rendering is non-empty and all digits. It starts with `0` exactly when the number is 0. |
| `Decimal.ValueOfFormat` | main.go:263 | Reading back the decimal digits of n gives n. |
| `Decimal.FormatInjective` | main.go:263 | Different numbers have different decimal renderings. |
| `Resolver.LatestFromRedirect` | main.go:316-331 | A status other than 302 gives that status's error. An empty Location gives the missing-header error. A Location with fewer than 7 `/`-separated parts gives the invalid-location error. The result succeeds exactly when none of these apply. The tag it then returns contains no `/`, and the Location ends with `/` followed by the tag. |
| `Resolver.SplitLocation` | main.go:325-326 | Splitting the Location at `/` gives one piece per `/` plus one. When there are at least two pieces, the last one has no `/` and ends the Location. |
| `Resolver.ReleaseUrl` | main.go:299 | The lookup URL starts with `https://github.com/` and ends with `/releases/latest`. Between the two is exactly the owner, `/`, and the repo. |
| `Resolver.LatestAt` | main.go:297-332 | A request that fails gives the request error for its URL. A tag that comes back contains no `/` and ends the reply's Location. |
| `Resolver.MajorTag` | main.go:263 | `v<N>` is never empty. It starts with `v`, and the digits after the `v` read back as N. |
| `Resolver.CompareWithLatest` | main.go:250-265 | Errors are reported in order: the lookup error first, then the current tag's parse error, then the latest tag's parse error. The result succeeds exactly when all three steps succeed. A suggestion is made exactly when the latest major is strictly greater than the current one. The suggestion is then `v` followed by the latest major. |
| `Resolver.SuggestMajorUpgrade` | main.go:232-266 | Every non-empty suggestion is a well-formed major tag `v<N>`. |
| `Resolver.SkipsWithoutAt` | main.go:234-237 | A reference without `@` gets no suggestion and no error, whatever the oracles answer, so no lookup is made. |
| `Resolver.SkipsIneligible` | main.go:234-248 | The same holds when the ref after the first `@` is `master`, when the path before it has no `/`, or when the ref does not start with `v`. |
| `Resolver.LooksUpReferencePath` | main.go:238-250 | For a candidate, the lookup goes to `https://github.com/` + (the whole text before the first `@`) + `/releases/latest`. The answer is that release compared with the ref. |
| `Resolver.BumpedReferenceSettles` | main.go:254-265 | When `path@ref` gets the suggestion `t`, the reference `path@t` gets none. This needs upstream to be unchanged and the parser to read `v<N>` as N. |
| `Workflow.StringField` | main.go:196-205 | A field that is absent or is not a string reads as `""`. A string field reads as its text. |
| `Workflow.ProcessJob` | main.go:174-230 | A job that is not a mapping, and a job whose `steps` is absent or not a sequence, give their own errors. Otherwise the walk succeeds exactly when every step is a mapping and every non-empty `uses` resolves without error. The map it then returns takes exactly the job's `uses` strings that have a non-empty suggestion to that suggestion. |
| `Workflow.ProcessJobs` | main.go:153-172 | A missing `jobs` mapping, or one that is not a mapping, gives the jobs-not-found error. Otherwise the walk succeeds exactly when every job succeeds. The resulting map takes every `uses` of every step that has a suggestion to that suggestion, whatever order the jobs are visited in. |
| `Workflow.MergeInto` | main.go:166-168 | Copying one job's replacements into the running map gives the union of the two maps, with the job's entries winning on shared keys. |
| `Workflow.EmptyUsesNeverResolved` | main.go:220-226 | Two resolvers that agree on every non-empty reference give the same success or failure and the same replacements. So an empty `uses` is never resolved. |
| `Rewriter.NewReference` | main.go:274-276 | The new reference ends with `@` and the tag. What comes before that `@` is a prefix of the old reference. A reference without `@` gets `@` and the tag appended to the whole of it. |
| `Rewriter.NewReferenceKeepsPath` | main.go:274-276 | The entry `path@ref -> t` rewrites to `path@t`: the path is kept and only the ref changes. |
| `Rewriter.RewriteOne` | main.go:273-277 | A text that does not contain the old reference comes back unchanged. |
| `Rewriter.RewriteOneKeepsPieces` | main.go:273-277 | For one entry, the text is pieces joined by the old reference, and the output is the same pieces joined by the new reference. No piece contains the old reference. |
| `Rewriter.LongerReferenceAlsoRewritten` | main.go:277 | Text that starts with the old reference and continues (for example `@v1` inside `@v10`) is rewritten too. The continuation stays after the new tag. |
| `Rewriter.ApplyWithoutOccurrences` | main.go:273-278 | In any order, entries that do not occur in the text leave it unchanged. |
| `Rewriter.ApplyReplacements` | main.go:268-278 | An empty map writes nothing. Otherwise the written text is what applying the entries one by one gives, in an order that lists every key exactly once. A single entry gives exactly that entry's rewrite. When no key occurs in the text, the text is written back unchanged. |
| `Bump.Resolve` | main.go:221 | The resolver the walker calls answers a reference without `@` with no suggestion. Every suggestion it makes starts with `v` and has at least one more character. |
| `Bump.RewrittenReferenceSettles` | main.go:232-277 | A reference with a suggestion contains `@`. The rewriter replaces it with its own path followed by `@` and the tag, and that new reference gets no suggestion, under the same oracle conditions. |
| `Bump.WalkerEntriesSettle` | main.go:153-277 | Take any entry of the map that the walker builds with `suggestMajorUpgrade`. Its key is a non-empty `uses` of some step, and its value is that reference's suggestion, a tag starting with `v`. The rewritten reference would not be bumped on the next run. |

## Left out

- `main` and `run` (main.go:26-147) are left out: flag parsing, `os.Stat`, globbing `.github/workflows/*.yaml` and `*.yml`, reading and writing files, and console output are all I/O. This includes the "no workflow files" error, which the code raises only in verbose mode.
- The HTTP request is not modelled (main.go:299-313), and neither is the `Accept` header. Building the request and sending it both fail in the same way, as `NoResponse` from the `fetch` oracle. The response body appears only in an error message and is left out.
- Error messages are not modelled: each `Error` constructor keeps only what tells the cases apart, not the message text.
- YAML decoding is left out (main.go:287-295). The walker takes the decoded tree as a `Value`. A node that is not a string-keyed mapping, a sequence or a string is `VOther`.
- The semantic-version library is not modelled (main.go:254-262). The `parseMajor` oracle stands in for it. The library's `uint64` major is modelled as an unbounded `nat`. The comparison and `%d` never overflow, so nothing changes.
- Verbose logging is left out (main.go:132-137 and 207-218). This covers the step `name` and its display label `st`, which feed nothing but that output.
- Go iterates over maps in an unspecified order. This is modelled as an arbitrary choice at each round. Because the resolver is one fixed function (see the next line), the walker's result does not depend on that order. The rewriter's result is stated for the order it picks.
- The `fetch` and `parseMajor` oracles are assumed to answer the same URL and the same tag in the same way throughout one run. The walker's resolver is therefore one fixed function, and every step with the same `uses` gets the same answer. The code sends a new request for every step and caches nothing (main.go:221, main.go:299-305). A transient network failure, or a release published during the walk, could make two lookups of one reference disagree. The walk could then fail on the second lookup, or the value kept in the map (main.go:167) could depend on Go's map order. `Workflow.ProcessJobs` and `Workflow.ProcessJob` do not capture this.
- `Workflow.ProcessJobs` states which error it returns only when the `jobs` mapping is missing. When several jobs fail, the error reported depends on the order in which Go visits the map.
- `Workflow.ProcessJob` states which error it returns for a job that is not a mapping and for a job without a steps sequence. For the other failures (a step that is not a mapping, or a resolver error) it states only that an error is returned, not which step's error.
- Strings are modelled as sequences of characters rather than UTF-8 bytes. For valid UTF-8 text, the following behave the same either way:
  - Go's `ReplaceAll` with an empty pattern, which inserts the replacement at every rune boundary.
  - `Cut` and `Split` at ASCII separators.
  - `ReplaceAll` with the non-empty `uses` pattern that the rewriter passes (main.go:277). UTF-8 is self-synchronizing, so a valid UTF-8 pattern matches valid UTF-8 text at the same places whether bytes or characters are compared.
- `Text.Split` is modelled only for a non-empty separator. The tool only ever splits at `/`.
