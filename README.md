# lakego array key resolver, modelled in Dafny

This project models the nested-configuration key resolver of lakego
(`lakego/array/get.go`), the `Arr` type. A configuration is a tree of
string-keyed maps, slices and leaf values. `Arr.Get(source, key, def...)`
returns the value that a delimited key such as `"db.hosts.0.port"` addresses,
or the first default, or nil.

The lookup runs in four stages:

- **Normalise the key.** It is lower-cased and split on the delimiter (`"."` by default, changed with `WithKeyDelim`).
- **Prefix-search walker.** At every level it tries the first `i` segments, joined again, as one literal key. It tries `i` from the whole remaining path down to 1. At a slice the candidate must parse as an index. It backtracks to a shorter candidate when a longer one leads nowhere.
- **Exact walker.** It follows maps only, one segment per level.
- **Shadow check.** It stops the exact-walker fallback when a shorter prefix resolves to a value that is not a map.

Files:

- `Strings.dfy`
  - `Wrappers`: `Option`.
  - `Strings`: the library calls the resolver uses. These are `strings.ToLower`, `strings.Split`, `strings.Join` (and `strings.Index` underneath) and `strconv.Atoi`, plus `Itoa` for stating round trips.
- `Get.dfy` (module `ArrayGet`): the tree, the `Arr` value type and its operations.
  - The walkers appear twice. Specification functions give their meaning: `SearchMap`, `PrefixSearch`/`TryPrefixes`/`Candidate`/`SliceCandidate`/`MapCandidate`/`Continue`, `ShadowFrom` and `Lookup`.
  - Methods are written as the source runs them, with its two loops. Each method is proved equal to its function.
  - Go's untyped nil is the `Nil` tree, both for "not found" and for a stored nil, as in the source.
- `Proofs.dfy` (module `ArrayGetProofs`): the properties of the resolver.
- `Examples.dfy` (module `ArrayGetExamples`): concrete lookups that pin down the edge cases.

Two behaviours of the code are easy to get wrong. The model follows the code:

- A stored nil is **not** a found value. `Find` returns nil for it, and `Get` then substitutes its default (`get.go:55`, `get.go:138`). See `FindStoredNilIsAbsent` and `NilAndAbsentAgree`.
- The empty key does **not** return the whole tree. `strings.Split("", ".")` is `[""]`, so it looks up the literal key `""` (`EmptyKeyIsLiteral`). Only an empty delimiter turns the empty key into the empty path, and so into the whole tree (`EmptyDelimiterEmptyKey`).

The shadow check can also miss a shadow whose prefix is the single empty segment, because it then reports the joined prefix `""`. This changes no result: `ShadowedPathHasNoExactValue` and `FindIsPrefixSearch` show that the fallback could only have returned nil anyway.

## Model

| member | source | states |
|---|---|---|
| `Strings.Lower` | lakego/array/get.go:68 | The lower-cased key has the same length and no upper-case letter. Characters that are not upper-case are kept. |
| `Strings.LowerFixesExactlyLower` | lakego/array/get.go:128 | Lower-casing leaves a string unchanged exactly when the string has no upper-case letter. This is why the second lower-casing of already-lower segments changes nothing. |
| `Strings.LowerIdempotent` | lakego/array/get.go:68 | Lower-casing twice is lower-casing once. |
| `Strings.Index` | lakego/array/get.go:72 | It returns -1 exactly when the separator does not occur. Otherwise it returns the first position where it occurs. |
| `Strings.Split` | lakego/array/get.go:72 | A non-empty delimiter always yields at least one segment. An empty delimiter yields one segment per character. |
| `Strings.Join` | lakego/array/get.go:128 | `strings.Join`: the pieces in order, with the separator between neighbours. What it means for the resolver is stated by `JoinSplit` (it undoes `Split`), `JoinLower` and `JoinOccursAfterFirst`. |
| `Strings.JoinSplit` | lakego/array/get.go:72 | Joining the segments of a split with the same delimiter gives back the string, so no character is lost, including empty segments. |
| `Strings.SplitPiecesAvoidSeparator` | lakego/array/get.go:72 | With a non-empty delimiter, no segment contains the delimiter. |
| `Strings.Atoi` | lakego/array/get.go:153 | A parse succeeds exactly when the segment is one optional '+' or '-' followed by one or more ASCII digits (`IsNumeral`) whose signed value lies in Go's 64-bit int range. The result is then that signed value (`NumeralValue`). |
| `Strings.AtoiItoa` | lakego/array/get.go:153 | Every in-range non-negative number, written in decimal, parses back to itself. |
| `Strings.AtoiNegatedItoa` | lakego/array/get.go:153 | Every in-range negative number, written in decimal after a '-', parses back to itself. |
| `Strings.JoinLower` | lakego/array/get.go:128 | Joining lower-case pieces with a lower-case separator gives a lower-case string. |
| `Strings.JoinOccursAfterFirst` | lakego/array/get.go:218 | Joining two or more pieces puts the separator right after the first piece, so with a non-empty delimiter a joined prefix of two or more segments is never "". |
| `ArrayGet.SliceIndex` | lakego/array/get.go:153-158 | A slice candidate selects position `n` exactly when the candidate parses to `n` and 0 <= n < len. This is the corrected guard. |
| `ArrayGet.SliceIndexAsWritten` | lakego/array/get.go:153-158 | The source's guard lets an index through exactly when it parses and is below len, negative indices included. |
| `ArrayGet.NewArr` | lakego/array/get.go:11-15 | The default resolver splits on ".". |
| `ArrayGet.Arr.WithKeyDelim` | lakego/array/get.go:46-50 | It returns a resolver with the new delimiter. The receiver is a value, so the original is untouched. |
| `ArrayGet.Arr.Path` | lakego/array/get.go:68-72 | The path re-joins to the lower-cased key. Every segment is lower-case. A non-empty delimiter gives at least one segment, and no segment contains the delimiter. |
| `ArrayGet.Arr.SearchIndexableWithPathPrefixes` | lakego/array/get.go:122-144 | The counting-down loop with early return computes `PrefixSearch`: the node itself for an empty path, else the first non-nil candidate from the longest down. |
| `ArrayGet.Arr.SearchSliceWithPathPrefixes` | lakego/array/get.go:147-173 | It computes `SliceCandidate`. The element at the parsed index is returned when the path is used up. It descends only into a map or slice, and any other value gives nil. |
| `ArrayGet.Arr.SearchMapWithPathPrefixes` | lakego/array/get.go:176-200 | It computes `MapCandidate`: an absent key gives nil, otherwise the same tail as for slices. |
| `ArrayGet.Arr.IsPathShadowedInDeepMap` | lakego/array/get.go:203-223 | The counting-up loop computes `ShadowFrom(path, m, 1)`. |
| `ArrayGet.Arr.Find` | lakego/array/get.go:67-93 | It computes `Lookup`: the prefix walker, then, unless a nested key is shadowed, the exact walker. |
| `ArrayGet.Arr.Get` | lakego/array/get.go:53-64 | It returns Find's result when that is not nil. Otherwise it returns the first default if one is given, else nil. |
| `ArrayGet.ArrGet` | lakego/array/get.go:18-20 | The same as Get, with the default "." resolver. |
| `ArrayGet.Arr.SearchMap` | lakego/array/get.go:96-119 | The exact walker follows maps only, one segment per level. A non-nil result means the first segment is a key of the map bound to a non-nil value, and for a longer path that value is a map. Its meaning relative to the other walker is stated by `SearchMapConcat`, `ExactImpliesPrefix` and `PlainPathsAgree`. |
| `ArrayGetProofs.LongestCandidateWins` | lakego/array/get.go:127-141 | The result is the candidate of the greatest length that is not nil. Every longer candidate that failed is skipped (backtracking). |
| `ArrayGetProofs.PrefixSearchFailsExactly` | lakego/array/get.go:127-143 | A non-empty path finds nothing exactly when every candidate length fails (both directions). |
| `ArrayGetProofs.FirstCandidateIsSegment` | lakego/array/get.go:182-189 | At a map, the one-segment candidate is the plain lookup of the first segment. |
| `ArrayGetProofs.ExactImpliesPrefix` | lakego/array/get.go:96-119 | Whenever the exact walker finds a non-nil value, the prefix walker finds one too. |
| `ArrayGetProofs.FindIsPrefixSearch` | lakego/array/get.go:77-92 | Find always equals the prefix walker alone. The shadow check and the exact-walker fallback never change its answer. |
| `ArrayGetProofs.SearchMapConcat` | lakego/array/get.go:96-119 | Walking `p + q` through maps is walking `p` and then, inside the map reached, `q`. A non-map value after `p` gives nil. |
| `ArrayGetProofs.ShadowDetectsFirstNonMap` | lakego/array/get.go:203-223 | The shadow check returns the joined prefix of the first strict prefix that resolves to a non-nil non-map while all shorter ones resolve to maps. Otherwise it returns "". |
| `ArrayGetProofs.ShadowBlocksExactWalker` | lakego/array/get.go:106-118 | Below such a shadowing prefix the exact walker finds nothing. |
| `ArrayGetProofs.ShadowedPathHasNoExactValue` | lakego/array/get.go:82-84 | When the shadow check reports a shadow, the fallback it suppresses would have returned nil. |
| `ArrayGetProofs.FindIgnoresKeyCase` | lakego/array/get.go:68 | `Find(m, key) == Find(m, lower(key))`. |
| `ArrayGetProofs.RelowerIsRedundant` | lakego/array/get.go:128 | On a normalised path, lower-casing each candidate again changes nothing. A key splits into several segments only on a lower-case delimiter. |
| `ArrayGetProofs.UpperCaseKeyNeverMatches` | lakego/array/get.go:128-135 | Deleting a map key that has an upper-case letter never changes what the prefix walker finds below that map. |
| `ArrayGetProofs.FindIgnoresUpperCaseKeys` | lakego/array/get.go:67-80 | Find never reaches a top-level key with an upper-case letter. |
| `ArrayGetProofs.StoredNilIsAbsent` | lakego/array/get.go:182-189 | A key bound to nil behaves, for the prefix walker, exactly as if it were absent. |
| `ArrayGetProofs.FindStoredNilIsAbsent` | lakego/array/get.go:53-64 | Find cannot tell a stored nil from a missing key, so Get falls back to its default for both. |
| `ArrayGetProofs.WholeKeyWins` | lakego/array/get.go:127-141 | A map entry whose key is the whole lower-cased key, delimiters included, wins over every nested reading of the key. |
| `ArrayGetProofs.SliceIndexSelects` | lakego/array/get.go:153-161 | A decimal segment `n` below a slice's length selects element `n`, whatever its type. |
| `ArrayGetProofs.SliceIndexCorrectsOnlyNegatives` | lakego/array/get.go:153-156 | The corrected guard and the source's guard agree on every segment except those that parse to a negative number. |
| `ArrayGetProofs.NegativeIndexPassesGuard` | lakego/array/get.go:153-158 | The segment "-1" passes the source's guard for a slice of any length, but the corrected guard rejects it. |
| `ArrayGetProofs.PlainPathsAgree` | lakego/array/get.go:96-119 | In a tree where no key contains the delimiter, the prefix walker gives exactly what the exact walker reaches. |
| `ArrayGetProofs.PlainKeysFindExactValue` | lakego/array/get.go:67-92 | In such a tree, Find returns exactly what plain navigation by the key's segments reaches. |
| `ArrayGetExamples.PathOfEmptyKey` | lakego/array/get.go:72 | The empty key is the path `[""]`. With an empty delimiter it is the empty path. |
| `ArrayGetExamples.PathKeepsEmptySegments` | lakego/array/get.go:72 | `"a..b"` splits to `["a", "", "b"]`. |
| `ArrayGetExamples.PathIsLowerCased` | lakego/array/get.go:68-72 | `"DB.Port"` becomes `["db", "port"]`. |
| `ArrayGetExamples.PathPerCharacter` | lakego/array/get.go:72 | An empty delimiter splits `"ab"` into `["a", "b"]`. |
| `ArrayGetExamples.LiteralKeyBeatsNesting` | lakego/array/get.go:127-141 | With both `"a.b": X` and `"a": {"b": Y}`, the key `"a.b"` gives X. |
| `ArrayGetExamples.UpperCaseKeyFindsLowerEntry` | lakego/array/get.go:68 | The key "PORT" finds the entry "port". |
| `ArrayGetExamples.EmptyKeyIsLiteral` | lakego/array/get.go:72-80 | For every tree, the empty key gives the value under the entry "" if there is one, and nil otherwise. It never returns the whole tree. |
| `ArrayGetExamples.SegmentsAsNumbers` | lakego/array/get.go:153 | "+7" and "-12" parse to 7 and -12. "1x", "+" and "" do not parse. |
| `ArrayGetExamples.EmptyDelimiterEmptyKey` | lakego/array/get.go:122-125 | With an empty delimiter, the empty key returns the whole map. |
| `ArrayGetExamples.NilAndAbsentAgree` | lakego/array/get.go:182-189 | `{"a": nil}` and `{}` both give nil for "a". |
| `ArrayGetExamples.BacktracksPastDeadEnd` | lakego/array/get.go:127-141 | With `"a.b": leaf` and `"a": {"b": {"c": Y}}`, the key `"a.b.c"` gives Y. |
| `ArrayGetExamples.ListIndexSelects` | lakego/array/get.go:153-161 | `{"list": [10, 20, 30]}` with "list.1" gives 20. |
| `ArrayGetExamples.ListIndexOutOfRange` | lakego/array/get.go:153-156 | "list.9" gives nil. |
| `ArrayGetExamples.ListIndexNotNumeric` | lakego/array/get.go:153-156 | "list.x" gives nil. |
| `ArrayGetExamples.ListIndexNegative` | lakego/array/get.go:153-158 | "list.-1" passes the source's guard. With the corrected guard it gives nil. |
| `ArrayGetExamples.LeafShadowsDeeperKey` | lakego/array/get.go:203-223 | With `{"a": "scalar"}`, "a.b" gives nil, and the shadow check names "a". |

## Left out

- `goch.ToStringMap` (lakego/array/get.go:112, 166, 193): Go's `map[any]any` and `map[string]any` are one `Map` case with string keys. The library's conversion of non-string keys is not modelled.
- `ArrGetWithGoch` and the `Goch` alias (lakego/array/get.go:23-32): they only wrap the result in a foreign library type.
- `Strings.Lower`: only ASCII letters are lower-cased. Unicode case folding is not modelled.
- `Strings.Atoi`: accepts an optional sign and ASCII digits within the 64-bit range. This is Go's syntax for base 10. Go's error values are reduced to `None`.
- The Go panic on a negative slice index is not modelled as an outcome. `ArrayGet.SliceIndexAsWritten` shows the index getting past the guard, and the rest of the model uses the corrected guard (see Findings).
- Only `[]any` slices and `map[string]any`/`map[any]any` maps are descended into (lakego/array/get.go:111-113, 132-134, 165-167, 192-194). Any other Go slice or map type, such as `[]string` or `map[string]string`, is opaque to the resolver and is represented by a `Leaf`. The model does not give such values their contents.
- Go strings are byte sequences, while the model's strings are sequences of code points. Keys or map keys that are not valid UTF-8 cannot be represented.
- A typed nil map stored in the tree (non-nil as a Go interface) is modelled as an empty `Map`.
- `ArrayGetProofs.FindIgnoresUpperCaseKeys`: stated for the top-level map only. Below it, the same fact holds at every map (by `UpperCaseKeyNeverMatches`), but it is not lifted to a whole-tree statement.
- `ArrayGetProofs.FindStoredNilIsAbsent`: stated for a nil bound at the top-level map only, for the same reason.
- Concurrency: the resolver reads a caller-owned tree and keeps no state, so there is nothing to model.
- lakego/facade/captcha/captcha.go, lakego/provider/provider.go, lakego/view/html/adapter/pongo2/render/loader.go, lakego/router/name.go and lakego/http/interface.go are not part of this model. They are driver registries, service-provider wiring, file I/O, a mutex-guarded route-name map and interface declarations.

## Findings

| source | as written | input that shows it | evidently intended | confidence | as-written member | corrected member |
|---|---|---|---|---|---|---|
| lakego/array/get.go:153-158 | `if err != nil \|\| len(sourceSlice) <= index` rejects only indices that are too large, then `sourceSlice[index]` is read | tree `{"list": [10]}`, key `"list.-1"`: `Atoi("-1")` is -1, which passes the guard, and Go panics with index out of range | a negative segment fails the candidate like any other out-of-range index, so the lookup gives nil | high; not executed | `ArrayGet.SliceIndexAsWritten` (shown by `ArrayGetProofs.NegativeIndexPassesGuard`) | `ArrayGet.SliceIndex` (proved in `ArrayGetProofs.SliceIndexCorrectsOnlyNegatives` and `ArrayGetExamples.ListIndexNegative`) |
