# semver-aliases in Dafny

A model of the Go package `aliases` from joseluisq/semver-aliases. The package
builds Docker-style tag aliases from release names, and the model proves what
those aliases are.

- `FromVersion(version)` trims white space and drops one leading `v`. It then
  parses the rest as a semantic version.
  - A blank name gives no aliases. So does a name that does not parse.
  - A pre-release gives the normalised name alone.
  - A release gives `MAJOR`, `MAJOR.MINOR` and `MAJOR.MINOR.PATCH`.
- `FromTagNames(tags)` trims every entry and drops the blank ones. It strips one
  leading `v` from the others and sorts them byte-wise. It then removes
  duplicates in place.

The Go `nil` result is the empty sequence. Neither function ever returns an
empty non-nil slice.

Modules:

- `Text`: `strings.TrimSpace` and `strings.TrimPrefix`, the two `strings`
  functions the package calls. It also holds `Cut`, `Split` and `Join`. These
  model Go's `SplitN`, `Split` and `Join`, and only the model's version parser
  uses them. That parser stands in for `semver.NewVersion`.
- `Decimal`: `strconv.FormatInt(x, 10)` and its inverse.
- `LexOrder`: Go's string order, the order `sort.Strings` sorts by.
- `Semver`: the version value. Its parser accepts exactly the texts it
  produces, and the model proves this both ways.
- `Aliases`: the two operations. Each is a method with its loops, proved
  against a specification function or predicate.
- `AliasExamples`: the rows of the three test tables in `aliases_test.go`,
  proved as lemmas about the model.
  - All 6 rows of `TestFromVersion`.
  - All 10 rows of `TestFromTagNames`.
  - All 4 rows of `Test_filterInputNames`.
  - Two inputs that show what the code does not promise.

`FromTagNames` works on a fresh array. `SortStrings` sorts it in place by
insertion sort. `Compact` then deduplicates it in place, using Go's `i`/`j`
indices. The result is specified by `IsTagAliases`: strictly increasing, and
holding exactly the normalised surviving entries. `TagAliasesUnique` shows that
only one sequence meets this specification.

Two properties one might expect of `FromTagNames` do not hold:

- It is not idempotent. One call strips only one `v`, so `["vv1"]` gives
  `["v1"]`, and a second call gives `["1"]`. See `TagNamesNotIdempotent`.
- The output can contain the empty string. The blank check happens before the
  `v` is stripped, so the entry `"v"` survives as `""`. See
  `TagNamesKeepsEmptyAlias`.

## Model

| member | source | states |
|---|---|---|
| Text.IsSpace | aliases.go:17-18 | the Unicode White_Space set that `strings.TrimSpace` trims; among ASCII characters it is exactly tab, line feed, vertical tab, form feed, carriage return and space |
| Text.TrimLeft | aliases.go:17-18 | result is a suffix of the input; everything dropped is white space; the result does not start with white space |
| Text.TrimRight | aliases.go:17-18 | result is a prefix of the input; everything dropped is white space; the result does not end with white space |
| Text.TrimSpace | aliases.go:17-18 | result is empty, or it neither starts nor ends with Unicode white space |
| Text.TrimSpaceInfix | aliases.go:17-18 | the trimmed text is an infix of the input, with only white space on both sides |
| Text.TrimSpaceEmpty | aliases.go:62-64 | a string trims to "" exactly when all its characters are white space |
| Text.TrimSpaceUnchanged | aliases.go:62 | a string without white space at either end is its own trim |
| Text.TrimPrefix | aliases.go:66 | if the prefix is present, prefix + result is the input; otherwise the input comes back unchanged |
| Text.Cut | aliases.go:25-29 | with no separator, the whole string and no remainder; otherwise before + separator + after is the input, with no separator in the part before |
| Text.CutRejoin | aliases.go:25-29 | putting the two sides of a cut back together gives the input |
| Text.CutAt | aliases.go:25-29 | when the separator is absent from `b`, cutting `b + c + a` at `c` gives exactly `b` and `a` |
| Text.Split | aliases.go:25-29 | at least one piece, and no piece contains the separator |
| Text.JoinSplit | aliases.go:25-29 | joining the pieces of a split gives the input back |
| Text.SplitJoin | aliases.go:25-29 | when no piece holds the separator, splitting a join of a non-empty list of pieces gives the pieces back |
| Decimal.DigitChar | aliases.go:40 | the character is a digit whose value is `d` |
| Decimal.DigitValue | aliases.go:40 | the value is below 10, and its digit character is the input |
| Decimal.FormatInt | aliases.go:40 | a canonical numeral (no leading zero), starting with '0' only for 0, one character long exactly for 0..9 |
| Decimal.ValueOfFormat | aliases.go:39-40 | the value of the decimal text of `n` is `n` |
| Decimal.ValuePositive | aliases.go:25-29 | a numeral not starting with '0' denotes a positive number |
| Decimal.FormatOfValue | aliases.go:25-29 | a canonical numeral is the decimal text of its own value |
| LexOrder.Less | aliases.go:75 | Go's string `<`: a proper prefix is less; if `a < b` then `b` is not a prefix of `a` |
| LexOrder.LessIrreflexive | aliases.go:75 | no string is less than itself |
| LexOrder.LessAsymmetric | aliases.go:75 | if `a < b` then not `b < a` |
| LexOrder.LessTransitive | aliases.go:75 | the order is transitive |
| LexOrder.LessTotal | aliases.go:75 | any two different strings are ordered one way or the other |
| LexOrder.IncreasingAdjacent | aliases.go:75-85 | a sequence whose every element is less than the next is strictly increasing |
| LexOrder.StrictlyIncreasingUnique | aliases.go:75-85 | two strictly increasing sequences with the same elements are equal |
| Semver.FromParts | aliases.go:25-29 | a version is built only from exactly three numerals, and the version it builds is valid |
| Semver.Parse | aliases.go:25-29 | stands in for `semver.NewVersion`: whatever it returns is a valid version, and the pre-release holds no '+' |
| Semver.CoreShape | aliases.go:25-29 | the core text splits at '.' into the three decimals and holds no '-' or '+' |
| Semver.EmptyIdentifiers | aliases.go:25-29 | the empty string is neither a valid pre-release nor valid build metadata |
| Semver.CutPlusOfFormat | aliases.go:25-29 | cutting a valid version's text at '+' separates the build metadata |
| Semver.CutMinusOfFormat | aliases.go:25-29 | cutting the core and pre-release at '-' separates the pre-release |
| Semver.ParseFormat | aliases.go:25-29 | every valid version parses back from its text |
| Semver.JoinThree | aliases.go:25-29 | a text that splits into three pieces is those pieces joined by '.' |
| Semver.FromPartsText | aliases.go:25-29 | a version built from parts is valid, and its fields print as exactly those parts |
| Semver.PartsOfParse | aliases.go:25-29 | a parsed version's core, pre-release and metadata are the pieces the parser cut its input into |
| Semver.FormatRejoin | aliases.go:25-29 | a version's text is its core, then optionally '-' and the pre-release, then optionally '+' and the metadata |
| Semver.FormatOfParse | aliases.go:25-29 | whatever parses is valid and is the canonical text of its version, so the parser is injective |
| Semver.ParseCore | aliases.go:25-29 | a valid version's core parses to the same numbers with no pre-release and no metadata |
| Semver.ParseIff | aliases.go:25-29 | `s` parses to `v` exactly when `v` is valid and `s` is its text |
| Aliases.Normalize | aliases.go:17-19 | trims white space, then drops one leading 'v'; its properties are stated by NormalizeFormat and NormalizeNotEmpty |
| Aliases.AliasesOf | aliases.go:16-52 | the specification of `FromVersion`: no aliases, one alias or three, and none of them empty; the cases are stated by the lemmas below |
| Aliases.Dotted | aliases.go:37-46 | the accumulator is "" exactly before the first component |
| Aliases.Prefixes | aliases.go:36-49 | one alias per component; the first is the first decimal; each later one extends the one before by '.' and the next decimal; the last is all of them joined |
| Aliases.PrefixesNext | aliases.go:39-48 | one loop step: the accumulator starts or grows by '.' and a decimal, and the new accumulator is appended |
| Aliases.BuildPrefixes | aliases.go:36-51 | the loop over the components returns exactly their growing prefixes |
| Aliases.FromVersion | aliases.go:16-52 | the result is the alias list of the input: nothing for blank or unparseable input, the name for a pre-release, the three prefixes for a release |
| Aliases.AliasesEmpty | aliases.go:21-29 | no aliases exactly when the normalised name is blank or does not parse |
| Aliases.AliasesOfBlank | aliases.go:17-23 | an all-space name, or one that trims to "v", has no aliases |
| Aliases.AliasesOfPreRelease | aliases.go:31-34 | a valid pre-release, with or without 'v', has its own text as its only alias |
| Aliases.ReleasePrefixes | aliases.go:36-51 | a release's prefixes are MAJOR, MAJOR.MINOR and its core |
| Aliases.AliasesOfRelease | aliases.go:36-51 | a valid release, with or without 'v', has exactly MAJOR, MAJOR.MINOR, MAJOR.MINOR.PATCH in that order |
| Aliases.NormalizeFormat | aliases.go:17-19 | a version's text, trimmed and possibly prefixed by 'v', normalises to that text, which is not empty |
| Aliases.AliasesOfParsedRelease | aliases.go:25-51 | any name that parses as a release has the three release aliases |
| Aliases.ReleaseAliasParses | aliases.go:36-51 | a release has three aliases, and the last parses back to the version without its build metadata |
| Aliases.PreReleaseAliasParses | aliases.go:31-34 | a pre-release's one alias is the normalised name, and it parses back to the same version |
| Aliases.NormalizeNotEmpty | aliases.go:21-25 | a name that parses is not blank once normalised |
| Aliases.Entry | aliases.go:61-68 | one entry as the filter loop treats it; EntryIs states its meaning |
| Aliases.Filtered | aliases.go:60-69 | the specification of the filter loop; FilteredMembers, FilteredAppend and FilteredEmpty state its meaning |
| Aliases.FilterInputNames | aliases.go:60-69 | the loop's output is the filtered list: each surviving entry normalised, in input order |
| Aliases.FilterMapAppend | aliases.go:60-69 | the filter distributes over concatenation |
| Aliases.FilterMapSingle | aliases.go:61-68 | filtering one entry gives its result if present, else nothing |
| Aliases.FilterMapMembers | aliases.go:60-69 | `x` is in the output exactly when some entry maps to `x` |
| Aliases.EntryIs | aliases.go:62-67 | an entry yields its normalised text exactly when it is not blank after trimming |
| Aliases.FilteredPlain | aliases.go:62-67 | an entry without white space at either end is kept, minus one leading 'v' |
| Aliases.FilteredAppend | aliases.go:60-69 | filtering works entry by entry and keeps input order |
| Aliases.FilteredMembers | aliases.go:60-69 | the output holds exactly the normalised non-blank entries |
| Aliases.FilteredEmpty | aliases.go:71-73 | the filter drops everything exactly when every entry is blank |
| Aliases.SortStrings | aliases.go:75 | the array ends up sorted, with the same multiset of elements |
| Aliases.InsertLast | aliases.go:75 | one insertion step: the first `i + 1` cells end up sorted, the array is a permutation of the old one, and the cells after `i` are unchanged |
| Aliases.InsertingStart | aliases.go:75 | a sorted prefix plus the new element is the first state of an insertion step |
| Aliases.InsertingStep | aliases.go:75 | swapping the moving element past a greater neighbour keeps the insertion state |
| Aliases.InsertingDone | aliases.go:75 | when the moving element is in place, the prefix is sorted |
| Aliases.Compacted | aliases.go:76-85 | no longer than the input, non-empty for non-empty input, with the same first and last element |
| Aliases.Compact | aliases.go:76-85 | the first `len` cells become the compacted input (1 <= len); the cells after them are unchanged |
| Aliases.CompactedNext | aliases.go:77-83 | one more element extends the compaction unless it equals the last one kept |
| Aliases.CompactedMembers | aliases.go:76-85 | compaction keeps exactly the elements of its input |
| Aliases.CompactedSorted | aliases.go:75-85 | compacting a sorted sequence makes it strictly increasing |
| Aliases.IsTagAliases | aliases.go:55-86 | the specification of `FromTagNames`: strictly increasing, with exactly the normalised non-blank entries; such a list has no duplicates |
| Aliases.TagAliasesUnique | aliases.go:55-86 | only one sequence meets the specification of `FromTagNames` |
| Aliases.FromTagNames | aliases.go:55-86 | the result is strictly increasing and holds exactly the normalised non-blank entries; it is empty exactly when every entry is blank |
| AliasExamples.FromVersionEmpty | aliases_test.go:18-24 | "" has no aliases |
| AliasExamples.FromVersionInvalid | aliases_test.go:25-31 | "1.0" has no aliases |
| AliasExamples.PreReleaseExample | aliases.go:31-34 | a valid pre-release with no white space around it has its text as its one alias |
| AliasExamples.FromVersionPreRelease | aliases_test.go:32-38 | "1.0.0-beta.1" gives ["1.0.0-beta.1"] |
| AliasExamples.FromVersionPreReleasePrefixed | aliases_test.go:39-45 | "v1.2.0-beta.0" gives ["1.2.0-beta.0"] |
| AliasExamples.FromVersionRelease | aliases_test.go:46-52 | "v1.2.0" gives ["1", "1.2", "1.2.0"] |
| AliasExamples.FromVersionReleaseUnprefixed | aliases_test.go:53-59 | "0.1.0" gives ["0", "0.1", "0.1.0"] |
| AliasExamples.FilteredSingle | aliases.go:61-68 | a one-entry list filters to its normalised entry if that survives, else to nothing |
| AliasExamples.FilterBlank | aliases_test.go:230-250 | no entries, or three empty entries, filter to nothing |
| AliasExamples.FilterKeepsOrder | aliases_test.go:251-257 | ["5.4.0", "", "v20.8.7"] filters to ["5.4.0", "20.8.7"] |
| AliasExamples.TagNamesAre | aliases.go:55-86 | an ascending list holding exactly the filtered entries is the result |
| AliasExamples.TagNamesBlank | aliases_test.go:81-101 | nil, [] and ["", "", ""] give no aliases |
| AliasExamples.TagNamesSingle | aliases_test.go:102-115 | ["1.0.0"] gives ["1.0.0"] and ["v2.5.1"] gives ["2.5.1"] |
| AliasExamples.TagNamesTwoPrefixed | aliases_test.go:116-122 | ["v5.8.7", "v1.7.9"] gives ["1.7.9", "5.8.7"] |
| AliasExamples.TagNamesLexicographic | aliases_test.go:123-129 | ["v2.38.1", "v10.18.3", "v6.32.2"] gives ["10.18.3", "2.38.1", "6.32.2"] (byte order, not version order) |
| AliasExamples.TagNamesMixedEmpty | aliases_test.go:130-136 | ["5.4.0", "", "v20.8.7"] gives ["20.8.7", "5.4.0"] |
| AliasExamples.TagNamesDeduplicated | aliases_test.go:137-143 | ["v1.5.8", "1.8.5", "v1.5.8"] gives ["1.5.8", "1.8.5"] |
| AliasExamples.TagNamesFull | aliases_test.go:144-150 | the nine mixed names with blanks and duplicates give ["10.0.22", "10.22.0", "2", "2.0", "2.0.1", "latest"] |
| AliasExamples.TagNamesNotIdempotent | aliases.go:62-67 | ["vv1"] gives ["v1"], and a second call gives ["1"] |
| AliasExamples.TagNamesKeepsEmptyAlias | aliases.go:62-67 | ["v"] gives [""] |

The test tables for the list operation call `FromVersionNames` and
`filterInputNames`. Neither is defined in `aliases.go`, so the model checks
those cases against `FromTagNames` and its filter loop.

## Left out

- Semver.Parse: `github.com/coreos/go-semver` is not part of this model.
  - `Parse` follows the grammar of Semantic Versioning 2.0.0: sections 2, 9 and
    10, with components that fit in an `int64`.
  - Where that library accepts or rejects other spellings, the model's results
    can differ. Examples are leading zeros, or an empty text after '-'.
- Aliases.SortStrings: `sort.Strings` from the Go library is modelled by an
  insertion sort with the same contract, sorted and a permutation. The
  library's algorithm is not modelled.
- Text.TrimSpace: Dafny strings are sequences of code points.
  - The UTF-8 decoding of Go strings is not modelled.
  - Nor is the handling of invalid byte sequences.
- Decimal.FormatInt: only non-negative values are formatted, because the
  version components are never negative.
- Nil versus empty: Go distinguishes a nil slice from an empty one. Both
  operations are proved to return the empty sequence exactly where the code
  returns `nil`.
- Aliases.BuildPrefixes: the loop of `FromVersion` is a method of its own.
  `FromVersion` calls it on the three components of `v.Slice()`.
- Aliases.FromTagNames: Go's result `strv[:j+1]` shares its backing array with
  the sorted slice. The model returns a copy of the array prefix.
- `GetVersionNamesSuffixed` and `FromVersionNames` are not in `aliases.go`, so
  they are not part of this model.
- The repository's demo program prints to the console, and printing is not
  part of this model.
