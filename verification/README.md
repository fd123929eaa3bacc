# powerproto `pkg/util` in Dafny

A model of the helper library `pkg/util/util.go` of powerproto. It is a set of
small, independent, pure operations on strings and string sequences:

- sorting version strings by semantic-version precedence, with the
  unparsable ones set aside and sorted as plain strings;
- stable deduplication;
- membership tests;
- listing the members of a set or the keys of a map;
- recognising "regular" versions `vX.Y.Z`;
- expanding `$NAME` references from an override map and the process
  environment;
- splitting and joining Go module references `path@version`;
- adding `.exe` to binary names on Windows.

Every operation is a pure function or a method over Dafny values. The process
environment (`os.Getenv`) is a parameter `env: map<string, string>`; a missing
name reads as the empty string, as it does in Go. The host OS (`runtime.GOOS`)
is a parameter `os: Platform` (`Windows | Other`). The go-semver parser is a
parameter `parse: string -> Option<Version>`.

Files:

- `strings.dfy` (module `Strings`) holds the Go string operations the library
  uses: Go's string order, `HasPrefix`/`HasSuffix`, `Index`, `ReplaceAll` and
  `Join`.
- `sorting.dfy` (module `Sorting`) sorts by any total preorder. Go's
  `sort.Sort` and `sort.Strings` are not stable, so the only promise is a
  sorted permutation. Insertion sort is one sort that keeps it.
- `semver.dfy` (module `SemVer`) defines versions and their precedence, as set
  out in section 11 of Semantic Versioning 2.0.0.
- `versions.dfy` (module `Versions`) holds `SortSemanticVersion` and
  `IsRegularVersion`.
- `collections.dfy` (module `Collections`) holds `DeduplicateSliceStably`,
  `Contains`, `ContainsEmpty`, `SetToSlice` and `GetMapKeys`.
- `render.dfy` (module `Render`) holds `RenderWithEnv`.
- `packages.dfy` (module `Packages`) holds `SplitGoPackageVersion`,
  `JoinGoPackageVersion` and `GetBinaryFileName`.

Notes on how the model follows the code:

- `SortSemanticVersion` keys its map by `*semver.Version` pointers. So every
  parsed item is kept, even when two items parse to equal versions. Sorting
  the pointers and then mapping each back to its item is the same as sorting
  the parseable items by the precedence of their parsed versions. The model
  does the latter.
- `RenderWithEnv` handles every match of `\$[A-Za-z_]+` in the original
  string, repeats included, in order. A repeat matters when a value contains
  its own reference, or when a later value brings back a reference already
  handled: for `$A $B $A` with `A=a` and `B=$A`, the second `$A` turns the
  `$A` that `B` left behind into `a`. Each non-empty value is applied with
  `ReplaceAll` to the string as it stands at that point. So replacing `$FOO` also rewrites the
  front of a later `$FOOBAR` (`Render.PrefixReferenceRewritten`). A value
  that is itself a reference can also be expanded by a later step
  (`Render.SubstitutedValueRewritten`).
- Go compares strings byte by byte over UTF-8. Here strings are sequences of
  Unicode scalar values. For well-formed UTF-8, code-point order and byte
  order agree.

## Model

| member | source | states |
|---|---|---|
| Versions.SortSemanticVersion | pkg/util/util.go:31-55 | the two outputs together are a permutation of the input; each malformed item fails to parse once a leading `v` is stripped, and each data item parses; malformed is in ascending string order; data is in non-decreasing precedence |
| Versions.SortByPrecedence | pkg/util/util.go:45-52 | sorting the parsed versions and mapping each back to its item gives a permutation of the parseable items, in non-decreasing precedence |
| Versions.SortStrings | pkg/util/util.go:53 | `sort.Strings` gives a permutation in ascending byte-wise order |
| Versions.Partition | pkg/util/util.go:35-47 | in input order, the items that fail to parse once a leading `v` is stripped go to the first list and the others to the second; together the two lists are a permutation of the input |
| Versions.SplitIsPermutation | pkg/util/util.go:35-47 | every item is in exactly one of the two lists, as often as in the input |
| Sorting.Sort | pkg/util/util.go:48 | for any total preorder, the result is sorted and is a permutation of the input |
| Sorting.Insert | pkg/util/util.go:48 | inserting into a sorted sequence keeps it sorted and adds exactly that element |
| SemVer.CompareFlip | pkg/util/util.go:48 | version precedence is antisymmetric: swapping the operands flips the outcome |
| SemVer.CompareTransitive | pkg/util/util.go:48 | version precedence is transitive, so the sort is well defined |
| SemVer.CompareEqual | pkg/util/util.go:48 | two versions rank equal exactly when they differ only in build metadata |
| SemVer.ReleaseOutranksPreRelease | pkg/util/util.go:48 | a release ranks above every pre-release of the same major.minor.patch |
| SemVer.PrecedenceExample | pkg/util/util.go:48 | the example chain of section 11 of Semantic Versioning 2.0.0 is strictly increasing |
| SemVer.CompareFieldsTransitive | pkg/util/util.go:48 | comparing pre-release fields one by one is transitive |
| Strings.CompareTransitive | pkg/util/util.go:53 | Go's string order is transitive, and strict when either step is strict |
| Strings.CompareEqual | pkg/util/util.go:53 | two strings compare equal exactly when they are the same |
| Strings.CompareFlip | pkg/util/util.go:53 | swapping two strings flips their comparison |
| Collections.DeduplicateSliceStably | pkg/util/util.go:58-68 | the result has no repeats, has exactly the input's elements, keeps them in first-occurrence order, and equals the reference first-occurrence list |
| Collections.FirstOccurrences | pkg/util/util.go:58-68 | the reference list has no repeats, has exactly the input's elements, and is no longer than the input |
| Collections.FirstOccurrencesOrder | pkg/util/util.go:58-68 | the kept elements appear in the order of their first occurrences in the input |
| Collections.FirstOccurrencesOfDistinct | pkg/util/util.go:58-68 | a sequence without repeats comes back unchanged |
| Collections.DeduplicateIdempotent | pkg/util/util.go:58-68 | deduplicating twice gives the same as deduplicating once |
| Collections.Contains | pkg/util/util.go:76-83 | true exactly when some item equals the target |
| Collections.ContainsEmpty | pkg/util/util.go:71-73 | true exactly when some item is the empty string, the answer `Contains` gives for target `""` |
| Collections.SetToSlice | pkg/util/util.go:86-92 | the result lists every member of the set exactly once and nothing else |
| Collections.GetMapKeys | pkg/util/util.go:95-101 | the result lists every key of the map exactly once and nothing else |
| Versions.IsRegularVersionCorrect | pkg/util/util.go:120-128 | the scan accepts a string exactly when it is `v`, a digit run, `.`, a digit run, `.`, a digit run, and nothing more |
| Versions.RegularVersionScan | pkg/util/util.go:120-128 | every string of the form `v<digits>.<digits>.<digits>` is accepted |
| Render.FindReferencesFrom | pkg/util/util.go:119-132 | every match found is `$` followed by one or more letters or underscores |
| Render.NoReferences | pkg/util/util.go:132 | the scan finds no match exactly when no `$` in the string is followed by a letter or underscore |
| Render.LeadingReference | pkg/util/util.go:132 | a `$name` at the start, not followed by another name character, is the first match, and the scan resumes right after it |
| Render.FindAfterPlain | pkg/util/util.go:132 | text without `$` in front of a string adds no match and does not change the matches after it |
| Render.SkipToReference | pkg/util/util.go:132 | positions where no match can start are passed over: the scan from there equals the scan from the next possible start |
| Render.ReferenceAt | pkg/util/util.go:132 | a match that starts at a position runs to the end of the name characters there, and the scan resumes right after it, so matches are leftmost, longest and non-overlapping |
| Render.RenderWithoutReferences | pkg/util/util.go:131-144 | a string with no `$NAME` reference is returned unchanged |
| Render.RenderUnresolved | pkg/util/util.go:131-144 | when no matched name resolves to a non-empty value, the string is returned unchanged |
| Render.SubstituteUnresolved | pkg/util/util.go:133-142 | the loop changes nothing when every name resolves to the empty string |
| Render.RenderPrefersExt | pkg/util/util.go:134-138 | `ext` is preferred name by name: two environments that agree on every matched name `ext` leaves empty give the same result, whatever they hold for the names `ext` gives a non-empty value |
| Render.SubstituteIgnoresEnv | pkg/util/util.go:133-142 | the loop reads the environment only for names whose `ext` value is empty, so environments that agree on those names give the same result |
| Render.RenderSingleReference | pkg/util/util.go:131-144 | a lone `$name` is replaced by its value when it has a non-empty one, and left as it is otherwise |
| Render.PrefixReferenceRewritten | pkg/util/util.go:133-141 | replacing `$a` also rewrites the front of a later `$ab`: when `a` has a value `v`, `$a $ab` renders as `v vb`, whatever `ab` resolves to |
| Render.SubstitutedValueRewritten | pkg/util/util.go:133-141 | a substituted value is rewritten by a later step: when `a` has the value `$b` and `b` the value `w`, `$a $b` renders as `w w` |
| Strings.ReplaceAllAbsent | pkg/util/util.go:140 | replacing a pattern that does not occur leaves the string unchanged |
| Strings.ReplaceAllSkipsPrefix | pkg/util/util.go:140 | a prefix in which the pattern cannot start is copied through by the replacement |
| Strings.ReplaceAllAtStart | pkg/util/util.go:140 | an occurrence at the very start is replaced and the scan resumes right after it |
| Strings.Index | pkg/util/util.go:153 | the first position of the character, or -1 exactly when it does not occur |
| Packages.SplitGoPackageVersion | pkg/util/util.go:152-158 | gives `("", "", false)` exactly when there is no `@`; otherwise the path has no `@`, and path, `@` and version put back together are the input |
| Packages.JoinGoPackageVersion | pkg/util/util.go:161-165 | joining the two parts with `strings.Join` gives path, `@`, version |
| Packages.SplitJoin | pkg/util/util.go:152-165 | for a path without `@`, splitting a joined reference gives back `(path, version, true)` |
| Packages.JoinSplit | pkg/util/util.go:152-165 | joining the parts of a successful split gives back the input |
| Packages.GetBinaryFileName | pkg/util/util.go:168-176 | the result is the name or the name plus `.exe`; on Windows it ends in `.exe`; it is the name unchanged exactly when the OS is not Windows or the name already ends in `.exe` |
| Packages.GetBinaryFileNameIdempotent | pkg/util/util.go:168-176 | applying the function twice gives the same as once |

## Left out

- `GetExitCode` (pkg/util/util.go:103-116) is not modelled. It only inspects
  `*exec.ExitError` and `syscall.WaitStatus`, which are OS process values
  with nothing to model beyond the fallback to `1`.
- `RenderPathWithEnv` (pkg/util/util.go:147-149) is not modelled. It is
  `RenderWithEnv` followed by `filepath.Clean`, and `filepath.Clean` is
  OS-dependent library code that is not part of this model.
- `os.Getenv` and `runtime.GOOS` are not modelled. They become the parameters
  `env` and `os`.
- The go-semver parser is not part of this model; it is the parameter
  `parse`. Its 64-bit integer fields are modelled as unbounded `nat`s. The
  precedence order is the one defined in section 11 of Semantic Versioning
  2.0.0, with pre-release fields already split into numeric and alphanumeric
  identifiers.
- Versions.SortSemanticVersion: promises only a sorted permutation. The order
  in which Go's unstable `sort.Sort` leaves items of equal precedence is not
  modelled.
- Collections.SetToSlice and Collections.GetMapKeys: the order follows Go's
  map iteration, which is unspecified, so only the contents are stated.
- Capacity hints passed to `make` are not modelled; they have no observable
  effect.
- Strings are sequences of Unicode scalar values. Invalid UTF-8 byte strings
  are not modelled.
