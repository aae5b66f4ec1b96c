# Cucumber tag extractor, modelled in Dafny

The repository is an end-to-end test suite for a web shop: Gherkin feature
files, step definitions and page objects that drive a browser. The only part
of it with logic of its own is the script `scripts/extract-cucumber-tags.cjs`.
It lists the feature directory and keeps the names ending in `.feature`. It
scans each file's text with the global regular expression `/@(\w[\w-]*)/g`,
collecting every capture into a set. It unions the per-file sets, sorts the
union with `Array.prototype.sort()`, and writes the list as
`{ "tags": [...] }`.

This project models that script with the file system taken out:

- `tagscan.dfy`, module `TagScan`: the scan. `Exec` is one `exec` call,
  which finds the leftmost match at or after `lastIndex`, matching `[\w-]*`
  greedily. `ScanFrom` is the `while (... exec ...) !== null` loop, and
  `ExtractTags` is `extractTagsFromFile` on a string. The declarative
  predicate `TagAt(s, p, t)` says "an `@` at `p`, then the maximal tag `t`".
  `ExtractTags` is proved to collect exactly the tags `TagAt` admits. The
  module also proves how the scan behaves under concatenation.
- `featurefilter.dfy`, module `FeatureFilter`: `getAllFeatureFiles`'s
  `.filter(f => f.endsWith('.feature'))` on a list of entry names.
- `tagorder.dfy`, module `TagOrder`: the default sort order for strings, a
  proof that it is a strict total order, and insertion sort with a proof
  that it returns a sorted permutation. It also proves that a strictly
  ascending list is determined by its elements.
- `tagextractor.dfy`, module `TagExtractor`: `main`. It takes the directory
  listing and a map from entry name to file text. The result is either the
  sorted tag list, or the first feature file that could not be read, which
  is where `readFileSync` throws.

Character classes follow a regular expression without the `u` flag: `\w` is
ASCII `[A-Za-z0-9_]`. Tags are therefore ASCII. On ASCII text, JavaScript's
sort order (UTF-16 code units) and Dafny's `char` order (code points) agree.

## Model

| member | source | states |
|---|---|---|
| TagScan.RunEnd | scripts/extract-cucumber-tags.cjs:12 | greedy `[\w-]*`: every character from the start up to the result is in `[\w-]`, and the character at the result, if any, is not |
| TagScan.RunEndUnique | scripts/extract-cucumber-tags.cjs:12 | any end of a maximal `[\w-]` run from a start equals `RunEnd`, so the greedy match is the only one |
| TagScan.Exec | scripts/extract-cucumber-tags.cjs:12-15 | `null` exactly when no `@`-plus-word-character exists at or after `lastIndex`; otherwise the match is the leftmost such position, its capture is a maximal tag there, and the new `lastIndex` is the end of the match |
| TagScan.ScanFrom | scripts/extract-cucumber-tags.cjs:13-17 | every tag the exec loop adds is non-empty, starts with `[A-Za-z0-9_]` and holds only `[A-Za-z0-9_-]` |
| TagScan.ScanFromSpec | scripts/extract-cucumber-tags.cjs:12-17 | the exec loop from `lastIndex` collects a tag exactly when it occurs, maximal and after an `@`, at some position at or after `lastIndex`; no match is skipped |
| TagScan.ExtractTags | scripts/extract-cucumber-tags.cjs:10-19 | the per-file set holds exactly the maximal tags that follow an `@` somewhere in the text, and each is well formed |
| TagScan.TagAtMatches | scripts/extract-cucumber-tags.cjs:12 | a tag occurrence is always an `@` followed by a word character |
| TagScan.TagAtUnique | scripts/extract-cucumber-tags.cjs:12 | at most one tag is captured at a given `@` |
| TagScan.TagAtIffMatches | scripts/extract-cucumber-tags.cjs:12 | an `@` yields a tag if and only if a word character follows it; `@-`, `@ ` and a final `@` yield nothing |
| TagScan.TagAtShift | scripts/extract-cucumber-tags.cjs:12 | a tag occurrence depends only on the text from its `@` onwards; text in front neither creates nor destroys it |
| TagScan.TagAtPrefix | scripts/extract-cucumber-tags.cjs:12 | a tag occurrence that ends before the last character of a text survives any appended text, and vice versa |
| TagScan.ExtractTagsKeepsSuffixTags | scripts/extract-cucumber-tags.cjs:12-17 | the tags of `b` are among the tags of `a + b` for every `a` |
| TagScan.ExtractTagsKeepsCompleteTags | scripts/extract-cucumber-tags.cjs:12-17 | a tag of `a` that does not run to the very end of `a` is a tag of `a + b` for every `b` |
| TagScan.BoundaryTagCanGrow | scripts/extract-cucumber-tags.cjs:12 | the end-of-text exception is real: `@ab` yields `ab`, but `@abc` does not |
| TagScan.SingleTag | scripts/extract-cucumber-tags.cjs:12-18 | `@` followed by a well-formed tag, and nothing else, yields exactly that tag |
| TagScan.NoAtPrefix | scripts/extract-cucumber-tags.cjs:12-17 | prefixing text that has no `@` leaves the tag set unchanged |
| TagScan.SeparatedLeft | scripts/extract-cucumber-tags.cjs:12 | a tag cannot run across a character outside `[\w-]`: before such a character the joined text has the same tags as the left part |
| TagScan.ExtractTagsSeparated | scripts/extract-cucumber-tags.cjs:12-18 | two texts joined by a character that is neither `@` nor in `[\w-]` yield the union of their tag sets |
| TagScan.ExtractTagsOrderIrrelevant | scripts/extract-cucumber-tags.cjs:13-16 | swapping two separated pieces of text does not change the tag set |
| TagScan.ExtractTagsRepeatCollapses | scripts/extract-cucumber-tags.cjs:13-16 | a piece of text repeated after a separator adds no tag: repeated occurrences collapse |
| TagScan.RepeatedTagLine | scripts/extract-cucumber-tags.cjs:13-16 | a line `@x @y @x` of well-formed tags yields exactly `{x, y}` |
| TagScan.RepeatedTagsExample | scripts/extract-cucumber-tags.cjs:13-16 | `@smoke @login @smoke` yields exactly `{smoke, login}` |
| TagScan.EmailAddressYieldsTag | scripts/extract-cucumber-tags.cjs:12 | an address `local@domain.top` (no other `@`) yields its domain label as a tag |
| TagScan.EmailAddressExample | scripts/extract-cucumber-tags.cjs:12 | `user@example.com` yields exactly `{example}` |
| FeatureFilter.FeatureFiles | scripts/extract-cucumber-tags.cjs:21-24 | a name is kept if and only if it is listed and ends in `.feature`; nothing is added |
| FeatureFilter.EndsWithIffStem | scripts/extract-cucumber-tags.cjs:23 | `endsWith` holds exactly when the name is some stem followed by the suffix |
| FeatureFilter.FeatureFilesSingleton | scripts/extract-cucumber-tags.cjs:23 | a one-name listing passes exactly when that name ends in `.feature` |
| FeatureFilter.FeatureFilesAppend | scripts/extract-cucumber-tags.cjs:22-23 | filtering distributes over concatenated listings, so the kept names keep their listing order and multiplicity |
| FeatureFilter.FeatureFilesIdempotent | scripts/extract-cucumber-tags.cjs:23 | filtering an already filtered listing changes nothing |
| FeatureFilter.FeatureFilesAllOrNothing | scripts/extract-cucumber-tags.cjs:22-23 | a listing of feature files only passes unchanged; a listing without one passes nothing |
| FeatureFilter.FeatureNameExamples | scripts/extract-cucumber-tags.cjs:23 | `login.feature` and `.feature` pass; `login.feature.bak`, `LOGIN.FEATURE` and `feature` do not |
| TagOrder.BelowIffFirstDifference | scripts/extract-cucumber-tags.cjs:33 | the sort order is lexicographic: at the first difference the smaller character wins, and a proper prefix comes first |
| TagOrder.BelowIrreflexive | scripts/extract-cucumber-tags.cjs:33 | no string sorts strictly before itself |
| TagOrder.BelowAsymmetric | scripts/extract-cucumber-tags.cjs:33 | two strings are never each strictly before the other |
| TagOrder.BelowTransitive | scripts/extract-cucumber-tags.cjs:33 | the sort order is transitive |
| TagOrder.BelowTotal | scripts/extract-cucumber-tags.cjs:33 | any two different strings are ordered one way or the other |
| TagOrder.AsciiTags | scripts/extract-cucumber-tags.cjs:12 | every well-formed tag is ASCII, where code-unit and code-point order agree |
| TagOrder.Insert | scripts/extract-cucumber-tags.cjs:33 | inserting into a sorted list keeps it sorted and adds exactly the one element |
| TagOrder.Sort | scripts/extract-cucumber-tags.cjs:33 | the sorted array is ordered and a permutation of the input |
| TagOrder.DistinctIffSingleCounts | scripts/extract-cucumber-tags.cjs:33 | a list has no repetitions exactly when each value occurs in it at most once |
| TagOrder.DistinctPermutation | scripts/extract-cucumber-tags.cjs:33 | a permutation of a repetition-free list is repetition-free |
| TagOrder.SortDistinct | scripts/extract-cucumber-tags.cjs:33 | sorting the elements of a set gives a strictly ascending list of exactly those elements |
| TagOrder.AscendingListingUnique | scripts/extract-cucumber-tags.cjs:29-33 | two strictly ascending lists with the same elements are equal, so the output does not depend on the set's insertion order |
| TagExtractor.SetToArray | scripts/extract-cucumber-tags.cjs:33 | `Array.from` of a set gives an array without repetitions holding exactly the set's elements |
| TagExtractor.ExtractCucumberTags | scripts/extract-cucumber-tags.cjs:27-33 | fails if and only if some selected file cannot be read, naming the first such file; otherwise the list is strictly ascending and a tag is in it if and only if it occurs in at least one selected file |

## Left out

- The file system. `readdirSync` is replaced by its result, a list of entry names. `readFileSync` is replaced by a map from readable entry names to their text, already decoded from UTF-8. A failing `readdirSync` (missing directory) is not modelled.
- `path.join(dir, f)` on the kept names. The joined path only serves to read the file, and the map is keyed by entry name.
- `writeFileSync` of the JSON document, the two `console.log` lines and the `FEATURES_DIR` / `OUTPUT_FILE` path constants. These are output and configuration; the model returns the tag list instead.
- TagExtractor.SetToArray: leaves the array order open, where JavaScript gives the set's insertion order. The order is irrelevant to the result, because sorting makes the output unique (`TagOrder.AscendingListingUnique`).
- TagOrder.Sort: is an insertion sort, not the engine's algorithm. Any algorithm returns the same sorted permutation here, because the elements are distinct.
- UTF-16 detail: the model's characters are code points, JavaScript's are code units. A supplementary character is one model character but two JavaScript ones. Neither is `@` or a word character, so matches and tags are the same.
- The rest of the repository: the browser utility wrappers, the lifecycle hooks, page objects, step definitions, the page fixture, the fake-data helpers, the logger, the test-data store and the configuration files. All of their behaviour lives in the browser engine, the BDD runner or external libraries.
