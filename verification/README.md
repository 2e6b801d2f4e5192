# tsviz core: dependency summary, merge flattening, declaration-file filter

tsviz reads a TypeScript project, collects one `Module` per source file and
either renders a diagram or answers a dependency query. The orchestration in
`src/tsviz.ts` holds three pure transformations over the module list, and this
project models them and proves their properties in Dafny:

- **Dependency query** (`getModulesDependencies`). Modules are sorted by name.
  Each one becomes an `OutputModule`: its name and the names of its recorded
  dependencies. The names are de-duplicated as object keys and then sorted.
  Module `Dependencies`, built on a stable insertion sort (`Sorting`) and a
  lexicographic order on strings (`Lex`).
- **Merge mode** of `createGraph`. The module list is replaced by the in-order
  concatenation of every top-level module's nested modules. Module `Merge`.
- **Declaration-file filter** of `getModules`. A source file is dropped before
  collection when `lastIndexOf(".d.ts")` equals `length - 5`. That drops every
  name ending in `.d.ts`, and also every name of exactly four UTF-16 code
  units (see "## Findings"). Module `DeclarationFilter` models
  `String.prototype.lastIndexOf` and JavaScript's `length` in code units. It
  gives the filter as written (`KeptSourcesAsWritten`) and a corrected one
  (`KeptSources`).

The data model (`Elements`) keeps only what these transformations read:
a module's name, its nested modules and its dependency references, each of
which is a name.

Both orderings in the source are modelled by one order, `Lex.Le`. Modules are
compared with `localeCompare`. Dependency names use the default `sort()`,
which compares UTF-16 code units. `Lex.Le` compares characters by their code
and puts a proper prefix first. The lemmas prove it is a total order, and the
sorting proofs use nothing else about it.

Merge mode removes exactly one level of nesting. It drops the top-level
modules together with their own classes, interfaces and enums, so merging
twice can differ from merging once (`Merge.MergeNotIdempotent`).

## Model

| member | source | states |
|---|---|---|
| Lex.Le | src/tsviz.ts:104-111 | the order standing in for `localeCompare` and the default `sort()`; `Lex.LeReflexive`, `Lex.LeAntisymmetric`, `Lex.LeTransitive` and `Lex.LeTotal` prove it a total order |
| Lex.LeReflexive | src/tsviz.ts:104 | every name sorts at or before itself |
| Lex.LeAntisymmetric | src/tsviz.ts:104 | two names that each sort at or before the other are equal |
| Lex.LeTransitive | src/tsviz.ts:104 | the name order is transitive |
| Lex.LeTotal | src/tsviz.ts:111 | any two names are comparable, so the comparison used by both sorts is total |
| Sorting.Insert | src/tsviz.ts:104 | inserting one element adds exactly that element to the multiset of elements |
| Sorting.InsertKeepsSorted | src/tsviz.ts:104 | inserting into a list sorted by key leaves it sorted by key |
| Sorting.SortBy | src/tsviz.ts:104 | the sort returns a permutation of its input that is sorted by key |
| Sorting.SortByStable | src/tsviz.ts:104 | for every key, the elements carrying it keep their input order |
| Sorting.SortDistinctStrict | src/tsviz.ts:111 | sorting a duplicate-free list of names gives a strictly increasing list with the same elements |
| Sorting.StrictlySortedUnique | src/tsviz.ts:111 | two strictly increasing lists of names with the same elements are equal |
| Dependencies.RecordedKeys | src/tsviz.ts:105-108 | the object's keys hold no name twice, and a name is a key iff some dependency carries it |
| Dependencies.Summarize | src/tsviz.ts:105-112 | an entry has its module's name, and its dependency list is strictly increasing and holds a name iff some dependency of the module carries it |
| Dependencies.Summaries | src/tsviz.ts:104-113 | the `forEach` that pushes one entry per sorted module; `Dependencies.SummariesPointwise` and `Dependencies.EntriesAreModules` state its result |
| Dependencies.SummariesPointwise | src/tsviz.ts:104-113 | the pushed list has one entry per module, and the entry at each position is that module's entry |
| Dependencies.ModulesDependencies | src/tsviz.ts:101-115 | the answer has one entry per module, is a permutation of the modules' entries, is ordered by module name, and every entry's dependency list is strictly increasing |
| Dependencies.SummariesPermutation | src/tsviz.ts:104 | sorting the modules only reorders their entries |
| Dependencies.EntriesAreModules | src/tsviz.ts:104-113 | every entry is the entry of some input module, and every input module's entry appears |
| Dependencies.SameNameKeepsOrder | src/tsviz.ts:104 | the entries of modules sharing a name appear in the input order of those modules |
| Dependencies.DependenciesCanonical | src/tsviz.ts:111 | an entry's dependency list is the only strictly increasing list of the names its module mentions, whatever order the object listed its keys in |
| Dependencies.SummaryIgnoresOrderAndRepeats | src/tsviz.ts:105-111 | two modules with the same name that mention the same names get the same entry, whatever the order or repetition of their dependencies |
| Dependencies.TwoModuleExample | src/tsviz.ts:101-115 | modules B (no dependencies) and A (depending on B twice) give A with dependencies [B], then B with none |
| Merge.Flatten | src/tsviz.ts:87-91 | a module is in the merged list iff it is nested directly in some input module |
| Merge.FlattenHomomorphism | src/tsviz.ts:88-91 | merging the empty list gives the empty list, merging one module gives its nested modules, and merging a concatenation concatenates the merges |
| Merge.FlattenLength | src/tsviz.ts:88-91 | the merged list is as long as all nested lists together |
| Merge.TopLevelDropped | src/tsviz.ts:87-91 | a top-level module that no input module nests is absent from the merged list |
| Merge.SingleModuleDropped | src/tsviz.ts:87-91 | merging a one-module list never keeps that module |
| Merge.MergeNotIdempotent | src/tsviz.ts:87-91 | some module list gives a different result when merged twice than when merged once |
| Merge.Assemble | src/tsviz.ts:87-92 | with merge set, the loop that accumulates nested modules computes the merged list; without it, the list is passed on unchanged |
| DeclarationFilter.LastIndexAtOrBelow | src/tsviz.ts:72 | the result is -1 or a position at or below the start where the pattern occurs, and the pattern occurs at no position between the result and the start |
| DeclarationFilter.LastIndexOf | src/tsviz.ts:72 | the result is -1 iff the pattern occurs nowhere; otherwise the pattern occurs at the result and at no later position |
| DeclarationFilter.Utf16Length | src/tsviz.ts:72 | JavaScript's `length`: each character counts one UTF-16 code unit, or two beyond U+FFFF; `DeclarationFilter.Utf16LengthAppend` and `DeclarationFilter.Utf16LengthAtLeast` state its properties |
| DeclarationFilter.Utf16LengthAppend | src/tsviz.ts:72 | the `length` of a concatenation, in UTF-16 code units, is the sum of the lengths |
| DeclarationFilter.Utf16LengthAtLeast | src/tsviz.ts:72 | a string has at least as many code units as characters |
| DeclarationFilter.LastIndexOfUnits | src/tsviz.ts:72 | `lastIndexOf` answers -1 iff the pattern occurs nowhere, and otherwise the code-unit offset of an occurrence after which the pattern occurs nowhere |
| DeclarationFilter.LastSuffixOffset | src/tsviz.ts:72 | the last ".d.ts" is at code-unit offset `length - 5` when the name ends in ".d.ts", and is absent or strictly before that offset otherwise |
| DeclarationFilter.IsDeclarationFileAsWritten | src/tsviz.ts:72 | the test in `getModules` drops a name iff it ends in ".d.ts" or its `length` is exactly four code units |
| DeclarationFilter.IsDeclarationFile | src/tsviz.ts:72 | the corrected test drops a name iff it ends in ".d.ts", and agrees with the test as written on every name whose `length` is not four |
| DeclarationFilter.AsWrittenDropsFourCharacterNames | src/tsviz.ts:72 | "a.ts" does not end in ".d.ts", yet the test as written drops it and the filter as written maps `["a.ts"]` to the empty list, while the corrected test and filter keep it |
| DeclarationFilter.AsWrittenCountsCodeUnits | src/tsviz.ts:72 | a four-character name whose `length` is five is kept, and a three-character name whose `length` is four is dropped |
| DeclarationFilter.Filter | src/tsviz.ts:71-72 | `Array.prototype.filter`: an element is in the result iff it is in the input and the test accepts it, and the result is no longer than the input |
| DeclarationFilter.FilterAppend | src/tsviz.ts:71-72 | filtering a concatenation concatenates the filtered parts, so kept elements keep their order and repetitions |
| DeclarationFilter.FilterAgree | src/tsviz.ts:71-72 | two tests that agree on every element of a list filter it to the same list |
| DeclarationFilter.IsKeptAsWritten | src/tsviz.ts:72 | the test passed to `filter`, as written; `DeclarationFilter.IsDeclarationFileAsWritten` states what it rejects |
| DeclarationFilter.KeptSourcesAsWritten | src/tsviz.ts:71-72 | the filter as written keeps a file iff it is among the inputs, does not end in ".d.ts" and does not have a `length` of four, and it adds no file |
| DeclarationFilter.KeptSourcesAsWrittenAppend | src/tsviz.ts:71-72 | the filter as written maps a concatenation to the concatenation of the filtered parts, so kept files stay in input order with their repetitions |
| DeclarationFilter.KeptSources | src/tsviz.ts:71-72 | the corrected filter keeps a file iff it is among the inputs and does not end in ".d.ts", and it adds no file |
| DeclarationFilter.KeptSourcesAgree | src/tsviz.ts:71-72 | on a list with no name of `length` four, the filter as written and the corrected filter give the same list |
| DeclarationFilter.KeptSourcesAppend | src/tsviz.ts:71-72 | the corrected filter maps a concatenation to the concatenation of the filtered parts, so kept files stay in input order |

## Left out

- `walk` and `getFiles` (src/tsviz.ts:15-56) read the file system and are not modelled. In non-recursive mode the listing stops at the first subdirectory, because `next()` is not called after it.
- The TypeScript compiler calls, `getSourceFiles` and `analyser.collectInformation` (src/tsviz.ts:61-73) are foreign code. The filter is modelled on the list of file names the compiler would return. `ts-analyser` and `ts-elements` are not part of this model.
- `process.chdir`, `process.cwd` and the console output (src/tsviz.ts:44, 59, 75, 77) are process state and logging.
- The renderers `umlBuilder.buildUml` and `plantBuilder.buildUml` (src/tsviz.ts:94-98) are not part of this model, so the option flags they take are not modelled.
- A module's classes, interfaces and enums are not represented, because the modelled code never reads them.
- Dependencies.ModulesDependencies: modules are ordered by `Lex.Le`, which compares characters by code. The real `localeCompare` depends on the locale and its collation rules, which are not modelled.
- Dependencies.Summarize: dependency names are ordered by `Lex.Le`, which compares code points. The real default `sort()` compares UTF-16 code units. The two orders differ only when characters outside the Basic Multilingual Plane are involved.
- Sorting.SortByStable: ECMAScript requires a stable sort only since its 2019 edition, and older engines did not guarantee one. The model's sort is stable.
- Dependencies.RecordedKeys: in JavaScript, assigning to the key `__proto__` of a plain object changes its prototype and records no key. The model treats `__proto__` like any other dependency name. The model also lists keys in first-occurrence order, while `Object.keys` lists integer-like keys ("1", "42") first in ascending numeric order. The answer sorts the keys, so this order does not reach it (`Dependencies.DependenciesCanonical`).
- Self-dependency suppression and the rendered graph text belong to the collector and the renderers, which are not part of this model.
- Merge.Assemble: `acc.push.apply(acc, val.modules)` passes every nested module as a call argument, so a JavaScript engine throws `RangeError` when one module nests more modules than its argument limit. The model has no such limit and no error path.
- DeclarationFilter.LastIndexOfUnits: the search runs over characters, and the match position is converted to code units. No string here holds a lone surrogate, so every code-unit match of any pattern starts and ends at a character boundary, and the two searches agree. The model has no code-unit representation of strings, so that agreement is argued here and not proved.

## Findings

| source | as written | input that shows it | evidently intended | confidence | as-written member | corrected member |
|---|---|---|---|---|---|---|
| src/tsviz.ts:72 | a file is dropped when `lastIndexOf(".d.ts")` equals `length - 5` | the file name "a.ts": `lastIndexOf` gives -1, which equals 4 - 5, so the file is dropped; `KeptSourcesAsWritten(["a.ts"])` is empty | drop only names that end in ".d.ts" | not executed | DeclarationFilter.AsWrittenDropsFourCharacterNames | DeclarationFilter.IsDeclarationFile |
