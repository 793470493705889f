# Notebook book build: link rewriter and notebook merger

The build script `tasks.py` turns a directory of Jupyter notebooks into one
LaTeX book. Two pieces of it carry logic of their own, and they are what this
Dafny project models and proves things about:

- **The link rewriter `convert_link`**: a Pandoc filter applied to every
  element of the document. A link to another notebook (`3-intro.ipynb`)
  becomes the raw TeX `Chapter \ref{sec:3-intro}`. A link to a heading
  (`#Intro-1` or `3-intro.ipynb#Intro-1`) becomes `Section \ref{intro-1}`,
  where the label is the fragment lower-cased with every character other than
  a word character or `-` deleted. Every other element is left as it is.
  This is pure code, modelled by functions and lemmas (modules `Labels` and `Links`).
- **The notebook merger `merge_notebooks`**: the first notebook read becomes
  the accumulator. The cells of every later notebook are appended to it in
  place. Finally its metadata name gets the suffix `_merged`. This is
  imperative code, modelled by a `Notebook` class and a method with a loop
  (module `Merge`).

The two regular expressions of `convert_link` are written out as string
predicates:

- `(\d+\-.+)\.ipynb$` holds when the leading run of digits is non-empty and
  followed by `-`, at least one more character, and `.ipynb` at the end
  (`IsNotebookName`). `NotebookNameShape` proves that this agrees with the
  reading "some digit prefix, then `-`, ...".
- `(\d+\-.+\.ipynb)?#(.+)$` has a greedy optional group with a greedy `.+`
  inside it. The regex engine therefore uses the LAST `#` whose prefix is a
  notebook name (or is empty) and that has a non-empty fragment after it
  (`IsSplit`, `LastSplit`, `Fragment`). For example,
  `1-a.ipynb#b.ipynb#c` gives the fragment `c`.

Spaces in a fragment are deleted, not turned into `-` as in Pandoc's own
heading identifiers. `My Heading!` gives `myheading`, and `#Local Section`
gives `localsection`, not `local-section`.
The model follows the code (tasks.py:88): see `CleanDeletesSpace`.

Approximations, stated once:

- Link targets hold no newline. Python's `.` and `$` treat a newline specially.
- `\w` is an ASCII letter, an ASCII digit or `_`. `\d` is an ASCII digit.
- `str.lower()` maps only `A`-`Z` to `a`-`z`.

## Model

| member | source | states |
|---|---|---|
| `Labels.LowerChar` | tasks.py:87 | an upper-case letter becomes its lower-case letter; every other character is unchanged; the result is never upper-case, and lowering neither adds nor removes word characters |
| `Labels.Lower` | tasks.py:87 | lower-casing keeps the length and lower-cases each character in place |
| `Labels.Strip` | tasks.py:88 | what deleting `[^\w-]+` leaves holds only word characters and `-` and is no longer than its input |
| `Labels.Clean` | tasks.py:87-88 | a section label holds only lower-case word characters and `-`, and is no longer than the fragment |
| `Labels.StripIsSubsequence` | tasks.py:88 | stripping only deletes characters; it never reorders or replaces them |
| `Labels.StripKeepsEveryLabelChar` | tasks.py:88 | every occurrence of every word character and `-` survives stripping |
| `Labels.StripFixpoint` | tasks.py:88 | stripping leaves a string unchanged exactly when all of its characters are word characters or `-` |
| `Labels.StripAppend` | tasks.py:88 | stripping works character by character: it distributes over concatenation |
| `Labels.CleanIsSubsequenceOfLowered` | tasks.py:87-88 | the label is a subsequence of the lower-cased fragment |
| `Labels.CleanKeepsEveryLabelChar` | tasks.py:87-88 | every word character and `-` of the lower-cased fragment is kept, as often as it occurs |
| `Labels.CleanIdempotent` | tasks.py:87-88 | cleaning an already cleaned label returns it unchanged |
| `Labels.CleanFixpoint` | tasks.py:87-88 | a fragment is its own label exactly when it holds only lower-case word characters and `-` |
| `Labels.CleanDeletesSpace` | tasks.py:88 | a space in a fragment is deleted, not turned into `-`: the label of `a + " " + b` is the label of `a` followed by the label of `b` |
| `Links.IsNotebookName` | tasks.py:79 | the chapter pattern `(\d+\-.+)\.ipynb$` matches the whole target: a leading digit run, `-`, at least one character, then `.ipynb` at the end; a match starts with a digit and is at least nine characters long |
| `Links.IsSplit` | tasks.py:84 | the section pattern can match with its `#` at this position: the prefix is empty or a notebook name, and the fragment after the `#` is non-empty |
| `Links.Tex` | tasks.py:81-89 | the raw TeX is `Chapter \ref{sec:<name>}` or `Section \ref{<anchor>}`: it starts with `Chapter ` or `Section ` as the reference kind says and ends with `}` |
| `Links.TexInjective` | tasks.py:81-89 | distinct references give distinct TeX, so the kind and the name or anchor can be read back from the output |
| `Links.DigitRun` | tasks.py:79 | `\d+` can consume exactly the leading digits: all characters before the run's end are digits, and the next one is not |
| `Links.NotebookNameShape` | tasks.py:79 | the chapter recogniser holds exactly when the target is some non-empty digit prefix, `-`, at least one character, and `.ipynb` at the end (both directions) |
| `Links.LastSplit` | tasks.py:84 | the returned `#` position is a valid section split and no larger position below the bound is one; None means no split below the bound |
| `Links.Fragment` | tasks.py:84 | group 2 of the section pattern is absent exactly when no split exists, else it is what follows the largest split |
| `Links.ConvertTarget` | tasks.py:79-89 | a chapter target yields `Chapter` with the target minus `.ipynb`, tried first; otherwise a rewrite exists exactly when a section split exists, and it is a `Section` |
| `Links.ConvertLink` | tasks.py:75-91 | only a `Link` whose target is recognised is replaced, and always by raw `tex` holding the chapter or section reference; such a link always is replaced |
| `Links.Filtered` | tasks.py:75-91 | an element without a replacement comes out unchanged; a replaced link comes out as raw `tex` holding exactly the `Chapter` or `Section` reference text of its target |
| `Links.ChapterLink` | tasks.py:79-81 | digits, `-`, a non-empty middle and `.ipynb` become exactly `Chapter \ref{sec:<digits>-<middle>}` |
| `Links.NoHashNoSplit` | tasks.py:84 | a target without `#` has no section split |
| `Links.RewriteNeedsDigitOrHash` | tasks.py:79-89 | only a target starting with a digit or `#` is ever rewritten |
| `Links.LocalSectionLink` | tasks.py:84-89 | `#` followed by a non-empty fragment becomes `Section` with the fragment's cleaned label |
| `Links.NotebookSectionLink` | tasks.py:84-89 | a notebook name, `#` and a non-empty fragment without `#` become `Section` with the fragment's cleaned label, unless the whole target is a chapter link |
| `Links.GreedySectionSplit` | tasks.py:84 | when the target is not a chapter link, the label comes from what follows the last admissible `#` |
| `Links.NonLinkUnchanged` | tasks.py:76-91 | an element that is not a link gets no replacement and is unchanged |
| `Links.UnmatchedLinkUnchanged` | tasks.py:79-91 | a link whose target matches neither pattern gets no replacement and is unchanged |
| `Links.ExampleChapter` | tasks.py:79-81 | `3-intro.ipynb` becomes `Chapter` `3-intro` |
| `Links.ExampleSectionSplit` | tasks.py:84 | `1-a.ipynb#b.ipynb` also matches the section pattern, with its `#` after `1-a.ipynb` |
| `Links.ExampleChapterFirst` | tasks.py:79-84 | `1-a.ipynb#b.ipynb` becomes `Chapter` `1-a.ipynb#b`, because the chapter pattern is tried first |
| `Links.ExampleLabel` | tasks.py:87-88 | `Go On!` has the label `goon` |
| `Links.ExampleNotebookSection` | tasks.py:84-89 | `3-intro.ipynb#Go On!` becomes `Section` `goon` |
| `Links.ExampleLocalLabel` | tasks.py:87-88 | `Intro-1` has the label `intro-1` |
| `Links.ExampleLocalSection` | tasks.py:84-89 | `#Intro-1` becomes `Section` `intro-1` |
| `Links.ExampleGreedyPrefix` | tasks.py:84-89 | `1-a.ipynb#b.ipynb#c` becomes `Section` `c`: the greedy prefix takes the last `#` |
| `Links.ExampleUnmatched` | tasks.py:79-91 | `https://example.com`, `#` and `1-.ipynb` are not rewritten |
| `Merge.Notebook.constructor` | tasks.py:40-41 | a notebook object read from a file holds that file's cells and name |
| `Merge.Notebook.Extend` | tasks.py:45 | the new cells are appended after the old ones, in order, and the name is kept |
| `Merge.Notebook.MarkMerged` | tasks.py:46-48 | the cells are kept and the name becomes the old name, or "" if there was none, followed by `_merged` |
| `Merge.MergedName` | tasks.py:46-48 | the merged name ends with `_merged`; before the suffix stands the first name, or nothing when there was none |
| `Merge.MergeNotebooks` | tasks.py:32-49 | an empty input is an error, and only an empty input is; otherwise a new notebook holds all input cells in input order, is named after the first input with the suffix, and a single input keeps its cells |
| `Merge.AllCellsAppend` | tasks.py:39-45 | merging `a + b` gives the cells of `a` followed by the cells of `b` |
| `Merge.AllCellsFront` | tasks.py:42-45 | the first notebook's cells come first, then the others' in order |
| `Merge.MergedCellCount` | tasks.py:39-45 | the merged cell count is the sum of the inputs' cell counts |
| `Merge.MergedCellAt` | tasks.py:39-45 | cell `j` of notebook `i` sits in the merged list right after the cells of all notebooks before `i`, so nothing is dropped or reordered |

## Left out

- `build` (tasks.py:21-29) only calls the other steps with paths under the working directory. It has no logic of its own.
- `iter_notebook_paths` (tasks.py:51-52) lists the directory. The order is whatever the file system yields. `MergeNotebooks` takes the notebooks in whatever order it is given.
- `export_tex` and `MyLatexExporter` (tasks.py:54-73) configure nbconvert's LaTeX exporter, a whitespace-removing preprocessor and a file writer. Their behaviour lives in those external libraries.
- `convert_links` (tasks.py:94-95) is the tree walk of `pandocfilters.applyJSONFilters`, a library call. Only the per-element filter `convert_link` and its "no replacement keeps the element" convention (`Filtered`) are modelled. A kept element is kept only as a node: the walk still filters its children, so a link nested inside, say, an `Emph` is still rewritten.
- `copy_images_dir` (tasks.py:97-104) is file-system I/O (`shutil.rmtree`, `shutil.copytree`).
- Opening and parsing notebook files (tasks.py:40-41) is I/O and a foreign parser. `MergeNotebooks` takes the parsed contents (`Parsed`) and turns each into a fresh `Notebook` object, as a fresh read does.
- A metadata name that is present but not a string is not modelled: `Parsed.name` is an optional string. For `null`, a number, a boolean or an object the source raises `TypeError` at tasks.py:48; for an array, `+=` extends the list with the characters of `_merged` and raises nothing.
- Notebook metadata other than the name, and cell contents beyond a kind and a source string, are not modelled. The merge carries cells without looking at them and touches only the name.
- The `fmt` and `meta` arguments of `convert_link` are not modelled, because the function ignores them. Payloads of elements other than links are not modelled either, because the function never looks at them.
- Full Python regular-expression and Unicode semantics are not modelled. `\w`, `\d` and `lower()` are ASCII only. For example, Python keeps `é` in a label and the model deletes it. Targets are assumed to hold no newline.
- Malformed Pandoc input (a `Link` without a `[url, title]` pair) is not modelled. Pandoc never produces it, and the function would raise on it.
