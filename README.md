# A verified model of the LaTeX structure generator and include expander

The repository is a small build pipeline for a book written in LaTeX. Its
scripts do four text-processing jobs, and this project models each of them
in Dafny and proves what they do:

1. **Structure scan** (`scan_ideas_directory`). The ideas directory holds one
   subdirectory per part, and each part holds one `.tex` file per chapter.
   The scan lists the parts and, for each, the chapter names.
   - Parts are the immediate subdirectories, sorted by name.
   - Chapters are the immediate regular files whose suffix is `.tex`, sorted by
     full file name, with `.tex` removed.
   - A part with no chapters is dropped.
   - The directory tree is a `Node` value (`Dir`, `File`, `Special`).
   - Python's code-point order on `str` is the predicate `Text.Less`.
   - `list.sort` is an insertion sort, proved to be a sorted permutation.
   - The scan itself is a method with two nested loops, proved equal to the
     function `Structure.ScanIdeas`.
2. **Structure rendering** (`generate_latex_content`). Each part becomes the
   lines `\part{P}`, then `\chapter{C}` and `\input{ideas/P/C}` for each
   chapter, then an empty line. The lines are joined with `"\n"`. The
   source's append loop is a method proved equal to `Rendering.Render`.
3. **Anchor splice** (`update_latex_structure`). The new section replaces
   what lies between `\tableofcontents` and `\end{document}`. The search
   `(.*?\\tableofcontents\s*\n)(.*?)(\\end\{document\}.*?)` (DOTALL) is an
   explicit scanner, `Splice.MatchFrom`. The predicate `Splice.FirstMatch`
   states declaratively which match the backtracking engine reports:
   - a match is any `\tableofcontents`, a whitespace run ending in a newline,
     and a later `\end{document}`;
   - the engine's try order is `Splice.TriedBefore`;
   - the scanner is proved to return exactly the first match in that order.
   
   The update itself is a method. It checks its guards in the source's order
   and returns the text it would write, or the reason it writes nothing.
4. **Include expansion** (`expand_input`).
   - The scan of `re.sub` over `\\input\{([^}]+)\}` is a split of the text into
     pieces: single characters, and directives.
   - Each directive is replaced by the recursive expansion of the named file,
     resolved against the same base directory, or by a not-found comment.
   - The file system is a `map<string, string>` from paths to file text.
   - `os.path.join` is a function parameter.
   - The recursion is bounded by fuel. `None` stands for the unbounded
     recursion of an include cycle.

`generate_latex.py` repeats the scan, the rendering and the splice line for
line, and `expand_latex.py` repeats the expansion. The copies share one
model, and the table cites whichever copy a property is stated about.

Three behaviours of the code are worth stating outright, because a reader of
the docstrings could expect otherwise:
- The not-found comment carries the normalised name. `.tex` is appended to the
  argument (latex_processor.py:171-172) before the comment is built from it
  (latex_processor.py:184) (`ExpandFacts.MissingInclude`).
- The update is not idempotent. The header group keeps the whitespace run up to
  its last newline (latex_processor.py:117), and the rebuilt text puts one more
  `"\n"` after it (latex_processor.py:127). Every update therefore adds one
  `"\n"` after the header (`SpliceFacts.ResplicingAddsNewline`).
- `re.sub` does not rescan replacement text (latex_processor.py:188,
  expand_latex.py:74-75). The surrounding text and an expansion can therefore
  form a new directive that stays in the result, although the docstrings say
  the result has all `\input{}` commands expanded (latex_processor.py:156,
  expand_latex.py:43) (`ExpandFacts.ExpansionCanFormDirective`).

## Model

| member | source | states |
|---|---|---|
| Text.LessIffFirstDifference | latex_processor.py:39 | The name order used by both sorts holds exactly when the first differing character has the smaller code point, or when the first name is a proper prefix of the second. |
| Text.LessIrreflexive | latex_processor.py:39 | No name sorts before itself. |
| Text.LessAsymmetric | latex_processor.py:39 | Two names are never each before the other. |
| Text.LessTransitive | latex_processor.py:39 | The name order is transitive. |
| Text.LessConnected | latex_processor.py:39 | Any two distinct names are ordered one way or the other, so the sort order is total. |
| Text.LessEqTransitive | latex_processor.py:47 | The non-strict name order is transitive. |
| Text.FindFrom | latex_processor.py:117-118 | Returns the first occurrence of a literal at or after a position. There is no occurrence between that position and the result. `None` means no occurrence at or after the position. |
| Structure.LastDot | latex_processor.py:46 | `rfind('.')`: -1 or an index in the name, and the character there is a dot. |
| Structure.NoDotAfterLastDot | latex_processor.py:46 | No dot follows the one `rfind` finds. |
| Structure.TexSuffixIff | latex_processor.py:46 | `Path.suffix == '.tex'` holds exactly when the name ends in `.tex` and has at least one character before it. |
| Structure.StemOfTexFile | latex_processor.py:50 | The stem of a `.tex` file is non-empty, and the stem followed by `.tex` is the file name. |
| Structure.FilterCounts | latex_processor.py:38 | The list comprehension keeps each entry that passes the test as often as it occurs, and drops every other entry. |
| Structure.FilterMembers | latex_processor.py:46 | An entry is in the filtered list exactly when it is listed and passes the test. |
| Structure.Insert | latex_processor.py:39 | Inserting into a list sorted by name adds exactly one element and keeps the list sorted. |
| Structure.SortByName | latex_processor.py:47 | `list.sort(key=lambda x: x.name)` returns a permutation of its input, sorted by name. |
| Structure.SortedArrangementUnique | latex_processor.py:39 | When names are unique, two name-sorted permutations of the same entries are equal. |
| Structure.ChapterNamesAt | latex_processor.py:49-51 | The chapter list has one name per `.tex` file, and name k is the stem of file k. |
| Structure.CollectChapters | latex_processor.py:43-51 | The inner loop yields the stems of the part's name-sorted `.tex` files (`Chapters`). |
| Structure.ScanIdeasDirectory | latex_processor.py:31-56 | The nested loops compute `ScanIdeas`. A missing root fails with `DirectoryNotFound`, and only a missing root does. The copy at generate_latex.py:33-58 behaves the same. |
| StructureFacts.ScanPartsComeFromDirs | latex_processor.py:41-54 | Every part produced comes from a scanned directory of the same name, carries that directory's chapters, and has at least one chapter. |
| StructureFacts.ScanPartsKeepDirsWithChapters | latex_processor.py:53-54 | Every scanned directory with at least one chapter contributes its part. |
| StructureFacts.ScanPartsSorted | latex_processor.py:41-54 | Scanning directories in name order yields parts in name order. |
| StructureFacts.SortedMembers | latex_processor.py:38-39 | Filtering and then sorting keeps exactly the entries that pass the test. |
| StructureFacts.PartsAreDirectoriesWithChapters | latex_processor.py:38-54 | A scan of an existing directory succeeds. Each part is named after an immediate subdirectory, holds that subdirectory's chapters, and has at least one chapter. |
| StructureFacts.EveryDirectoryWithChaptersIsAPart | latex_processor.py:38-54 | Each immediate subdirectory with a chapter appears as a part, with its chapters. |
| StructureFacts.HasChaptersIff | latex_processor.py:46-53 | A part has chapters exactly when it directly holds a regular file with suffix `.tex`. Nested directories and other files do not count. The copy at generate_latex.py:48 behaves the same. |
| StructureFacts.EntriesWithoutChaptersOmitted | latex_processor.py:53-54 | No part is produced for a file, or for a directory without `.tex` files. |
| StructureFacts.PartsInNameOrder | generate_latex.py:40-41 | Parts come out in ascending name order. |
| StructureFacts.ChaptersAreSortedTexStems | latex_processor.py:46-50 | Chapter k followed by `.tex` is the name of the k-th regular `.tex` file, and those files are in ascending order of their full names. |
| StructureFacts.SortedFilterUnique | latex_processor.py:38-39 | When names are unique, filtering and sorting two listings of the same entries gives the same list. |
| StructureFacts.ChaptersIndependentOfListingOrder | latex_processor.py:46-47 | The chapters do not depend on the order in which `iterdir()` lists the part's files. |
| StructureFacts.ScanIndependentOfListingOrder | latex_processor.py:38-39 | The scan result does not depend on the order in which `iterdir()` lists the ideas directory. |
| StructureFacts.ChapterFileName | latex_processor.py:46-50 | A name `stem + ".tex"` with a non-empty stem is a chapter file, and its stem is `stem`. |
| StructureFacts.TwoPartExample | latex_processor.py:38-54 | In a worked example, a part with chapters listed out of order comes out sorted, and an empty part is dropped. |
| StructureFacts.TwoPartDirs | latex_processor.py:38-54 | Of two part directories listed against name order, one of them without chapters, only the other one's part remains. |
| StructureFacts.TwoChaptersOutOfOrder | latex_processor.py:46-51 | `chap2.tex` and `chap1.tex`, listed in that order, give the chapters `chap1`, `chap2`. |
| StructureFacts.FileOrderIsNotStemOrder | latex_processor.py:46-50 | Chapters are ordered by full file name, and that order can disagree with stem order. `a-b.tex` precedes `a.tex`, yet `a` precedes `a-b`. |
| StructureFacts.TwoChapterStems | latex_processor.py:46-51 | Two chapter files come out in the order of their full names, whatever the listing order. |
| StructureFacts.TwoChapterFiles | latex_processor.py:46-51 | Two chapter files listed against name order come out swapped, as their stems. |
| Rendering.SplitJoin | latex_processor.py:82 | Splitting the joined text at `"\n"` gives back the lines, provided no line holds a newline. |
| Rendering.JoinThenEmptyLine | latex_processor.py:80-82 | Appending the empty line before joining adds exactly one trailing `"\n"`. |
| Rendering.AppendPartLines | latex_processor.py:73-80 | The loop body appends exactly the part's block: its heading, two lines per chapter, and the empty line. |
| Rendering.GenerateLatexContent | latex_processor.py:58-82 | The append loop of `generate_latex_content` computes `Render(parts)`. The copy at generate_latex.py:60-84 behaves the same. |
| RenderingFacts.ChapterLinesAt | latex_processor.py:76-78 | Chapter k contributes line 2k, `\chapter{c}`, directly followed by line 2k+1, `\input{ideas/p/c}`. |
| RenderingFacts.RenderLinesConcat | latex_processor.py:73-80 | The lines of a concatenation of part lists are the lines of the first list followed by those of the second. |
| RenderingFacts.RenderedLineCount | generate_latex.py:74-84 | The list that is joined has, summed over the parts, 2 + 2·(chapter count) lines. |
| RenderingFacts.BlockPosition | generate_latex.py:75-82 | Part i's block sits between the lines of the parts before it and those of the parts after it, so parts keep their input order. |
| RenderingFacts.PartBlockAt | latex_processor.py:73-80 | Part i's block starts at the line count of the parts before it. It holds the part heading, the heading and `\input` of each of its chapters in order, then the empty line. Names are inserted verbatim. The copy at generate_latex.py:75-80 behaves the same. |
| RenderingFacts.PartLinesAt | latex_processor.py:74-80 | One part block, position by position: the heading, then each chapter's heading and `\input`, then `""`. |
| RenderingFacts.RenderEmptyIff | latex_processor.py:70-82 | The rendered section is `""` exactly when there are no parts. |
| RenderingFacts.RenderEndsWithNewline | latex_processor.py:80-82 | A section with at least one part ends in `"\n"`. |
| RenderingFacts.NoNewlineInLines | latex_processor.py:74-80 | When no name holds a newline, no rendered line does. |
| RenderingFacts.RenderSplitsIntoLines | generate_latex.py:74-84 | When no name holds a newline, splitting the section at `"\n"` recovers the rendered lines. There are Σ(2 + 2·chapters) of them. |
| Splice.SpaceRunEnd | latex_processor.py:117 | Greedy `\s*` scans to the end of the longest whitespace run. |
| Splice.LastNewline | latex_processor.py:117 | Returns the last newline in a range, or `None` when the range holds none. |
| Splice.SpaceRunMaximal | latex_processor.py:117 | Every whitespace run starting at the same place ends within the longest run. |
| Splice.HeaderAtMostLongest | latex_processor.py:117 | Every match's header ends no later than the one the scanner picks for the same `\tableofcontents`. |
| Splice.EndDocumentNotSpace | latex_processor.py:117 | `\end{document}` cannot start inside the whitespace run. |
| Splice.HeaderEndIsMatchHeader | latex_processor.py:117 | The scanner's header is whitespace after `\tableofcontents` and ends with a newline. |
| Splice.FooterAfterLongestHeader | latex_processor.py:117 | Every match's `\end{document}` starts no earlier than the longest header for its `\tableofcontents`. |
| Splice.TryTocIsFirst | latex_processor.py:117-118 | The candidate for one `\tableofcontents` is a match, and it is tried before every other match at that position. |
| Splice.NoMatchWithoutHeader | latex_processor.py:117 | A `\tableofcontents` whose following whitespace holds no newline starts no match. |
| Splice.NoMatchWithoutFooter | latex_processor.py:117 | A `\tableofcontents` with no `\end{document}` after its longest header starts no match. |
| Splice.NoMatchAtToc | latex_processor.py:117-118 | When the scanner finds no candidate for a `\tableofcontents`, no match starts there. |
| Splice.FoundIsFirst | latex_processor.py:117-118 | The first candidate the scanner finds is the first match the engine would try. |
| Splice.NoTocLeft | latex_processor.py:117-118 | Without a further `\tableofcontents` there is no match, and the scanner finds none. |
| Splice.SkipToc | latex_processor.py:117-118 | Skipping a `\tableofcontents` without a candidate loses no match. |
| Splice.MatchFromIsFirst | latex_processor.py:117-118 | The scanner returns the first match in the engine's order among those at or after a position, and returns nothing when there is none. |
| Splice.FindContentSection | latex_processor.py:117-122 | `re.search` returns the first match, and returns none exactly when the pattern matches nowhere. |
| Splice.SpliceSection | latex_processor.py:117-127 | The splice is absent exactly when nothing matches. Otherwise its result is the first match's header, `"\n"`, the section, `"\n\n"` and `\end{document}`. The copy at generate_latex.py:137-147 behaves the same. |
| SpliceFacts.FirstMatchUnique | latex_processor.py:118 | At most one match is first, so the reported match is well defined. |
| SpliceFacts.ReassembleParts | latex_processor.py:125-127 | The result starts with the header. After the header come `"\n"`, the section, `"\n\n"` and `\end{document}`, and the result ends with `\end{document}`. |
| SpliceFacts.SpliceKeepsHeader | latex_processor.py:117-127 | On a match, the result keeps the header byte for byte, followed by `"\n" + section + "\n\n" + \end{document}`. The header contains `\tableofcontents` and ends with a newline. The copy at generate_latex.py:137-147 behaves the same. |
| SpliceFacts.SpliceEndsWithEndDocument | latex_processor.py:126-127 | Anything after the matched `\end{document}` is dropped, so the result ends with `\end{document}`. |
| SpliceFacts.FooterIsFirstEndAfterHeader | generate_latex.py:137-147 | The replaced text runs from the end of the header up to the first `\end{document}` after it. |
| SpliceFacts.SpliceAtFirstMatch | latex_processor.py:118-127 | Any first match determines the spliced text. |
| SpliceFacts.FirstMatchByShape | latex_processor.py:117-118 | A match is the first if no match starts at an earlier `\tableofcontents`, a non-whitespace character ends its header, and no `\end{document}` lies between its header and its footer. |
| SpliceFacts.ResplicedHeader | latex_processor.py:117-127 | In the written text, no match starts before the original `\tableofcontents`, and the whitespace after it now extends over the inserted `"\n"`. |
| SpliceFacts.ReassembledFooter | latex_processor.py:126-127 | In the written text, the first `\end{document}` after the header is the one the splice appended. |
| SpliceFacts.ResplicedMatch | latex_processor.py:117-127 | A second splice matches the same `\tableofcontents`, with a header one `"\n"` longer. |
| SpliceFacts.ResplicingAddsNewline | latex_processor.py:117-127 | For any first match, splicing the same section again gives a different text, with one more `"\n"` after the header: the update is not idempotent. The section must start with a non-whitespace character and hold no `\end{document}`. A rendered section does so when no part or chapter name contains `\end{document}`. |
| Processor.UpdateLatexStructure | latex_processor.py:95-134 | The update fails with `TexFileNotFound` exactly when the main file is missing. It fails with `ScanFailed` exactly when the scan raises, `NoContent` exactly when the scan finds no parts, and `SectionNotFound` exactly when the anchors match nowhere. Otherwise it returns the first match's header, `"\n"`, the rendered parts, `"\n\n"` and `\end{document}`. The `main` of generate_latex.py:116-147 makes the same checks and splice, after its own check that the ideas directory exists. |
| Expand.FirstClose | latex_processor.py:187 | Returns the first `}` at or after a position, or `None` when there is none. |
| Expand.MatchLengthIff | latex_processor.py:187 | The scanner's directive at the start of the text is exactly the pattern's match: `\input{`, one or more characters other than `}`, and the first `}`. |
| Expand.PiecesRoundTrip | latex_processor.py:186-188 | The scan loses and reorders nothing: its pieces spell out the text. |
| Expand.PiecesHaveValidNames | latex_processor.py:187 | Every directive found has a non-empty argument without `}`. |
| Expand.DirectiveFoundIff | latex_processor.py:187-188 | The scan finds a directive exactly when the pattern matches somewhere in the text. |
| Expand.PiecesCons | latex_processor.py:187-188 | Where the pattern has no match at the current position, `re.sub` keeps that character, and the scan resumes after it. |
| Expand.PiecesDirective | latex_processor.py:187-188 | A well-formed directive at the start is one piece, and the scan resumes after its `}`. |
| ExpandFacts.ExpandPiecesAppend | expand_latex.py:74-75 | Each piece is replaced independently: expanding concatenated pieces concatenates the expansions. |
| ExpandFacts.CharsExpandToThemselves | expand_latex.py:74-75 | Text outside directives is kept verbatim and in order. |
| ExpandFacts.NoDirectiveUnchanged | expand_latex.py:73-75 | Text in which the pattern matches nowhere is returned unchanged. |
| ExpandFacts.EmptyDirectivePieces | expand_latex.py:74-75 | Wherever `\input{}` stands, the pattern does not match it: its characters are kept one by one, and the scan goes on after it. |
| ExpandFacts.EmptyDirectiveVerbatim | expand_latex.py:74-75 | `\input{}` followed by any text is left as it is, and the text after it expands as it would on its own. |
| ExpandFacts.UnterminatedDirectiveVerbatim | expand_latex.py:74 | An `\input{` never closed by `}` is left as it is. |
| ExpandFacts.SingleDirective | latex_processor.py:158-188 | A text that is exactly one directive expands to that directive's replacement. |
| ExpandFacts.MissingInclude | latex_processor.py:171-184 | A missing file becomes exactly `% File not found: ` followed by the name after `.tex` normalisation. That name ends in `.tex` and is the argument, with `.tex` appended when it was absent. |
| ExpandFacts.TexSuffixOptional | expand_latex.py:57-59 | `\input{a}` and `\input{a.tex}` expand identically. |
| ExpandFacts.IncludedFileIsLocal | expand_latex.py:64-68 | A directive whose file exists, at any position, is replaced by that file's expansion one level deeper. The pieces before and after it expand as they would on their own. |
| ExpandFacts.NestedIncludeUsesBase | expand_latex.py:61-68 | A directive anywhere inside an included file resolves against the original base directory. The included file's expansion is its pieces before the directive, the nested file's expansion, and its pieces after. |
| ExpandFacts.MissingFileIsLocal | expand_latex.py:69-75 | A missing file affects only its own directive: the pieces before and after it expand as they would on their own. |
| ExpandFacts.TextFuelMonotone | expand_latex.py:64-68 | An expansion that completes with some recursion depth gives the same text with any larger depth. |
| ExpandFacts.PiecesFuelMonotone | expand_latex.py:64-68 | The same holds for a sequence of pieces. |
| ExpandFacts.PieceFuelMonotone | expand_latex.py:64-68 | The same holds for one directive. |
| ExpandFacts.TextTerminates | expand_latex.py:68 | With an acyclic include graph, ranked so that ranks decrease along includes, the expansion completes. |
| ExpandFacts.PiecesTerminate | expand_latex.py:68 | Pieces whose included files are ranked below the depth bound expand completely. |
| ExpandFacts.PieceTerminates | expand_latex.py:64-68 | A directive whose file is ranked below the depth bound expands completely. |
| ExpandFacts.SelfIncludeNeverEnds | expand_latex.py:64-75 | A file with a directive anywhere in its text that resolves to the file itself never completes, whatever the depth bound. |
| ExpandFacts.CycleNeverEnds | expand_latex.py:64-75 | No file on an include cycle, direct or through other files, ever completes, whatever the depth bound. The cycle is given as one directive per file that resolves to the next file on it. |
| ExpandFacts.IncludeOfCycleNeverEnds | latex_processor.py:175-188 | A text with a directive that resolves to a file on an include cycle never completes. |
| ExpandFacts.PiecesPlainPrefix | expand_latex.py:74 | Characters other than a backslash are kept one by one. |
| ExpandFacts.ExpandCharPieces | expand_latex.py:74-75 | Kept characters expand to themselves. |
| ExpandFacts.PiecesOfSplitDirective | expand_latex.py:74 | `\inp` followed by `\input{a}` is four characters and one directive. |
| ExpandFacts.ExpansionCanFormDirective | latex_processor.py:188 | Replacement text is not scanned again. `\inp\input{a}`, with `a.tex` holding `ut{x}`, expands to `\input{x}`, a complete directive. |

## Left out

- The `main` functions are left out (latex_processor.py:190-242, generate_latex.py:86-135 and 148-158, expand_latex.py:77-120). This covers argument checks, prints, `os.makedirs`, file writes and exit codes, which are I/O plumbing.
- Real file-system calls are not modelled. The updater receives the main file's text and the ideas tree as values, `None` when the path does not exist. The expander receives a map from paths to file text. Instead of writing the file, the model returns the text that would be written.
- Structure.ScanIdeasDirectory: does not model a part directory, or a root, that exists but cannot be listed, except a root that is not a directory (`NotADirectory`).
- Expand.ExpandPiece: does not model a path that exists but cannot be opened, such as a directory, at latex_processor.py:177-178.
- The progress and warning prints are side channels and are not modelled (latex_processor.py:99, 109, 121, 133, 183).
- Processor.UpdateLatexStructure: models the catch-all handler (latex_processor.py:136-138) only for the scan's failures, as `ScanFailed`. Read and write errors are I/O and are left out.
- Splice.IsSpace: lists the characters `str.isspace` accepts in the current Unicode database: U+0009 to U+000D, U+001C to U+001F, space, U+0085, U+00A0, U+1680, U+2000 to U+200A, U+2028, U+2029, U+202F, U+205F and U+3000. A Python built on another Unicode version could accept a different set.
- Files are read in text mode, which translates newlines. The model takes file text as already read.
- Expand.ExpandText: bounds the recursion with fuel, and `None` stands for Python's `RecursionError`. The interpreter's actual recursion limit is not modelled; `ExpandFacts.TextFuelMonotone` shows that the bound does not change completed results.
- Structure.SortByName: its contract states a sorted permutation, not stability. Stability matters only for equal names, which a directory cannot hold.
- Structure.Node: `is_dir()` and `is_file()` follow symbolic links. The tree shows each entry as what its link resolves to. `Special` stands for anything that is neither a directory nor a regular file.
- Structure.Suffix: follows the `rfind('.')` rule that `Path.suffix` applies to a plain file name. A file named `.tex` therefore has no suffix and is not a chapter. Names that `pathlib` would normalise first (with slashes) cannot occur as directory entries and are not modelled.
- generate_latex.py's `main` checks `src/ideas` before the main file (lines 111-119), so the order of its first two errors differs from latex_processor.py. The model follows latex_processor.py's order.
