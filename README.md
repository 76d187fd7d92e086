# concat, modelled in Dafny

`concat` flattens a project directory into one Markdown overview file. It writes
a `tree`-style listing of the directory, then a summary line with the directory
and file counts. After that comes a "File Contents" section with one block per
admitted file: a header naming the file by its path relative to the root, the
file's bytes, and a closing rule. The bytes are inside a code fence when the
extension has a known language. For a binary file the block holds a
placeholder line, or hex rows with `--include-binaries`.

This project models the part of `cmd/concat/main.go` that decides what goes into
the overview and in what order:

- **Path filters.** `Filters` models the case-insensitive ignore list (`.git`,
  `.vscode`) and the `--include` / `--exclude` patterns. It uses `Glob`, a model
  of `filepath.Match` with `/` as the separator, and `Paths`, a model of
  `Rel`, `Base`, `Dir` and `Ext` on clean absolute paths given as segment
  sequences. `filepath.Join` of a directory and a name is the sequence
  extended by the name; only a relative path is turned into text.
- **Binary sniffing.** `Sniff` models how `isBinary` classifies the first read
  of at most 8000 bytes: binary on a NUL byte or on ill-formed UTF-8. `Utf8`
  models the UTF-8 grammar of section 4 of RFC 3629, which `utf8.Valid`
  implements, together with its encoder.
- **Language labels.** `Lang` models `detectLang`: the lower-cased extension
  looked up in an eight-entry table.
- **The tree.** `TreeRender` models `printTree` as a function. It gives the
  lines written and the directory and file counts added. `Shown` is an
  independent account of the tree: the entries printed are those that are not
  hidden and below which every directory is shown and can be listed, in
  pre-order. It is proved that the lines are those entries' lines and that the
  counts are the numbers of directories and files among them.
- **The contents walk.** `Content` models the callback main hands to
  `filepath.Walk`, the blocks it writes, and the walk itself: pre-order, with
  `SkipDir` pruning and a stop at the first error. `Selection` is an
  independent account of the walk: the entries it reaches, and the callback
  applied to them in turn. It is proved equal to the walk.
- **The writer.** `Overview.Writer` is the imperative side: a class whose
  fields are the output written so far and the two counters `printTree` bumps
  through pointers. Its methods (`PrintTree`, `PrintEntries`, the callback
  `Visit`, `DumpHex` with its 16-byte read loop, the walk, and `Run`) are
  proved to change that state exactly as the functions describe.
  `Overview.Document` describes a whole run from the tree heading on.

The file system is a value. A `Node` is a file (name, bytes, and whether
reading it succeeds, fails at open, or fails during the copy) or a directory
(name, entries in the sorted order `os.ReadDir` and `filepath.Walk` list them,
and whether it can be listed). The output is a sequence of chunks: text
written with `Fprint*`, the raw bytes `dumpText` copies, and one chunk per
16-byte read that `dumpHex` hands to `hex.Dump`.

The model keeps two behaviours of the code that a reader of the help text might
not expect:

- `printTree` applies the exclude patterns relative to the output file's
  directory, while the walk applies them relative to the root. With the
  default output file, which lies in the root, the two agree. With `-o`
  elsewhere the tree can show what the walk leaves out
  (`TreeRender.ExcludeRelativeToOutputDir`).
- The tree's closing connector goes to the last entry of the unfiltered
  listing. When that entry is hidden, the branch is left open
  (`TreeRender.HiddenLastEntryKeepsTee`).

The root itself goes through the callback, with the relative path ".". So
the exclude pattern `*` prunes the whole walk and the run still succeeds
(`Content.StarExcludesEverything`).

## Model

| member | source | states |
|---|---|---|
| Utf8.Valid | cmd/concat/main.go:335 | definition of utf8.Valid: the bytes split into well-formed characters of the RFC 3629 grammar; its meaning is fixed by Utf8.EncodeAllValid and Utf8.ValidIsEncoding |
| Utf8.EncodeAllValid | cmd/concat/main.go:335-337 | the encoding of any sequence of scalar values is well-formed UTF-8 and decodes back to those values |
| Utf8.ValidIsEncoding | cmd/concat/main.go:335-337 | every well-formed sequence decodes to scalar values whose encoding is that sequence, so the grammar accepts exactly the encodings |
| Utf8.EncodeIsOneChar | cmd/concat/main.go:335-337 | the grammar reads the encoding of one scalar value as one character, with that value, whatever follows it |
| Utf8.DecodeHeadEncodes | cmd/concat/main.go:335-337 | a well-formed first character decodes to a scalar value whose encoding is exactly its bytes |
| Utf8.ValidConcat | cmd/concat/main.go:335-337 | two well-formed sequences concatenate to a well-formed one |
| Utf8.AsciiValid | cmd/concat/main.go:335-337 | bytes below 0x80 are well-formed |
| Utf8.ValidAfterAscii | cmd/concat/main.go:335-337 | removing an ASCII prefix keeps a sequence well-formed |
| Utf8.EncodeAllNoNul | cmd/concat/main.go:332-334 | only the value 0 encodes to a NUL byte |
| Sniff.IsBinary | cmd/concat/main.go:318-339 | definition of isBinary on a readable file: the sample holds a NUL or is not well-formed UTF-8; see Sniff.BinaryIff |
| Sniff.Sample | cmd/concat/main.go:325-330 | the read is the whole file when it is at most 8000 bytes, otherwise its first 8000 bytes |
| Sniff.BinaryIff | cmd/concat/main.go:332-338 | a file is binary iff one of its first 8000 bytes is NUL or those bytes are not well-formed UTF-8 |
| Sniff.EmptyIsText | cmd/concat/main.go:326-338 | an empty file is text |
| Sniff.OnlySampleMatters | cmd/concat/main.go:325-330 | two files that agree on their first 8000 bytes are classified alike |
| Sniff.TextIsText | cmd/concat/main.go:332-338 | the encoding of NUL-free scalar values that fits in the buffer is text |
| Sniff.NulIsBinary | cmd/concat/main.go:332-334 | a NUL among the first 8000 bytes makes a file binary, whatever else it holds |
| Sniff.StraddlingCharIsBinary | cmd/concat/main.go:325-337 | a well-formed NUL-free text whose two-byte character straddles byte 8000 is classified binary |
| Sniff.SniffExamples | cmd/concat/main_test.go:22-34 | the bytes 00 FF 10 and a lone FF are binary; "hi" is text |
| Glob.Match | cmd/concat/main.go:295 | definition of filepath.Match with "/" as separator: "*" runs over non-separators, "?" takes one non-separator, a backslash quotes the next character, and a trailing lone backslash never matches |
| Glob.MatchKeepsSlashes | cmd/concat/main.go:309 | a pattern and a path it matches hold the same number of separators |
| Glob.SlashesDiffer | cmd/concat/main.go:309 | a pattern never matches a path with a different number of separators |
| Glob.LiteralMatchesItself | cmd/concat/main.go:295 | a pattern without metacharacters matches exactly itself |
| Glob.StarMatchesOneSegment | cmd/concat/main.go:309 | a lone '*' matches exactly the names without a separator |
| Glob.StarSuffix | cmd/concat/main.go:295 | '*' followed by literal text matches exactly the separator-free names ending in that text |
| Glob.LiteralPrefix | cmd/concat/main.go:309 | a literal prefix shared by pattern and name does not change the outcome |
| Glob.IncludePatternExamples | cmd/concat/main_test.go:68-82 | "*.go" and "*.md" accept keep.go and keep.md and reject skip.txt |
| Glob.ExcludePatternExamples | cmd/concat/main_test.go:69-86 | "vendor/*" matches vendor/junk.go, and "*.go" does not |
| Paths.Join | cmd/concat/main.go:185 | the segments joined by '/', the text filepath.Rel returns for a relative path; absolute paths stay segment sequences, so filepath.Join of a directory and a name is the sequence extended by the name |
| Paths.Rel | cmd/concat/main.go:293 | definition of filepath.Rel: one ".." per base segment below the common prefix, then the rest of the target; see Paths.ResolveRel |
| Paths.BaseName | cmd/concat/main.go:295 | definition of filepath.Base on a relative path: its last segment, or "." for the root |
| Paths.Ext | cmd/concat/main.go:394 | definition of filepath.Ext: the suffix from the last "." of the final element; see Paths.ExtIsLastDotSuffix |
| Paths.Dir | cmd/concat/main.go:247 | the parent is the path without its last segment |
| Paths.RelBelow | cmd/concat/main.go:185 | the path of a descendant relative to an ancestor is the part below the ancestor |
| Paths.ResolveRel | cmd/concat/main.go:293 | following the relative path from the base leads back to the target |
| Paths.JoinEndsWithBase | cmd/concat/main.go:295 | the joined path ends with its base name, which holds no separator, right after a separator |
| Paths.ExtIsLastDotSuffix | cmd/concat/main.go:394 | the extension is the suffix from the last '.' of the final element, or empty when that element has no '.' |
| Paths.ExtOfFinalElement | cmd/concat/main.go:394 | the extension of a path is the extension of its final element |
| Filters.EqualFold | cmd/concat/main.go:282 | definition of strings.EqualFold against an ASCII name: equal lengths and equal folded characters |
| Filters.ShouldIgnore | cmd/concat/main.go:280-287 | definition of shouldIgnore: some default name equals the given one up to case; see Filters.IgnoreIff |
| Filters.ShouldIncludeByGlob | cmd/concat/main.go:289-301 | definition of shouldIncludeByGlob: no patterns, or one matching the base of the relative path; see Filters.IncludeIff |
| Filters.ShouldExcludeByGlob | cmd/concat/main.go:303-315 | definition of shouldExcludeByGlob: some pattern matching the whole relative path; see Filters.ExcludeIff |
| Filters.AnyMatch | cmd/concat/main.go:294-300 | the early-return scan is true iff some pattern matches |
| Filters.IgnoreIff | cmd/concat/main.go:280-287 | a name is ignored iff it equals ".git" or ".vscode" up to case folding |
| Filters.IgnoredExamples | cmd/concat/main_test.go:13-16 | ".git" is ignored, and so are case variants of either name, including one with U+017F |
| Filters.KeptExamples | cmd/concat/main_test.go:17-19 | "main.go", ".github" and "git" are not ignored |
| Filters.NotDotted | cmd/concat/main.go:280-287 | a name not starting with '.' is never ignored |
| Filters.IncludeIff | cmd/concat/main.go:289-301 | no include patterns admit every path; otherwise a path is admitted iff a pattern matches the base of its relative path |
| Filters.ExcludeIff | cmd/concat/main.go:303-315 | a path is excluded iff an exclude pattern matches its whole relative path; none are excluded without patterns |
| Filters.IncludeSeesBaseOnly | cmd/concat/main.go:293-295 | moving a file to another directory below the root never changes whether it is admitted |
| Filters.IncludeTestExamples | cmd/concat/main_test.go:67-82 | with "*.go" and "*.md", keep.go and keep.md are admitted and skip.txt is not |
| Filters.ExcludeTestExamples | cmd/concat/main_test.go:83-86 | with "vendor/*", vendor/junk.go is excluded and keep.go is not |
| Lang.Lower | cmd/concat/main.go:394 | definition of strings.ToLower on ASCII letters, character by character |
| Lang.LangOf | cmd/concat/main.go:395-412 | definition of the switch: eight extensions with their labels, and the empty label otherwise; see Lang.LangTable |
| Lang.DetectLang | cmd/concat/main.go:393-413 | definition of detectLang: the switch applied to the lower-cased extension; see Lang.DetectLangIgnoresCase |
| Lang.LangTable | cmd/concat/main.go:395-412 | an extension gets a label iff it is one of the eight table entries |
| Lang.ExtOfLower | cmd/concat/main.go:394 | lowering and taking the extension commute |
| Lang.DetectLangIgnoresCase | cmd/concat/main.go:394 | names that agree once lower-cased get the same label |
| Lang.ExtExample | cmd/concat/main.go:394 | the extension of stem.ext is ".ext" |
| Lang.NoDot | cmd/concat/main.go:394 | a name without '.' has no extension |
| Lang.DetectLangTestTable | cmd/concat/main_test.go:158-176 | each of the nine names of the detectLang test gets the label the test expects, from go to the empty label of unknown.xyz |
| Lang.LowerExtLabel | cmd/concat/main.go:393-413 | a name ending in a lower-case final extension gets that extension's table label, whatever comes before it |
| Lang.DetectLangEdgeCases | cmd/concat/main.go:393-413 | MAIN.GO is go, only the last extension counts, ".go" alone is go, and Makefile gets no label |
| TreeRender.HiddenInTree | cmd/concat/main.go:238-249 | definition of the three early returns of printTree: the output file, an ignored name without --all, and an exclude match relative to the output's directory |
| TreeRender.Render | cmd/concat/main.go:233-277 | a hidden entry writes nothing; a shown one writes first its prefix, connector and name; the lines number the directories plus the files counted, and a file counts once; Shown.RenderIsShown says which entries and counts these are |
| TreeRender.RenderFrom | cmd/concat/main.go:263-272 | the loop's lines number the directories plus the files it counts |
| Shown.LinesOfIndex | cmd/concat/main.go:254 | line k is the prefix, connector and name of the k-th printed entry |
| Shown.Files | cmd/concat/main.go:256-273 | every printed entry counts once, as a directory or as a file |
| Shown.RenderIsShown | cmd/concat/main.go:233-277 | printTree on an entry writes exactly the lines of the entries it prints, in pre-order, and adds one directory per printed directory and one file per printed file |
| Shown.RenderFromIsShown | cmd/concat/main.go:263-272 | the loop over a listing writes the lines of the entries it prints and adds exactly their directory and file counts |
| Shown.ShownIff | cmd/concat/main.go:238-271 | an entry is printed iff it lies below the start, is not hidden, and every directory above it is shown and can be listed |
| TreeRender.RenderPrefixes | cmd/concat/main.go:251-271 | every line of an entry starts with its prefix, and every line below its own with the prefix its children get |
| TreeRender.RenderFromPrefixes | cmd/concat/main.go:263-272 | every line the loop writes starts with the prefix |
| TreeRender.RenderIgnoresIncludes | cmd/concat/main.go:233-277 | the include patterns and --include-binaries never change the tree |
| TreeRender.EntryConnector | cmd/concat/main.go:263-264 | a shown entry gets the closing connector iff it is last in the unfiltered listing |
| TreeRender.RenderExample | cmd/concat/main.go:251-275 | a.txt then b_dir holding c.txt give three lines, one directory and two files |
| TreeRender.HiddenLastEntryKeepsTee | cmd/concat/main.go:241-264 | when the last entry is hidden, the entry before it keeps the open connector |
| TreeRender.GitHidden | cmd/concat/main.go:241-246 | without --all, ".git" is left out of the tree |
| TreeRender.ShownPlain | cmd/concat/main.go:238-249 | with no patterns and the output elsewhere, a name not starting with '.' is shown |
| TreeRender.ExcludeRelativeToOutputDir | cmd/concat/main.go:247-249 | with -o outside the root, "vendor" no longer hides the root's vendor directory from the tree, but the walk still excludes it |
| TreeRender.ExcludeAgreesForDefaultOutput | cmd/concat/main.go:247-249 | with the output file in the root, the tree applies the exclude patterns to the root-relative path |
| Content.Header | cmd/concat/main.go:194 | definition of the header line naming a file by its relative path |
| Content.OpenFence | cmd/concat/main.go:207 | definition of the opening fence with the language label |
| Content.HexChunks | cmd/concat/main.go:361-375 | definition of the rows of dumpHex: 16-byte slices in order, the last one shorter; see Content.HexChunksSplit |
| Content.HexChunksSplit | cmd/concat/main.go:361-375 | the rows hold the file's bytes in order; each row holds 1 to 16 bytes, every row but the last exactly 16, and there are |data|/16 rows rounded up |
| Content.FileBody | cmd/concat/main.go:196-216 | the body of a block never returns SkipDir |
| Content.FileBlock | cmd/concat/main.go:188-218 | a file's block never returns SkipDir |
| Content.Visit | cmd/concat/main.go:164-222 | a directory gets no output; only a directory is pruned; a directory that cannot be listed stops the walk |
| Content.WalkNode | cmd/concat/main.go:164-222 | only a directory's walk returns SkipDir |
| Content.WalkFrom | cmd/concat/main.go:164-222 | the walk of a listing never returns SkipDir: a pruned directory only skips itself |
| Content.Walk | cmd/concat/main.go:164-227 | SkipDir never escapes the walk |
| Content.BinaryBlock | cmd/concat/main.go:196-201 | with --include-binaries a binary file's block is header, hex rows, rule, and its hex rows hold exactly the file's bytes |
| Content.SkippedBinaryBlock | cmd/concat/main.go:202-204 | without the flag a binary file's block is header, placeholder, rule |
| Content.TextBlock | cmd/concat/main.go:205-218 | a text file's bytes are copied unchanged, fenced exactly when the extension has a label |
| Content.FailedCopy | cmd/concat/main.go:209-212 | a failing text copy stops the walk after the header and the opening fence, without a rule |
| Content.BlockFrame | cmd/concat/main.go:188-218 | a block starts with the header, ends with the rule iff the walk goes on, and stops the walk iff the copy fails on bytes that are copied |
| Content.OutputFileSkipped | cmd/concat/main.go:168-170 | the output file, given as an absolute path, is never copied and the walk goes on past it |
| Content.IgnoredEntries | cmd/concat/main.go:171-176 | without --all an ignored directory is pruned and an ignored file skipped; with --all the ignore list plays no part |
| Content.FileEmitsIff | cmd/concat/main.go:168-219 | a file gets a block iff it passes the output check, the ignore list and the exclude patterns, is admitted by the include patterns, and can be opened |
| Content.PrunedIff | cmd/concat/main.go:171-182 | a directory is pruned iff it is listable, is not the output file, and an ignore name or exclude pattern rejects it |
| Content.AbortIff | cmd/concat/main.go:165-212 | the callback fails exactly on an unlistable directory and on an admitted file whose copy fails |
| Content.StarExcludesEverything | cmd/concat/main.go:177-182 | the exclude pattern "*" prunes the root, so the walk writes nothing and succeeds |
| Content.WalkExample | cmd/concat/main.go:164-222 | in a project holding .git and main.go, .git is pruned and main.go is copied in a go fence |
| Content.ExampleGit | cmd/concat/main.go:171-174 | .git is pruned without being entered |
| Content.ExampleMain | cmd/concat/main.go:183-218 | main.go becomes header, go fence, bytes, closing fence, rule |
| Content.BinaryExamples | cmd/concat/main.go:196-204 | the test's binary bytes give a placeholder by default and one hex row with the flag |
| Selection.Reached | cmd/concat/main.go:164 | the walk from an entry visits that entry first |
| Selection.Sequence | cmd/concat/main.go:164-222 | calling back in turn never yields SkipDir |
| Selection.SequenceConcat | cmd/concat/main.go:164-222 | calling back over two lists is calling back over the first and, unless it failed, then the second |
| Selection.WalkNodeIsSequence | cmd/concat/main.go:164-222 | one entry's walk writes what the callback writes on the entries reached from it, and fails iff that fails |
| Selection.WalkFromIsSequence | cmd/concat/main.go:164-222 | a directory's loop is the callback in turn over the entries reached from its listing |
| Selection.WalkIsSequence | cmd/concat/main.go:164-222 | the walk is the callback applied in pre-order to the reached entries, stopping at the first failure |
| Selection.SequenceAbortIff | cmd/concat/main.go:164-227 | calling back in turn fails iff the callback fails on some entry |
| Selection.WalkAbortIff | cmd/concat/main.go:164-227 | the walk fails iff the callback fails on some reached entry |
| Selection.ReachedFromMember | cmd/concat/main.go:164-222 | an entry is reached from a listing iff it is reached from one of its entries |
| Selection.ReachedIff | cmd/concat/main.go:171-182 | an entry is reached iff it lies below the start along a path whose every directory is listed and let through |
| Decimal.Show | cmd/concat/main.go:160 | a count is written as digits, with a leading '0' only for zero and one digit exactly below ten |
| Decimal.ValueShow | cmd/concat/main.go:160 | reading the digits back gives the count |
| Decimal.ShowInjective | cmd/concat/main.go:160 | different counts are written differently |
| Decimal.ShowExamples | cmd/concat/main.go:160 | 0, 7, 42 and 100 are written as expected |
| Overview.LinesConcat | cmd/concat/main.go:255 | writing two lists of lines one after the other is writing their concatenation |
| Overview.TreeSection | cmd/concat/main.go:144-160 | definition of the tree section: the heading and the root marker, then, for a listable root, the tree lines and the summary with the counts |
| Overview.Document | cmd/concat/main.go:144-227 | definition of a run: the tree section, then, if the root is listable, the contents heading and the walk's output; see Overview.DocumentContents |
| Overview.TreeSectionShown | cmd/concat/main.go:144-160 | the tree section lists the lines of the printed entries, and its summary line gives the numbers of printed directories and printed files |
| Overview.DocumentContents | cmd/concat/main.go:144-227 | after the tree and the contents heading, the overview holds the callback's output for the reached entries in pre-order up to the first failure, and the run fails iff that sequence does |
| Overview.DocumentOkIff | cmd/concat/main.go:148-227 | a run succeeds iff the root can be listed and the callback fails on no reached entry |
| Overview.DocumentStartsWithTree | cmd/concat/main.go:144-163 | the overview always starts with the tree section |
| Overview.Writer.PrintTree | cmd/concat/main.go:233-277 | appends exactly the entry's rendered lines and adds the rendered counts to the counters |
| Overview.Writer.PrintShown | cmd/concat/main.go:251-275 | for a shown entry, appends its line and its entries' lines and bumps the counters as rendered |
| Overview.Writer.PrintEntries | cmd/concat/main.go:263-272 | the loop over a listing appends the rendered lines of all entries and adds their counts |
| Overview.Writer.DumpHex | cmd/concat/main.go:354-377 | the read loop appends exactly the 16-byte rows of the file |
| Overview.Writer.Visit | cmd/concat/main.go:164-222 | the callback appends exactly the output of the callback's specification and returns its signal |
| Overview.Writer.CopyFile | cmd/concat/main.go:188-218 | appends exactly the file's block and returns its signal |
| Overview.Writer.CopyBinary | cmd/concat/main.go:196-204 | appends the hex rows or the placeholder, or fails on a failing copy, as the block's body says |
| Overview.Writer.CopyText | cmd/concat/main.go:205-216 | appends the optional fence, the bytes and the closing fence, or stops after the fence on a failing copy |
| Overview.Writer.WalkNode | cmd/concat/main.go:164-222 | the walk of one entry appends exactly what the walk function writes and returns its signal |
| Overview.Writer.WalkEntries | cmd/concat/main.go:164-222 | the loop over a listing from an index on appends what the walk function writes for it |
| Overview.Writer.Walk | cmd/concat/main.go:164-227 | the whole walk appends exactly the walk's output, with the root's SkipDir turned into success |
| Overview.Writer.PrintDirectoryTree | cmd/concat/main.go:144-160 | appends the headings, the tree lines and the summary with the counts, or stops after the root marker when the root cannot be listed; leaves the counters at the tree's counts, or at zero |
| Overview.Writer.Run | cmd/concat/main.go:144-227 | appends exactly the overview, reports success exactly as the run does, and leaves the counters at the tree's counts |
| Overview.HexChunksStep | cmd/concat/main.go:364-375 | one read takes the next row of at most 16 bytes off the rest of the file |

## Left out

- Flag parsing, the help text and `--version` (main.go:68-123): they only fill in the configuration, which the model takes as a value.
- `--goal`, `--with-context` and `runAndWrite`: they write fixed text and the output of external commands before the tree.
- `filepath.Abs`, `os.Create` of the output file, closing it, and messages printed to standard output.
- A relative `-o` (the form the help text's examples use) is not modelled: the output path is a clean absolute path. The walk and printTree only see absolute paths, so with a relative `-o` the checks `path == outputFile` (main.go:168, main.go:238) never hold. The overview then lists itself in the tree and the walk copies it into its own contents. In printTree, `filepath.Dir(outputFile)` is "." and `filepath.Rel` fails, leaving "" (main.go:307), so no exclude pattern applies in the tree unless it matches "". `Content.OutputFileSkipped` and `TreeRender.HiddenInTree` hold only for an absolute `-o`.
- `--verbose` logging: it writes only to standard output.
- Symbolic links and `os.Stat` / `os.Lstat` failures: every entry is a plain file or directory whose metadata can be read.
- Separators other than `/`: Windows paths are out of scope.
- `Glob.Match`: does not model character classes (`[...]`), which no pattern of the program's tests uses. It treats a pattern ending in a lone `\` as a non-match, as the filters do when `filepath.Match` reports the error.
- `Glob.Match`: matches names as Unicode characters, while `filepath.Match` lets a `*` give back one byte at a time. A `*` followed by `?` can then take part of a multi-byte character: `filepath.Match("*??.txt", "€.txt")` is true, the model's `Match` is false. Names that are not valid UTF-8 are not modelled.
- `Filters.EqualFold`: folds only the characters whose case orbit holds an ASCII letter (A-Z, U+017F, U+212A). This is exact for `strings.EqualFold` against the ASCII ignore names.
- `Lang.Lower`: lowers ASCII letters only. `strings.ToLower` gives the same labels, because no non-ASCII character lowers to an ASCII letter of the table.
- `Content.FileBody`: on a failing copy it keeps no partial output. `io.Copy` may write part of a text file, and `dumpHex` drops the rows still in its buffer, before the error.
- `hex.Dump` formatting: the model keeps one chunk per 16-byte read, with its bytes, not the offset, hex and ASCII columns.
- The file's length as a stream: a read that returns fewer bytes than asked before the end of the file is not modelled. Every read fills its buffer or reaches the end.
