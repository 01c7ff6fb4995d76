# cloudide-plugin-packager, modelled in Dafny

This project models the core of the CodeArts IDE plugin packager. The packager
is a command-line tool that packs an extension into a `.cloudide`/`.carts`
archive, migrates a VS Code manifest, and publishes a package to the
marketplace. The model covers these parts:

- **Rule matching** (`fileMatch`). A glob-like include/exclude rule is turned
  into an anchored regular expression by a fixed chain of textual rewrites:
  strip a leading `!`, turn the first lone `*` into `[^/]*?`, turn the first
  `**/` into `([^/]+/)*`, expand `{a,b}` groups into alternations, then escape
  `.` and `/`. The result is a predicate on paths. A negated rule answers the
  opposite. The model gives the regex text, how the engine reads that text
  (for the subset of patterns it covers), the language it accepts, and when
  the RegExp constructor throws because a `*` has nothing to repeat.
- **Ignore lists** (`readVscodeignore`, `getPackageFiles`). Lines of
  `.vscodeignore` are trimmed, and blank lines and comments are dropped. A
  folder rule also gets a `/**` copy. Then the list splits into ignore and
  negate entries and is merged with the command line and `pack-config.json`.
- **Upload plan** (`uploadStream`) and **manifest key check**
  (`checkManifest`). A file over 100 MiB goes up in 20 MiB chunks: first
  chunk 1, then the rest with the task id of the first reply, and the last
  chunk asks for the merge.
- **The `Packing` class**. This covers the file walk, the production
  check-list match, the removal of explicitly included files from the default
  ignore list, the warning for necessary files, the exclusion filter and the
  archive name.
- **The `pack` command**. This covers the rule screening (`checkRules`), the
  per-rule match tally (`getMatchFiles`), the recursive file listing and the
  early exits before a `Packing` is started, including the rejection when a
  rule cannot be compiled.
- **Detection**. The necessary-files, package-validity and field-length
  checks run in blocking and non-blocking modes. A field's length counts every
  UTF-16 code unit above 0xFF as two.
- **Migration** (`migrateConfig`, `validVersion`). The pack script is added.
  The engines are retargeted to CodeArts when the VS Code engine version
  compares at most `1.69.0` under numeric collation.
- **Publishing**. This covers the status check, the poll loop (at most 20
  requests), the classification of errors into console messages, and the loop
  over package paths.
- **Reading a package back** (`readZip`, `readCARTSPackage`).

The I/O is not modelled. File contents, directory listings, server replies,
prompts and JSON parsing are parameters of the model.

## Model

| member | source | states |
|---|---|---|
| Js.Trim | src/common/util.ts:297 | the result is a slice of the input, with only whitespace cut at either end and no whitespace left at either end |
| Js.IndexOf | src/common/file-matcher.ts:14 | the first occurrence at or after `from`, or -1 exactly when there is none |
| Js.ToLowerFolds | src/common/zip.ts:32 | lowering leaves no ASCII capital, a second pass changes nothing, every other character is kept, and a text is unchanged iff it has no capital |
| Js.ToLowerAppend | src/common/packing.ts:70 | lowering distributes over concatenation |
| Js.Split | src/common/util.ts:296 | at least one piece, and no piece contains a separator |
| Js.SplitCount | src/common/file-matcher.ts:21 | the number of pieces is one more than the number of separators |
| Js.SplitJoin | src/common/file-matcher.ts:21 | joining the pieces of a split with the separator gives back the text |
| Js.SplitJoined | src/common/file-matcher.ts:21 | splitting pieces joined by a separator gives back the pieces |
| Js.FilterMembers | src/common/util.ts:298-299 | an element is kept iff it is in the input and passes the test |
| Js.FilterMultiset | src/common/util.ts:298-299 | filtering keeps every passing element with its multiplicity and drops the rest |
| Js.FirstIndex | src/common/packing.ts:92-93 | -1 iff the element is absent; otherwise the index of its first occurrence |
| FileMatcher.FindLoneStar | src/common/file-matcher.ts:18 | finds the first `*` followed by neither `/` nor `*`, or -1 when there is none |
| FileMatcher.ReplaceLoneStar | src/common/file-matcher.ts:18 | only the first lone star is replaced by the lazy non-slash run; without one the rule is unchanged |
| FileMatcher.ReplaceGlobstar | src/common/file-matcher.ts:19 | only the first `**/` is replaced by the segment-chain fragment; without one the rule is unchanged |
| FileMatcher.CloseBrace | src/common/file-matcher.ts:20 | the first `}` at or after the given index, or the end |
| FileMatcher.TrimPieces | src/common/file-matcher.ts:25 | a brace alternative is trimmed only of whitespace, and none is left at either end |
| FileMatcher.BraceItems | src/common/file-matcher.ts:21 | a brace group yields one alternative more than it has commas; no alternative holds a comma, and each is trimmed of whitespace at both ends |
| FileMatcher.Compile | src/common/file-matcher.ts:35 | the regex source is anchored: it starts with `(^` and ends with `$)` |
| FileMatcher.NothingToRepeatUnread | src/common/file-matcher.ts:43-44 | a text with a `*` that has nothing to repeat is never read as a pattern of the modelled subset |
| FileMatcher.Compilation | src/common/file-matcher.ts:11-44 | the rule either compiles to the matcher `FileMatch` gives, or the RegExp constructor throws exactly when a `*` has nothing to repeat, or the text is outside the modelled subset |
| FileMatcherProps.MatchesLitsPrefix | src/common/file-matcher.ts:33-35 | a pattern that starts with literal text matches a path iff the path starts with that text and the rest matches |
| FileMatcherProps.LitsExact | src/common/file-matcher.ts:35 | an anchored literal pattern matches only its own text |
| FileMatcherProps.SlashFreeMatchesNoSlash | src/common/file-matcher.ts:18 | a pattern built from slash-free atoms never matches a path containing `/` |
| FileMatcherProps.SegmentsLang | src/common/file-matcher.ts:19 | `([^/]+/)*` matches exactly the chains of non-empty segments, each ending in `/` |
| FileMatcherProps.RunLang | src/common/file-matcher.ts:18 | `[^/]*?` matches exactly the slash-free texts |
| FileMatcherProps.RepLang | src/common/file-matcher.ts:33 | an escaped character followed by a leftover `*` matches exactly the runs of that character |
| FileMatcherProps.ChoiceLang | src/common/file-matcher.ts:20-32 | an alternation matches iff one of its alternatives matches |
| FileMatcherProps.ConcatLang | src/common/file-matcher.ts:16-35 | the language of two patterns in sequence is the concatenation of their languages (both directions) |
| FileMatcherProps.ExpandBracesCopies | src/common/file-matcher.ts:20 | brace expansion copies every piece before the next `{` unchanged |
| FileMatcherProps.ExpandBracesNoBrace | src/common/file-matcher.ts:20 | a rule without `{` is left unchanged by brace expansion |
| FileMatcherProps.ExpandOneGroup | src/common/file-matcher.ts:20-32 | a final `{...}` group becomes one alternation of its trimmed, comma-separated items |
| FileMatcherProps.BraceItemsOf | src/common/file-matcher.ts:21-25 | the comma-joined alternatives split and trim back into exactly those alternatives |
| FileMatcherProps.RenderPlain | src/common/file-matcher.ts:33 | plain text renders as itself with `.` and `/` escaped |
| FileMatcherProps.ToRegexPlainPrefix | src/common/file-matcher.ts:33-35 | escaped plain text is read as literal atoms in front of the rest of the pattern |
| FileMatcherProps.RewritePlain | src/common/file-matcher.ts:16-33 | the rewrite chain leaves a rule without special characters unchanged |
| FileMatcherProps.PlainRuleMatchesItself | src/common/file-matcher.ts:11-55 | a rule without special characters compiles to its escaped, anchored text and accepts exactly the path equal to it |
| FileMatcherProps.NegationInverts | src/common/file-matcher.ts:14-17 | a `!` rule compiles to the same pattern as the rule without it, and accepts exactly the paths the positive rule rejects |
| FileMatcherProps.EmptyRule | tests/match.test.ts:5-9 | the empty rule compiles to `(^$)` and accepts the empty path and nothing else, so it rejects `test.ts` |
| FileMatcherProps.LoneStarStep | src/common/file-matcher.ts:18 | in `**/*`, the lone star the first rewrite finds is the one after the slash |
| FileMatcherProps.GlobstarStep | src/common/file-matcher.ts:19 | the second rewrite then turns the `**/` into the segment-chain fragment |
| FileMatcherProps.GlobChain | src/common/file-matcher.ts:18-19 | the two star rewrites turn `pre**/*t` into `pre`, a segment chain, a lazy run, then `t` |
| FileMatcherProps.GlobRuleCompiles | src/common/file-matcher.ts:11-44 | a rule `pre**/*w` with plain `pre` and `w` compiles to literal `pre`, a directory chain, a slash-free name and literal `w` |
| FileMatcherProps.GlobLang | src/common/file-matcher.ts:11-44 | that pattern matches exactly the paths `pre` + directories + slash-free name + `w` |
| FileMatcherProps.GlobRuleAccepts | src/common/file-matcher.ts:11-55 | a rule `pre**/*w` accepts exactly the paths `pre` + directories + slash-free name + `w` |
| FileMatcherProps.GlobPathEnds | src/common/file-matcher.ts:11-55 | every path such a rule accepts starts with `pre` and ends with `w` |
| FileMatcherProps.GlobTsAccepts | tests/match.test.ts:13-16 | `**/*.ts` accepts `test.ts` and `test/index.test.ts` |
| FileMatcherProps.GlobTsRejects | tests/match.test.ts:17 | `**/*.ts` rejects `src/img.png` |
| FileMatcherProps.NegatedGlobAccepts | tests/match.test.ts:28-35 | `!src/**/*` accepts exactly the paths that are not `src/` + directories + a slash-free name |
| FileMatcherProps.NegatedGlobKeeps | tests/match.test.ts:30-31 | `!src/**/*` accepts `dist/index.js`, `dist/src/index.js` and `.gitignore` |
| FileMatcherProps.NegatedGlobDrops | tests/match.test.ts:32-33 | `!src/**/*` rejects `src/index.ts` and `src/img.png` |
| FileMatcherProps.BraceRuleCompiles | src/common/file-matcher.ts:11-44 | `pre**/*w{e1,...,en}` compiles to the glob pattern followed by one alternation of the literal alternatives |
| FileMatcherProps.SuffixChoice | src/common/file-matcher.ts:20-33 | literal `w` then the alternation matches exactly `w` followed by one alternative |
| FileMatcherProps.BraceLang | src/common/file-matcher.ts:11-44 | the brace pattern matches exactly `pre` + directories + slash-free name + `w` + one alternative |
| FileMatcherProps.BraceRuleAccepts | src/common/file-matcher.ts:11-55 | the brace rule accepts exactly `pre` + directories + slash-free name + `w` + one alternative |
| FileMatcherProps.BracePathStarts | src/common/file-matcher.ts:11-55 | every path the brace rule accepts starts with `pre` |
| FileMatcherProps.ImageRuleAccepts | tests/match.test.ts:24-25 | `src/**/*.{png,jgp,gif}` accepts `src/img.png` and `src/imgs/demo.gif` |
| FileMatcherProps.ImageRuleRejects | tests/match.test.ts:22-23 | `src/**/*.{png,jgp,gif}` rejects `test.ts` and `test/index.test.ts` |
| FileMatcherProps.TwoStarCompiles | src/common/file-matcher.ts:18 | in `*w.*` only the first star becomes a run; the second quantifies the escaped character before it |
| FileMatcherProps.LeadingStarCompiles | src/common/file-matcher.ts:18-44 | `*w` with plain `w` compiles to a slash-free run followed by literal `w` |
| FileMatcherProps.DoubleStarHead | src/common/file-matcher.ts:18 | in a rule starting with `**` not followed by `/`, the lone-star rewrite keeps the first `*` |
| FileMatcherProps.StarHeadKept | src/common/file-matcher.ts:19-32 | the globstar rewrite and the brace expansion keep that leading `*` |
| FileMatcherProps.LeadingDoubleStarThrows | src/common/file-matcher.ts:16-44 | a rule, negated or not, starting with `**` not followed by `/` makes the RegExp constructor throw, and accepts no path in the model |
| FileMatcherProps.SecondGlobstarThrows | src/common/file-matcher.ts:19-44 | only the first `**/` is rewritten, so in `a/**/b/**/c` the second one throws |
| FileMatcherProps.SyntaxErrorExamples | src/common/file-matcher.ts:16-44 | `**`, `**.js` and `a/**/b/**/c` make the RegExp constructor throw |
| FileMatcherProps.SecondStarQuantifies | src/common/file-matcher.ts:18-33 | so `*.min.*` accepts `app.min..` and rejects `app.min.js` |
| IgnoreRules.KeptLines | src/common/util.ts:294-300 | every kept line is non-blank and not a comment, and no line is added |
| IgnoreRules.SegmentStart | src/common/util.ts:305 | the start of the last path segment: no `/` after it, and a `/` just before it unless it is 0 |
| IgnoreRules.FolderCopy | src/common/util.ts:305 | the copy extends the rule and ends with `/**` |
| IgnoreRules.Partition | src/common/util.ts:309-314 | every entry lands in exactly one of the two lists |
| IgnoreRulesProps.KeptLinesMembers | src/common/util.ts:294-300 | a line is kept iff it is the trim of some piece and is neither blank nor a comment |
| IgnoreRulesProps.ParsedRule | src/common/util.ts:294-300 | every parsed rule is non-blank, not a comment, trimmed and free of line breaks |
| IgnoreRulesProps.EmptyFileNoRules | src/common/util.ts:289-291 | an empty or missing (`ENOENT`) file gives no rules |
| IgnoreRulesProps.ReadErrorRejects | src/common/util.ts:289-291 | any other read error rejects with its code |
| IgnoreRulesProps.LastSegmentMatchesRegex | src/common/util.ts:305 | the star test on the last segment agrees with the regex `(^\|/)[^/]*\*[^/]*$` |
| IgnoreRulesProps.FolderCopyHasStar | src/common/util.ts:305 | every `/**` copy has a star in its last segment |
| IgnoreRulesProps.CopiesOfCopies | src/common/util.ts:303-306 | the copies need no copies: expansion is not repeated |
| IgnoreRulesProps.CopiesMembers | src/common/util.ts:305 | a copy exists exactly for each rule without a star in its last segment |
| IgnoreRulesProps.ExpandShape | src/common/util.ts:303-306 | the expanded list starts with the original rules and is at most twice as long |
| IgnoreRulesProps.FolderCopyExamples | src/common/util.ts:305 | `dist/` gets `dist/**` and `out` gets `out/**` |
| IgnoreRulesProps.PartitionIsFilter | src/common/util.ts:309-314 | the split is two order-preserving filters: the non-negations, and the negations with `!` dropped |
| IgnoreRulesProps.KeptMembers | src/common/util.ts:311 | an entry is in the ignore list iff it is an entry that is not a negation |
| IgnoreRulesProps.NegationOfTrimmed | src/common/util.ts:311 | for a trimmed entry, the negation test `^\s*!` is just a leading `!` |
| IgnoreRulesProps.NegationsMembers | src/common/util.ts:311 | every negation reaches the negate list without its first character |
| IgnoreRulesProps.NegatedLineReachesNegate | src/common/util.ts:303-314 | a `!r` line puts `r` and its folder copy's tail in the negate list |
| IgnoreRulesProps.PackageFilesMerge | src/common/util.ts:253-283 | the exclude list is the command line, then the configuration's list, then the ignore entries; the include list likewise with the negations |
| IgnoreRulesProps.ConfigListMerge | src/common/util.ts:265-266 | a configuration list is appended to the command-line list |
| IgnoreRulesProps.EmptyConfigListIgnored | src/common/util.ts:265-266 | an empty or absent configuration list leaves the command-line list unchanged |
| IgnoreRulesProps.PackageFilesReadError | src/common/util.ts:276 | an ignore-file read error other than `ENOENT` rejects `getPackageFiles` |
| Upload.Plan | src/common/util.ts:21-74 | every upload sends at least one form; a large file sends `ChunkCount` forms; form `k` is chunk `k + 1` of the total; only the forms after the first carry the task id |
| Upload.UploadFileName | src/common/util.ts:18 | the name starts with the lowercased publisher and ends with `.carts` |
| Upload.UploadStream | src/common/util.ts:15-75 | the forms sent are the plan for the first reply's task id, progress runs 1 to the chunk count, and the result is the last reply |
| Upload.CheckManifest | src/common/util.ts:77-87 | passes iff no required key is missing; otherwise reports the first missing key in the fixed order |
| UploadProps.CeilBounds | src/common/util.ts:22 | the chunk count is the ceiling of size / 20 MiB |
| UploadProps.LargeFileChunks | src/common/util.ts:21-22 | a file over 100 MiB needs at least six chunks |
| UploadProps.PlanIndices | src/common/util.ts:29-38 | chunk k is sent as index k + 1 of `totalChunkNum`, which equals the number of forms sent |
| UploadProps.PlanMergeLast | src/common/util.ts:37-52 | only the last form asks for the merge |
| UploadProps.PlanTaskId | src/common/util.ts:28-44 | every form after the first carries the first reply's task id; the first carries none |
| UploadProps.PlanCovers | src/common/util.ts:29-50 | the chunks tile the file: they start at k × 20 MiB, each ends just before the next starts, and the last reads to the end of the file |
| UploadProps.PlanChunkSize | src/common/util.ts:30-35 | each chunk but the last holds exactly 20 MiB |
| UploadProps.SmallFilePlan | src/common/util.ts:131-149 | a file of at most 100 MiB goes up whole, as chunk 1 of 1 with `parentFileSize` 10 |
| UploadProps.PlanExample | src/common/util.ts:21-50 | a 101 MiB file goes up in six chunks, the last starting at 100 MiB |
| Selection.Temps | src/commands/pack.ts:63 | one counter per rule, and counter `k` is the number of hits of rule `k` |
| SelectionProps.HitsMembers | src/commands/pack.ts:64-72 | a file is among the matches iff it is listed and some rule accepts it |
| SelectionProps.HitsMultiplicity | src/commands/pack.ts:64-72 | each file is pushed once per listing and per rule that accepts it |
| SelectionProps.TempsSum | src/commands/pack.ts:63-72 | the counters add up to the number of matches |
| SelectionProps.RuleHitsZero | src/commands/pack.ts:73-77 | a counter is zero iff its rule accepts no file |
| SelectionProps.RowNonEmpty | src/commands/pack.ts:65-70 | a file contributes a match iff some rule accepts it |
| FileTree.FindFile | src/commands/pack.ts:84-98 | the recursive listing appends the clean walk of the folder to what was collected |
| FileTree.GetAllFiles | src/commands/pack.ts:82-101 | the listing is the clean walk of the root |
| FileTreeProps.AllPathsUnder | src/commands/pack.ts:87 | every listed path lies below the folder walked |
| FileTreeProps.WalkIsCleanListing | src/commands/pack.ts:89-91 | the walk lists exactly the files with no `node_modules` or `.git` component |
| FileTreeProps.WalkMembers | src/commands/pack.ts:82-101 | from the root, the listing holds exactly the files that are not under `node_modules` or `.git` |
| FileTreeProps.WalkExample | src/commands/pack.ts:89-91 | a `node_modules` folder is skipped with its contents |
| Packing.RemoveFirst | src/common/packing.ts:92-93 | removes one element when present, otherwise nothing |
| Packing.ZipPath | src/common/packing.ts:74 | the archive lies in the plugin root and ends with `.cloudide` |
| Packing.Packing.constructor | src/common/packing.ts:27-33 | the fields are set from the arguments and the file list is the clean walk of the root |
| Packing.Packing.GetAllFiles | src/common/packing.ts:117-135 | appends the clean walk of the folder to the file list, and nothing else changes |
| Packing.Packing.FuzzyMatch | src/common/packing.ts:106-115 | appends, per file and per rule that accepts it, the file to the default ignore list |
| Packing.Packing.DoInclude | src/common/packing.ts:87-96 | in production with include files, removes one occurrence of each include file from the default ignore list |
| Packing.Packing.CheckNecessary | src/common/packing.ts:98-104 | warns exactly for the `package.json` and `README.md` entries, in order |
| Packing.Packing.DoExclude | src/common/packing.ts:57-85 | builds the default ignore list (check list in production, minus include files), keeps the files no pattern matches, and names the archive |
| Packing.Packing.Start | src/common/packing.ts:35-55 | the default ignore list gains the check-list hits in production, less one copy of each include file when there are any; the archive list is the dependency and plugin files that survive the exclusion |
| PackingProps.CheckListCompiles | src/common/packing.ts:61-64 | every rule of the production check list compiles, so `fuzzyMatch` never throws |
| PackingProps.CatalogueRuleCompiles | src/common/packing.ts:62-63 | each check-list rule is in the modelled subset |
| PackingProps.CatalogueNames | src/common/packing.ts:62-63 | the first nine check-list rules are plain file names |
| PackingProps.NameRule | src/common/packing.ts:62-63 | a plain file name compiles |
| PackingProps.SrcRuleCompiles | src/common/packing.ts:63 | `src/**/*` compiles |
| PackingProps.MapRuleCompiles | src/common/packing.ts:63 | `**/*.map` compiles |
| PackingProps.ArchiveRuleCompiles | src/common/packing.ts:63 | `*.cloudide` compiles |
| PackingProps.RemoveFirstMultiset | src/common/packing.ts:92-93 | removing an element takes exactly one copy out of the multiset |
| PackingProps.RemoveEachMultiset | src/common/packing.ts:91-95 | removing the include files is multiset difference |
| PackingProps.IncludeIsExact | src/common/packing.ts:92 | include files absent from the ignore list change nothing: matching is by exact text |
| PackingProps.KeptMembers | src/common/packing.ts:76-79 | a file is kept iff its relative path matches no pattern, with its multiplicity |
| PackingProps.NecessaryWarnings | src/common/packing.ts:98-104 | an entry is warned about iff it is `package.json` or `README.md` |
| PackingProps.ModuleNameBare | src/common/packing.ts:70-73 | without a publisher and a version the archive is named after the package alone |
| PackingProps.ModuleNameExample | src/common/packing.ts:70-73 | publisher `HW`, name `demo`, version `1.0.0` give `hw.demo-1.0.0` |
| PackingProps.ArchiveInRoot | src/common/packing.ts:70-74 | slash-free name parts give a slash-free module name |
| PackCommand.SpecialFiles.constructor | src/commands/pack.ts:14 | both lists start empty |
| PackCommand.CheckRules | src/commands/pack.ts:47-59 | passes iff no rule mentions `node_modules` or `.git`; each rule gets the complaint for `node_modules` first, else `.git` |
| PackCommand.TallyFile | src/commands/pack.ts:65-71 | for one file: throws iff some rule's compilation throws; otherwise the row of hits, and each rule's counter goes up by one iff it accepts the file |
| PackCommand.Tally | src/commands/pack.ts:62-72 | throws iff there is a file and some rule's compilation throws; otherwise the matches are the per-file, per-rule hits and each counter is its rule's hit count |
| PackCommand.ZeroSlots | src/commands/pack.ts:73-77 | the reported indexes are exactly the zero counters, in increasing order |
| PackCommand.GetMatchFiles | src/commands/pack.ts:61-80 | on a throw nothing is stored; otherwise returns the hits, reports exactly the rules with no match, and stores the hits under the given kind only |
| PackCommand.CheckAndMatch | src/commands/pack.ts:23-38 | one screening step: stop on a bad rule, a throwing rule or no match; the special files change only when the rules pass and compile |
| PackCommand.Screen | src/commands/pack.ts:23-38 | the exclude step, then the include step when the first did not stop |
| PackCommand.Pack | src/commands/pack.ts:16-45 | stops on a dotted name, a bad rule, a rule whose compilation throws (the promise rejects) or an unmatched rule list; otherwise starts a fresh `Packing` with the stored special files, whose default ignore list is the check-list hits less the includes in production and empty in development |
| PackCommand.Launch | src/commands/pack.ts:39-44 | the new `Packing` has the given mode and lists; its default ignore list is the check-list hits (less one copy of each include) in production and empty in development; it zips what survives exclusion |
| PackCommandProps.RulesOkComplaints | src/commands/pack.ts:47-59 | the rules pass iff no rule draws a complaint |
| PackCommandProps.ProceedIff | src/commands/pack.ts:16-45 | packing proceeds iff the name has no `.` and each non-empty rule list is clean, compiles without a throw and matches at least one file |
| PackCommandProps.ThrowingRuleRejects | src/commands/pack.ts:23-27 | a clean exclude list with a rule whose compilation throws makes `pack` reject when the plugin has a file |
| PackCommandProps.DoubleStarExcludeRejects | src/commands/pack.ts:23-27 | `--exclude '**'` makes `pack` reject on any plugin with a file |
| PackCommandProps.ContainsChar | src/commands/pack.ts:18 | a text contains a one-character needle only if it has that character |
| PackCommandProps.NonEmptyHits | src/commands/pack.ts:64-72 | there is a match iff some rule accepts some file |
| PackCommandProps.NodeModulesRuleRefused | src/commands/pack.ts:18-25 | an exclude rule mentioning `node_modules` never lets packing proceed |
| Detection.StrLength | src/common/detection.ts:83-85 | the measured length lies between the character count and four times it |
| Detection.Detector.constructor | src/common/detection.ts:10 | the icon starts as the warning sign |
| Detection.Detector.Detection | src/common/detection.ts:11-19 | blocking mode switches the icon for good; the checks run in order, each stops the chain when it fails, and the lines printed are its warnings |
| DetectionProps.NecessaryFilesIff | src/common/detection.ts:21-34 | passes iff `package.json` exists and, in blocking mode, `README.md` exists |
| DetectionProps.NonBlockingPasses | src/common/detection.ts:36-81 | in non-blocking mode the validity and length checks always pass |
| DetectionProps.BlockingValidity | src/common/detection.ts:36-60 | in blocking mode validity passes iff name, publisher and version are present, the name has no `.` and the version matches the rule |
| DetectionProps.BlockingLengths | src/common/detection.ts:62-81 | in blocking mode the length check passes iff name, description and icon are at most 255 and keywords at most 600 |
| DetectionProps.ChainPassesIffAll | src/common/detection.ts:15-18 | detection passes iff all three checks pass, and a check's warnings appear only when every earlier check passed |
| DetectionProps.NonBlockingDetection | src/common/detection.ts:11-34 | in non-blocking mode detection passes iff `package.json` exists |
| DetectionProps.NonBlockingWarnsAll | src/common/detection.ts:39-58 | a non-blocking run warns about every failing test, in order, and passes |
| DetectionProps.BlockingStopsAtFirst | src/common/detection.ts:39-58 | a blocking run fails iff some test fails, and then warns only about the first |
| DetectionProps.PackageValidRuns | src/common/detection.ts:36-60 | the validity check is the run of its five tests |
| DetectionProps.NonBlockingValidityWarnings | src/common/detection.ts:36-60 | in non-blocking mode the validity warnings are exactly the failing tests |
| DetectionProps.StrLengthAppend | src/common/detection.ts:83-85 | the measured length is additive over concatenation |
| DetectionProps.Latin1Length | src/common/detection.ts:84 | text up to U+00FF measures its own length |
| DetectionProps.CjkExample | src/common/detection.ts:84 | two CJK characters measure 4 |
| DetectionProps.AnySeparator | src/common/detection.ts:38 | the unescaped `.` of the version rule accepts any separator but a line terminator |
| DetectionProps.VersionExamples | src/common/detection.ts:38 | `1.2.3` and `1a2b3` pass the version rule |
| DetectionProps.DigitsPass | src/common/detection.ts:38 | a bare number passes the version rule |
| DetectionProps.RuleEnds | src/common/detection.ts:38 | a version that passes starts and ends with a digit |
| DetectionProps.FourNumbersRejected | src/common/detection.ts:38 | `1.2.3.4` fails the version rule |
| Migrate.LowerChar | src/commands/migrate.ts:97 | base sensitivity folds letters to small letters |
| Migrate.DigitRun | src/commands/migrate.ts:97 | numeric collation reads the maximal run of leading digits |
| Migrate.Sign | src/commands/migrate.ts:97 | -1, 0 or 1 as the first number is below, equal to or above the second |
| Migrate.KeyCompare | src/commands/migrate.ts:97 | two collation keys compare 0 iff they are equal |
| Migrate.Compare | src/commands/migrate.ts:97 | the comparison answers -1, 0 or 1 |
| Migrate.LocaleCompare | src/commands/migrate.ts:97 | the comparison answers -1, 0 or 1 |
| Migrate.StripCaret | src/commands/migrate.ts:96 | drops exactly one leading `^`, and nothing else |
| Migrate.Manifest.constructor | src/commands/migrate.ts:61 | the manifest holds the parsed fields |
| Migrate.Manifest.MigrateConfig | src/commands/migrate.ts:77-92 | the fields become the migrated manifest, and the call throws iff the engine version is truthy but not a string |
| MigrateProps.PackScriptAdded | src/commands/migrate.ts:79-84 | `scripts` holds `pack: codearts-pack -p` unless it was a truthy non-object |
| MigrateProps.OtherScriptsKept | src/commands/migrate.ts:81 | every other script is kept as it was |
| MigrateProps.EnginesRetargeted | src/commands/migrate.ts:86-90 | when the VS Code engine passes, the engines become `{codearts: ^2.0.0}`; otherwise they are unchanged |
| MigrateProps.OthersUnchanged | src/commands/migrate.ts:77-92 | every field other than `scripts` and `engines` is unchanged |
| MigrateProps.ThrowsExcludesRetarget | src/commands/migrate.ts:86 | a manifest whose check throws is never retargeted |
| MigrateProps.MigratedSettles | src/commands/migrate.ts:86-90 | a migrated manifest is never retargeted again, and it throws iff the original did |
| MigrateProps.PackScriptIdempotent | src/commands/migrate.ts:79-84 | adding the pack script twice is the same as once |
| MigrateProps.MigrateIdempotent | src/commands/migrate.ts:77-92 | migrating twice is the same as once |
| MigrateProps.CompareAntisymmetric | src/commands/migrate.ts:97 | swapping the operands negates the comparison |
| MigrateProps.CompareZeroIffEqual | src/commands/migrate.ts:97 | the comparison is 0 iff the key sequences are equal |
| MigrateProps.PrefixFirst | src/commands/migrate.ts:97 | a proper prefix sorts first |
| MigrateProps.NatStrValue | src/commands/migrate.ts:97 | the decimal spelling of a number reads back, digit by digit, as that number |
| MigrateProps.VersionKeys | src/commands/migrate.ts:97 | `a.b.c` collates as number, dot, number, dot, number |
| MigrateProps.ThreeNumberVersion | src/commands/migrate.ts:95-98 | a version `a.b.c` is valid iff it is at most `1.69.0`, compared number by number |
| MigrateProps.CaretIgnored | src/commands/migrate.ts:96 | a leading `^` is ignored |
| MigrateProps.NumbersByValue | src/commands/migrate.ts:97 | numbers compare by value: `1.9.0` is valid and `1.100.0` is not |
| MigrateProps.ApiVersionPasses | src/commands/migrate.ts:40 | `1.69.0` is valid and `1.70.0` is not |
| MigrateProps.SymbolPrefixPasses | src/commands/migrate.ts:95-98 | a version starting with a symbol other than `^` (such as `~` or `>`) is always valid |
| MigrateProps.PrereleaseRejected | src/commands/migrate.ts:95-98 | `1.69.0` followed by a suffix that does not start with a digit is not valid |
| Publish.Lookup | src/common/publish.ts:147-149 | finds the last section of that name, as `JSON.parse` keeps the last duplicate key, or none exists |
| Publish.CheckExtensionStatus | src/common/publish.ts:157-200 | the loop's outcome is the poll of the server from request 0 |
| Publish.PublishAll | src/common/publish.ts:31-57 | no path list reports the missing package; a non-empty list publishes each path in order; an empty list runs `pack` on missing rule lists, which returns nothing for a dotted name and otherwise throws |
| PublishProps.LookupTakesLast | src/common/publish.ts:147-149 | of two sections with one name, the later one is read |
| PublishProps.LookupFinds | src/common/publish.ts:147-149 | a section is found iff one of that name exists |
| PublishProps.CheckPassesIff | src/common/publish.ts:141-155 | the status check passes iff the status is `success`, a result is present and all three sections succeed |
| PublishProps.CheckThrowsOnlyOnMissingSection | src/common/publish.ts:146-149 | the check throws only when the status passes and one of the three sections is missing |
| PublishProps.CheckRefusesFailedStatus | src/common/publish.ts:142-144 | a status other than `success` is refused |
| PublishProps.PollBounded | src/common/publish.ts:159-168 | the poll makes at most 20 requests |
| PublishProps.ResolvesAtFirstPass | src/common/publish.ts:187-188 | the poll resolves after n requests iff request n passes and every earlier one is pending |
| PublishProps.GivesUpAfterTwenty | src/common/publish.ts:168-186 | when 20 requests stay pending, the poll rejects with the final failure of the 20th reply |
| PublishProps.RequestErrorStops | src/common/publish.ts:194-196 | a failed request rejects the poll at once with that error |
| PublishProps.FinalFailureWithCode | src/common/publish.ts:169-178 | with an error code, the failure is one error carrying the server's message |
| Publish.Assign | src/common/publish.ts:180 | setting a member keeps distinct names; a name already present keeps its place and takes the new value, and a new name goes last |
| Publish.ObjectOf | src/common/publish.ts:180 | the parsed `result` object has no repeated name |
| PublishProps.ObjectValues | src/common/publish.ts:180 | `Object.values` of the parsed object holds a section iff it is the last section of its name |
| PublishProps.ObjectKeepsPlaces | src/common/publish.ts:180 | a later section never moves a name already in the object |
| PublishProps.ConcatErrorsMembers | src/common/publish.ts:181-183 | the `reduce` collects exactly the errors of the values |
| PublishProps.AllErrorsMembers | src/common/publish.ts:180-184 | without one, the failure lists exactly the errors of the sections that are the last of their name |
| PublishProps.RepeatedSectionErrors | src/common/publish.ts:180-184 | sections `a [e1]`, `b [e2]`, `a [e3]` reject with `e3, e2` |
| PublishProps.InvalidTokenIff | src/common/publish.ts:130-131 | the invalid-token message appears iff the response body has code `IDE.07000043` |
| PublishProps.NoDataFailsUpload | src/common/publish.ts:120-124 | no response, or an empty body, gives the upload-failed message |
| PublishProps.StatusLinesPerError | src/common/publish.ts:90-93 | a rejected status prints one line per error |
| PublishProps.PublishedOnlyIfAllPass | src/common/publish.ts:60-118 | publishing completes iff a token is given, the upload succeeds, the poll resolves and the archiving answers `success` |
| PublishProps.EmptyTokenStops | src/common/publish.ts:64-77 | with no token given or entered, only the empty-input error is printed |
| Zip.FirstUnreadable | src/common/zip.ts:34-39 | the first kept entry whose stream cannot be opened, or the end |
| Zip.ReadZip | src/common/zip.ts:14-51 | the reader's result is the archive's kept entries, keyed by lowercased name, or the first failure |
| ZipProps.CollectedKeys | src/common/zip.ts:32-44 | a name is a key iff some kept, readable entry has that lowercased name |
| ZipProps.LastEntryWins | src/common/zip.ts:42 | a name maps to the content of its last kept entry |
| ZipProps.KeysAreLowercase | src/common/zip.ts:32 | every key is lowercase |
| ZipProps.PackageFilterExamples | src/common/zip.ts:56 | the filter reads `README.MD`, `Package.JSON` and `pack-config.json`, and rejects `src/package.json` and `readme.txt`: whole names, any ASCII case |
| ZipProps.PackageFilterLength | src/common/zip.ts:56 | only a name as long as one of the three passes |
| ZipProps.UppercaseReadmeNeverKey | src/common/zip.ts:59 | the `README.md` lookup never finds anything; only `readme.md` can |
| ZipProps.ManifestCheckedFirst | src/common/zip.ts:61-63 | a missing manifest is reported before a missing README |
| ZipProps.ReadsIff | src/common/zip.ts:53-79 | the package reads iff it has a manifest and a README and the parses succeed |
| ZipProps.ConfigsIff | src/common/zip.ts:69-78 | the configuration is returned iff the package holds `pack-config.json` |

## Source functions

Each source function is defined once in Dafny by the functions below; the
rows of the table above name the lemmas and methods that state their
properties.

- `fileMatch` (src/common/file-matcher.ts:11-55): `FileMatcher.Rewrite` is the rewrite chain of lines 16-32, `FileMatcher.Render` and `FileMatcher.Compile` the regex text of lines 33-35, `FileMatcher.ToRegex` and `FileMatcher.Compilation` what `new RegExp` makes of it (lines 43-44), `FileMatcher.Matches` the language of the compiled pattern, and `FileMatcher.FileMatch` and `FileMatcher.Accepts` the returned predicate (lines 46-54). Their properties are the FileMatcherProps rows.
- `readVscodeignore` (src/common/util.ts:285-319): `IgnoreRules.ParseLines` for lines 293-300, `IgnoreRules.Expand` for lines 303-306, `IgnoreRules.Partition` for lines 309-314, and `IgnoreRules.ReadVscodeignore` for the whole promise chain with the `ENOENT` case of lines 289-291.
- `getPackageFiles` (src/common/util.ts:253-283): `IgnoreRules.GetPackageFiles`, stated by `IgnoreRulesProps.PackageFilesMerge` and `IgnoreRulesProps.PackageFilesReadError`.
- `uploadStream` (src/common/util.ts:15-75): `Upload.ChunkCount` (line 22), `Upload.FirstChunk` (lines 164-205), `Upload.LaterChunk` (lines 29-50) and `Upload.Plan`, executed by the method `Upload.UploadStream`.
- `getMatchFiles` and the early exits of `pack` (src/commands/pack.ts:16-80): `Selection.Row`, `Selection.Hits` and `Selection.RuleHits` are the nested loops of lines 64-72; `PackCommand.Stop`, `PackCommand.Screened` and `PackCommand.Decide` are the exits of lines 18-38, executed by `PackCommand.CheckAndMatch`, `PackCommand.Screen` and `PackCommand.Pack`.
- `getAllFiles` (src/commands/pack.ts:82-101) and `Packing.getAllFiles` (src/common/packing.ts:117-135): `FileTree.Walk` is the clean listing, executed by `FileTree.FindFile` and `Packing.Packing.GetAllFiles`.
- The `Packing` class (src/common/packing.ts): `Packing.RemoveEach` is the `doInclude` loop of lines 91-95, `Packing.Kept` the filter of lines 76-79, and `Packing.ModuleName` the archive name of lines 70-73.
- `detection` (src/common/detection.ts:11-85): `Detection.NecessaryFiles` (lines 21-34), `Detection.VersionRule` (line 38), `Detection.PackageValid` (lines 36-60), `Detection.FieldLength` (lines 62-81) and `Detection.Chain` (lines 15-18), run by `Detection.Detector.Detection`.
- `validVersion` and `migrateConfig` (src/commands/migrate.ts:77-98): `Migrate.CollationKeys` and `Migrate.Compare` are the numeric collation of line 97, `Migrate.ValidVersion` is lines 95-98, and `Migrate.Migrated` is the manifest after lines 77-92, applied by `Migrate.Manifest.MigrateConfig`.
- `checkResponseStatus` (src/common/publish.ts:141-155): `Publish.CheckResponseStatus`.
- `checkExtensionStatus` (src/common/publish.ts:157-200): `Publish.Poll` with `Publish.FinalFailure` (lines 168-186); `Publish.ObjectOf` is the parsed `result` object and `Publish.AllErrors` the `reduce` over its values (lines 180-183), executed by `Publish.CheckExtensionStatus`.
- The error classification of `_publish` (src/common/publish.ts:60-139): `Publish.StatusErrorMessages` (lines 89-101) and `Publish.UploadErrorMessage` (lines 119-138); `Publish.PublishOne` is one `_publish` call, and `Publish.PublishAll` is `publish` (lines 31-58).
- `readZip` (src/common/zip.ts:14-51): `Zip.Collected` is the map of lines 31-44 and `Zip.Unzipped` the resolved or rejected result, computed by the method `Zip.ReadZip`.
- `readCARTSPackage` (src/common/zip.ts:53-79): `Zip.PackageFilter` is the name filter of line 56 and `Zip.ReadCARTSPackage` the rest.

## Left out

- File system, network and terminal I/O are parameters or not modelled. This covers `fs` calls, `glob`, `npm` dependency listing (`getDependencies`), the `archiver` zip writer, the HTTP client (`ApiService`), `inquirer`/`prompts` questions, the progress bar, the `ora` spinner and console colour codes.
- `read-pkg` normalisation of `package.json` is not modelled: the fields are taken as given.
- Hashing (MD5/SHA-256) and form-data encoding in `uploadStream` and `getUploadParams` are not modelled: a form is modelled by the fields the plan decides.
- FileMatcher.Accepts: a rule whose compiled text falls outside the modelled regex subset (character classes, `?`, `+`, groups other than the brace alternation, a quantified group, and other unescaped metacharacters) accepts nothing in the model. The JavaScript engine either reads such a text as a pattern or throws a SyntaxError; `FileMatcher.Compilation` tells the two apart only for a `*` with nothing to repeat (such as `**`, `**.js` or a second `**/`), which `pack` carries as a rejection. Other syntax errors of such texts (an unbalanced bracket, say) are not modelled.
- FileMatcher.Matches: the language of the pattern is modelled, not the search order of the backtracking engine. This makes no difference for the anchored patterns `fileMatch` builds.
- Js.ToLower: only ASCII letters are lowercased. JavaScript's full Unicode case mapping is not modelled.
- Js.Trim: whitespace is the ECMAScript WhiteSpace and LineTerminator set, as a fixed list of code points.
- Packing.Packing.GetAllFiles: the source walks the tree with callbacks whose completion order is not awaited. The model walks in listing order and finishes before `start` runs; the race between the walk and `doExclude` is not modelled.
- Packing.Packing.DoExclude: `micromatch.contains` and `path.relative` are function parameters.
- Path joining is modelled as joining names with `/`. `path.resolve` normalisation (`..`, `.` and absolute names) is not modelled.
- Upload.UploadStream: a request that fails is not modelled (the promise rejects and the caller classifies the error). `PublishOne` takes the upload outcome as an input instead.
- Upload.UploadStream: an empty task id in the first reply is passed on as given. The source then leaves `task_id` out of later forms; the model still records it.
- Migrate.LocaleCompare: ICU numeric collation is modelled only for ASCII. Digit runs compare by value, letters compare case-insensitively and after digits, and other characters come first and compare by code point. ICU's full symbol order, accents and non-ASCII letters are not modelled.
- Migrate.Manifest.MigrateConfig: JSON key order, duplicate keys and a top-level value that is not an object are not modelled. Reading and writing `package.json` around the call are not modelled either.
- Publish.CheckExtensionStatus: the 1.5-second timer between requests is not modelled, and the task id is not passed to the server model. The server is a function from request number to reply.
- Publish.StatusErrorMessages: an HTTP error carrying its own `status` field is not modelled. Such an error would be read as a rejected status.
- Publish.ObjectOf: members are kept in the order the server sent their names. JavaScript lists integer-like keys first in `Object.values`; the sections the status check reads are named by words (`basicInformation`, `file`, `security`), and that order is not modelled.
- Publish.AllErrors: every section is taken to carry an `errors` list. A section without one would add an `undefined` entry to the failure, which is not modelled.
- Publish.PublishAll: the empty-list branch is modelled by its two outcomes only. Reading `package.json` inside `pack`, and the `getAllFiles` walk before the failing `excludeFiles.length` read, are not modelled.
- IgnoreRules.GetPackageFiles: `pack-config.json` is modelled with list-valued `exclude` and `include` fields only. A non-empty string value would be appended by `concat` as one more rule, and other values (an object with a `length`, say) are not modelled.
- Zip.ReadZip: a read stream that errors after opening makes `bufferStream` never settle, so the source hangs. The model treats every opened entry as read completely.
- `checkPackageFiles`, `verifyFiles` and `hashFile` in `src/common/util.ts` are not modelled: they only prompt or hash.
- The `Manifest` type of `src/common/manifest.ts` is not part of this model. A manifest is a map from field names to JSON values.
