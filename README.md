# epub-novel-tools: a verified model of the manuscript pipeline

epub-novel-tools keeps a novel as a tree of chapter directories under
`./Manuscript`. Each directory holds Markdown scene files. The tool works on that tree in five ways:

- it assembles the scenes into one manuscript (`pre_process`), or into one text per chapter (`pre_process_chapters`);
- it counts words, for the whole project (`word_count`) and per chapter (`chapter_word_count`);
- it keeps a dated word-count ledger and today's progress (`save_progress`);
- it creates chapter directories from templates (`new_chapter`);
- it writes the e-book metadata block (`create_book_metadata`).

A stand-alone script, `md-preprocess.py`, assembles the manuscript the same way but takes every file, not only `.md` files.

The model is written in Dafny. Each operation becomes:

- a function that states what it computes;
- a method that follows the source's loops, proved equal to that function;
- lemmas that state what the operation promises.

Modules:

- `Strings`: the Python string operations the tool relies on: `isspace`, `strip`, `replace` (including an empty pattern), `split()`, `split(sep)`, `join`, `endswith`, `os.path.basename`, `str(n)` and `int(s)`.
- `Ordering`: Python's string order, and `sorted` on entries by key (a stable insertion sort, proved sorted and a permutation).
- `Dict`: an insertion-ordered dictionary as a list of entries, with `d[k] = v`, `d.get(k)` and their laws.
- `Normalizer`: `apply_replacements` and `normalize_markdown`.
- `Assembler`: `pre_process`.
- `MdPreprocess`: the `md-preprocess.py` script.
- `Chapters`: `pre_process_chapters`.
- `WordCounter`: `word_count` and `chapter_word_count`.
- `Ledger`: the ledger part of `save_progress`, and the daily series behind its daily chart.
- `Scaffolder`: `directoryCount` and `new_chapter`. Here the project is a `Project` object whose directory set and file map the methods update in place.
- `Metadata`: `create_book_metadata`. The font size is optional: the program fills in `12pt` when the configuration has none (enovel-project.py:78-79), so only the other five settings can be missing.

The file tree is an input. A walk is the sequence of visited directories, each with its files' names and contents, in `os.walk` order. The model sorts directories by path and files by name, as the source does.

Behaviour worth knowing, all proved:

- Normalising is one pass of each replacement, not a loop to a fixed point. Four newlines between two lines become three, and a second normalisation makes them two (`NormalizeNotIdempotent`).
- The order of the replacement table matters (`ReplacedOrderMatters`).
- Directories are not separated by a rule: two chapters of one scene each give the scenes separated by a blank line only (`TwoChapters`, enovel-project.py:249-263).
- The trimming at the end of a directory can be defeated by some fragments ending in `-`, for example `----`. After a scene holding only `----`, the manuscript ends with a rule, and a following empty directory takes a rule away (`TrailingDashes`). The "never ends with a rule" and "empty directory changes nothing" properties are proved for fragments that do not end in `-` (`NoTrailingRule`, `EmptyDirectoryIdle`).
- The project word count subtracts the offset without clamping: an empty project with offset 5 counts -5 (`NotClamped`, enovel-project.py:625).
- `directoryCount` walks with `os.walk`, so it counts directories at every depth below the manuscript, not only the chapters (`Scaffolder.Project.DirectoryCount`, enovel-project.py:468-473).
- A `new_chapter` call without a number picks one more than that count. Two such calls in a row make two directories numbered one after the other when the first call's directory is new (`TwoNewChapters`). When the picked directory already exists, no new directory is made (missing template files are still written), and every later call picks the same number again (`NumberStalls`). Only an explicit `1` names a chapter "Your first Chapter" (`FirstChapterName`).
- The metadata block writes `rights:` with two spaces. A YAML reader such as pandoc's drops the extra space; only a naive reader that splits each line after `key: ` gets the rights back with a leading space (`MetadataFields` uses such a reader).

## Model

| member | source | states |
|---|---|---|
| Strings.Strip | enovel-project.py:195 | the result is the text between the leading and the trailing whitespace; it is empty or neither starts nor ends with whitespace, and only whitespace follows it |
| Strings.StripTrimmed | enovel-project.py:195 | stripping trimmed text followed by whitespace gives the text back |
| Strings.ReplaceAll | enovel-project.py:186 | `replace` with a non-empty pattern and a replacement no longer than it never lengthens the text |
| Strings.ReplaceAbsent | enovel-project.py:186 | `replace` leaves text in which the pattern does not occur unchanged |
| Strings.ReplaceSame | enovel-project.py:186 | replacing a pattern by itself changes nothing |
| Strings.Split | enovel-project.py:340 | every token of `split()` is non-empty and free of whitespace |
| Strings.SplitAppend | enovel-project.py:340 | when the seam of two texts falls on whitespace, the tokens of the whole are those of each part in turn |
| Strings.SplitJoinSpace | enovel-project.py:340 | whitespace-free words joined by spaces split back into the same words |
| Strings.SplitOn | enovel-project.py:346 | `split('\t')` gives one more piece than there are tabs, no piece holds a tab, and joining the pieces with tabs gives the text back |
| Strings.SplitOnJoin | enovel-project.py:346 | splitting at a separator undoes joining tab-free pieces with it |
| Strings.Basename | enovel-project.py:282 | the base name is a slash-free suffix of the path, preceded by a slash unless it is the whole path |
| Strings.BasenameOfChild | enovel-project.py:282 | the base name of `dir/name` is `name` |
| Strings.ParseInt | enovel-project.py:354 | `int()` accepts only text holding a digit, and gives a negative number only for text holding a `-` |
| Strings.Render | enovel-project.py:349 | `str(n)` is a non-empty run of decimal digits |
| Strings.RenderValue | enovel-project.py:354 | a digit group reads back as the number `str` wrote |
| Strings.ParseRender | enovel-project.py:354-355 | `int(str(n)) == n` |
| Strings.ThousandsSeparator | enovel-project.py:354 | `int` accepts underscores between digits: `int("1_000") == 1000` |
| Ordering.LexLeTotal | enovel-project.py:352 | any two strings are comparable |
| Ordering.LexLeTrans | enovel-project.py:352 | the string order is transitive |
| Ordering.LexLeAntisymmetric | enovel-project.py:352 | strings that sort no later than each other are equal |
| Ordering.SortByKey | enovel-project.py:352 | `sorted` returns its entries in ascending key order, as a permutation of the input, with the same keys, and distinct keys stay distinct |
| Ordering.InsertSorted | enovel-project.py:352 | inserting into a sorted sequence keeps it sorted |
| Ordering.InsertPermutes | enovel-project.py:352 | inserting adds exactly the one entry |
| Ordering.SortSorted | enovel-project.py:352 | sorting an already sorted sequence changes nothing |
| Ordering.SortedDistinctStrict | enovel-project.py:352 | distinct keys in ascending order strictly increase |
| Dict.Get | enovel-project.py:282 | a lookup finds a value exactly when the key is in the dictionary |
| Dict.GetEntry | enovel-project.py:282 | the value found under an entry's key is that entry's value |
| Dict.PutGet | enovel-project.py:347 | after `d[k] = v`, `k` holds `v` |
| Dict.PutOther | enovel-project.py:347 | `d[k] = v` leaves every other key's value as it was |
| Dict.PutKeys | enovel-project.py:347 | `d[k] = v` adds `k` and no other key, and keeps keys distinct |
| Dict.PutPut | enovel-project.py:349 | storing twice under one key keeps only the second value |
| Dict.PutNew | enovel-project.py:283 | a new key is added at the end, keeping insertion order |
| Dict.PutEntries | enovel-project.py:349 | after `d[k] = v` the entries are `(k, v)` and the entries of `d` under other keys |
| Normalizer.ApplyReplacements | enovel-project.py:182-187 | the loop returns the text with each table key replaced by its value, one key after the other in table order; an empty table leaves the text as it was |
| Normalizer.ReplacedAbsent | enovel-project.py:182-187 | text holding no key of the table comes through the replacements untouched |
| Normalizer.ReplacedOrderMatters | enovel-project.py:184-186 | with `a -> b` then `b -> c`, `a` ends as `c`; in the other order it ends as `b` |
| Normalizer.StripRules | enovel-project.py:197-200 | the four rule deletions never lengthen the text, and leave text without a `-` untouched |
| Normalizer.CollapseBlankLines | enovel-project.py:203 | the collapse never lengthens the text, and leaves text without three newlines in a row untouched |
| Normalizer.Normalize | enovel-project.py:188-205 | with no replacements, normalising never lengthens the text |
| Normalizer.NormalizeMarkdown | enovel-project.py:190-205 | the steps, run in the source's order, give the normal form: replacements, strip, the four deletions, one collapse pass |
| Normalizer.NormalizeFixed | enovel-project.py:182-205 | trimmed text with no `-`, no three newlines in a row and no occurrence of a (non-empty) replacement key is already normal: normalising it changes nothing |
| Normalizer.CollapseBetween | enovel-project.py:203 | a run of `k` newlines between two newline-free texts keeps `k - k / 3` of them |
| Normalizer.NewlineRun | enovel-project.py:190-205 | normalising two plain lines separated by `k` newlines leaves `k - k / 3` newlines |
| Normalizer.NormalizeNotIdempotent | enovel-project.py:190-205 | four newlines normalise to three and then to two, so normalising twice differs from normalising once |
| Normalizer.RuleLineStripped | enovel-project.py:197-200 | a `---` or `----` line between dash-free lines is deleted together with one adjacent newline |
| Normalizer.RuleLineRemoved | enovel-project.py:190-205 | normalising two plain lines around a `---` or `----` line leaves the two lines one newline apart |
| Assembler.Selected | enovel-project.py:251-252 | a file is taken exactly when it is in the directory and is a `.md` file (for the script: any file) |
| Assembler.FragmentsSelected | enovel-project.py:251-257 | the fragments of a directory are the normalised contents of exactly the taken files, in file order |
| Assembler.FragmentsSelectedAt | enovel-project.py:251-257 | there is one fragment per taken file, and fragment `i` is the `i`-th taken file's normalised contents |
| Assembler.FragmentsNone | enovel-project.py:251-252 | a directory yields no fragment exactly when none of its files is selected |
| Assembler.DirFragments | enovel-project.py:249-257 | one fragment list per visited directory; the lists come in sorted path order, each built from its files in sorted name order |
| Assembler.Manuscript | enovel-project.py:248-263 | the manuscript is empty or ends with a blank line, whatever the files hold |
| Assembler.AddDirectory | enovel-project.py:251-263 | one pass of the outer loop appends each selected fragment with a rule and then turns a trailing rule into a blank line |
| Assembler.AddDirectories | enovel-project.py:249-263 | the outer loop over sorted directories builds the manuscript directory by directory |
| Assembler.PreProcess | enovel-project.py:245-271 | `pre_process` returns the manuscript of the `.md` files, directories and files in sorted order |
| Assembler.AppendedJoin | enovel-project.py:259 | appending fragments writes them joined by the rule, with one more rule at the end |
| Assembler.DirStepNonEmpty | enovel-project.py:259-263 | a directory with a selected file adds its fragments joined by rules, then a blank line |
| Assembler.DirStepEmpty | enovel-project.py:261-263 | a directory without a selected file changes the text exactly when the text ends with a rule |
| Assembler.AssembledBlocks | enovel-project.py:249-263 | when no fragment ends with `-`, the manuscript is each directory's block in turn and ends in a blank line not after a `-` |
| Assembler.NoTrailingRule | enovel-project.py:261-263 | the manuscript never ends with a rule, when no fragment ends with `-` |
| Assembler.EmptyDirectoryIdle | enovel-project.py:261-263 | a further directory without selected files leaves the manuscript unchanged, when no fragment ends with `-` |
| Assembler.DashesNormal | enovel-project.py:190-205 | a file holding only `----` normalises to `----` |
| Assembler.TrailingDashes | enovel-project.py:259-263 | after a fragment `----` the manuscript ends with a rule, and a following empty directory removes it |
| Assembler.TwoChapters | enovel-project.py:249-263 | two chapters of one plain scene each give the two scenes separated by a blank line, with no rule between them |
| Assembler.EmptyTree | enovel-project.py:248 | an empty tree gives an empty manuscript |
| Assembler.FragmentsEveryLength | md-preprocess.py:11-32 | taking every file gives one fragment per file |
| Assembler.FragmentsEveryPrefix | md-preprocess.py:11-32 | taking every file, the first `j` files give the first `j` fragments |
| Assembler.FragmentsEveryAt | md-preprocess.py:11-32 | taking every file, fragment `i` is file `i`'s normalised contents |
| MdPreprocess.CleanFile | md-preprocess.py:20-29 | the script's steps give the normal form with no replacement table |
| MdPreprocess.AddDirectory | md-preprocess.py:11-37 | one directory's pass appends every file's fragment with a rule, then turns a trailing rule into a blank line |
| MdPreprocess.Run | md-preprocess.py:6-37 | the script's text is the manuscript of every file, directories and files in sorted order, with no replacements |
| MdPreprocess.EveryFileTaken | md-preprocess.py:8-16 | each directory contributes one fragment per file, whatever its extension, in sorted name order, each the file's normalised contents |
| Chapters.ChapterDirs | enovel-project.py:277-289 | one entry per visited directory, in sorted order: its base name as key, with its `.md` fragments |
| Chapters.StoreFragment | enovel-project.py:282-295 | storing one fragment creates the key if missing and appends the fragment and a blank line to that chapter |
| Chapters.PreProcessChapters | enovel-project.py:273-303 | the nested loops build the chapter dictionary of the sorted walk |
| Chapters.AddFragmentsText | enovel-project.py:289-295 | a directory's fragments extend its chapter by each fragment followed by a blank line |
| Chapters.AddFragmentsOthers | enovel-project.py:282-295 | other chapters are unchanged, the key is added only when the directory has a `.md` file, and keys stay distinct |
| Chapters.ChaptersContents | enovel-project.py:277-295 | there is a chapter for exactly the base names holding a `.md` file, no chapter twice, and each chapter is the fragments filed under its name, each followed by a blank line |
| Chapters.ParagraphsJoin | enovel-project.py:291-295 | a chapter's text is its fragments joined by blank lines, closed by a blank line, with no rules |
| WordCounter.WordCount | enovel-project.py:620-628 | the count is the re-normalised manuscript's tokens less the offset |
| WordCounter.NotClamped | enovel-project.py:625 | the offset is subtracted even below zero |
| WordCounter.BodyRulesDeleted | enovel-project.py:197 | the first deletion of the second normalisation turns every rule between paragraphs into three newlines |
| WordCounter.BodyCollapsed | enovel-project.py:203 | the collapse of the second normalisation turns those three newlines into a blank line |
| WordCounter.NormalizeBlocks | enovel-project.py:622 | re-normalising assembled paragraphs leaves them joined by blank lines |
| WordCounter.Renormalized | enovel-project.py:621-625 | the re-normalised manuscript of paragraphs is the fragments joined by blank lines, and its tokens are each fragment's tokens in turn |
| WordCounter.CountOfParagraphs | enovel-project.py:620-625 | the project count is the fragments' own tokens less the offset: rules and blank lines add no words |
| WordCounter.RJust | enovel-project.py:639 | `rjust` pads with spaces in front up to the width and keeps a longer name whole |
| WordCounter.KeyWidthIsMax | enovel-project.py:634-637 | the width is at least every chapter name's length and equal to one of them |
| WordCounter.ChapterWidth | enovel-project.py:634-637 | the first loop finds the longest chapter name's length |
| WordCounter.Tally | enovel-project.py:638-639 | one entry per chapter, in dictionary order: its name with the number of its whitespace-separated tokens |
| WordCounter.LinesAt | enovel-project.py:638-639 | report line `i` is the line for chapter `i` |
| WordCounter.Report | enovel-project.py:633-639 | the report is the banner and one line per chapter, in dictionary order |
| WordCounter.ChapterWordCount | enovel-project.py:631-640 | the report on the chapter dictionary, with no offset subtracted |
| WordCounter.ReportAligned | enovel-project.py:634-639 | on every line the colon sits in the same column, the chapter name right-aligned before it |
| WordCounter.ParagraphsTokens | enovel-project.py:639 | a chapter's tokens are its fragments' tokens in turn |
| WordCounter.ChapterCount | enovel-project.py:631-639 | a chapter's tokens are the tokens of every fragment filed under its name |
| WordCounter.ReportCount | enovel-project.py:638-639 | each line's count is the token count of the fragments filed under that chapter |
| Ledger.ReadLedger | enovel-project.py:342-347 | the reading loop yields the table of the lines, a later line for a date overwriting an earlier one, or the unpack failure |
| Ledger.Loaded | enovel-project.py:342-347 | a successful read has no date twice; a failed read names a line of the file that does not split into two tab-separated fields |
| Ledger.LoadedOk | enovel-project.py:345-347 | when every line has two fields, the read succeeds |
| Ledger.LoadedFails | enovel-project.py:346 | the first line without exactly two fields is the one reported |
| Ledger.FirstBad | enovel-project.py:346 | any line without exactly two fields fails the read |
| Ledger.CountsAll | enovel-project.py:352-355 | the counts are read exactly when every count text is a number, and are then those numbers |
| Ledger.CountProgress | enovel-project.py:351-355 | the counting loop in date order gives today's difference, or the count `int()` refuses |
| Ledger.WrittenAt | enovel-project.py:359 | line `i` of the file is entry `i` as date, tab, count, newline |
| Ledger.WriteBack | enovel-project.py:357-359 | the writing loop writes one line per entry in the order given |
| Ledger.Recorded | enovel-project.py:341-359 | a successful update started from a readable file, stores today's count under today's date, keeps dates distinct and writes one line per entry |
| Ledger.SaveProgress | enovel-project.py:342-359 | the ledger update: read, store today's count, count in date order, write back sorted |
| Ledger.RecordProgress | enovel-project.py:338-359 | the count stored is the re-normalised manuscript's tokens, with no offset |
| Ledger.RecordedFails | enovel-project.py:342-355 | the update fails exactly when an old line does not unpack or a stored count is not a number |
| Ledger.RecordedTable | enovel-project.py:349-359 | the written entries have strictly ascending distinct dates, include today's count, and keep every other date's old entry |
| Ledger.TodayDeltaAt | enovel-project.py:351-355 | with distinct dates, today's progress is today's count less the previous entry's, 0 before the first |
| Ledger.RecordedProgress | enovel-project.py:349-355 | the progress is the new count less the count of the date just before today, or the count itself for the earliest date |
| Ledger.ProgressAt | enovel-project.py:351-355 | in distinct entries holding today's fresh count, the progress is that count less the previous entry's |
| Ledger.LineFields | enovel-project.py:346 | a written line of a clean entry unpacks into that entry |
| Ledger.ReadBack | enovel-project.py:342-359 | reading back a written table of clean, distinct entries gives that table |
| Ledger.RecordedReadBack | enovel-project.py:342-359 | reading back the file an update wrote gives the sorted table it stored |
| Ledger.DeltasAt | enovel-project.py:406-410 | each point of the daily series is that entry's count less the previous one's |
| Ledger.DeltasSum | enovel-project.py:406-410 | the daily differences add up to the latest count |
| Ledger.DailySeries | enovel-project.py:406-410 | the chart loop gives each entry's count less the previous entry's, in date order |
| Ledger.ProgressInSeries | enovel-project.py:351-355 | today's progress is today's point of the daily series |
| Scaffolder.NextNumber | enovel-project.py:484-486 | a chapter number is never 0; without a number passed it exceeds the count of directories below the manuscript |
| Scaffolder.Project.DirectoryCount | enovel-project.py:468-473 | the walk counts every directory at any depth below the path |
| Scaffolder.Project.NewChapter | enovel-project.py:475-510 | the chapter gets the number passed or one more than the directory count, its title, the manuscript and chapter directories, and the missing template files |
| Scaffolder.Project.WriteTemplates | enovel-project.py:491-508 | each template file is written only where no file exists, and the directories are untouched |
| Scaffolder.TemplatesKeepFiles | enovel-project.py:493-508 | no existing file is overwritten, the three template paths are added, and each free path holds its template |
| Scaffolder.RenderInjective | enovel-project.py:488 | different numbers give different `str` texts |
| Scaffolder.ChapterDirsDiffer | enovel-project.py:488-489 | different numbers give different chapter directories |
| Scaffolder.BelowGrows | enovel-project.py:468-473 | a new directory under the manuscript raises the count by one |
| Scaffolder.TwoNewChapters | enovel-project.py:484-489 | two calls without a number give consecutive numbers and distinct directories, when the first directory is new |
| Scaffolder.NumberStalls | enovel-project.py:484-489 | whenever the directory a call without a number picks already exists, the call adds no directory and the next call picks the same number and directory |
| Scaffolder.FirstChapterName | enovel-project.py:476-485 | only an explicit 1 gives "Your first Chapter"; the default on an empty manuscript gives "Chapter 1 - New Chapter" |
| Metadata.CreateBookMetadata | enovel-project.py:305-319 | nothing is made exactly when not recreating; a failure names a required setting the configuration lacks; a block is made only when every required setting is present, and it opens with `---` and closes with `...` |
| Metadata.FirstMissing | enovel-project.py:307-314 | nothing is reported exactly when every required setting is present, and a reported setting is required and missing |
| Metadata.MetadataFails | enovel-project.py:305-314 | nothing is made unless recreating; recreating fails exactly when a required setting is missing, and reports the first one the block reads |
| Metadata.FirstMissingFirst | enovel-project.py:308-314 | the reported setting is the first missing one in reading order |
| Metadata.BlockLines | enovel-project.py:307-317 | the block is its lines, each followed by a newline |
| Metadata.BlockSplits | enovel-project.py:307-317 | split at newlines, the block gives its lines and an empty tail |
| Metadata.SplitShaped | enovel-project.py:307-317 | the block has ten lines, or eleven with a cover, ending with `...` and the empty text after the last newline |
| Metadata.MetadataFields | enovel-project.py:307-314 | a naive reader of `key: value` lines finds each setting under its key, the fixed margin, and the font size `12pt` when none is configured; it gets the rights with a leading space, which a YAML reader would drop |
| Metadata.MetadataCover | enovel-project.py:315-316 | the cover line is present exactly when a non-empty cover image is configured |

## Left out

- Files and directories are not read or written. The tree comes in as a walk carrying each file's contents. Results are returned: the manuscript text, the chapter dictionary, the ledger lines, the metadata block, the project's new directories and files.
- The path `manuscript_dir + "/" + basename(root) + "/" + file` that the source opens is not modelled. The model reads each file from the walk itself, so a nested directory's file is read where it is.
- Creating the export and progress directories, the `writeFile` flag and `temp_work_file.md` are not modelled; they do not change the returned text.
- Printing is left out. `word_count` returns its count; the chapter report is returned as lines.
- The global `todays_progress` is returned as the update's progress.
- Today's date, the configuration (replacement table, word-count offset, metadata settings) and the `recreate_epub_and_temp_files` flag are parameters.
- The configuration's replacement table is taken in its dictionary order; an empty or null table skips the replacements. A configuration without a `replacements` key makes the source raise `KeyError` (enovel-project.py:183); that error is not modelled, and the model's table is always present.
- The progress charts, pandoc runs, the NaNoWriMo update, the file watcher and the command-line handling are outside the modelled core. Only the daily-series loop behind the daily chart is modelled.
- Exceptions other than the ledger's unpack error, `int()`'s `ValueError` and the metadata's missing-setting `KeyError` are not modelled (I/O errors, encoding errors, a path that is a directory rather than a file).
- `int()` is modelled for ASCII digits, surrounding whitespace, one sign and underscores between digits. Other Unicode digits are not modelled.
- Scaffolder.Project.NewChapter: the chapter number is a `nat`; every call passes 1 or nothing (enovel-project.py:513, 710-714).
- Scaffolder.TwoNewChapters: distinct directories are proved only when the first call's directory is new; `NumberStalls` shows the other case.
- Assembler.NoTrailingRule: proved only when no normalised fragment ends with `-`; `TrailingDashes` shows the other case.
- Assembler.EmptyDirectoryIdle: proved only when no normalised fragment ends with `-`; `TrailingDashes` shows the other case.
- WordCounter.CountOfParagraphs: proved for an empty replacement table and fragments that are trimmed paragraphs without `-` or three newlines in a row. Other fragments can be changed by the second normalisation.
- WordCounter.Renormalized: the same condition as `CountOfParagraphs`. Only a `-` next to a newline or at either end of a fragment can meet the rule deletions, so the condition excludes hyphenated words that cannot; the narrower condition is not proved.
- Metadata.MetadataFields: proved when no setting holds a newline, since a newline inside a setting adds lines to the block. The reader is a naive `key: value` line reader, not the YAML parser pandoc uses.
- Metadata.MetadataCover: the same condition as `MetadataFields`.
- Ledger.ReadBack: proved for non-empty entries without whitespace at either end and without tabs or newlines, which is what dates and `str(n)` give.
- Ledger.RecordedReadBack: the same condition as `ReadBack`.
