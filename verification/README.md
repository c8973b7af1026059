# A Dafny model of the WSL2 CUDA helper and two workspace scripts

This project models, in Dafny, the decision logic of three tools from a
dotfiles repository:

- **The WSL2 CUDA setup helper.**
  - The `nvidia-smi` repair (`fix_nvidia_smi`) replaces a crashing WSL-side binary with a symbolic link to the Windows driver's binary. It first takes a timestamped backup and checks that the backup path stays in the binary's directory.
  - Three queries read the driver's version, its CUDA version and the GPU name from the host `nvidia-smi`.
  - Driver versions are ordered, and the driver's compatibility is judged against the minimum (528.33) and recommended (566.03) drivers for CUDA 12.9.
  - WSL2 detection, and the parsers for `/etc/os-release` and `/proc/version`.
  - The process runner's mapping of a child's outcome to a result or a `SubprocessError`, and the path-containment check `validate_path_safe`.
- **The VS Code extension selector.**
  - The status of an extension, and the per-category counts.
  - The line parser for a workspace `extensions.json`.
  - Loading a catalogue into categories sorted by name and by id.
  - The toggle, select-all and deselect-all actions.
  - The text `save_extensions` writes, both as written and as evidently intended (see Findings).
- **The session escape-sequence cleaner.** Its 17 regular expressions are modelled as patterns of the shape *fixed prefix, repeated class, fixed suffix*. It also covers:
  - the counting and deletion passes;
  - the decisions of `clean_file`;
  - the file case of `find_session_files`.

Everything the tools observe is an input of the model. This covers:
- whether a path exists, what is at it, and what a file contains;
- what each child process reports (exit status and output, a timeout, or a missing executable);
- the clock reading used in a backup name;
- whether a write succeeds.

The repair records every command line it runs and returns the file system it leaves behind.

Files:

| file | module | what |
|---|---|---|
| `wrappers.dfy` | `Wrappers` | `Option` and `Result` |
| `text.dfy` | `Text` | whitespace, strip, split and join, decimal digits, Python string order, sorted listing of a set |
| `constants.dfy` | `Constants` | versions, paths and timeouts |
| `subprocess.dfy` | `Subprocess` | `run_command`, lexical `Path.resolve`, `validate_path_safe` |
| `versions.dfy` | `Versions` | dotted numeric versions and their order |
| `driver.dfy` | `Driver` | driver queries and `check_driver_compatibility` |
| `system.dfy` | `System` | `is_wsl2`, `get_os_info`, `get_kernel_version` |
| `nvidia_smi.dfy` | `NvidiaSmi` | the repair state machine |
| `ext_selector.dfy` | `ExtSelector` | extension status, parsing, loading, actions |
| `ext_generate.dfy` | `ExtGenerate` | the saved text and its read-back |
| `session_cleaner.dfy` | `SessionCleaner` | escape-sequence patterns, counting, cleaning, `clean_file` |

## Model

| member | source | states |
|---|---|---|
| Subprocess.RunCommand | cuda-setup/cuda_cli/utils/subprocess_utils.py:44-66 | a completed child is returned unchanged unless `check` is set and its status is non-zero; a timeout or a missing executable is always an error; the error carries the status exactly when the child completed; a missing executable is reported by its name |
| Subprocess.CheckedAndUncheckedAgree | cuda-setup/cuda_cli/utils/subprocess_utils.py:53-59 | a checked run succeeds exactly when an unchecked run succeeds with status 0, that is when the child exited with 0 |
| Subprocess.ValidatePathSafe | cuda-setup/cuda_cli/utils/subprocess_utils.py:102-118 | without a parent every path is safe; with one, the path is safe exactly when its resolved segments are the parent's resolved segments followed by zero or more further segments |
| Subprocess.Collapse | cuda-setup/cuda_cli/utils/subprocess_utils.py:113 | resolution yields only normal segments (no empty, `.` or `..` segment) |
| Subprocess.CollapseConcat | cuda-setup/cuda_cli/utils/subprocess_utils.py:113 | resolving a path in two parts is resolving the second part from where the first ends |
| Subprocess.ResolveChild | cuda-setup/cuda_cli/utils/subprocess_utils.py:113 | `parent/name` resolves to the parent's segments plus `name` |
| Subprocess.ChildIsInside | cuda-setup/cuda_cli/utils/subprocess_utils.py:114-115 | an entry named by a normal segment lies inside its directory |
| Subprocess.ParentIsInside | cuda-setup/cuda_cli/utils/subprocess_utils.py:113-115 | a directory counts as inside itself |
| Subprocess.ResolveRootChild | cuda-setup/cuda_cli/utils/subprocess_utils.py:113 | `/name` resolves to the single segment `name` |
| Subprocess.DotDotEscapes | cuda-setup/cuda_cli/utils/subprocess_utils.py:113-115 | `parent/../sibling` is rejected as outside `parent` unless `sibling` names the parent itself |
| Subprocess.SegmentwiseContainment | cuda-setup/cuda_cli/utils/subprocess_utils.py:115 | containment is by whole segments: `dir/lib2/x` is not inside `dir/lib` |
| Versions.ParseRelease | cuda-setup/cuda_cli/core/driver.py:138-139 | a version parses exactly when every dot-separated piece is a non-empty digit run, into one number per piece, each the value of its digit run; anything else is the invalid-version error on that text |
| Versions.FormatParseRoundTrip | cuda-setup/cuda_cli/core/driver.py:138-139 | formatting a release and parsing it gives the release back |
| Versions.CompareRelease | cuda-setup/cuda_cli/core/driver.py:141-146 | the comparison is -1, 0 or 1 |
| Versions.CompareZeroIff | cuda-setup/cuda_cli/core/driver.py:141-146 | two releases compare equal exactly when they agree at every position, a missing segment counting as 0 |
| Versions.CompareFirstDiff | cuda-setup/cuda_cli/core/driver.py:141-146 | at the first position where two releases differ, the smaller segment decides: -1 or 1 |
| Versions.CompareLessIff | cuda-setup/cuda_cli/core/driver.py:141-146 | the comparison is -1 exactly when the first differing segment of the left release is smaller, and 1 exactly when that of the right one is |
| Versions.CompareReflexive | cuda-setup/cuda_cli/core/driver.py:141-146 | a release compares equal to itself |
| Versions.CompareAntisymmetric | cuda-setup/cuda_cli/core/driver.py:141-146 | swapping the arguments negates the comparison |
| Versions.CompareTransitive | cuda-setup/cuda_cli/core/driver.py:141-146 | "not less than" is transitive |
| Versions.TrailingZeroIgnored | cuda-setup/cuda_cli/core/driver.py:141-146 | a trailing zero segment never changes a comparison |
| Versions.CompareVersions | cuda-setup/cuda_cli/core/driver.py:128-146 | succeeds exactly when both texts are valid versions; otherwise it reports the first invalid one; the answer is -1, 0 or 1 |
| Versions.CompareVersionsOrder | cuda-setup/cuda_cli/core/driver.py:128-146 | for valid versions: -1 exactly when the first differing segment of the first is smaller, 0 exactly when all segments agree (missing ones counting as 0), 1 exactly when the first differing segment of the second is smaller |
| Versions.CompareVersionsReflexive | cuda-setup/cuda_cli/core/driver.py:128-146 | a valid version compares equal to itself |
| Versions.CompareVersionsAntisymmetric | cuda-setup/cuda_cli/core/driver.py:128-146 | swapping two valid versions negates the answer |
| Versions.VersionMeetsMinimum | cuda-setup/cuda_cli/core/driver.py:149-159 | defined on valid versions only, and true exactly when the release is not below the minimum's |
| Versions.MeetsMinimumInclusive | cuda-setup/cuda_cli/core/driver.py:149-159 | every version meets itself as a minimum |
| Versions.MeetsMinimumTransitive | cuda-setup/cuda_cli/core/driver.py:149-159 | meeting a version that meets a minimum meets that minimum |
| Versions.MeetsMinimumTotal | cuda-setup/cuda_cli/core/driver.py:149-159 | of two valid versions at least one meets the other |
| Versions.ParseTwoSegments | cuda-setup/cuda_cli/core/driver.py:138-139 | `major.minor` of two digit runs parses to their two values |
| Versions.LeadingZeroExample | cuda-setup/cuda_cli/core/driver.py:128-146 | `528.03` and `528.3` compare equal |
| Versions.MeetsMinimumExamples | cuda-setup/cuda_cli/core/driver.py:149-159 | `566.03` meets `528.33`, `500.00` does not, and `528.33` meets itself |
| Versions.TrailingZeroVersion | cuda-setup/cuda_cli/core/driver.py:128-146 | appending `.0` to a valid version gives an equal version |
| Driver.LabelMatchAt | cuda-setup/cuda_cli/core/driver.py:50-52 | the pattern matches at a position exactly when the label is followed by whitespace and a version character; the captured text is the maximal run of digits and dots after the whitespace |
| Driver.SpacesEnd | cuda-setup/cuda_cli/core/driver.py:50 | the greedy whitespace after the label stops at the first non-space character |
| Driver.SearchLabel | cuda-setup/cuda_cli/core/driver.py:50-54 | the result is the capture at the first position where the pattern matches, or nothing when it matches nowhere |
| Driver.LabelReadBack | cuda-setup/cuda_cli/core/driver.py:50-52 | a version written after the label and some whitespace is read back exactly |
| Driver.RunNvidiaSmi | cuda-setup/cuda_cli/core/driver.py:39-57 | the report is the stdout of a run that exits with 0; a non-zero status raises "nvidia-smi failed" with stderr; a runner error raises "Failed to get ..." |
| Driver.GetDriverVersion | cuda-setup/cuda_cli/core/driver.py:26-57 | no host binary gives nothing and runs nothing; otherwise one run, whose failure is an error and whose success gives the `Driver Version:` capture |
| Driver.GetDriverCudaVersion | cuda-setup/cuda_cli/core/driver.py:60-91 | as `GetDriverVersion`, for the `CUDA Version:` label |
| Driver.GetGpuName | cuda-setup/cuda_cli/core/driver.py:94-125 | the name is the report with surrounding whitespace removed, and nothing exactly when the report is all whitespace |
| Driver.ThresholdsOrdered | cuda-setup/cuda_cli/core/constants.py:11-12 | both thresholds are valid versions and the recommended driver meets the minimum, not the other way round |
| Driver.Classify | cuda-setup/cuda_cli/core/driver.py:206-220 | a verdict exists exactly for valid versions; otherwise the error names the version |
| Driver.ClassifyThreeWay | cuda-setup/cuda_cli/core/driver.py:206-220 | too old iff below the minimum; below recommended iff meeting the minimum but not the recommended; up to date iff meeting the recommended, which implies the minimum |
| Driver.CheckDriverCompatibility | cuda-setup/cuda_cli/core/driver.py:162-220 | no host binary gives "not found" with no versions; a missing driver version raises "Could not determine driver version"; a failed CUDA or name query is a query error; on success all three queries exited with 0, the info holds the parsed versions, the target CUDA and the stripped GPU name, compatibility holds exactly when the minimum is met, and the message is the verdict's message for the driver version |
| Driver.Judge | cuda-setup/cuda_cli/core/driver.py:189-220 | a verdict exactly for a valid driver version, else the version error on it; compatible exactly when the minimum is met, with the verdict's message |
| Driver.MalformedVersionIsAnError | cuda-setup/cuda_cli/core/driver.py:189-206 | a driver version such as `566.` ends the check with the version library's error, not a verdict |
| System.ScanWsl2 | cuda-setup/cuda_cli/core/system.py:38 | the scan succeeds exactly when `wsl2` occurs, case-insensitively, from the given position on |
| System.PatternIsWsl2Anywhere | cuda-setup/cuda_cli/core/system.py:38 | the two-alternative marker pattern matches exactly when `wsl2` occurs in any letter case |
| System.ContainsWsl2 | cuda-setup/cuda_cli/core/system.py:38 | the marker test agrees with the regular expression |
| System.IsWsl2 | cuda-setup/cuda_cli/core/system.py:14-43 | WSL2 exactly when WSL_DISTRO_NAME is non-empty, an interop marker exists, or a readable `/proc/version` matches the marker; a `/proc/version` that is not valid UTF-8 escapes as a decoding error when neither earlier test decides |
| System.KernelMarkerDetected | cuda-setup/cuda_cli/core/system.py:35-39 | a kernel string containing `wsl2` in any case is detected |
| System.GetWslDistroName | cuda-setup/cuda_cli/core/system.py:46-52 | the variable's value when set, even if empty, else `Unknown` |
| System.EmptyDistroName | cuda-setup/cuda_cli/core/system.py:26-52 | an empty WSL_DISTRO_NAME is reported as the empty name and is no evidence of WSL2 |
| System.ValueStart | cuda-setup/cuda_cli/core/system.py:67-68 | the value starts right after the key, or after one opening quote |
| System.FieldAt | cuda-setup/cuda_cli/core/system.py:67-68 | a match gives the maximal run of non-quote, non-newline characters after the key and optional quote, and there is one whenever such a character follows |
| System.SearchField | cuda-setup/cuda_cli/core/system.py:67-68 | the value at the first line start where the field pattern matches, or nothing |
| System.GetOsInfo | cuda-setup/cuda_cli/core/system.py:55-77 | NAME and VERSION from the file, each `Unknown` when absent, and both `Unknown` when the file is missing or cannot be read; content that is not valid UTF-8 escapes as a decoding error |
| System.QuotedFieldReadBack | cuda-setup/cuda_cli/core/system.py:67-68 | a quoted value is read back without its quotes |
| System.PlainFieldReadBack | cuda-setup/cuda_cli/core/system.py:67-68 | an unquoted value is read up to the end of its line |
| System.FirstLineField | cuda-setup/cuda_cli/core/system.py:67-68 | a field on the first line is what the search reports |
| System.EmptyQuotedFieldSkipped | cuda-setup/cuda_cli/core/system.py:67-68 | `KEY=""` does not match, so the search moves on |
| System.KernelAt | cuda-setup/cuda_cli/core/system.py:90 | `Linux version` followed by a non-space run matches, capturing the whole run |
| System.GetKernelVersion | cuda-setup/cuda_cli/core/system.py:80-96 | the capture at the first position where the kernel pattern matches, a run without whitespace, or `Unknown` when the file is missing, unreadable or nothing matches; content that is not valid UTF-8 escapes as a decoding error |
| System.KernelReadBack | cuda-setup/cuda_cli/core/system.py:90-92 | the release is read back up to the first whitespace |
| NvidiaSmi.TestNvidiaSmi | cuda-setup/cuda_cli/core/nvidia_smi.py:25-45 | the probe passes exactly when the binary exits with 0 |
| NvidiaSmi.StepFailure | cuda-setup/cuda_cli/core/nvidia_smi.py:98-143 | a failed privileged step's message starts with the step's prefix and carries stderr when the command completed |
| NvidiaSmi.RemoveBrokenSymlink | cuda-setup/cuda_cli/core/nvidia_smi.py:173-177 | `rm` runs with `check`; on success the entry is gone, on failure nothing changes and the message names the removal |
| NvidiaSmi.BackupNvidiaSmi | cuda-setup/cuda_cli/core/nvidia_smi.py:71-100 | nothing unless a regular file is there; an unsafe backup path is an error before any command; otherwise the file moves to the timestamped backup exactly when `mv` succeeds |
| NvidiaSmi.BackupPathInside | cuda-setup/cuda_cli/core/nvidia_smi.py:82-87 | a timestamp without a slash always names a backup inside the binary's directory |
| NvidiaSmi.CreateSymlink | cuda-setup/cuda_cli/core/nvidia_smi.py:103-143 | no host binary is an error; the directory is created only when missing; success leaves the link to the host binary; failure keeps the entry and backups |
| NvidiaSmi.RepairFile | cuda-setup/cuda_cli/core/nvidia_smi.py:179-199 | a working file is kept; a changed entry is the link; a failed final probe reports "still not working"; the last command is a probe; backups are only added |
| NvidiaSmi.RepairFileReports | cuda-setup/cuda_cli/core/nvidia_smi.py:179-199 | a successful repair without a link found the file working; with a link, the flag is the final probe's result and a working result joins the backup message (when the binary was moved), the link message and "now working" with `; `; every `mv`, `mkdir` and `ln` of a successful repair exited with 0 |
| NvidiaSmi.ReplaceFileReports | cuda-setup/cuda_cli/core/nvidia_smi.py:88-199 | a successful replacement ran `ln`, its flag is the final probe's result, a working result lists the backup (exactly when `mv` ran) and the link, and every privileged step it ran exited with 0 |
| NvidiaSmi.FixLink | cuda-setup/cuda_cli/core/nvidia_smi.py:167-177 | a working link is kept; a broken one is removed and the repair continues as if nothing were there; on success every privileged step exited with 0 and a run that links reports the final probe |
| NvidiaSmi.FixNvidiaSmi | cuda-setup/cuda_cli/core/nvidia_smi.py:146-199 | no host binary is an error; a working link or file is kept without privileged commands; the reported outcome is the last probe's; success implies every `rm`, `mv`, `mkdir` and `ln` that ran exited with 0, so any failing one fails the run; a run that links reports true exactly when the final probe passes, with the steps' messages joined by `; ` |
| NvidiaSmi.FixIdempotent | cuda-setup/cuda_cli/core/nvidia_smi.py:149 | after a successful run, a second run with passing probes succeeds, changes nothing and runs no privileged command |
| NvidiaSmi.FixSafety | cuda-setup/cuda_cli/core/nvidia_smi.py:146-199 | whatever the commands report, a changed entry is the host link, a regular file is never lost without a backup, and earlier backups are kept |
| NvidiaSmi.CrashingBinaryRepaired | cuda-setup/cuda_cli/core/nvidia_smi.py:180-197 | a crashing binary is probed, moved to its backup and replaced by the link, and the message lists the three steps |
| NvidiaSmi.BrokenLinkReplaced | cuda-setup/cuda_cli/core/nvidia_smi.py:168-197 | a broken link is removed and replaced without a backup |
| ExtSelector.Status | scripts/vscode-extension-selector.py:47-54 | check mark iff active; `#` iff commented and not active; circle iff neither |
| ExtSelector.StatusText | scripts/vscode-extension-selector.py:56-63 | the three texts under the same precedence |
| ExtSelector.StatusAgrees | scripts/vscode-extension-selector.py:47-63 | the symbol and the text always describe the same state |
| ExtSelector.CountActive | scripts/vscode-extension-selector.py:76 | at most the length; equal to it iff all are active; zero iff none is |
| ExtSelector.CountActiveConcat | scripts/vscode-extension-selector.py:76 | counting distributes over concatenation |
| ExtSelector.ActiveCount | scripts/vscode-extension-selector.py:73-81 | the active count never exceeds the total count, reaching it iff every extension is active |
| ExtSelector.SecondPiece | scripts/vscode-extension-selector.py:298-300 | a line with a quote splits into at least two pieces, and the second is the text after the first quote up to the next |
| ExtSelector.ParseLine | scripts/vscode-extension-selector.py:287-305 | a line is skipped iff it has no quote; otherwise it is commented iff its stripped text starts with `//`, and its id is the quoted text after the first quote |
| ExtSelector.CollectMembers | scripts/vscode-extension-selector.py:302-305 | an id is collected as active (commented) iff some parsed line gives it uncommented (commented) |
| ExtSelector.ParseLines | scripts/vscode-extension-selector.py:286-307 | an id is active iff some line parses to it uncommented, and commented iff some line parses to it commented |
| ExtSelector.Lines | scripts/vscode-extension-selector.py:286-287 | at least one line, none holding a line break |
| ExtSelector.LinesJoin | scripts/vscode-extension-selector.py:286-287 | lines without breaks, joined by newlines, are read back as the same lines |
| ExtSelector.ParseExtensionsJson | scripts/vscode-extension-selector.py:278-307 | a missing file has no ids; a present one is parsed line by line |
| ExtSelector.ReadExtensionsJson | scripts/vscode-extension-selector.py:278-307 | fails, with the exception's text, exactly when the file exists but cannot be opened or decoded; a missing file has no ids; a readable one is parsed line by line |
| ExtSelector.ParseQuotedLine | scripts/vscode-extension-selector.py:288-300 | a quoted line parses to the second quote-separated piece of its stripped text |
| ExtSelector.QuotedSplit | scripts/vscode-extension-selector.py:298-300 | the piece after the first quote of a quoted id is the id |
| ExtSelector.StripEntry | scripts/vscode-extension-selector.py:288 | stripping a line removes its indentation and trailing whitespace without moving the quoted id |
| ExtSelector.ParseEntryLine | scripts/vscode-extension-selector.py:287-305 | an indented `"id"` line parses as active, and as commented behind `//`, whatever follows the id |
| ExtSelector.Index | scripts/vscode-extension-selector.py:235-257 | the index's keys are exactly the ids of the extensions |
| ExtSelector.IndexKeysMatch | scripts/vscode-extension-selector.py:235-257 | each id maps to an extension carrying that id |
| ExtSelector.IndexHoldsLast | scripts/vscode-extension-selector.py:235-257 | each id maps to the last extension with that id |
| ExtSelector.InCategory | scripts/vscode-extension-selector.py:237-239 | the list holds exactly the extensions of the category |
| ExtSelector.Group | scripts/vscode-extension-selector.py:237-261 | the groups are keyed by exactly the categories that occur |
| ExtSelector.GroupLists | scripts/vscode-extension-selector.py:237-239 | each group is its category's extensions in their original order, and non-empty |
| ExtSelector.InsertKeeps | scripts/vscode-extension-selector.py:269 | insertion adds exactly the one extension |
| ExtSelector.InsertSorted | scripts/vscode-extension-selector.py:269 | insertion keeps a list sorted by id |
| ExtSelector.SortByIdSorts | scripts/vscode-extension-selector.py:269 | sorting by id orders the list and keeps every extension as often as it occurs |
| ExtSelector.LoadedShape | scripts/vscode-extension-selector.py:224-264 | loading lists the catalogue's extensions, then one placeholder per id only the file names |
| ExtSelector.LoadedKeys | scripts/vscode-extension-selector.py:224-257 | the known ids are exactly the catalogue's ids and the ids the file names |
| ExtSelector.LoadedEntries | scripts/vscode-extension-selector.py:224-257 | each id maps to an extension with that id and flags from the file; a catalogued id maps to its last catalogue entry, any other to an `unknown` / `(not in database)` placeholder |
| ExtSelector.LoadedSelection | scripts/vscode-extension-selector.py:242-264 | the selection starts as the file's active ids, and the state is valid |
| ExtSelector.LoadData | scripts/vscode-extension-selector.py:212-271 | the known ids are the catalogue's ids and every id the file names, the selection is the file's active ids, and the state is valid |
| ExtSelector.Mount | scripts/vscode-extension-selector.py:202-219 | ends with `Error loading data: ` and the exception's text exactly when `extensions.json` exists but cannot be read; otherwise the loaded state knows the catalogue's ids and every id the file names, selects the file's active ids, and is valid |
| ExtSelector.CategoriseKeeps | scripts/vscode-extension-selector.py:267-271 | one category per group, holding that group's extensions |
| ExtSelector.CategoriseSorts | scripts/vscode-extension-selector.py:267-271 | each category is non-empty, sorted by id and holds only its own extensions |
| ExtSelector.LoadedCategories | scripts/vscode-extension-selector.py:266-271 | category names strictly ascend, and each category is non-empty, holds only its own extensions and is sorted by id |
| ExtSelector.LoadedAreListed | scripts/vscode-extension-selector.py:266-271 | every known extension is listed under its category |
| ExtSelector.Toggle | scripts/vscode-extension-selector.py:351-366 | flips membership of the id under the cursor and of no other; no cursor changes nothing |
| ExtSelector.SelectAll | scripts/vscode-extension-selector.py:368-371 | the selection becomes exactly the known ids |
| ExtSelector.DeselectAll | scripts/vscode-extension-selector.py:373-376 | the selection becomes empty |
| ExtSelector.ToggleTwice | scripts/vscode-extension-selector.py:361-364 | toggling twice restores the state |
| ExtSelector.ActionsKeepValid | scripts/vscode-extension-selector.py:361-413 | all three actions keep every selected id known, so the lookup when saving cannot fail |
| ExtSelector.ToggleAfterBulk | scripts/vscode-extension-selector.py:361-376 | toggling after select-all leaves all but one selected; after deselect-all, only that one |
| ExtGenerate.ToUpper | scripts/vscode-extension-selector.py:429 | upper-cases ASCII letters and keeps every other character |
| ExtGenerate.ToLower | scripts/vscode-extension-selector.py:429 | lower-cases ASCII letters and keeps every other character |
| ExtGenerate.Title | scripts/vscode-extension-selector.py:429 | `str.title`: the length is kept, non-letters are kept, letters keep their identity, and a letter is upper case exactly when it starts a word |
| ExtGenerate.TitleIdempotent | scripts/vscode-extension-selector.py:429 | title-casing twice is title-casing once |
| ExtGenerate.TitleLacks | scripts/vscode-extension-selector.py:429 | title-casing introduces no new non-letter, such as a quote or a line break |
| ExtGenerate.EntryLines | scripts/vscode-extension-selector.py:431-436 | one uncommented, indented line per extension of a category, with its id, and a comma on every line but the last |
| ExtGenerate.EntryTail | scripts/vscode-extension-selector.py:432-436 | the text after the id starts with a comma exactly when another entry follows |
| ExtGenerate.AppendComma | scripts/vscode-extension-selector.py:427-428 | adding the separator changes only the last line |
| ExtGenerate.AppendCommaAtLineEnd | scripts/vscode-extension-selector.py:427-428 | as written, the separator is appended to the rendered last line |
| ExtGenerate.Lookup | scripts/vscode-extension-selector.py:412-413 | succeeds exactly when every id is known, giving each id's extension; otherwise it fails on the first unknown id |
| ExtGenerate.LinesOfText | scripts/vscode-extension-selector.py:287-466 | the lines of the written text are the rendered lines, then one empty line |
| ExtGenerate.ParseText | scripts/vscode-extension-selector.py:278-466 | reading a text of well-formed lines gives exactly the ids of its uncommented and its commented entries |
| ExtGenerate.BlocksFacts | scripts/vscode-extension-selector.py:424-438 | the category blocks are well-formed and hold exactly the ids of the grouped extensions, none commented |
| ExtGenerate.OptionalFacts | scripts/vscode-extension-selector.py:444-459 | the optional section is well-formed and lists exactly the given ids, all commented |
| ExtGenerate.GenerateFacts | scripts/vscode-extension-selector.py:410-461 | the generated lines are well-formed; the uncommented entries are the selection plus the `recommendations` key, and the commented ones are the unselected commented ids |
| ExtGenerate.GenerateRoundTrip | scripts/vscode-extension-selector.py:278-466 | reading the generated text back gives the selection (plus `recommendations`) as active and the unselected commented ids as commented |
| ExtGenerate.GenerateLines | scripts/vscode-extension-selector.py:410-461 | generation fails exactly when a selected id is unknown, and then on the least such id, the first the sorted loop reaches |
| ExtGenerate.ParsedIdsQuotable | scripts/vscode-extension-selector.py:298-300 | every id parsed from a file can be written between quotes again |
| ExtGenerate.SaveExtensions | scripts/vscode-extension-selector.py:400-466 | the old file becomes the backup; the write fails exactly when a selected id is unknown, on the least such id |
| ExtGenerate.SaveExtensionsAsWritten | scripts/vscode-extension-selector.py:400-466 | as written, likewise: the old file becomes the backup, and the write fails exactly when a selected id is unknown, on the least such id |
| ExtGenerate.SaveRoundTrip | scripts/vscode-extension-selector.py:400-466 | saving keeps the old file as the backup and writes a file that reads back as the selection, keeping the old file's unselected commented ids |
| ExtGenerate.SaveAsWrittenDropsOptional | scripts/vscode-extension-selector.py:403-442 | as written, the saved file never keeps a commented id |
| ExtGenerate.SaveLosesCommentedExample | scripts/vscode-extension-selector.py:403-459 | a file with the commented id `x.y`, saved with nothing selected, loses it as written and keeps it as intended |
| ExtGenerate.SeparatorsAfterIds | scripts/vscode-extension-selector.py:427-436 | with the comma after the id, a recommendation carries a comma exactly when another recommendation follows it |
| ExtGenerate.CommaInsideComment | scripts/vscode-extension-selector.py:427-434 | as written, two described extensions in two categories give a first line whose comma ends its `//` comment, so the id has no comma although a recommendation follows |
| SessionCleaner.CleanPatternsAnchored | scripts/claude-session-cleaner.py:26-50 | there are 17 patterns, each with a fixed prefix and a suffix whose first class the repeated class cannot match |
| SessionCleaner.MatchLen | scripts/claude-session-cleaner.py:26-50 | a match covers at least the fixed prefix and suffix and lies within the text |
| SessionCleaner.MatchLenAccepts | scripts/claude-session-cleaner.py:26-50 | for these patterns, the longest-run match is exactly the set of lengths the regular expression accepts at a position |
| SessionCleaner.NoMatchAt | scripts/claude-session-cleaner.py:53-69 | a pattern matches nowhere in a text exactly when no position starts a match |
| SessionCleaner.Count | scripts/claude-session-cleaner.py:66-69 | `re.findall` finds no match exactly when the pattern matches at no position |
| SessionCleaner.Delete | scripts/claude-session-cleaner.py:53-57 | `re.sub` with an empty replacement never lengthens the text, and leaves it unchanged exactly when the pattern matches at no position |
| SessionCleaner.DeleteSubsequence | scripts/claude-session-cleaner.py:53-57 | deleting the matches of a pattern leaves a subsequence of the text |
| SessionCleaner.DeleteLength | scripts/claude-session-cleaner.py:53-69 | each deleted match removes at least the pattern's fixed characters |
| SessionCleaner.EscapeCount | scripts/claude-session-cleaner.py:60-70 | the count is zero exactly when neither escape spelling matches anywhere |
| SessionCleaner.NoBackslashNoCount | scripts/claude-session-cleaner.py:60-70 | text without a backslash has no escape sequence to count |
| SessionCleaner.PassesSubsequence | scripts/claude-session-cleaner.py:53-57 | a series of passes leaves a subsequence of the text |
| SessionCleaner.PassesSplit | scripts/claude-session-cleaner.py:53-57 | running a list of passes is running its first part, then its second |
| SessionCleaner.Clean | scripts/claude-session-cleaner.py:22-70 | cleaning gives a subsequence of the text, no longer than it, and strictly shorter when the text has a counted escape sequence |
| SessionCleaner.LastDot | scripts/claude-session-cleaner.py:88-109 | the index of the last dot of a name, or none when it has no dot |
| SessionCleaner.BackupName | scripts/claude-session-cleaner.py:88 | stem, suffix and `.backup` make the file name followed by `.backup` |
| SessionCleaner.JsonlSuffix | scripts/claude-session-cleaner.py:109 | the suffix is `.jsonl` exactly when the name ends with `.jsonl` after at least one other character |
| SessionCleaner.SessionFilesOfFile | scripts/claude-session-cleaner.py:108-109 | a file is its own session list exactly when its name ends in `.jsonl` after another character, and otherwise the list is empty |
| SessionCleaner.CleanFile | scripts/claude-session-cleaner.py:73-103 | any exception, and a file with nothing to count, give `(0, 0)`; the file is rewritten exactly when the first count is positive, with the cleaned text, which is a shorter subsequence and whose count is the second number; a backup is written only when asked for, under the name plus `.backup`, holding the old content |
| SessionCleaner.CleanFileRewrites | scripts/claude-session-cleaner.py:82-99 | when every step succeeds, a file is rewritten exactly when it has escape sequences, and it is backed up exactly when asked |
| Text.StripWindow | scripts/vscode-extension-selector.py:288 | the stripped text is a window of the original with only whitespace outside it |
| Text.SplitJoin | scripts/vscode-extension-selector.py:298 | splitting pieces joined by a separator they lack gives the pieces back |
| Text.JoinSplit | scripts/vscode-extension-selector.py:298 | joining the pieces of a split gives the text back |
| Text.NatToStringRoundTrip | cuda-setup/cuda_cli/core/driver.py:138-139 | a number's decimal digits read back as the number |
| Text.LexLeTotal | scripts/vscode-extension-selector.py:267-412 | Python string order is total |
| Text.LexLeTransitive | scripts/vscode-extension-selector.py:267-412 | Python string order is transitive |
| Text.SortedList | scripts/vscode-extension-selector.py:412-454 | `sorted` of a set lists its members once each, in strictly ascending order |

## Left out

- The child processes themselves, `sudo`, timeouts and kill semantics are not modelled. What each command reports is an input.
- `check_command_exists` and `check_file_executable` are not modelled. Nothing in the modelled core calls them.
- The Rich output, the Typer commands and `main` are not modelled. They only sequence the core calls and print.
- The Textual interface of the selector is not modelled: CSS, `compose`, `populate_tree`, the tree event handlers, `refresh_tree` and the preview. The `main` and argument handling of the cleaner are also left out.
- The file system is not modelled. Existence, contents and the success of each write are inputs. `Path.resolve` is lexical, with no symbolic links. `glob` is left out.
- Subprocess.RunCommand: requires a non-empty command. An empty list makes the Python runner fail with an error outside its own exception handling, and no caller passes one.
- Subprocess.RunCommand: spawn errors other than a missing executable are not modelled, for example a permission error.
- Versions.ParseRelease: accepts only dotted digit runs. Full PEP 440 versions (epochs, pre-, post- and dev-releases, a leading `v`, surrounding whitespace) are reported as invalid, although the version library would accept them.
- Driver.LabelMatchAt: `\s` is modelled with the full `str.isspace` set, and `[0-9.]` with ASCII digits.
- NvidiaSmi.FixNvidiaSmi: the target shown for a working link is the link's own target. Chains of links and resolution errors are not followed.
- NvidiaSmi.FixNvidiaSmi: a command that does not succeed is taken to change nothing. A partly completed `mv` or `ln` is not modelled.
- NvidiaSmi.FixNvidiaSmi: concurrent repair runs are not modelled.
- NvidiaSmi.FixNvidiaSmi: the `datetime.now()` timestamp is an input string.
- SessionCleaner.CleanPatternsAnchored: `\d` is read as the ASCII digits. Python also matches other Unicode decimal digits.
- ExtGenerate.Title: the letters `str.title` changes are the ASCII letters. Case mapping of other scripts is not modelled.
- ExtSelector.Lines: Python reads the file in universal-newline mode, where `\n`, `\r` and `\r\n` each end a line. The model splits at every `\n` and `\r`, so a `\r\n` gives an extra empty line, which the parser skips as blank.
- System.IsWsl2: file contents are decoded as UTF-8, the usual locale encoding. Whether a file decodes is an input, and the same holds for GetOsInfo and GetKernelVersion.
- ExtSelector.ParseExtensionsJson: takes text that was read, or no file. An existing file that cannot be opened or decoded is the failure of ExtSelector.ReadExtensionsJson and ExtSelector.Mount.
- ExtSelector.LoadData: takes the file's text, or no file; an unreadable file is handled by ExtSelector.Mount. The catalogue is an already-decoded list of records. JSON decoding, and a record without an `id` (which raises in Python), are not modelled.
- ExtGenerate.GenerateRoundTrip: states which ids the saved text holds and in which role. It does not state the order of the lines, or that each selected id appears only once.
- ExtGenerate.SaveExtensions: the backup name's timestamp, a failing rename, `mkdir` of the parent directory and a failing write are not modelled. The corrected version reads the old file before the rename, and an old file that cannot be read is not modelled there. A failed lookup is modelled as an error outcome.
- SessionCleaner.CleanFile: opening a file for writing truncates it, so a failing write can leave it empty or partly written. The model treats a failed write as leaving the old content.
- SessionCleaner.CleanFile: the error message printed to stderr is not modelled.
- SessionCleaner.CleanFile: an unreadable file and a file that is not valid UTF-8 both count as a failed read.
- SessionCleaner.CleanFile: `read` is the text as Python's text mode delivers it, with universal newlines: `\r\n` and a lone `\r` have already become `\n`. So the backup and the rewritten file hold the translated text. When a file is rewritten, its `\r\n` and `\r` line endings also become `\n`, and the model does not show that change.
- SessionCleaner.Clean: states that cleaning shortens text with a counted sequence. It does not state that the count after cleaning is zero, and it need not be. Deleting one sequence can join the text around it into a new one, as in `\u00` + `\\033[1x` + `1b[1y`.

## Findings

| source | as written | input that shows it | evidently intended | confidence | as-written member | corrected member |
|---|---|---|---|---|---|---|
| scripts/vscode-extension-selector.py:403-442 | the existing `extensions.json` is renamed to its backup before it is parsed again for commented ids, so that parse finds no file and the optional section is never written | a file holding only `        // "x.y"`, saved with nothing selected: the new file has no `x.y` line | read the commented ids before the rename, so unselected commented extensions stay listed as optional | high (not executed) | ExtGenerate.SaveAsWrittenDropsOptional | ExtGenerate.SaveRoundTrip |
| scripts/vscode-extension-selector.py:427-434 | the comma between two categories is appended to the previous line, which ends in a `// description` comment when the extension is described, so the comma lands inside the comment | two selected described extensions `a.x` and `b.y` in categories `a` and `b`: the line `"a.x" // desc,` has no separator before `"b.y"` | the comma follows the id, as it does between entries of one category | high (not executed) | ExtGenerate.CommaInsideComment | ExtGenerate.SeparatorsAfterIds |
