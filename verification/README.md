# re-execute (`rex`) core, modelled in Dafny

`rex` watches files and re-runs a command when they change. This project
models the core of that pipeline:

- **The change filter** (`src/files/utils.rs`, module `FileFilter`). It
  checks the extension allow-list, whether the file still exists, the
  user's regular expressions, the `.gitignore` rules and hidden
  directories. Only an event that passes all of them reaches the queue.
  As written, the `.gitignore` check never fires (see "## Findings").
- **The `.gitignore` engine** (`src/files/git.rs`). `GitRule` covers
  compiling one rule line into tokens. `GitMatch` covers matching the
  tokens against a path relative to the rule file's directory, and the
  two passes of `is_git_ignored`. `GitFixed` holds the corrected versions
  of four behaviours that contradict the gitignore(5) text the file quotes
  (see "## Findings").
- **The debounce-and-dispatch queue** (`src/command/queue.rs`, module
  `Dispatch`). The queue collects `(file, watch)` pairs and waits until
  no update has come for 200 ms. Then it takes one pair, or all of them in
  batch mode. It drops paths that no longer exist, expands `{file}` and
  `{files}` in the command template, numbers the command, reports its
  start and hands it to a worker.
- **The older synchronous queue** (`src/command_queue.rs`, module
  `LegacyQueue`). It validates a template, collects files and expands the
  template.
- **Argument validation** (`src/args.rs`, module `Arguments`). Extensions
  are lowercased and lose one leading dot, and `.` is watched when no file
  is given.
- **Exit codes** (`src/command/exit_code.rs`, module `ExitCodes`). The
  code of a finished process (on Unix, 128 plus the signal) and the
  three-column text the display draws for it.

Paths (module `Paths`) are lists of normal components with an
absolute/relative flag. Equality, `strip_prefix`, `pop` and `file_name`
work on components, as in Rust's `std::path`. `relative_path_within_dir`
works on the rendered strings, as the source does.

How state is modelled:

- The queues are classes whose methods update their fields as the Rust
  methods do.
- `Queue::run` becomes `Step`, one iteration of its loop, and `Run`, which
  steps through a finite sequence of iterations.
- What the loop observes in each iteration is a parameter `Tick`: the
  `try_recv` result, the clock in milliseconds, the set of existing paths
  and whether the report channel still has a receiver.
- Command lines handed to workers are recorded in the ghost log
  `spawned`. Start reports are recorded in `reports`.
- Pulses of the abort flag are counted in `abortPulses`.

Loops in the source are methods with loop invariants, each proved against
a specification function:

| method | specification |
|---|---|
| `FromStr`, `ReadClass` | `Tokenize`, `ParseClass` |
| `StringMatches` | `Matches` |
| `IsHidden` | `Hidden` |
| `RelativePathWithinDir` | `RelativeText` |
| `Validate` | `NormalizeExt` |
| `BuildArgs` | `ExpandAll` |
| `BuildCommandLine` | `ExpandOld` |

## Model

| member | source | states |
|---|---|---|
| Common.LowerStr | src/args.rs:68 | lowercasing keeps the length and maps every character through the ASCII lowercase map |
| Common.LowerStrOfLowercase | src/files/utils.rs:62 | text without capital letters is its own lowercase form |
| Common.ReplaceAbsent | src/command/queue.rs:156-162 | replacing a placeholder that does not occur leaves the argument unchanged |
| Common.ContainsAfterPlain | src/command/queue.rs:156-162 | a prefix holding no first character of the placeholder neither adds nor hides an occurrence |
| Common.ReplaceAfterPlain | src/command/queue.rs:156-162 | replacing in text after such a prefix keeps the prefix as it is |
| Common.ReplaceEmbedded | src/command/queue.rs:156-162 | a placeholder after such a prefix is found, becomes the replacement in place, and replacing goes on in the rest |
| Paths.StripPrefix | src/files/git.rs:179-182 | `strip_prefix` succeeds exactly when the directory is the file or one of its ancestors; the result is relative, and appended to the directory it gives back the file |
| Paths.LastDot | src/files/utils.rs:53 | the index found is a dot with no dot after it, and there is none when the name has no dot |
| Paths.LastDotAt | src/files/utils.rs:53 | the last dot is exactly the dot with no dot after it |
| Paths.NameExtensionIsFinal | src/files/utils.rs:53-62 | the extension of `stem.ext` (with a non-empty stem) is the text after the last dot, however many dots the stem holds |
| Paths.JoinAppend | src/command/queue.rs:161 | joining two non-empty lists puts exactly one separator between the two joins |
| Paths.JoinStartsWithComponent | src/files/utils.rs:144 | the string form of a relative path starts with its first component, so not with `/` |
| GitRule.PlainRun | src/files/git.rs:157-164 | a literal run stops at the first `/`, `*`, `?`, `[` or `\` and contains none of them |
| GitRule.ClassBody | src/files/git.rs:139-151 | the rest after a class body is no longer than the text, and an unterminated class runs to the end of the line: with no `]` nothing is left |
| GitRule.ParseClass | src/files/git.rs:128-154 | the text after `[` always yields a class token, negated exactly when it starts with `!` or `^`; the rest left is no longer than the text, and is empty when no `]` closes the class |
| GitRule.Tokenize | src/files/git.rs:109-167 | a pattern body yields no tokens only when it is empty or a lone `\`, which is dropped |
| GitRule.Compile | src/files/git.rs:95-171 | no rule exactly for an empty or `#` line; a rule is negated exactly when the line starts with `!` |
| GitRule.FromStr | src/files/git.rs:95-171 | the character loop of `from_str` yields exactly `Compile(line)`: comment and empty lines give none, otherwise the tokens of the body |
| GitRule.ReadToken | src/files/git.rs:109-167 | one turn of the loop consumes at least one character and yields the tokens `Tokenize` gives for that prefix |
| GitRule.ReadClass | src/files/git.rs:128-154 | the class loop reads ranges up to `]` or the end of the line, exactly as `ParseClass` describes |
| GitRule.ClassItem | src/files/git.rs:139-151 | one item of a class body: the closing `]`, a range `a-b` (a dangling `a-` adds nothing), or a single character |
| GitRule.ReadLiteral | src/files/git.rs:155-166 | the literal arm takes the current character and every following ordinary character |
| GitRule.PlainTextIsOneLiteral | src/files/git.rs:155-166 | text without special characters compiles to one literal token holding all of it |
| GitRule.PlainRunOfPrefix | src/files/git.rs:158-164 | the literal run of plain text followed by a special character ends exactly at that character |
| GitRule.BlankLineIsLiteral | src/files/git.rs:99-171 | a line of spaces is not trimmed: it becomes a rule whose single literal is those spaces |
| GitRule.NegationDropsNextChar | src/files/git.rs:103-107 | as written, `!` plus a character plus plain text compiles to a negated literal without that character, while without `!` that character is kept |
| GitRule.TokenizeCanonical | src/files/git.rs:109-167 | every token list the loop can produce is canonical: literals are non-empty, and longer ones hold no special character; no two such literals are adjacent; no asterisk token follows `*`; a class range never starts with `]` |
| GitRule.TokenizeUnparse | src/files/git.rs:109-167 | rendering a canonical token list back to pattern text and compiling it gives the same tokens |
| GitRule.RetokenizeIsStable | src/files/git.rs:109-167 | compiling is a fixed point through rendering: render the tokens of any line and compile again, and the tokens are unchanged |
| GitRule.ClassBodyOfText | src/files/git.rs:139-151 | a class body written as `a-b` items and `]` reads back as those ranges and leaves the rest untouched |
| GitRule.ParseClassOfText | src/files/git.rs:128-154 | a class written with its optional `!` reads back as that class |
| GitRule.TokenizeTokenText | src/files/git.rs:109-167 | the text of one token, followed by text that does not extend it, reads back as that token first |
| GitMatch.NonSlashRun | src/files/git.rs:214-222 | `*` consumes the longest prefix without `/` |
| GitMatch.ClassMatches | src/files/git.rs:254-270 | as written, a class accepts a character exactly when it is not negated and the character lies in some range, so a negated class accepts nothing |
| GitMatch.StringMatches | src/files/git.rs:188-276 | the two-cursor loop of `string_matches` decides exactly `Matches`: tokens consumed in order, all characters consumed at the end |
| GitMatch.Advance | src/files/git.rs:193-270 | one arm for a token other than `**` either fails, and then no match exists, or moves the cursor without changing the outcome |
| GitMatch.MatchSomeSuffix | src/files/git.rs:229-241 | `**` followed by tokens matches exactly when the tokens match some non-empty suffix of the rest |
| GitMatch.MatchLiteral | src/files/git.rs:194-207 | a literal arm succeeds exactly when the text at the cursor starts with the literal, and then advances by its length |
| GitMatch.SkipSegment | src/files/git.rs:214-222 | the `*` arm moves the cursor to the next `/` or to the end |
| GitMatch.FileMatches | src/files/git.rs:174-185 | a rule never matches a file outside the rule set's directory |
| GitMatch.IsGitIgnored | src/files/git.rs:5-44 | as written, `is_git_ignored` answers false for every file and every rule set |
| GitMatch.IsGitIgnoredIgnoresMatches | src/files/git.rs:28-43 | a file that a plain rule matches is still reported as not ignored |
| GitMatch.StarThenNonSlashNeverMatches | src/files/git.rs:214-222 | `*` followed by `?` or by a literal not starting with `/` matches no string, because `*` has already eaten the segment |
| GitMatch.StarDotLogMatchesNothing | src/files/git.rs:214-222 | as written, the rule `*.log` compiles to `*` then `.log` and matches no path at all |
| GitMatch.NonSlashRunOfSegment | src/files/git.rs:214-222 | on a name without `/`, `*` runs to its end |
| GitMatch.FixedWidthMatch | src/files/git.rs:188-276 | without `*` and `**`, a match consumes exactly one character per `?`, `/` and class and the length of each literal |
| GitMatch.SlashFreeMatch | src/files/git.rs:188-276 | a pattern of `*`, `?` and slash-free literals only matches text without `/` |
| GitMatch.TokenizePlainThen | src/files/git.rs:155-166 | plain text followed by a special character compiles to one literal, then the tokens of the rest |
| GitMatch.TokenizeSlashDoubleStar | src/files/git.rs:117-126 | `/**` compiles to a slash and a double asterisk |
| GitMatch.TokenizeTrailingDoubleStar | src/files/git.rs:109-167 | `name/**` compiles to the literal, a slash and a double asterisk |
| GitMatch.TrailingDoubleStar | src/files/git.rs:223-228 | `name/**` matches exactly the paths that start with `name/`, at any depth |
| GitMatch.SlashNameMatches | src/files/git.rs:194-213 | a slash then a literal match exactly `/` followed by that literal |
| GitMatch.TokenizeLeadingDoubleStar | src/files/git.rs:109-167 | `**/name` compiles to a double asterisk, a slash and the literal |
| GitMatch.LeadingDoubleStar | src/files/git.rs:223-242 | `**/name` matches exactly the paths ending in `/name`, so it does not match `name` at the top level |
| GitFixed.CompileFixed | src/files/git.rs:103-107 | corrected `from_str`: no rule exactly for an empty or `#` line; negated exactly when the line starts with `!` |
| GitFixed.NegationOnlyFlipsFlag | src/files/git.rs:103-107 | a leading `!` only sets the flag; the rest compiles to the same tokens as without it |
| GitFixed.FixedExtendsAsWritten | src/files/git.rs:188-276 | everything the matcher as written accepts, the corrected matcher accepts too |
| GitFixed.LiteralMatchesItself | src/files/git.rs:194-207 | a literal pattern matches exactly its own text |
| GitFixed.StarLiteralFixed | src/files/git.rs:214-222 | with backtracking, `*` then a slash-free literal matches exactly the slash-free names ending in that literal |
| GitFixed.StarLiteralSound | src/files/git.rs:214-222 | any corrected match of `*` and a slash-free literal is a slash-free name ending in the literal |
| GitFixed.NegatedClassFixed | src/files/git.rs:254-270 | a corrected negated class accepts a character outside its ranges and rejects one inside |
| GitFixed.FileMatchesFixed | src/files/git.rs:174-185 | a corrected rule never matches a file outside its rule set's directory |
| GitFixed.IsGitIgnoredFixed | src/files/git.rs:10-43 | a file is ignored exactly when some plain rule matches it and no negated rule does |
| GitFixed.SomeRuleMatchesAppend | src/files/git.rs:12-41 | the rule sets collected from several directories are searched as one list |
| GitFixed.AddingRulesIsMonotone | src/files/git.rs:10-43 | a further `.gitignore` holding only plain rules can only add ignored files; one holding only negated rules can only remove them |
| GitFixed.AtRoot | src/files/git.rs:178-184 | a rule in a `.gitignore` at the root is tried on the file's own name |
| GitFixed.PlainThenNegatedAtRoot | src/files/git.rs:10-43 | with a plain rule and a negated rule at the root, a file is ignored exactly when the plain rule matches it and the negated one does not |
| GitFixed.LogRulesAtRoot | src/files/git.rs:10-43 | with `*.log` and `!keep.log`, a root file is ignored exactly when its name is not `keep.log` and `*.log` matches it |
| GitFixed.LogRulesCompile | src/files/git.rs:95-171 | `*.log` and `!keep.log` compile to the two rules used by the `.log` example |
| GitFixed.StarLogCompiles | src/files/git.rs:118-166 | `*.log` compiles to `*` then the literal `.log`, not negated |
| GitFixed.KeepLogCompiles | src/files/git.rs:103-107 | corrected, `!keep.log` compiles to the negated literal `keep.log` |
| GitFixed.ALogIgnored | src/files/git.rs:27-43 | with those rules, `a.log` is ignored |
| GitFixed.KeepLogKept | src/files/git.rs:10-25 | with those rules, `keep.log` is kept by the negated rule |
| GitFixed.ATxtNotIgnored | src/files/git.rs:27-43 | with those rules, `a.txt` is not ignored |
| GitFixed.RulePathOfIgnoreFile | src/files/git.rs:289-303 | a rule set stored with the `.gitignore` file's own path ignores no file that has no component named `.gitignore` |
| FileFilter.ExtensionMatches | src/files/utils.rs:48-63 | an empty allow-list accepts every file; a path without a file name, a name without a dot and a name whose only dot is its first character (`.bashrc`) pass exactly when `""` is allowed; a name whose last dot is at a later position passes exactly when the lowercased text after that dot is in the list |
| FileFilter.FinalExtensionOnly | src/files/utils.rs:48-63 | only the lowercased text after the last dot of the name is looked up in the allow-list |
| FileFilter.NoExtensionNeedsEmptyEntry | src/files/utils.rs:53-56 | a name without a dot, under any directory of an absolute or a relative path, passes exactly when the list is empty or holds `""` |
| FileFilter.MoreExtensionsAcceptMore | src/files/utils.rs:48-63 | adding entries to a non-empty allow-list never rejects a file that was accepted |
| FileFilter.StemDotExtension | src/files/utils.rs:53-62 | `stem.ext` passes exactly when the list is empty or holds the lowercased `ext` |
| FileFilter.IgnoredExtension | src/files/utils.rs:178-197 | a name ending in `.ignored` passes only when the list is empty or holds `ignored`; `txt`, `txt.ignored` and `gnored` do not help |
| FileFilter.ExtensionExactExample | src/files/utils.rs:159-164 | `/home/test/my-file.rs` passes the list `["rs"]` |
| FileFilter.NoExtensionExample | src/files/utils.rs:199-203 | `path/to/my_file` passes the list `[""]` |
| FileFilter.Parent | src/files/utils.rs:74 | `pop` fails exactly on a path without components; otherwise it removes the last one |
| FileFilter.IsHidden | src/files/utils.rs:67-84 | the pop loop of `is_hidden` decides exactly `Hidden`: some component, from the name up to the watch directory (excluded), starts with a dot |
| FileFilter.HiddenFileItself | src/files/utils.rs:109-115 | a file whose own name starts with a dot is hidden whatever the watch directory |
| FileFilter.IsFileHidden | src/files/utils.rs:110-115 | a file counts as hidden by its own name exactly when `is_hidden` would report it with the watch directory set to its parent |
| FileFilter.HiddenBelowWatch | src/files/utils.rs:67-84 | under a watch directory that is a strict ancestor, a file is hidden exactly when a component below the watch directory is dotted |
| FileFilter.HiddenOutsideWatch | src/files/utils.rs:67-84 | when the file is not under the watch directory, every component counts |
| FileFilter.HiddenDirAboveWatchExample | src/files/utils.rs:211-218 | a dotted directory above the watch directory does not hide a file |
| FileFilter.HiddenDirBelowRootExample | src/files/utils.rs:211-218 | with `/` watched, the same dotted directory hides the file |
| FileFilter.HiddenFileItselfExample | src/files/utils.rs:220-225 | a dotted file name is hidden |
| FileFilter.NotHiddenExample | src/files/utils.rs:227-233 | a dotted component inside the watch directory's own path does not hide a file |
| FileFilter.TrimSlashes | src/files/utils.rs:143-147 | the leading `/` run is removed, and nothing else |
| FileFilter.RelativePathWithinDir | src/files/utils.rs:133-151 | the prefix test and the index loop give exactly `RelativeText` on the two string forms |
| FileFilter.RelativeAgreesWithStripPrefix | src/files/utils.rs:133-151 | for a directory the file is really under, the string result is the string form of the component-wise remainder |
| FileFilter.RelativeBelowRoot | src/files/utils.rs:133-151 | below `/`, the result is the components joined by `/` |
| FileFilter.RelativeBelowDir | src/files/utils.rs:235-243 | below a directory, the result is the remaining components joined by `/` |
| FileFilter.SiblingPrefixQuirk | src/files/utils.rs:141 | `/home/user2/x` is not under `/home/user` component-wise, yet the string prefix test yields `2/x` |
| FileFilter.HasRegexMatch | src/files/utils.rs:88-105 | no expression accepts every file; for a file under the watch directory, the expressions all see the component-wise relative path |
| FileFilter.RegexListsConjoin | src/files/utils.rs:98-102 | expressions combine by conjunction: a file passes a list split in two exactly when it passes both halves |
| FileFilter.ShouldBeIgnored | src/files/utils.rs:25-43 | as written, the filter drops exactly what the corrected filter drops with `--no-gitignore`, so a wrong extension, a missing file outside `--deleted`, a regex miss and a hidden file outside `--hidden` still drop the event, but its `.gitignore` check never fires |
| FileFilter.NoGitignoreHasNoEffect | src/files/utils.rs:35-37 | as written, `--no-gitignore` changes no decision of the filter |
| FileFilter.ShouldBeIgnoredFixed | src/files/utils.rs:25-43 | each check alone drops the event, whatever the others say: an extension outside the allow-list, a missing file without `--deleted`, a path no regex accepts, a file the corrected `.gitignore` decision ignores without `--no-gitignore`, a hidden file without `--hidden` |
| FileFilter.FixedDropsOnlyIgnoredFilesMore | src/files/utils.rs:25-43 | the corrected filter drops everything the filter as written drops, and anything more only when the `.gitignore` check is on and the rules ignore the file |
| FileFilter.IgnoredLogReachesQueue | src/files/utils.rs:35-37 | as written, `a.log` at the watch root passes the filter under a root `.gitignore` holding `*.log`; the corrected filter drops it |
| FileFilter.FlagsOnlyRelax | src/files/utils.rs:25-43 | with the corrected `.gitignore` decision, turning on `--deleted`, `--no-gitignore` or `--hidden` never drops an event that was kept |
| FileFilter.PermissiveArgsKeepEverything | src/files/utils.rs:25-43 | as written, with every check switched off nothing is dropped |
| FileFilter.HiddenDroppedWithoutFlag | src/files/utils.rs:38-40 | as written, without `--hidden` a file whose own name starts with a dot is always dropped |
| ExitCodes.GetExitCodeUnix | src/command/exit_code.rs:6-10 | the exit code if there is one, otherwise 128 plus the signal; none only when neither is known |
| ExitCodes.GetExitCodeOther | src/command/exit_code.rs:12-15 | off Unix only the exit code is seen |
| ExitCodes.NatToString | src/command/exit_code.rs:22 | the decimal text of a number is non-empty and made of digits |
| ExitCodes.NatToStringRoundTrip | src/command/exit_code.rs:22 | the decimal text of a natural number reads back as that number |
| ExitCodes.IntToString | src/command/exit_code.rs:22 | the text of an integer is non-empty, made of digits with at most a leading `-`, and starts with `-` exactly for a negative integer |
| ExitCodes.IntToStringRoundTrip | src/command/exit_code.rs:22 | the text of any integer, with `-` when negative, reads back as that integer |
| ExitCodes.PadRight | src/command/exit_code.rs:20-25 | the width-3 left-aligned format keeps the text and pads with spaces to at least three characters |
| ExitCodes.GetExitCodeString | src/command/exit_code.rs:17-27 | the text is always at least three characters wide |
| ExitCodes.TrimEndOfPadded | src/command/exit_code.rs:20-25 | removing the padding gives back text that did not end in a space |
| ExitCodes.ExitCodeStringShowsCode | src/command/exit_code.rs:17-27 | success is drawn exactly for 0, interrupted exactly for 130, unknown exactly for no code (as `?? `); the trimmed text of a code is its decimal form |
| ExitCodes.InterruptShownAsInterrupted | src/command/exit_code.rs:6-27 | on Unix, death by SIGINT and exit code 130 are drawn alike as interrupted; elsewhere the signal shows as unknown |
| Arguments.NormalizeExt | src/args.rs:67-70 | a normalised extension contains no capital letter |
| Arguments.NormalizeExtDropsDot | src/args.rs:64-70 | `.TXT`, `txt` and `Txt` normalise alike: one leading dot is optional and case does not matter |
| Arguments.NormalizeExtKeepsSecondDot | src/args.rs:69 | only one dot is stripped: `..x` becomes `.x` |
| Arguments.Args.constructor | src/args.rs:21-60 | the settings hold the given values |
| Arguments.Args.Validate | src/args.rs:63-79 | every extension is normalised in place, in order; `.` is watched when no file was given; nothing else changes and the result is always Ok |
| LegacyQueue.NewTemplate | src/command_queue.rs:18-50 | a split error, an empty command, or both placeholders give an error, and every error is a parse error naming the raw command line; otherwise the first word is the program, the rest the arguments, and once-per-file mode is on exactly when `{file}` is among them |
| LegacyQueue.Renders | src/command/queue.rs:161 | one string form per path, in order |
| LegacyQueue.ExpandOld | src/command_queue.rs:73-80 | with at least one file the command line is never shorter than the template, and with exactly one file it has one argument per template argument |
| LegacyQueue.PlaceholdersAgree | src/command_queue.rs:76-77 | in this queue `{file}` and `{files}` expand identically |
| LegacyQueue.ExpandOldPlain | src/command_queue.rs:78 | a template without placeholders is passed through unchanged |
| LegacyQueue.CommandQueue.constructor | src/command_queue.rs:44-49 | a new queue holds the template and no files |
| LegacyQueue.CommandQueue.Push | src/command_queue.rs:52-54 | the file is appended at the end |
| LegacyQueue.CommandQueue.Execute | src/command_queue.rs:60-95 | no files: Ok and nothing run; otherwise the last file (once-per-file) or all files in order are removed, the expanded command line is launched, and a spawn or wait failure becomes a command execution error |
| LegacyQueue.BuildCommandLine | src/command_queue.rs:73-80 | the argument loop builds the program followed by `ExpandOld` of the template |
| Dispatch.FlatMapAppend | src/command/queue.rs:151-165 | mapping a concatenation is the concatenation of the mapped parts |
| Dispatch.ExpandArg | src/command/queue.rs:151-165 | an argument that is exactly `{files}` becomes all selected paths; every other argument becomes exactly one argument, unchanged when it holds no placeholder |
| Dispatch.ExpandAll | src/command/queue.rs:151-165 | with one selected path the expanded template has one argument per template argument |
| Dispatch.ExpandAllAppend | src/command/queue.rs:151-165 | templates expand argument by argument: the expansion of a concatenation is the concatenation of the expansions |
| Dispatch.ExpandAllPlain | src/command/queue.rs:163 | arguments without placeholders are passed unchanged |
| Dispatch.PlaceholderArguments | src/command/queue.rs:154-155 | an argument that is exactly `{files}` becomes all selected paths; one that is exactly `{file}` becomes only the first, even in batch mode |
| Dispatch.EmbeddedFilePlaceholder | src/command/queue.rs:156-158 | `{file}` inside a longer argument, with no `{` before it, becomes the first selected path in place, as one argument |
| Dispatch.FilesHoldsNoFile | src/command/queue.rs:156-159 | an argument whose only `{` opens `{files}` does not take the `{file}` branch |
| Dispatch.EmbeddedFilesPlaceholder | src/command/queue.rs:159-162 | `{files}` inside a longer argument, with no `{` before it and no `{file}` after it, becomes all selected paths joined by a space, as one argument |
| Dispatch.EmbeddedPlaceholderExamples | src/command/queue.rs:156-162 | `--out={file}` takes the first of two paths; `--all={files}` takes both in one argument |
| Dispatch.AgreesWithLegacyForOneFile | src/command/queue.rs:151-165 | for one path and placeholders standing alone, this queue builds the same arguments as `CommandQueue` |
| Dispatch.BuildArgs | src/command/queue.rs:145-165 | the arguments are the shell's words followed by the expanded template |
| Dispatch.Retain | src/command/queue.rs:129-131 | `retain(exists)` keeps exactly the paths that exist |
| Dispatch.Firsts | src/command/queue.rs:124 | the file of each taken pair, in order |
| Dispatch.Basenames | src/command/queue.rs:184-187 | the reported names are the last components of the paths, in order |
| Dispatch.Drain | src/command/queue.rs:124 | `drain` yields every pending pair exactly once |
| Dispatch.SelectMembers | src/command/queue.rs:119-131 | a path is run for exactly when it was taken and either deletions count or it still exists |
| Dispatch.SelectedHaveNames | src/command/queue.rs:184-187 | the paths run for all have a file name, so the `unwrap` in the report cannot fail |
| Dispatch.Arrived | src/command/queue.rs:84-85 | only an `AddFile` message adds a pair, and nothing is removed |
| Dispatch.Stamp | src/command/queue.rs:79-87 | the timestamp only ever changes to the current time |
| Dispatch.FreshUpdateWaits | src/command/queue.rs:79-95 | a file that has just arrived, or a restart while files are pending, never starts a command in the same iteration |
| Dispatch.Queue.constructor | src/command/queue.rs:52-69 | a new queue has nothing pending, no timestamp and no command yet |
| Dispatch.Queue.Take | src/command/queue.rs:119-125 | one pending pair is removed, or in batch mode all of them, each exactly once |
| Dispatch.Queue.Execute | src/command/queue.rs:113-196 | no pending files: `BadInternalState`. Otherwise, per the batch flag, the pairs are taken and the paths chosen. With none left: Ok and nothing started. A shell that does not split: parse error. Otherwise the count goes up, the abort flag is pulsed if asked, and with a listening display the start is reported and the command spawned with the next number; with a closed one, an execution error |
| Dispatch.Queue.Launch | src/command/queue.rs:138-195 | after the paths are chosen, `execute` behaves as `Dispatched` says: parse error for a shell line that does not split, otherwise count, abort pulse, report and spawn of the expanded command line, or the closed-channel error; at most one command starts |
| Dispatch.Queue.Announce | src/command/queue.rs:179-193 | a command gets the next number and is reported and spawned under it; the numbering invariant is kept |
| Dispatch.Queue.ExecutePending | src/command/queue.rs:94-106 | `execute` on a non-empty pending set: in batch mode every pending pair is taken, each once, otherwise exactly one, and the rest stay pending; for the paths selected from what was taken, the count, reports, spawned command lines and abort pulses change as `Dispatched` says; failures are parse or execution errors |
| Dispatch.Queue.Receive | src/command/queue.rs:77-93 | a message is handled: `AddFile` adds its pair and restarts the quiet period; `RestartBackoff` restarts it only while files are pending |
| Dispatch.Queue.ExecuteDue | src/command/queue.rs:94-106 | once the quiet period is over: the pairs taken (all in batch mode, otherwise one) are dispatched as `Dispatched` says, failures are parse or execution errors, and on success the timestamp is cleared exactly when nothing is left pending |
| Dispatch.Queue.Fire | src/command/queue.rs:94-106 | before the quiet period is over nothing changes and no abort pulse is sent; after it, `execute` takes the pending pairs (all in batch mode, otherwise one) and dispatches the paths selected from them as `Dispatched` says, and the timestamp is cleared once nothing is pending |
| Dispatch.Queue.Step | src/command/queue.rs:76-107 | one iteration: `Abort` or a disconnected channel stops with nothing changed and no abort pulse; otherwise the message is handled and, once the quiet period is over, the pairs taken from the updated pending set are dispatched as `Dispatched` says. At most one command starts; an error stops the loop; a new file is pending afterwards; the queue invariant holds unless it failed |
| Dispatch.Queue.Run | src/command/queue.rs:75-108 | the loop stops at the first iteration that ends it or fails, and otherwise runs every iteration; at most one command starts per iteration; a failure comes from the last iteration run, which did not end the loop, and is a parse or execution error |

## Left out

- Windows hidden files: the `FILE_ATTRIBUTE_HIDDEN` test of `is_file_hidden` (src/files/utils.rs:117-126) needs file metadata. Only the dot rule is modelled.
- Regular expressions: the `regex` crate is not part of this model. Each expression is an abstract predicate on strings.
- `Path::exists`: modelled as membership in a set of existing paths passed in.
- `shell_words::split`: modelled as a parameter holding its outcome. `CommandQueue::new` gets the split result; `Queue` gets the shell's words, or `None` when the shell line does not split.
- Threads, channels and the clock of `Queue::run`: each iteration receives the `try_recv` result, the time and the channel's state as a `Tick`. `std::thread::yield_now` is left out, as is the race between the abort flag and the workers. `eprintln!` diagnostics and the `println!` of the normalised extensions (src/args.rs:71) are left out.
- `run_command` (process spawning, stdout/stderr forwarding, `try_wait` and `kill`) is not part of this model. A started command is recorded as an `Invocation` in the ghost log `spawned`.
- `CommandQueue::execute` records the command line it spawns. The output is printed and the exit status is discarded, so neither is modelled. The outcome of spawning and waiting is a parameter.
- `GitIgnoreRules::from_dir` and `from_ignore_file` read files from disk. The rule sets they would produce are passed in as data. `GitFixed.RulePathOfIgnoreFile` states what storing the file's own path (src/files/git.rs:303) would do.
- `absolute()` in `is_git_ignored`: paths are taken as already absolute or relative as given.
- `to_lowercase` is ASCII-only here (`Common.Lower`). Non-ASCII case mapping and the UTF-8 byte offsets that `file.len()` and `&file[i..]` use in src/files/git.rs are not modelled. Characters stand for bytes.
- GitRule.Compile: requires the line not to be exactly `!`, because `from_str` then slices past the end of the line and panics.
- Dispatch.Queue.Step, Dispatch.Queue.Run: require every arriving file to have a name, because `file_name().unwrap()` in `execute` (src/command/queue.rs:186) panics otherwise.
- Dispatch.Queue.constructor: requires a split shell line to have at least one word, because `shell_parts[0]` (src/command/queue.rs:145) panics otherwise.
- ExitCodes.GetExitCodeUnix: does not model the 32-bit wrap-around of `s + 128`, because signal numbers are small.
- Colours of `get_exit_code_string` become a `Style` tag next to the text.
- Extension examples: `FileFilter.StemDotExtension` and `FileFilter.IgnoredExtension` cover the `subset`, `double_extension` and `case` examples of src/files/utils.rs:172-209 for all inputs, instead of one lemma per example.
- `CommandQueue::run` is `todo!()` in the source and has no model.

## Findings

| source | as written | input that shows it | evidently intended | confidence | as-written member | corrected member |
|---|---|---|---|---|---|---|
| src/files/git.rs:103-107 | a leading `!` is stripped twice, once into `line` and again by `line[1..]` | `!xkeep.log` compiles to the negated literal `keep.log`; `!keep.log` compiles to `eep.log` | strip the `!` once, so the rest of the line is the pattern | high, not executed | GitRule.NegationDropsNextChar | GitFixed.NegationOnlyFlipsFlag |
| src/files/git.rs:214-222 | `*` consumes its whole segment and never gives characters back | `*.log` does not match `error.log` | `*` matches any run of non-`/` characters, backtracking as fnmatch does | high, not executed | GitMatch.StarDotLogMatchesNothing | GitFixed.StarLiteralFixed |
| src/files/git.rs:261-269 | in a negated class a hit sets `matched = false` and a miss leaves it false | `[!a]` matches neither `a` nor `b` | a negated class accepts the characters outside its ranges | high, not executed | GitMatch.ClassMatches | GitFixed.NegatedClassFixed |
| src/files/git.rs:34-36 | the second pass returns `false` when a plain rule matches | with the rule `a.txt` at the root, `/a.txt` is reported as not ignored | return `true` on a plain match that no negated rule overrides | high, not executed | GitMatch.IsGitIgnoredIgnoresMatches | GitFixed.ALogIgnored |
| src/files/git.rs:303 | the rule set keeps the path of the `.gitignore` file, not its directory | with rules in `/.gitignore`, `/a.log` is not below `/.gitignore`, so no rule is even tried | keep the directory holding the file, as the field comment at src/files/git.rs:283 says | medium, not executed | GitFixed.RulePathOfIgnoreFile | GitFixed.PlainThenNegatedAtRoot |

The change filter is modelled twice. `FileFilter.ShouldBeIgnored`
follows the source and calls the as-written `GitMatch.IsGitIgnored`,
which never ignores a file, so `--no-gitignore` has no effect.
`FileFilter.ShouldBeIgnoredFixed` calls the corrected
`GitFixed.IsGitIgnoredFixed` instead.
