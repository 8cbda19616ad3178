# jean-tui shell integration, installer, configuration and branding — a Dafny model

jean-tui is a terminal UI for managing Git worktrees. This project models
four parts of it:

- **The shell wrappers.** `install/templates.go` holds a bash/zsh function and
  a fish function. They run the CLI, read the pipe-separated hand-off record
  `path|branch|auto_claude|terminal_only|script_command|claude_session_name|is_claude_initialized`
  that the CLI left in a temporary file, and derive a tmux session name from
  the branch. They then change directory, attach to the session, or create it
  and attach. A new session runs a shell, a shell that prints a notice, or the
  Claude agent in plan mode (with `--continue` once initialised). Module
  `ShellWrapper` covers:
  - how each shell parses the record, including bash's `IFS='|' read -r` and
    fish's `string split`;
  - validity of the record;
  - the two session-name derivations;
  - the decision of one turn of the loop, as an `Action` value.
- **The installer** (`install/install.go`, module `Installer`). It covers
  shell detection from `$SHELL`, the rc-file path, `NeedsUpdate`, and the
  text surgery done by Install, Update, Remove and AutoUpdate. Update, Remove
  and AutoUpdate's update branch end with the loop that collapses `"\n\n\n"`, modelled as the
  method `CollapseBlankLines` and proved against a reference (each run of
  newlines capped at two).
- **The configuration manager** (`config/config.go`, module `Config`). It is
  a class with the repository map and the two global settings as fields. The
  getters apply defaults, and each setter updates one field, then saves.
- **The branding name builders** (`internal/branding/branding.go`, module
  `Branding`). These build environment-variable names, debug-log paths and
  the tmux and shell-wrapper markers around the upper-cased CLI name.

Module `Text` gives the Go string operations the code relies on, over
`seq<char>`: `strings.Index`, `Contains`, `ReplaceAll`, `Split` and `ToUpper`.
Module `Wrappers` gives `Option` and `Result`.

The wrapper templates hard-code the name `gcool` (`gcool-` session prefix,
`# BEGIN GCOOL INTEGRATION`). The branding defaults use `jean`. The model
follows each file as written.

Some things the installer needs are defined in files not part of this model:
- the wrapper texts;
- the wrapper markers and the "already installed" test (`ContainsWrapperMarker`);
- the template checksums.

These are fields of a `Templates` value. Which file-system effects succeed
is an `Io` value.

## Model

| member | source | states |
|---|---|---|
| `ShellWrapper.ReadFieldsRemainder` | install/templates.go:40 | with at least n-1 separators, the first n-1 variables are the first n-1 fields and the last variable takes all the remaining fields with their `|` separators, less a lone trailing `|` |
| `ShellWrapper.ReadFieldsMatchSplit` | install/templates.go:40 | with at most n-1 separators, each bash variable is the matching pipe-separated field, and variables past the last field are empty |
| `ShellWrapper.BashParseFields` | install/templates.go:40 | for a record of at most seven fields, the seven bash variables are the fields in order, and missing trailing fields read as empty |
| `ShellWrapper.TwoPipesIffCount` | install/templates.go:43 | bash's validity glob matches exactly when the record holds at least two pipe characters |
| `ShellWrapper.ValidityAgrees` | install/templates.go:43 | bash accepts a record exactly when fish's split yields at least three parts (fish's test is at install/templates.go:163-166) |
| `ShellWrapper.FishIgnoresSeventhField` | install/templates.go:178-181 | as written, fish reads the initialised flag as "false" for every record of at most seven fields, while bash reads field 7 |
| `ShellWrapper.FishIntendedAgreesWithBash` | install/templates.go:167-181 | with the flag read from part 7, fish agrees with bash on every field both read, as far as the tests `= "true"` can tell |
| `ShellWrapper.SanitizeAt` | install/templates.go:53 | sanitising keeps the length, keeps each allowed character in place and puts `-` in place of every other character |
| `ShellWrapper.SanitizeAllowed` | install/templates.go:192 | a sanitised branch holds only `[a-zA-Z0-9_-]` |
| `ShellWrapper.SqueezeChars` | install/templates.go:193 | collapsing dash runs leaves no `--`, adds no new character, never lengthens and keeps the first character |
| `ShellWrapper.SqueezeKeepsText` | install/templates.go:193 | collapsing dash runs keeps every character other than `-`, in order |
| `ShellWrapper.SqueezeIdentity` | install/templates.go:193 | a name without `--` is left unchanged |
| `ShellWrapper.SqueezeRun` | install/templates.go:193 | each run of one or more dashes after dash-free text becomes exactly one dash, and the rest is collapsed in turn |
| `ShellWrapper.TrimLeftSuffix` | install/templates.go:194 | trimming leading dashes leaves a suffix that does not start with `-`, and every character removed was a `-` |
| `ShellWrapper.TrimRightPrefix` | install/templates.go:194 | trimming trailing dashes leaves a prefix that does not end with `-`, and every character removed was a `-` |
| `ShellWrapper.ReplaceMatchesSqueeze` | install/templates.go:54 | without three dashes in a row, bash's single `--` pass equals fish's collapse of every run |
| `ShellWrapper.RemoveSuffixIsTrim` | install/templates.go:56 | in a name without `--`, bash's removal of one trailing `-` equals fish's trim of all trailing dashes |
| `ShellWrapper.TerminalSuffixKeepsForm` | install/templates.go:59-61 | appending `-terminal` when terminal-only is "true" keeps a well-formed `gcool` name well formed |
| `ShellWrapper.FishSessionNameWellFormed` | install/templates.go:192-199 | fish's session name starts with `gcool` and has only allowed characters, no `--`, and no dash at either end |
| `ShellWrapper.BashSessionNameShape` | install/templates.go:53-61 | bash's session name starts with `gcool` and has only allowed characters, and its base is never longer than the prefix plus the branch |
| `ShellWrapper.BashAgreesWithFishWithoutTripleDash` | install/templates.go:53-61 | when the sanitised name has no three dashes in a row, bash and fish name the session alike |
| `ShellWrapper.BashSessionNameKeepsDoubleDash` | install/templates.go:54 | as written, bash names branch `a///b` `gcool-a--b`, which has `--`, while fish names it `gcool-a-b` |
| `ShellWrapper.BashIntendedMatchesFish` | install/templates.go:53-56 | bash with a full dash-run collapse names every session as fish does, and the names are well formed |
| `ShellWrapper.BashLaunch` | install/templates.go:84-116 | a terminal-only session runs a shell; the agent runs exactly when auto-claude is "true" and claude is installed, resuming exactly when the initialised flag is "true"; otherwise a shell with a notice when claude is missing |
| `ShellWrapper.FishLaunch` | install/templates.go:219-244 | the same choice as bash, except that a missing agent gives a plain shell and never a notice |
| `ShellWrapper.AgentArgsDiffer` | install/templates.go:227-236 | fish passes the agent one argument holding the words bash passes as two or three |
| `ShellWrapper.BashStepOutcomes` | install/templates.go:28-134 | without a record bash returns the CLI's status, and with a malformed one status 1; it only changes directory without tmux or when already in the target session; it attaches exactly when the session exists and creates it otherwise, in the worktree, running bash's launch choice |
| `ShellWrapper.BashSessionsAllowed` | install/templates.go:52-122 | every session bash attaches to or creates has a name of allowed characters starting with `gcool` |
| `ShellWrapper.FishStepOutcomes` | install/templates.go:145-256 | fish as written: no record returns the CLI's status; fewer than three parts runs the CLI again; it changes to the worktree exactly when tmux is missing or it is inside tmux; it attaches exactly when the session exists; otherwise it creates the session in the worktree with fish's launch choice |
| `ShellWrapper.FishSessionsWellFormed` | install/templates.go:192-247 | fish only attaches to or creates sessions outside tmux, and their names are well formed |
| `ShellWrapper.FishNeverResumes` | install/templates.go:178-236 | as written, fish never starts the agent with `--continue` for a record of at most seven fields |
| `ShellWrapper.FishIntendedMatchesBash` | install/templates.go:163-247 | with the flag read from field 7, fish takes the same turn as bash on a record of three to seven fields, outside tmux, with claude installed, when the sanitised branch name has no triple dash |
| `ShellWrapper.MalformedRecord` | install/templates.go:43-125 | on a record with fewer than two pipe characters, bash returns status 1 and fish runs the CLI again (install/templates.go:166) |
| `Installer.BasenameOfJoin` | install/install.go:54 | the base name of `dir/name` is `name`, for a name without `/` |
| `Installer.DetectShellCases` | install/install.go:47-66 | the shell is zsh or fish exactly when SHELL is non-empty and its base name says so, and bash otherwise |
| `Installer.DetectShellFromPath` | install/install.go:47-66 | a SHELL path `dir/name` gives zsh for `zsh`, fish for `fish` and bash for any other name, and an empty SHELL gives bash |
| `Installer.RcFileShape` | install/install.go:74-85 | the rc file is `.zshrc`, `.config/fish/config.fish` or `.bashrc` under the home directory |
| `Installer.NewDetector` | install/install.go:30-44 | the detector fails only without a home directory; otherwise it holds the detected shell and its rc file |
| `Installer.WrapperChoice` | install/install.go:88-99 | the fish wrapper is chosen exactly for fish, and the bash wrapper for bash and zsh |
| `Installer.NeedsUpdateCases` | install/install.go:276-290 | a missing or unreadable rc file, or one without a wrapper marker, always needs an update; one with a marker needs none exactly when the recorded checksum is the current template checksum and non-empty |
| `Installer.AppendWrapperShape` | install/install.go:146-150 | the old content is a prefix, and the result ends with the wrapper and a newline after a blank line; a newline is added only when non-empty content does not end in one |
| `Installer.Install` | install/install.go:112-160 | each outcome exactly when its condition holds: refused when installed; directory failure; nothing written on a dry run; backup failure when an existing file cannot be read or copied; write failure; otherwise it writes the old content (none for a missing file) with the wrapper appended |
| `Installer.Splice` | install/install.go:189-197 | the splice succeeds exactly when both markers occur |
| `Installer.SpliceKeepsPrefix` | install/install.go:189-197 | the text before the first start marker has no start marker and is kept in front of the replacement |
| `Installer.SpliceOrdered` | install/install.go:197 | with the end marker after the start marker, exactly the block from the start marker through the end marker is replaced |
| `Installer.SpliceOutOfOrderRepeats` | install/install.go:246 | as written, the file `E-S-` with start marker `S` and end marker `E` becomes `E--S-` on removal: it keeps both markers and grows |
| `Installer.SpliceOutOfOrderGrows` | install/install.go:189-197 | as written, on every file whose first end marker ends before its first start marker begins, the text between them is kept on both sides of the replacement, so the result is longer than the file plus the replacement |
| `Installer.SpliceIntended` | install/install.go:238-246 | the splice refusing misordered markers succeeds exactly when both markers occur in order, and then agrees with Go's splice |
| `Installer.SpliceIntendedShrinks` | install/install.go:246 | removing with the ordered splice never grows the file |
| `Installer.ReplacePreservesCap` | install/install.go:201 | one `ReplaceAll("\n\n\n", "\n\n")` pass leaves the capped text unchanged |
| `Installer.CapIdentity` | install/install.go:200 | text with no triple newline is its own capped form |
| `Installer.CapKeepsText` | install/install.go:200-202 | the clean-up changes newlines only: every other character is kept, in order |
| `Installer.CollapseBlankLines` | install/install.go:200-202 | the clean-up loop ends and leaves exactly the capped text, with no three newlines in a row |
| `Installer.Update` | install/install.go:163-212 | refuses when not installed; a dry run writes nothing; it refuses, writing nothing, when a marker is missing; otherwise it writes the cleaned-up splice of the wrapper |
| `Installer.Remove` | install/install.go:215-260 | refuses when not installed; a dry run writes nothing; it refuses, writing nothing, when a marker is missing; otherwise it writes the cleaned-up text with the block cut out |
| `Installer.AutoUpdate` | install/install.go:295-369 | appends when not installed, reading an unreadable file as empty, and replaces the block otherwise; the checksum to record is the current one, and only after a write; once that checksum is recorded, a written file with a marker needs no update |
| `Installer.UpdatedContentShape` | install/install.go:189-202 | with ordered markers, Update writes the cleaned-up text made of what came before the block, the wrapper, a newline, and what came after |
| `Installer.RemovedContentShape` | install/install.go:238-251 | with ordered markers, Remove writes the cleaned-up text made of what came before and after the block |
| `Installer.CapNewlinesIdentity` | install/install.go:200-202 | text with no triple newline goes through the clean-up unchanged |
| `Config.Manager.constructor` | config/config.go:33-61 | the manager holds the loaded configuration, or an empty one when loading fails |
| `Config.Manager.GetRepoConfig` | config/config.go:107-112 | the stored entry, or an all-empty entry for an unknown repository |
| `Config.Manager.GetBaseBranch` | config/config.go:85-90 | empty for an unknown repository |
| `Config.Manager.GetLastSelectedBranch` | config/config.go:115-120 | empty for an unknown repository |
| `Config.Manager.GetEditor` | config/config.go:137-144 | never empty; the stored editor when one is set, else `code` |
| `Config.Manager.GetAutoFetchInterval` | config/config.go:162-169 | always positive; the stored interval when it is positive, else 10 |
| `Config.Manager.GetTheme` | config/config.go:199-214 | never empty; the repository's own theme when set, else the global theme |
| `Config.Manager.GetGlobalTheme` | config/config.go:239-244 | never empty; the default theme when one is set, else `matrix` |
| `Config.Manager.Save` | config/config.go:75-82 | the save fails exactly when the write fails, records the whole configuration on success, and changes nothing in memory |
| `Config.Manager.SetBaseBranch` | config/config.go:93-104 | creates the entry if missing and sets only its base branch, which reads back; other repositories and globals are unchanged; the change stays in memory when the save fails |
| `Config.Manager.SetLastSelectedBranch` | config/config.go:123-134 | as SetBaseBranch, for the last selected branch; the base branch is untouched |
| `Config.Manager.SetEditor` | config/config.go:147-158 | as SetBaseBranch; the editor reads back, or `code` when it is empty |
| `Config.Manager.SetAutoFetchInterval` | config/config.go:172-183 | as SetBaseBranch; the interval reads back when positive, else 10 |
| `Config.Manager.SetTheme` | config/config.go:218-229 | as SetBaseBranch; the theme reads back, or the global theme when it is empty |
| `Config.Manager.SetGlobalTheme` | config/config.go:232-235 | changes only the default theme; every repository without its own theme now reads the new global theme |
| `Config.Manager.SetLastUpdateCheckTime` | config/config.go:191-194 | the time reads back; nothing else changes |
| `Config.SettersOnDifferentRepos` | config/config.go:93-158 | one pair, in one order, illustrating the setters' frames: after SetBaseBranch on `a` and then SetEditor on a different `b`, `a` reads back its new base branch and its old editor, and `b` reads back its new editor (or `code`); the general non-interference is each setter's own frame clause |
| `Branding.EnvVarRoundTrip` | internal/branding/branding.go:50-52 | the suffix reads back from the variable name, so different suffixes give different names |
| `Branding.DefaultEnvVars` | internal/branding/branding_test.go:28-44 | the default build names `JEAN_SWITCH_FILE`, `JEAN_INIT_ATTEMPTED`, `JEAN_WORKSPACE_PATH` and `JEAN_ROOT_PATH` |
| `Branding.DebugLogPathsDistinct` | internal/branding/branding.go:56-70 | the three debug-log paths differ for every CLI name |
| `Branding.DefaultLogPaths` | internal/branding/branding_test.go:48-69 | the default debug logs are `/tmp/jean-debug.log`, `/tmp/jean-wrapper-debug.log` and `/tmp/jean-git-debug.log` |
| `Branding.MarkersContainUpperName` | internal/branding/branding_test.go:108-131 | every marker contains the upper-cased CLI name |
| `Branding.MarkersDistinct` | internal/branding/branding.go:73-94 | the start and end markers of each pair differ for every CLI name |
| `Branding.ShellMarkersDoNotOverlap` | internal/branding/branding.go:85-94 | neither shell-wrapper marker occurs inside the other, so a search for one cannot stop at the other |
| `Branding.DefaultTmuxMarkers` | internal/branding/branding_test.go:72-87 | the default tmux markers are `# === JEAN_TMUX_CONFIG_START_DO_NOT_MODIFY_THIS_LINE ===` and its END twin |
| `Branding.DefaultShellMarkers` | internal/branding/branding_test.go:90-105 | the default shell markers are `# BEGIN JEAN INTEGRATION` and `# END JEAN INTEGRATION` |
| `Branding.ClaudeAgentIsEnabled` | internal/branding/branding.go:98-105 | the Claude agent is an enabled agent |
| `Branding.DefaultBrandValues` | internal/branding/branding.go:27-45 | the defaults are `jean`, `jean-`, `jean`, `JEAN`, with the `claude` agent enabled |
| `Text.Index` | install/install.go:189-190 | `strings.Index`: the first occurrence, or -1 exactly when there is none |
| `Text.Split` | install/templates.go:163 | `string split`: one part more than there are separators, and no part holds a separator |
| `Text.JoinSplit` | install/templates.go:163 | splitting loses nothing: the parts joined back give the record |
| `Text.ReplaceAllShrinks` | install/install.go:201 | replacing `"\n\n\n"` with `"\n\n"` strictly shortens text that holds a match, so the loop ends |
| `Text.UpperAt` | internal/branding/branding.go:74 | upper-casing keeps the length, works letter by letter and leaves no lower-case letter |

## Left out

- The tmux, `cd`, `mktemp`, `rm` and `command -v` calls in the wrappers. A turn of the loop is the `Action` it chooses. The facts the scripts ask the system for are an `Env` value.
- The wrappers' outer `while true` loop. `Loops` marks the turns that go round again.
- The wrappers' debug-log echoes and messages, and the `PATH` restore.
- A hand-off file with several lines. The record is one line, and a missing or empty file is `None`. Fish would split each line; this is not modelled.
- The exit status of a `cd` that fails in bash (`cd … || return`).
- Text functions defined in files not part of this model:
  - the wrapper texts (`GetBashZshWrapper`, `GetFishWrapper`);
  - the markers (`GetWrapperStartMarker`, `GetWrapperEndMarker`);
  - `ContainsWrapperMarker`;
  - `CalculateWrapperChecksum`, and the configuration's wrapper checksum getter and setter.

  They are inputs (`Templates`), not definitions.
- File-system effects: `os.ReadFile`, `WriteFile`, `MkdirAll`, `Stat`, the `copyFile` backup and the success messages. The rc file is an `RcFile` value: missing, unreadable, or its content. What a write would write is the returned content. Whether each effect succeeds is an `Io` input.
- Installer.Update, Installer.Remove and Installer.AutoUpdate: there is no read-failure branch. The file is one snapshot, read once: the installed test has already read it, so a second read cannot fail unless the file changes in between.
- Installer.Basename, Installer.Join: `filepath.Base` is modelled on `/` paths. `filepath.Join` is a plain join with `/`, without Go's clean-up of `.`, `..` and doubled slashes.
- `os.UserHomeDir` and `os.Getenv("SHELL")`. They are inputs to `NewDetector` and `DetectShell`.
- Config: JSON loading and saving, the config directory, and `NewManager`'s home-directory and `MkdirAll` errors. The constructor is given the loaded configuration or `None`. `save()` is a possibly failing effect driven by `writeOk`.
- Config: a JSON `null` entry, which the Go getters would dereference.
- Config: the `GetRepoConfig` pointer. Go returns a pointer into the map, so callers that change it change the stored entry. The model returns a value.
- Text.Upper: ASCII upper-casing only. `strings.ToUpper` also maps other Unicode letters.
- Branding: a build's `-ldflags -X` choice of names is a `Brand` value. `Default` is the value compiled in. `AgentWindowName` is held but not used in any property. `SessionPrefix` and `ConfigDirName` appear only in the defaults, `DefaultBrandValues`.
- ShellWrapper.SqueezeDashes: the model reads fish's `string replace -ra '--+' '-'` as taking `--+` as the pattern. No `--` ends the options before it, and how fish's option parser treats an argument starting with `--` is not part of this model. If it rejected the argument, fish's session name would be empty. The fish reference in `BashIntendedMatchesFish` and `FishIntendedMatchesBash` rests on this reading.
- zsh: zsh is given the bash/zsh wrapper (install/install.go:88-99), but the wrapper lemmas use bash's rules for `read`, `${s//pat/rep}`, `${s#p}` and `${s%p}`. How zsh reads the same text is not modelled.
- `tui/styles.go` and `openrouter/prompts.go`: colour and style variables and constant prompt text, with no logic.

## Findings

| source | as written | input that shows it | evidently intended | confidence | as-written member | corrected member |
|---|---|---|---|---|---|---|
| install/templates.go:178-181 | fish reads `is_claude_initialized` from part 8 of the split record, which has seven fields | a seven-field record whose last field is `true` (path `/w`, branch `feat`, auto-claude `true`, terminal-only `false`, empty script, session `s`): bash resumes the agent with `--continue`, fish starts it afresh | read part 7, the field bash reads at install/templates.go:40 | high, not executed | `ShellWrapper.FishIgnoresSeventhField` | `ShellWrapper.FishIntendedMatchesBash` |
| install/templates.go:54-56 | bash makes one non-overlapping `--` → `-` pass and strips one trailing `-` | branch `a///b`: bash gives `gcool-a--b`, fish gives `gcool-a-b` | collapse every dash run as fish does (install/templates.go:193-194), so both shells name the session alike | medium, not executed | `ShellWrapper.BashSessionNameKeepsDoubleDash` | `ShellWrapper.BashIntendedMatchesFish` |
| install/install.go:189-197, 238-246, 343-351 | the splice uses the first start marker and the first end marker without checking their order | content `E-S-` with start marker `S` and end marker `E`: the result `E--S-` keeps both markers and is longer | refuse, or splice only, when the end marker follows the start marker | low, not executed | `Installer.SpliceOutOfOrderRepeats`, `Installer.SpliceOutOfOrderGrows` | `Installer.SpliceIntendedShrinks` |
