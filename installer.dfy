/**
  Installing the shell wrapper into the user's rc file: which shell and rc
  file to use, whether the wrapper needs refreshing, and the text surgery
  of install, update, remove and the silent start-up update. The rc file is
  a value (missing, unreadable, or its content); every write is a
  returned new content; whether a directory creation, backup or write
  succeeds is an input.
*/
module Installer {
  import opened Text
  import opened Wrappers

  datatype Shell = Bash | Zsh | Fish

  /**
    What the installer takes from code outside this model: the two wrapper
    texts, the markers that delimit an installed wrapper, the test that an rc
    file already holds one, and the template checksum of each shell.
  */
  datatype Templates = Templates(
    bashZsh: string,
    fish: string,
    startMarker: string,
    endMarker: string,
    containsMarker: string -> bool,
    checksum: Shell -> string)

  /** The detector fixes the shell, the rc file and the home directory once. */
  datatype Detector = Detector(shell: Shell, rcFile: string, homeDir: string)

  datatype InstallError =
    | HomeDirUnavailable
    | AlreadyInstalled
    | NotInstalled
    | DirectoryFailed
    | BackupFailed
    | MarkersNotFound
    | WriteFailed

  /** How the file-system effects of one operation turn out. */
  datatype Io = Io(mkdirOk: bool, backupOk: bool, writeOk: bool)

  /** The rc file as an operation finds it. */
  datatype RcFile = Missing | Unreadable | Readable(content: string)

  /** What `os.ReadFile` yields when its error is ignored: the content, or "" when there is none. */
  function ContentOrEmpty(file: RcFile): string {
    if file.Readable? then file.content else ""
  }

  /** What an operation does to the rc file. */
  datatype RcChange = Unchanged | Replaced(content: string)

  // ---------------------------------------------------------------------
  // Shell and rc file
  // ---------------------------------------------------------------------

  function StripTrailingSlashes(s: string): string {
    if s != [] && s[|s| - 1] == '/' then StripTrailingSlashes(s[..|s| - 1]) else s
  }

  /** The text after the last `/`. */
  function AfterLastSlash(s: string): string {
    if s == [] || s[|s| - 1] == '/' then [] else AfterLastSlash(s[..|s| - 1]) + [s[|s| - 1]]
  }

  /** filepath.Base on `/`-separated paths: "." for "", "/" for all slashes. */
  function Basename(path: string): string {
    if path == [] then "."
    else
      var p := StripTrailingSlashes(path);
      if p == [] then "/" else AfterLastSlash(p)
  }

  /** The file name after a directory and a `/` is the base name. */
  lemma {:induction false} AfterLastSlashOfName(dir: string, name: string)
    requires '/' !in name
    ensures AfterLastSlash(dir + "/" + name) == name
  {
    if name != [] {
      var n := |name| - 1;
      assert (dir + "/" + name)[..|dir + "/" + name| - 1] == dir + "/" + name[..n];
      assert name[..n] + [name[n]] == name;
      AfterLastSlashOfName(dir, name[..n]);
    } else {
      assert (dir + "/" + name)[|dir + "/" + name| - 1] == '/';
    }
  }

  lemma {:induction false} AfterLastSlashNoSlash(name: string)
    requires '/' !in name
    ensures AfterLastSlash(name) == name
  {
    if name != [] {
      var n := |name| - 1;
      assert name[..n] + [name[n]] == name;
      AfterLastSlashNoSlash(name[..n]);
    }
  }

  /** The base name of `dir/name` is `name`, for a non-empty name without `/`. */
  lemma BasenameOfJoin(dir: string, name: string)
    requires name != [] && '/' !in name
    ensures Basename(dir + "/" + name) == name
    ensures Basename(name) == name
  {
    var p := dir + "/" + name;
    assert p[|p| - 1] == name[|name| - 1];
    assert StripTrailingSlashes(p) == p;
    AfterLastSlashOfName(dir, name);
    assert name[|name| - 1] in name;
    assert StripTrailingSlashes(name) == name;
    AfterLastSlashNoSlash(name);
  }

  /** detectShell: bash when SHELL is unset or empty or names another shell. */
  function DetectShell(shellEnv: string): Shell {
    if shellEnv == "" then Bash
    else
      var name := Basename(shellEnv);
      if name == "zsh" then Zsh
      else if name == "fish" then Fish
      else Bash
  }

  /** The shell is chosen by the base name of SHELL alone. */
  lemma DetectShellCases(shellEnv: string)
    ensures DetectShell(shellEnv) == Zsh <==> shellEnv != "" && Basename(shellEnv) == "zsh"
    ensures DetectShell(shellEnv) == Fish <==> shellEnv != "" && Basename(shellEnv) == "fish"
    ensures DetectShell(shellEnv) == Bash <==>
      shellEnv == "" || (Basename(shellEnv) != "zsh" && Basename(shellEnv) != "fish")
  {
  }

  /**
    A shell installed anywhere is detected by its file name: `…/zsh` and
    `…/fish` by name, any other name as bash, and an empty SHELL as bash.
  */
  lemma DetectShellFromPath(dir: string, name: string)
    requires name != [] && '/' !in name
    ensures DetectShell(dir + "/" + name) == (if name == "zsh" then Zsh else if name == "fish" then Fish else Bash)
    ensures DetectShell("") == Bash
  {
    BasenameOfJoin(dir, name);
  }

  /** filepath.Join of two parts, without the clean-up of `.`, `..` and doubled slashes. */
  function Join(dir: string, rel: string): string {
    if dir == "" then rel else dir + "/" + rel
  }

  /** The rc file's directory below the home directory, and its name. */
  function RcDirectory(shell: Shell): string {
    if shell == Fish then ".config/fish" else ""
  }

  function RcName(shell: Shell): string {
    match shell
    case Zsh => ".zshrc"
    case Fish => "config.fish"
    case Bash => ".bashrc"
  }

  /** GetRCFileForShell. */
  function RcFileForShell(shell: Shell, homeDir: string): string {
    match shell
    case Zsh => Join(homeDir, ".zshrc")
    case Fish => Join(homeDir, ".config/fish" + "/" + "config.fish")
    case Bash => Join(homeDir, ".bashrc")
  }

  /** The rc file carries the shell's own file name and lies under the home directory. */
  lemma RcFileShape(shell: Shell, homeDir: string)
    ensures Basename(RcFileForShell(shell, homeDir)) == RcName(shell)
    ensures homeDir != "" ==>
      RcFileForShell(shell, homeDir) == homeDir + "/" +
        (if shell == Fish then RcDirectory(shell) + "/" else "") + RcName(shell)
  {
    match shell {
      case Fish => FishRcFile(homeDir);
      case Zsh => HomeRcFile(homeDir, ".zshrc");
      case Bash => HomeRcFile(homeDir, ".bashrc");
    }
  }

  lemma HomeRcFile(homeDir: string, name: string)
    requires name == ".zshrc" || name == ".bashrc"
    ensures Basename(Join(homeDir, name)) == name
  {
    assert name[0] == '.' && name[1] != '/' && name[2] != '/' && name[3] != '/';
    assert name[4] != '/' && name[5] != '/';
    assert name == ".bashrc" ==> name[6] != '/';
    BasenameOfJoin(homeDir, name);
  }

  lemma FishRcFile(homeDir: string)
    ensures Basename(Join(homeDir, ".config/fish" + "/" + "config.fish")) == "config.fish"
  {
    var name := "config.fish";
    assert '/' !in name by {
      assert forall k | 0 <= k < |name| :: name[k] != '/';
    }
    if homeDir == "" {
      BasenameOfJoin(".config/fish", name);
    } else {
      assert Join(homeDir, ".config/fish" + "/" + name) == (homeDir + "/" + ".config/fish") + "/" + name;
      BasenameOfJoin(homeDir + "/" + ".config/fish", name);
    }
  }

  /** NewDetector: fails only when the home directory is unknown. */
  function NewDetector(homeDir: Option<string>, shellEnv: string): (r: Result<Detector, InstallError>)
    ensures r.Err? <==> homeDir.None?
    ensures r.Err? ==> r.error == HomeDirUnavailable
    ensures r.Ok? ==> r.value.homeDir == homeDir.value && r.value.shell == DetectShell(shellEnv)
    ensures r.Ok? ==> r.value.rcFile == RcFileForShell(r.value.shell, r.value.homeDir)
  {
    match homeDir
    case None => Err(HomeDirUnavailable)
    case Some(h) =>
      var shell := DetectShell(shellEnv);
      Ok(Detector(shell, RcFileForShell(shell, h), h))
  }

  /** GetWrapper: the fish text for fish, the bash text for bash and zsh. */
  function WrapperFor(t: Templates, shell: Shell): string {
    if shell == Fish then t.fish else t.bashZsh
  }

  lemma WrapperChoice(t: Templates, shell: Shell)
    requires t.fish != t.bashZsh
    ensures WrapperFor(t, shell) == t.fish <==> shell == Fish
    ensures WrapperFor(t, shell) == t.bashZsh <==> shell != Fish
  {
  }

  /** IsInstalled: the file can be read and holds a wrapper marker. */
  predicate IsInstalled(t: Templates, file: RcFile) {
    file.Readable? && t.containsMarker(file.content)
  }

  /**
    NeedsUpdate: the wrapper is not installed, or the checksum recorded in
    the configuration is empty or differs from the current template's.
  */
  predicate NeedsUpdate(t: Templates, d: Detector, file: RcFile, storedChecksum: string) {
    !IsInstalled(t, file) || storedChecksum == "" || storedChecksum != t.checksum(d.shell)
  }

  /**
    A missing or unreadable rc file always needs an update; an rc file with
    a wrapper needs none exactly when the recorded checksum is the current,
    non-empty one.
  */
  lemma NeedsUpdateCases(t: Templates, d: Detector, file: RcFile, storedChecksum: string)
    ensures file.Missing? || file.Unreadable? ==> NeedsUpdate(t, d, file, storedChecksum)
    ensures file.Readable? && !t.containsMarker(file.content) ==> NeedsUpdate(t, d, file, storedChecksum)
    ensures file.Readable? && t.containsMarker(file.content) ==>
      (!NeedsUpdate(t, d, file, storedChecksum) <==> storedChecksum == t.checksum(d.shell) != "")
  {
  }

  // ---------------------------------------------------------------------
  // Text surgery
  // ---------------------------------------------------------------------

  predicate EndsWith(s: string, suffix: string) {
    |suffix| <= |s| && s[|s| - |suffix|..] == suffix
  }

  /**
    The append of Install and AutoUpdate: a newline first when the content
    is non-empty and does not end in one, then a blank line, the wrapper and
    a final newline.
  */
  function AppendWrapper(existing: string, wrapper: string): string {
    var sep := if existing != "" && !EndsWith(existing, "\n") then "\n" else "";
    existing + sep + "\n" + wrapper + "\n"
  }

  /**
    The old content is kept as a prefix, the file ends with the wrapper and a
    newline, and the wrapper starts on a line of its own after a blank line
    (at the very start when the file was empty).
  */
  lemma AppendWrapperShape(existing: string, wrapper: string)
    ensures var r := AppendWrapper(existing, wrapper);
      && existing <= r
      && EndsWith(r, wrapper + "\n")
      && (existing == "" ==> r == "\n" + wrapper + "\n")
      && (existing != "" ==> EndsWith(r[..|r| - |wrapper| - 1], "\n\n"))
      && |r| - |existing| - |wrapper| - 2 == (if existing != "" && !EndsWith(existing, "\n") then 1 else 0)
  {
    var r := AppendWrapper(existing, wrapper);
    var sep := if existing != "" && !EndsWith(existing, "\n") then "\n" else "";
    assert r == existing + sep + "\n" + wrapper + "\n";
    assert r[|r| - |wrapper| - 1..] == wrapper + "\n";
    var head := r[..|r| - |wrapper| - 1];
    assert head == existing + sep + "\n";
    if existing != "" {
      if sep == "" {
        assert existing[|existing| - 1] == '\n';
        assert head[|head| - 2] == existing[|existing| - 1];
      }
      assert head[|head| - 2..] == "\n\n";
    }
  }

  /**
    The splice of Update, Remove and AutoUpdate: from the first start marker
    to the end of the first end marker is replaced, or None when either
    marker is missing. Go's slicing cannot fail here even when the end
    marker comes first.
  */
  function Splice(content: string, startMarker: string, endMarker: string, replacement: string): (r: Option<string>)
    ensures r.Some? <==> Contains(content, startMarker) && Contains(content, endMarker)
  {
    var startIdx := Index(content, startMarker);
    var endIdx := Index(content, endMarker);
    if startIdx == -1 || endIdx == -1 then None
    else Some(content[..startIdx] + replacement + content[endIdx + |endMarker|..])
  }

  /** The text before the first start marker holds no start marker and is kept in front. */
  lemma SpliceKeepsPrefix(content: string, startMarker: string, endMarker: string, replacement: string)
    requires |startMarker| > 0
    requires Contains(content, startMarker) && Contains(content, endMarker)
    ensures var i := Index(content, startMarker);
      && content[..i] + replacement <= Splice(content, startMarker, endMarker, replacement).value
      && !Contains(content[..i], startMarker)
      && OccursAt(content, startMarker, i)
  {
    var i := Index(content, startMarker);
    var before := content[..i];
    forall j | 0 <= j <= |before| - |startMarker| ensures !OccursAt(before, startMarker, j) {
      assert before[j..j + |startMarker|] == content[j..j + |startMarker|];
      assert !OccursAt(content, startMarker, j);
    }
  }

  /**
    When the end marker follows the start marker, exactly the block from the
    start marker through the end marker gives way to the replacement.
  */
  lemma SpliceOrdered(content: string, startMarker: string, endMarker: string, replacement: string)
    requires Contains(content, startMarker) && Contains(content, endMarker)
    requires Index(content, startMarker) + |startMarker| <= Index(content, endMarker)
    ensures var i, j := Index(content, startMarker), Index(content, endMarker) + |endMarker|;
      && i <= j <= |content|
      && content == content[..i] + content[i..j] + content[j..]
      && startMarker <= content[i..j] && EndsWith(content[i..j], endMarker)
      && Splice(content, startMarker, endMarker, replacement) == Some(content[..i] + replacement + content[j..])
  {
    BlockBetween(content, startMarker, endMarker, Index(content, startMarker), Index(content, endMarker));
  }

  /** A start marker at `i` followed by an end marker at `k` delimit a block of the text. */
  lemma BlockBetween(content: string, startMarker: string, endMarker: string, i: int, k: int)
    requires OccursAt(content, startMarker, i) && OccursAt(content, endMarker, k)
    requires i + |startMarker| <= k
    ensures var j := k + |endMarker|;
      && i <= j <= |content|
      && content == content[..i] + content[i..j] + content[j..]
      && startMarker <= content[i..j] && EndsWith(content[i..j], endMarker)
  {
    var j := k + |endMarker|;
    var block := content[i..j];
    assert content == content[..i] + block + content[j..];
    assert block[..|startMarker|] == content[i..i + |startMarker|];
    assert block[|block| - |endMarker|..] == content[k..j];
  }

  /**
    Go's splice as written: an end marker ahead of the start marker makes
    Remove keep the text between them twice, so nothing is removed and the
    file grows.
  */
  lemma SpliceOutOfOrderRepeats()
    ensures Splice("E-S-", "S", "E", "") == Some("E-" + "-S-")
    ensures |Splice("E-S-", "S", "E", "").value| > |"E-S-"|
  {
    assert Index("E-S-", "S") == 2 by {
      assert "E-S-"[2..3] == "S";
      assert OccursAt("E-S-", "S", 2);
      assert "E-S-"[0..1][0] == 'E' && "E-S-"[1..2][0] == '-';
      assert !OccursAt("E-S-", "S", 0) && !OccursAt("E-S-", "S", 1);
    }
    assert Index("E-S-", "E") == 0 by {
      assert "E-S-"[0..1] == "E";
      assert OccursAt("E-S-", "E", 0);
    }
    assert "E-S-"[0 + 1..] == "-S-";
    assert "E-S-"[..2] + "" + "E-S-"[0 + |"E"|..] == "E-" + "-S-";
    assert "E-S-"[..2] == "E-" && "E-S-"[1..] == "-S-";
  }

  /**
    Go's splice as written, on every file whose first end marker ends before
    its first start marker begins: the text between the two is kept on both
    sides of the replacement, so the result is longer than the file plus the
    replacement.
  */
  lemma SpliceOutOfOrderGrows(content: string, startMarker: string, endMarker: string, replacement: string)
    requires Contains(content, startMarker) && Contains(content, endMarker)
    requires Index(content, endMarker) + |endMarker| < Index(content, startMarker)
    ensures var i, j := Index(content, startMarker), Index(content, endMarker) + |endMarker|;
      && Splice(content, startMarker, endMarker, replacement) == Some(content[..i] + replacement + content[j..])
      && Splice(content, startMarker, endMarker, replacement).value
         == content[..j] + content[j..i] + replacement + content[j..i] + content[i..]
      && |Splice(content, startMarker, endMarker, replacement).value| > |content| + |replacement|
  {
  }

  /** The splice with misordered markers refused, as the ordered case evidently intends. */
  function SpliceIntended(content: string, startMarker: string, endMarker: string, replacement: string): (r: Option<string>)
    ensures r.Some? <==>
      Contains(content, startMarker) && Contains(content, endMarker) &&
      Index(content, startMarker) + |startMarker| <= Index(content, endMarker)
    ensures r.Some? ==> r == Splice(content, startMarker, endMarker, replacement)
  {
    var startIdx := Index(content, startMarker);
    var endIdx := Index(content, endMarker);
    if startIdx == -1 || endIdx == -1 || endIdx < startIdx + |startMarker| then None
    else Some(content[..startIdx] + replacement + content[endIdx + |endMarker|..])
  }

  /** Removing with the intended splice never grows the file: the block removed is at least both markers long. */
  lemma SpliceIntendedShrinks(content: string, startMarker: string, endMarker: string)
    requires SpliceIntended(content, startMarker, endMarker, "").Some?
    ensures |SpliceIntended(content, startMarker, endMarker, "").value| + |startMarker| + |endMarker| <= |content|
  {
    SpliceOrdered(content, startMarker, endMarker, "");
  }

  // ---------------------------------------------------------------------
  // Collapsing blank lines
  // ---------------------------------------------------------------------

  const NL2: string := "\n\n"
  const NL3: string := "\n\n\n"

  /** `run` newlines, for a run of at most two. */
  function Newlines(run: nat): string
    requires run <= 2
  {
    if run == 0 then "" else if run == 1 then "\n" else NL2
  }

  /**
    The reference for the clean-up: every run of newlines is cut down to at
    most two; `run` counts the newlines just emitted.
  */
  function CapFrom(s: string, run: nat): string
    requires run <= 2
  {
    if s == [] then []
    else if s[0] == '\n' then
      (if run == 2 then CapFrom(s[1..], 2) else "\n" + CapFrom(s[1..], run + 1))
    else [s[0]] + CapFrom(s[1..], 0)
  }

  function CapNewlines(s: string): string {
    CapFrom(s, 0)
  }

  /** After two newlines, a third adds nothing. */
  lemma CapAfterTwo(x: string, run: nat)
    requires run <= 2
    ensures CapFrom(NL3 + x, run) == CapFrom(NL2 + x, run)
  {
    assert NL3 + x == NL2 + ("\n" + x);
    CapTwoThen("\n" + x, run);
    CapTwoThen(x, run);
    assert ("\n" + x)[1..] == x;
  }

  /** One pass of ReplaceAll("\n\n\n", "\n\n") leaves the capped text unchanged. */
  lemma {:induction false} ReplacePreservesCap(s: string, run: nat)
    requires run <= 2
    ensures CapFrom(ReplaceAll(s, NL3, NL2), run) == CapFrom(s, run)
    decreases |s|
  {
    if |s| < 3 {
    } else if s[..3] == NL3 {
      var x := s[3..];
      assert s == NL3 + x;
      ReplacePreservesCap(x, 2);
      CapAfterTwo(x, run);
      CapAfterTwo(ReplaceAll(x, NL3, NL2), run);
      assert ReplaceAll(s, NL3, NL2) == NL2 + ReplaceAll(x, NL3, NL2);
      CapTwoThen(ReplaceAll(x, NL3, NL2), run);
      CapTwoThen(x, run);
    } else {
      var next := if s[0] == '\n' then (if run == 2 then 2 else run + 1) else 0;
      ReplacePreservesCap(s[1..], next);
      var r := ReplaceAll(s, NL3, NL2);
      assert r == [s[0]] + ReplaceAll(s[1..], NL3, NL2);
      assert r[0] == s[0] && r[1..] == ReplaceAll(s[1..], NL3, NL2);
    }
  }

  /** After two newlines the capped text continues from a full run. */
  lemma CapTwoThen(x: string, run: nat)
    requires run <= 2
    ensures CapFrom(NL2 + x, run) == Newlines(2 - run) + CapFrom(x, 2)
  {
    assert (NL2 + x)[1..] == "\n" + x;
    assert ("\n" + x)[1..] == x;
  }

  /** Text with no three newlines in a row (counting the run before it) is its own capped form. */
  lemma {:induction false} CapIdentity(s: string, run: nat)
    requires run <= 2
    requires !Contains(Newlines(run) + s, NL3)
    ensures CapFrom(s, run) == s
    decreases |s|
  {
    if s != [] {
      if s[0] == '\n' {
        if run == 2 {
          assert (Newlines(run) + s)[..3] == NL3;
          assert OccursAt(Newlines(run) + s, NL3, 0);
          assert false;
        }
        assert Newlines(run + 1) + s[1..] == Newlines(run) + s;
        CapIdentity(s[1..], run + 1);
      } else {
        assert Newlines(run) + s == (Newlines(run) + [s[0]]) + s[1..];
        if Contains(s[1..], NL3) {
          ContainsInSuffix(Newlines(run) + [s[0]], s[1..], NL3);
          assert false;
        }
        assert Newlines(0) + s[1..] == s[1..];
        CapIdentity(s[1..], 0);
      }
      assert s == [s[0]] + s[1..];
    }
  }

  /** The text without its newlines, to say that capping changes newlines only. */
  function DropNewlines(s: string): string {
    if s == [] then [] else (if s[0] == '\n' then [] else [s[0]]) + DropNewlines(s[1..])
  }

  /** Capping keeps every other character, in order. */
  lemma {:induction false} CapKeepsText(s: string, run: nat)
    requires run <= 2
    ensures DropNewlines(CapFrom(s, run)) == DropNewlines(s)
    decreases |s|
  {
    if s != [] {
      var next := if s[0] == '\n' then (if run == 2 then 2 else run + 1) else 0;
      CapKeepsText(s[1..], next);
      if s[0] == '\n' && run < 2 {
        assert ("\n" + CapFrom(s[1..], run + 1))[1..] == CapFrom(s[1..], run + 1);
      } else if s[0] != '\n' {
        assert ([s[0]] + CapFrom(s[1..], 0))[1..] == CapFrom(s[1..], 0);
      }
    }
  }

  /**
    The `for strings.Contains(s, "\n\n\n")` clean-up loop: it ends, leaves no
    three newlines in a row, and leaves exactly the capped text.
  */
  method CollapseBlankLines(s: string) returns (r: string)
    ensures r == CapNewlines(s)
    ensures !Contains(r, NL3)
  {
    r := s;
    while Contains(r, NL3)
      invariant CapNewlines(r) == CapNewlines(s)
      decreases |r|
    {
      ReplaceAllShrinks(r, NL3, NL2);
      ReplacePreservesCap(r, 0);
      r := ReplaceAll(r, NL3, NL2);
    }
    assert Newlines(0) + r == r;
    CapIdentity(r, 0);
  }

  // ---------------------------------------------------------------------
  // The operations
  // ---------------------------------------------------------------------

  /**
    Install's backup step: nothing to back up when the file is missing;
    otherwise the copy reads the file, so an unreadable file fails it.
  */
  predicate BackupSucceeds(file: RcFile, io: Io) {
    file.Missing? || (file.Readable? && io.backupOk)
  }

  /**
    Install: refuses when installed, fails when the rc directory cannot be
    made; a dry run writes nothing; an existing file is backed up first, and
    a file that exists but cannot be read fails that backup.
  */
  function Install(t: Templates, d: Detector, file: RcFile, dryRun: bool, io: Io): (r: Result<RcChange, InstallError>)
    ensures IsInstalled(t, file) <==> r == Err(AlreadyInstalled)
    ensures r == Err(DirectoryFailed) <==> !IsInstalled(t, file) && !io.mkdirOk
    ensures r == Ok(Unchanged) <==> !IsInstalled(t, file) && io.mkdirOk && dryRun
    ensures r == Err(BackupFailed) <==>
      !IsInstalled(t, file) && io.mkdirOk && !dryRun && !BackupSucceeds(file, io)
    ensures r == Err(WriteFailed) <==>
      !IsInstalled(t, file) && io.mkdirOk && !dryRun && BackupSucceeds(file, io) && !io.writeOk
    ensures r.Ok? && r.value.Replaced? <==>
      !IsInstalled(t, file) && io.mkdirOk && !dryRun && BackupSucceeds(file, io) && io.writeOk
    ensures r.Ok? && r.value.Replaced? ==>
      && r.value.content == AppendWrapper(ContentOrEmpty(file), WrapperFor(t, d.shell))
      && ContentOrEmpty(file) <= r.value.content
      && EndsWith(r.value.content, WrapperFor(t, d.shell) + "\n")
  {
    if IsInstalled(t, file) then Err(AlreadyInstalled)
    else if !io.mkdirOk then Err(DirectoryFailed)
    else if dryRun then Ok(Unchanged)
    else if !BackupSucceeds(file, io) then Err(BackupFailed)
    else
      var existing := ContentOrEmpty(file);
      var content := AppendWrapper(existing, WrapperFor(t, d.shell));
      AppendWrapperShape(existing, WrapperFor(t, d.shell));
      if !io.writeOk then Err(WriteFailed) else Ok(Replaced(content))
  }

  /** What Update writes: the wrapper and a newline in place of the old block, then the clean-up. */
  function UpdatedContent(t: Templates, d: Detector, content: string): Option<string> {
    match Splice(content, t.startMarker, t.endMarker, WrapperFor(t, d.shell) + "\n")
    case None => None
    case Some(c) => Some(CapNewlines(c))
  }

  /** What Remove writes: the old block cut out, then the clean-up. */
  function RemovedContent(t: Templates, content: string): Option<string> {
    match Splice(content, t.startMarker, t.endMarker, "")
    case None => None
    case Some(c) => Some(CapNewlines(c))
  }

  /**
    Update: refuses when not installed; a dry run writes nothing; refuses,
    writing nothing, when a marker is missing.
  */
  method Update(t: Templates, d: Detector, file: RcFile, dryRun: bool, io: Io) returns (r: Result<RcChange, InstallError>)
    ensures !IsInstalled(t, file) ==> r == Err(NotInstalled)
    ensures IsInstalled(t, file) && dryRun ==> r == Ok(Unchanged)
    ensures IsInstalled(t, file) && !dryRun ==>
      match UpdatedContent(t, d, file.content)
      case None => r == Err(MarkersNotFound)
      case Some(c) => r == (if io.writeOk then Ok(Replaced(c)) else Err(WriteFailed))
    ensures r.Ok? && r.value.Replaced? ==> !Contains(r.value.content, NL3)
  {
    if !IsInstalled(t, file) {
      return Err(NotInstalled);
    }
    if dryRun {
      return Ok(Unchanged);
    }
    var spliced := Splice(file.content, t.startMarker, t.endMarker, WrapperFor(t, d.shell) + "\n");
    if spliced.None? {
      return Err(MarkersNotFound);
    }
    var c := CollapseBlankLines(spliced.value);
    if !io.writeOk {
      return Err(WriteFailed);
    }
    return Ok(Replaced(c));
  }

  /** Remove: as Update, with the block cut out rather than replaced. */
  method Remove(t: Templates, file: RcFile, dryRun: bool, io: Io) returns (r: Result<RcChange, InstallError>)
    ensures !IsInstalled(t, file) ==> r == Err(NotInstalled)
    ensures IsInstalled(t, file) && dryRun ==> r == Ok(Unchanged)
    ensures IsInstalled(t, file) && !dryRun ==>
      match RemovedContent(t, file.content)
      case None => r == Err(MarkersNotFound)
      case Some(c) => r == (if io.writeOk then Ok(Replaced(c)) else Err(WriteFailed))
    ensures r.Ok? && r.value.Replaced? ==> !Contains(r.value.content, NL3)
  {
    if !IsInstalled(t, file) {
      return Err(NotInstalled);
    }
    if dryRun {
      return Ok(Unchanged);
    }
    var spliced := Splice(file.content, t.startMarker, t.endMarker, "");
    if spliced.None? {
      return Err(MarkersNotFound);
    }
    var c := CollapseBlankLines(spliced.value);
    if !io.writeOk {
      return Err(WriteFailed);
    }
    return Ok(Replaced(c));
  }

  /**
    AutoUpdate, run at every start: installs when not installed, otherwise
    replaces the block as Update does. `stored` is the checksum it asks the
    configuration to record, after a successful write only; a failure to
    record it is not an error. Unlike Install it makes no backup and reads
    an unreadable file as empty. A write that leaves a wrapper marker means
    no update is needed next time, once the non-empty checksum is recorded.
  */
  method AutoUpdate(t: Templates, d: Detector, file: RcFile, io: Io)
    returns (r: Result<RcChange, InstallError>, stored: Option<string>)
    ensures stored.Some? <==> r.Ok?
    ensures stored.Some? ==> stored.value == t.checksum(d.shell)
    ensures r.Ok? ==> r.value.Replaced?
    ensures !IsInstalled(t, file) ==>
      r == (if !io.mkdirOk then Err(DirectoryFailed)
            else if !io.writeOk then Err(WriteFailed)
            else Ok(Replaced(AppendWrapper(ContentOrEmpty(file), WrapperFor(t, d.shell)))))
    ensures IsInstalled(t, file) ==>
      match UpdatedContent(t, d, file.content)
      case None => r == Err(MarkersNotFound)
      case Some(c) => r == (if io.writeOk then Ok(Replaced(c)) else Err(WriteFailed))
    ensures r.Ok? && t.containsMarker(r.value.content) && t.checksum(d.shell) != "" ==>
      !NeedsUpdate(t, d, Readable(r.value.content), stored.value)
  {
    var wrapper := WrapperFor(t, d.shell);
    if !IsInstalled(t, file) {
      if !io.mkdirOk {
        return Err(DirectoryFailed), None;
      }
      var existing := ContentOrEmpty(file);
      if !io.writeOk {
        return Err(WriteFailed), None;
      }
      return Ok(Replaced(AppendWrapper(existing, wrapper))), Some(t.checksum(d.shell));
    }
    var spliced := Splice(file.content, t.startMarker, t.endMarker, wrapper + "\n");
    if spliced.None? {
      return Err(MarkersNotFound), None;
    }
    var c := CollapseBlankLines(spliced.value);
    if !io.writeOk {
      return Err(WriteFailed), None;
    }
    return Ok(Replaced(c)), Some(t.checksum(d.shell));
  }

  /**
    Update's new content, when the markers are in order, is the text before
    the old block, the wrapper and the text after it, cleaned up (which
    changes newline runs only: CapKeepsText).
  */
  lemma UpdatedContentShape(t: Templates, d: Detector, content: string)
    requires Contains(content, t.startMarker) && Contains(content, t.endMarker)
    requires Index(content, t.startMarker) + |t.startMarker| <= Index(content, t.endMarker)
    ensures var i, j := Index(content, t.startMarker), Index(content, t.endMarker) + |t.endMarker|;
      UpdatedContent(t, d, content) ==
        Some(CapNewlines(content[..i] + (WrapperFor(t, d.shell) + "\n") + content[j..]))
  {
    SpliceOrdered(content, t.startMarker, t.endMarker, WrapperFor(t, d.shell) + "\n");
  }

  /**
    Remove's new content, when the markers are in order, is the text around
    the old block, cleaned up.
  */
  lemma RemovedContentShape(t: Templates, content: string)
    requires Contains(content, t.startMarker) && Contains(content, t.endMarker)
    requires Index(content, t.startMarker) + |t.startMarker| <= Index(content, t.endMarker)
    ensures var i, j := Index(content, t.startMarker), Index(content, t.endMarker) + |t.endMarker|;
      RemovedContent(t, content) == Some(CapNewlines(content[..i] + content[j..]))
  {
    var i, j := Index(content, t.startMarker), Index(content, t.endMarker) + |t.endMarker|;
    SpliceOrdered(content, t.startMarker, t.endMarker, "");
    EmptyBetween(content[..i], content[j..]);
  }

  lemma EmptyBetween(a: string, b: string)
    ensures a + "" + b == a + b
  {
  }

  /** Cleaning up text that has no three newlines in a row changes nothing. */
  lemma CapNewlinesIdentity(s: string)
    requires !Contains(s, NL3)
    ensures CapNewlines(s) == s
  {
    assert Newlines(0) + s == s;
    CapIdentity(s, 0);
  }
}
