/**
  The shell functions installed into the user's rc file (a bash/zsh version
  and a fish version). After the CLI exits, the function reads the hand-off
  record the CLI left in a temporary file, derives a tmux session name from
  the branch, and decides whether to change directory, attach to an existing
  session, or create one (running a plain shell or the Claude agent) and
  attach. The decision is a value of `Action`; the tmux and `cd` calls it
  stands for are not modelled.
*/
module ShellWrapper {
  import opened Text
  import opened Wrappers

  /** The session-name prefix hard-coded in both scripts. */
  const SessionPrefix: string := "gcool-"

  /** Appended to the name of a terminal-only session. */
  const TerminalSuffix: string := "-terminal"

  /**
    The hand-off record as a script sees it, one field per variable:
    path|branch|auto_claude|terminal_only|script_command|claude_session_name|is_claude_initialized
  */
  datatype Record = Record(
    worktreePath: string,
    branch: string,
    autoClaude: string,
    terminalOnly: string,
    scriptCommand: string,
    claudeSessionName: string,
    isClaudeInitialized: string)

  // ---------------------------------------------------------------------
  // Reading the record
  // ---------------------------------------------------------------------

  /**
    What bash's `read` stores in the LAST variable: the rest of the line,
    except that a single trailing `|` is dropped when it is the only `|` left.
  */
  function LastVariable(rest: string): string {
    if |rest| > 0 && rest[|rest| - 1] == '|' && '|' !in rest[..|rest| - 1]
    then rest[..|rest| - 1]
    else rest
  }

  /**
    `IFS='|' read -r v1 ... vn`: each variable but the last takes the text
    up to the next `|`; variables left over when the line runs out are
    empty; the last takes the remainder (see LastVariable).
  */
  function ReadFields(line: string, n: nat): (vs: seq<string>)
    requires n >= 1
    ensures |vs| == n
    decreases n
  {
    if n == 1 then [LastVariable(line)]
    else if '|' in line then
      var i := IndexOfChar(line, '|');
      [line[..i]] + ReadFields(line[i + 1..], n - 1)
    else [line] + ReadFields("", n - 1)
  }

  /** Bash reads the seven variables of the record. */
  function BashParse(info: string): Record {
    var v := ReadFields(info, 7);
    Record(v[0], v[1], v[2], v[3], v[4], v[5], v[6])
  }

  /** Bash's validity test `[[ "$switch_info" == *"|"*"|"* ]]`. */
  predicate BashRecordValid(info: string) {
    exists i, j | 0 <= i < j < |info| :: info[i] == '|' && info[j] == '|'
  }

  /**
    Fish's reading of `string split '|'` output, which it only does for at
    least three parts: fields 4 and 6 default when absent, and the
    initialised flag is read from part 8, which a seven-field record does
    not have. Fish never reads the script-command field.
  */
  function FishFields(parts: seq<string>): Record
    requires |parts| >= 3
  {
    Record(
      parts[0], parts[1], parts[2],
      if |parts| >= 4 then parts[3] else "false",
      "",
      if |parts| >= 6 then parts[5] else "",
      if |parts| >= 8 then parts[7] else "false")
  }

  /** Fish's reading with the initialised flag taken from part 7, the record's seventh field. */
  function FishFieldsIntended(parts: seq<string>): Record
    requires |parts| >= 3
  {
    FishFields(parts).(isClaudeInitialized := if |parts| >= 7 then parts[6] else "false")
  }

  /** Two `|` characters exist exactly when the count of `|` is at least two. */
  lemma {:induction false} TwoPipesIffCount(info: string)
    ensures BashRecordValid(info) <==> Count(info, '|') >= 2
  {
    if info != [] {
      var t := info[1..];
      TwoPipesIffCount(t);
      CountZero(t, '|');
      if BashRecordValid(info) {
        var i, j :| 0 <= i < j < |info| && info[i] == '|' && info[j] == '|';
        if i == 0 {
          assert t[j - 1] == '|';
        } else {
          assert t[i - 1] == '|' && t[j - 1] == '|';
        }
      }
      if Count(info, '|') >= 2 {
        if info[0] == '|' {
          var j := IndexOfChar(t, '|');
          assert info[j + 1] == '|';
        } else {
          var i, j :| 0 <= i < j < |t| && t[i] == '|' && t[j] == '|';
          assert info[i + 1] == '|' && info[j + 1] == '|';
        }
      }
    }
  }

  /** The two scripts agree on which records are well formed: two `|` exactly when fish sees three parts. */
  lemma ValidityAgrees(info: string)
    ensures BashRecordValid(info) <==> |Split(info, '|')| >= 3
  {
    TwoPipesIffCount(info);
  }

  /**
    With at most n-1 separators, bash's variables are the split parts, and
    the variables past the last part are empty.
  */
  lemma {:induction false} ReadFieldsMatchSplit(s: string, n: nat, k: nat)
    requires n >= 1 && Count(s, '|') < n && k < n
    ensures ReadFields(s, n)[k] == (if k < |Split(s, '|')| then Split(s, '|')[k] else "")
    decreases n, 1
  {
    if n == 1 {
      OneVariable(s);
    } else if '|' in s {
      MatchSeparatorCase(s, n, k);
    } else {
      if k > 0 {
        ReadFieldsMatchSplit("", n - 1, k - 1);
      }
      NoSeparatorStep(s, n, k);
    }
  }

  /** ReadFieldsMatchSplit on a line with a `|`: the first part, then the rest of the line. */
  lemma {:induction false} MatchSeparatorCase(s: string, n: nat, k: nat)
    requires n >= 2 && '|' in s && Count(s, '|') < n && k < n
    ensures ReadFields(s, n)[k] == (if k < |Split(s, '|')| then Split(s, '|')[k] else "")
    decreases n, 0
  {
    if k > 0 {
      CountAfterFirst(s);
      ReadFieldsMatchSplit(s[IndexOfChar(s, '|') + 1..], n - 1, k - 1);
      MatchStep(s, n, k);
    } else {
      ReadFieldsStep(s, n);
    }
  }

  /** One variable on a line without `|` takes the whole line, the one part. */
  lemma OneVariable(s: string)
    requires Count(s, '|') < 1
    ensures ReadFields(s, 1)[0] == Split(s, '|')[0]
  {
    CountZero(s, '|');
    SplitNoSeparator(s, '|');
  }

  /** The step of ReadFieldsMatchSplit on a line without `|`: one part, then empty variables. */
  lemma NoSeparatorStep(s: string, n: nat, k: nat)
    requires n >= 2 && '|' !in s && k < n
    requires k > 0 ==> ReadFields("", n - 1)[k - 1] == (if k - 1 < |Split("", '|')| then Split("", '|')[k - 1] else "")
    ensures ReadFields(s, n)[k] == (if k < |Split(s, '|')| then Split(s, '|')[k] else "")
  {
    SplitNoSeparator(s, '|');
    assert ReadFields(s, n) == [s] + ReadFields("", n - 1);
    assert Split("", '|') == [[]];
  }

  /**
    With at least n-1 separators, the first n-1 variables are the first n-1
    parts, and the last variable takes all the remaining parts with their
    separators (less a lone trailing `|`, see LastVariable).
  */
  lemma {:induction false} ReadFieldsRemainder(s: string, n: nat)
    requires n >= 1 && Count(s, '|') >= n - 1
    ensures |Split(s, '|')| >= n
    ensures forall k | 0 <= k < n - 1 :: ReadFields(s, n)[k] == Split(s, '|')[k]
    ensures ReadFields(s, n)[n - 1] == LastVariable(JoinWith(Split(s, '|')[n - 1..], '|'))
    decreases n
  {
    if n == 1 {
      ReadOneField(s);
    } else {
      CountZero(s, '|');
      var t := s[IndexOfChar(s, '|') + 1..];
      CountAfterFirst(s);
      ReadFieldsRemainder(t, n - 1);
      RemainderStep(s, n);
    }
  }

  /** The text after the first `|` has one separator fewer. */
  lemma CountAfterFirst(s: string)
    requires '|' in s
    ensures Count(s[IndexOfChar(s, '|') + 1..], '|') == Count(s, '|') - 1
  {
    SplitAtFirst(s, '|', IndexOfChar(s, '|'));
  }

  /** The step of ReadFieldsMatchSplit past the first variable. */
  lemma MatchStep(s: string, n: nat, k: nat)
    requires n >= 2 && '|' in s && 0 < k < n
    requires var t := s[IndexOfChar(s, '|') + 1..];
      ReadFields(t, n - 1)[k - 1] == (if k - 1 < |Split(t, '|')| then Split(t, '|')[k - 1] else "")
    ensures ReadFields(s, n)[k] == (if k < |Split(s, '|')| then Split(s, '|')[k] else "")
  {
    ReadFieldsStep(s, n);
  }

  /** The step of ReadFieldsRemainder: what holds after the first `|` holds for the whole line. */
  lemma RemainderStep(s: string, n: nat)
    requires n >= 2 && '|' in s
    requires var t := s[IndexOfChar(s, '|') + 1..];
      && |Split(t, '|')| >= n - 1
      && (forall k | 0 <= k < n - 2 :: ReadFields(t, n - 1)[k] == Split(t, '|')[k])
      && ReadFields(t, n - 1)[n - 2] == LastVariable(JoinWith(Split(t, '|')[n - 2..], '|'))
    ensures |Split(s, '|')| >= n
    ensures forall k | 0 <= k < n - 1 :: ReadFields(s, n)[k] == Split(s, '|')[k]
    ensures ReadFields(s, n)[n - 1] == LastVariable(JoinWith(Split(s, '|')[n - 1..], '|'))
  {
    var i := IndexOfChar(s, '|');
    var t := s[i + 1..];
    ReadFieldsStep(s, n);
    ShiftParts(ReadFields(s, n), ReadFields(t, n - 1), Split(s, '|'), Split(t, '|'), s[..i], n);
  }

  /** Putting the same first part in front of two lists that agree on a prefix. */
  lemma ShiftParts(vs: seq<string>, vt: seq<string>, ps: seq<string>, pt: seq<string>, head: string, n: nat)
    requires n >= 2 && vs == [head] + vt && ps == [head] + pt
    requires |vt| == n - 1 && |pt| >= n - 1
    requires forall k | 0 <= k < n - 2 :: vt[k] == pt[k]
    ensures forall k | 0 <= k < n - 1 :: vs[k] == ps[k]
    ensures vs[n - 1] == vt[n - 2] && ps[n - 1..] == pt[n - 2..]
  {
    forall k | 1 <= k < n - 1 ensures vs[k] == ps[k] {
      assert vs[k] == vt[k - 1] && ps[k] == pt[k - 1];
    }
  }

  /** A single variable takes the whole line, less a lone trailing `|`. */
  lemma ReadOneField(s: string)
    ensures ReadFields(s, 1)[0] == LastVariable(JoinWith(Split(s, '|')[0..], '|'))
  {
    JoinSplit(s, '|');
    assert Split(s, '|')[0..] == Split(s, '|');
  }

  /** Bash's `read` and the split both peel off the text before the first `|`. */
  lemma ReadFieldsStep(s: string, n: nat)
    requires n >= 2 && '|' in s
    ensures var i := IndexOfChar(s, '|');
      && ReadFields(s, n) == [s[..i]] + ReadFields(s[i + 1..], n - 1)
      && Split(s, '|') == [s[..i]] + Split(s[i + 1..], '|')
  {
    var i := IndexOfChar(s, '|');
    SplitAtFirst(s, '|', i);
    ReadFieldsPeel(s, n);
  }

  lemma ReadFieldsPeel(s: string, n: nat)
    requires n >= 2 && '|' in s
    ensures ReadFields(s, n) == [s[..IndexOfChar(s, '|')]] + ReadFields(s[IndexOfChar(s, '|') + 1..], n - 1)
  {
  }

  /**
    For a record of at most seven fields, bash's seven variables are its
    fields in order, and the variables of missing trailing fields are empty.
  */
  lemma BashParseFields(info: string)
    requires Count(info, '|') <= 6
    ensures var p, r := Split(info, '|'), BashParse(info);
      && r.worktreePath == p[0]
      && r.branch == (if |p| > 1 then p[1] else "")
      && r.autoClaude == (if |p| > 2 then p[2] else "")
      && r.terminalOnly == (if |p| > 3 then p[3] else "")
      && r.scriptCommand == (if |p| > 4 then p[4] else "")
      && r.claudeSessionName == (if |p| > 5 then p[5] else "")
      && r.isClaudeInitialized == (if |p| > 6 then p[6] else "")
  {
    ReadFieldsMatchSplit(info, 7, 0);
    ReadFieldsMatchSplit(info, 7, 1);
    ReadFieldsMatchSplit(info, 7, 2);
    ReadFieldsMatchSplit(info, 7, 3);
    ReadFieldsMatchSplit(info, 7, 4);
    ReadFieldsMatchSplit(info, 7, 5);
    ReadFieldsMatchSplit(info, 7, 6);
  }

  /**
    Fish, as written, never sees the initialised flag of a record of at most
    seven fields: it reads the default "false" even when field 7 is "true",
    while bash reads field 7.
  */
  lemma FishIgnoresSeventhField(info: string)
    requires 2 <= Count(info, '|') <= 6
    ensures FishFields(Split(info, '|')).isClaudeInitialized == "false"
    ensures Count(info, '|') == 6 ==>
      BashParse(info).isClaudeInitialized == Split(info, '|')[6]
  {
    BashParseFields(info);
  }

  /**
    Reading the flag from field 7 makes fish agree with bash on every field
    both scripts read, for every well-formed record of at most seven fields
    (on the flags, as far as the test `= "true"` can tell).
  */
  lemma FishIntendedAgreesWithBash(info: string)
    requires 2 <= Count(info, '|') <= 6
    ensures var b, f := BashParse(info), FishFieldsIntended(Split(info, '|'));
      && b.worktreePath == f.worktreePath
      && b.branch == f.branch
      && b.autoClaude == f.autoClaude
      && b.claudeSessionName == f.claudeSessionName
      && (b.terminalOnly == "true" <==> f.terminalOnly == "true")
      && (b.isClaudeInitialized == "true" <==> f.isClaudeInitialized == "true")
  {
    BashParseFields(info);
  }

  // ---------------------------------------------------------------------
  // Session names
  // ---------------------------------------------------------------------

  /** The characters tmux session names are kept to: `[a-zA-Z0-9_-]`. */
  predicate SessionChar(c: char) {
    ('a' <= c <= 'z') || ('A' <= c <= 'Z') || ('0' <= c <= '9') || c == '-' || c == '_'
  }

  predicate AllSessionChars(s: string) {
    forall i | 0 <= i < |s| :: SessionChar(s[i])
  }

  predicate NoDoubleDash(s: string) {
    forall i | 0 <= i < |s| - 1 :: !(s[i] == '-' && s[i + 1] == '-')
  }

  /** What tmux is asked for: allowed characters, no `--`, no `-` at either end. */
  predicate WellFormedName(s: string) {
    AllSessionChars(s) && NoDoubleDash(s) && (s != [] ==> s[0] != '-' && s[|s| - 1] != '-')
  }

  /** Both scripts' `[^a-zA-Z0-9\-_]` -> `-` substitution, character by character. */
  function Sanitize(s: string): string {
    if s == [] then [] else [if SessionChar(s[0]) then s[0] else '-'] + Sanitize(s[1..])
  }

  /** `${s#p}`: drop one leading `p`. */
  function RemovePrefix(s: string, p: string): string {
    if p <= s then s[|p|..] else s
  }

  /** `${s%p}`: drop one trailing `p`. */
  function RemoveSuffix(s: string, p: string): string {
    if |p| <= |s| && s[|s| - |p|..] == p then s[..|s| - |p|] else s
  }

  /** Fish's `string replace -ra '--+' '-'`: every run of dashes becomes one dash. */
  function SqueezeDashes(s: string): string {
    if |s| >= 2 && s[0] == '-' && s[1] == '-' then SqueezeDashes(s[1..])
    else if s == [] then []
    else [s[0]] + SqueezeDashes(s[1..])
  }

  function TrimLeft(s: string, c: char): string {
    if s != [] && s[0] == c then TrimLeft(s[1..], c) else s
  }

  function TrimRight(s: string, c: char): string {
    if s != [] && s[|s| - 1] == c then TrimRight(s[..|s| - 1], c) else s
  }

  /** Fish's `string trim -c '-'`: every leading and trailing dash removed. */
  function TrimDashes(s: string): string {
    TrimRight(TrimLeft(s, '-'), '-')
  }

  function WithTerminalSuffix(name: string, terminalOnly: string): string {
    if terminalOnly == "true" then name + TerminalSuffix else name
  }

  /** Bash: prefix, sanitise, one pass of `--` -> `-`, then strip one leading and one trailing `-`. */
  function BashSessionBase(branch: string): string {
    var named := SessionPrefix + Sanitize(branch);
    RemoveSuffix(RemovePrefix(ReplaceAll(named, "--", "-"), "-"), "-")
  }

  function BashSessionName(branch: string, terminalOnly: string): string {
    WithTerminalSuffix(BashSessionBase(branch), terminalOnly)
  }

  /** Fish: prefix, sanitise, collapse every run of `-`, trim all `-` at both ends. */
  function FishSessionBase(branch: string): string {
    TrimDashes(SqueezeDashes(SessionPrefix + Sanitize(branch)))
  }

  function FishSessionName(branch: string, terminalOnly: string): string {
    WithTerminalSuffix(FishSessionBase(branch), terminalOnly)
  }

  /** Bash with its single `--` pass replaced by fish's collapse of whole runs. */
  function BashSessionNameIntended(branch: string, terminalOnly: string): string {
    var named := SessionPrefix + Sanitize(branch);
    WithTerminalSuffix(RemoveSuffix(RemovePrefix(SqueezeDashes(named), "-"), "-"), terminalOnly)
  }

  /**
    Sanitising keeps the length, keeps every allowed character where it was,
    and puts `-` in place of every other character.
  */
  lemma {:induction false} SanitizeAt(s: string, i: int)
    requires 0 <= i < |s|
    ensures |Sanitize(s)| == |s|
    ensures Sanitize(s)[i] == (if SessionChar(s[i]) then s[i] else '-')
  {
    if i > 0 {
      SanitizeAt(s[1..], i - 1);
    } else if |s| > 1 {
      SanitizeAt(s[1..], 0);
    }
  }

  lemma SanitizeAllowed(s: string)
    ensures AllSessionChars(Sanitize(s))
  {
    forall i | 0 <= i < |Sanitize(s)| ensures SessionChar(Sanitize(s)[i]) {
      SanitizeLength(s);
      SanitizeAt(s, i);
    }
  }

  lemma {:induction false} SanitizeLength(s: string)
    ensures |Sanitize(s)| == |s|
  {
    if s != [] {
      SanitizeLength(s[1..]);
    }
  }

  /** Every character `SqueezeDashes` produces comes from its input, and the output keeps the first character. */
  lemma {:induction false} SqueezeChars(s: string)
    ensures forall c | c in SqueezeDashes(s) :: c in s
    ensures |SqueezeDashes(s)| <= |s|
    ensures s != [] ==> SqueezeDashes(s) != [] && SqueezeDashes(s)[0] == s[0]
    ensures NoDoubleDash(SqueezeDashes(s))
  {
    if s != [] {
      SqueezeChars(s[1..]);
      var r := SqueezeDashes(s);
      var t := SqueezeDashes(s[1..]);
      if |s| >= 2 && s[0] == '-' && s[1] == '-' {
        assert r == t;
      } else {
        assert r == [s[0]] + t;
        if |s| >= 2 && s[0] == '-' {
          assert t[0] == s[1];
        }
        assert forall i | 1 <= i < |r| - 1 :: r[i] == t[i - 1] && r[i + 1] == t[i];
      }
    }
  }

  /** The string with every dash removed. */
  function DropDashes(s: string): string {
    if s == [] then [] else (if s[0] == '-' then [] else [s[0]]) + DropDashes(s[1..])
  }

  /** Collapsing dash runs keeps every other character, in order. */
  lemma {:induction false} SqueezeKeepsText(s: string)
    ensures DropDashes(SqueezeDashes(s)) == DropDashes(s)
  {
    if s != [] {
      SqueezeKeepsText(s[1..]);
      if !(|s| >= 2 && s[0] == '-' && s[1] == '-') {
        var t := SqueezeDashes(s[1..]);
        assert ([s[0]] + t)[1..] == t;
      }
    }
  }

  /** A string without `--` is already collapsed. */
  lemma {:induction false} SqueezeIdentity(s: string)
    requires NoDoubleDash(s)
    ensures SqueezeDashes(s) == s
  {
    if s != [] {
      forall i | 0 <= i < |s[1..]| - 1 ensures !(s[1..][i] == '-' && s[1..][i + 1] == '-') {
        assert s[1..][i] == s[i + 1] && s[1..][i + 1] == s[i + 2];
      }
      SqueezeIdentity(s[1..]);
      if |s| >= 2 {
        assert !(s[0] == '-' && s[1] == '-');
      }
      assert [s[0]] + s[1..] == s;
    }
  }

  /** A run of `k` dashes. */
  function Dashes(k: nat): string {
    if k == 0 then [] else "-" + Dashes(k - 1)
  }

  lemma {:induction false} DashRun(k: nat, s: string)
    requires k >= 1 && (s != [] ==> s[0] != '-')
    ensures SqueezeDashes(Dashes(k) + s) == "-" + SqueezeDashes(s)
  {
    var x := Dashes(k) + s;
    if k == 1 {
      assert Dashes(1) == "-";
      assert x[1..] == s;
      if |x| >= 2 {
        assert x[1] == s[0];
      }
    } else {
      assert x == "-" + (Dashes(k - 1) + s);
      assert x[1..] == Dashes(k - 1) + s;
      assert Dashes(k - 1) == "-" + Dashes(k - 2);
      assert x[1] == '-';
      DashRun(k - 1, s);
    }
  }

  /**
    Each run of one or more dashes, wherever it stands, becomes exactly one
    dash; with SqueezeDashFreePrefix this fixes the result on every string.
  */
  lemma SqueezeRun(p: string, k: nat, s: string)
    requires '-' !in p && k >= 1 && (s != [] ==> s[0] != '-')
    ensures SqueezeDashes(p + Dashes(k) + s) == p + "-" + SqueezeDashes(s)
  {
    var d := Dashes(k);
    SqueezeDashFreePrefix(p, d + s);
    DashRun(k, s);
    ConcatAssoc(p, d, s);
    ConcatAssoc(p, "-", SqueezeDashes(s));
  }

  lemma ConcatAssoc(a: string, b: string, c: string)
    ensures a + b + c == a + (b + c)
  {
  }

  /** A collapsed string with allowed characters keeps allowed characters. */
  lemma SqueezeAllowed(s: string)
    requires AllSessionChars(s)
    ensures AllSessionChars(SqueezeDashes(s))
  {
    SqueezeChars(s);
    var r := SqueezeDashes(s);
    forall i | 0 <= i < |r| ensures SessionChar(r[i]) {
      assert r[i] in r;
      var j :| 0 <= j < |s| && s[j] == r[i];
    }
  }

  /** `TrimLeft` returns a suffix that does not start with the trimmed character. */
  lemma {:induction false} TrimLeftSuffix(s: string, c: char)
    ensures |TrimLeft(s, c)| <= |s| && TrimLeft(s, c) == s[|s| - |TrimLeft(s, c)|..]
    ensures TrimLeft(s, c) != [] ==> TrimLeft(s, c)[0] != c
    ensures forall i | 0 <= i < |s| - |TrimLeft(s, c)| :: s[i] == c
  {
    if s != [] && s[0] == c {
      TrimLeftSuffix(s[1..], c);
      assert s[1..][|s| - 1 - |TrimLeft(s, c)|..] == s[|s| - |TrimLeft(s, c)|..];
      forall i | 1 <= i < |s| - |TrimLeft(s, c)| ensures s[i] == c {
        assert s[1..][i - 1] == s[i];
      }
    }
  }

  /** `TrimRight` returns a prefix that does not end with the trimmed character. */
  lemma {:induction false} TrimRightPrefix(s: string, c: char)
    ensures TrimRight(s, c) <= s
    ensures TrimRight(s, c) != [] ==> TrimRight(s, c)[|TrimRight(s, c)| - 1] != c
    ensures forall i | |TrimRight(s, c)| <= i < |s| :: s[i] == c
  {
    if s != [] && s[|s| - 1] == c {
      TrimRightPrefix(s[..|s| - 1], c);
    }
  }

  /** `TrimRight` keeps any prefix of its input that does not end with the trimmed character. */
  lemma {:induction false} TrimRightKeeps(s: string, p: string, c: char)
    requires p <= s && p != [] && p[|p| - 1] != c
    ensures p <= TrimRight(s, c)
  {
    if s != [] && s[|s| - 1] == c {
      assert |p| < |s|;
      TrimRightKeeps(s[..|s| - 1], p, c);
    }
  }

  /** A contiguous piece of a string keeps its character properties. */
  lemma SliceKeeps(s: string, a: int, b: int)
    requires 0 <= a <= b <= |s|
    ensures AllSessionChars(s) ==> AllSessionChars(s[a..b])
    ensures NoDoubleDash(s) ==> NoDoubleDash(s[a..b])
  {
    assert forall i | 0 <= i < b - a :: s[a..b][i] == s[a + i];
  }

  /** Collapsing dash runs passes a dash-free prefix through unchanged. */
  lemma {:induction false} SqueezeDashFreePrefix(p: string, s: string)
    requires '-' !in p
    ensures SqueezeDashes(p + s) == p + SqueezeDashes(s)
  {
    if p != [] {
      var ps := p + s;
      assert ps[0] == p[0] && ps[1..] == p[1..] + s;
      SqueezeDashFreePrefix(p[1..], s);
      assert SqueezeDashes(ps) == [p[0]] + SqueezeDashes(ps[1..]);
      assert p == [p[0]] + p[1..];
    } else {
      assert p + s == s;
    }
  }

  /** Replacing `--` passes a dash-free prefix through unchanged. */
  lemma {:induction false} ReplaceDashFreePrefix(p: string, s: string)
    requires '-' !in p
    ensures ReplaceAll(p + s, "--", "-") == p + ReplaceAll(s, "--", "-")
  {
    if p != [] {
      var ps := p + s;
      assert ps[0] == p[0] && ps[1..] == p[1..] + s;
      ReplaceDashFreePrefix(p[1..], s);
      if |ps| >= 2 {
        assert ps[..2] != "--" by { assert ps[..2][0] == p[0]; }
        assert ReplaceAll(ps, "--", "-") == [p[0]] + ReplaceAll(ps[1..], "--", "-");
      } else {
        assert s == [] && p == [p[0]];
      }
      assert p == [p[0]] + p[1..];
    } else {
      assert p + s == s;
    }
  }

  /** A string without three dashes in a row has none in any suffix either. */
  lemma NoTripleInSuffix(s: string, k: int)
    requires !Contains(s, "---") && 0 <= k <= |s|
    ensures !Contains(s[k..], "---")
  {
    if Contains(s[k..], "---") {
      assert s[..k] + s[k..] == s;
      ContainsInSuffix(s[..k], s[k..], "---");
    }
  }

  /** Every character `ReplaceAll` produces comes from the input or from the replacement. */
  lemma {:induction false} ReplaceAllChars(s: string, pat: string, rep: string)
    requires |pat| > 0
    ensures forall c | c in ReplaceAll(s, pat, rep) :: c in s || c in rep
    decreases |s|
  {
    if |s| < |pat| {
    } else if s[..|pat|] == pat {
      ReplaceAllChars(s[|pat|..], pat, rep);
      assert forall c | c in s[|pat|..] :: c in s;
    } else {
      ReplaceAllChars(s[1..], pat, rep);
      assert forall c | c in s[1..] :: c in s;
    }
  }

  /** Without three dashes in a row, one pass of `--` -> `-` is the same as collapsing every run. */
  lemma {:induction false} ReplaceMatchesSqueeze(s: string)
    requires !Contains(s, "---")
    ensures ReplaceAll(s, "--", "-") == SqueezeDashes(s)
    decreases |s|
  {
    if |s| >= 2 {
      NoTripleInSuffix(s, 1);
      NoTripleInSuffix(s, 2);
      if s[..2] == "--" {
        ReplaceMatchesSqueeze(s[2..]);
        if |s| >= 3 {
          assert !OccursAt(s, "---", 0);
          assert s[..3] == s[..2] + [s[2]];
          assert s[2] != '-';
          assert SqueezeDashes(s[1..]) == [s[1]] + SqueezeDashes(s[1..][1..]);
          assert s[1..][1..] == s[2..];
        }
      } else {
        ReplaceMatchesSqueeze(s[1..]);
      }
    }
  }

  /** In a string without `--`, stripping one trailing dash strips them all. */
  lemma RemoveSuffixIsTrim(s: string)
    requires NoDoubleDash(s)
    ensures RemoveSuffix(s, "-") == TrimRight(s, '-')
  {
    if s != [] && s[|s| - 1] == '-' {
      var u := s[..|s| - 1];
      if u != [] {
        assert s[|s| - 2] != '-';
      }
      assert TrimRight(u, '-') == u;
    }
  }

  /** The sanitised name, collapsed, starts with `gcool` and keeps allowed characters only. */
  lemma SqueezedName(branch: string)
    ensures var q := SqueezeDashes(SessionPrefix + Sanitize(branch));
      && "gcool" <= q && AllSessionChars(q) && NoDoubleDash(q)
  {
    var x := "-" + Sanitize(branch);
    assert SessionPrefix + Sanitize(branch) == "gcool" + x;
    SqueezeDashFreePrefix("gcool", x);
    SanitizeAllowed(branch);
    assert AllSessionChars("gcool" + x);
    SqueezeAllowed("gcool" + x);
    SqueezeChars("gcool" + x);
  }

  /** `-terminal` appended to a well-formed name that starts with `gcool` keeps it well formed. */
  lemma TerminalSuffixKeepsForm(base: string, terminalOnly: string)
    requires WellFormedName(base) && "gcool" <= base
    ensures WellFormedName(WithTerminalSuffix(base, terminalOnly))
    ensures "gcool" <= WithTerminalSuffix(base, terminalOnly)
  {
    var n := WithTerminalSuffix(base, terminalOnly);
    assert n[..|base|] == base;
    assert forall i | |base| <= i < |n| :: n[i] == TerminalSuffix[i - |base|];
  }

  /**
    Fish's session name is always what tmux is given safely: only allowed
    characters, no `--`, no dash at either end, and it starts with `gcool`.
  */
  lemma FishSessionNameWellFormed(branch: string, terminalOnly: string)
    ensures WellFormedName(FishSessionName(branch, terminalOnly))
    ensures "gcool" <= FishSessionName(branch, terminalOnly)
  {
    var q := SqueezeDashes(SessionPrefix + Sanitize(branch));
    SqueezedName(branch);
    assert TrimLeft(q, '-') == q;
    TrimRightPrefix(q, '-');
    TrimRightKeeps(q, "gcool", '-');
    var base := TrimRight(q, '-');
    SliceKeeps(q, 0, |base|);
    assert base == q[..|base|];
    TerminalSuffixKeepsForm(base, terminalOnly);
  }

  /** The sanitised name after the `--` pass starts with `gcool`, keeps allowed characters and does not grow. */
  lemma ReplacedName(branch: string)
    ensures var r := ReplaceAll(SessionPrefix + Sanitize(branch), "--", "-");
      && "gcool" <= r && AllSessionChars(r) && |r| <= |SessionPrefix| + |branch|
  {
    var x := "-" + Sanitize(branch);
    var named := SessionPrefix + Sanitize(branch);
    assert named == "gcool" + x;
    SanitizeLength(branch);
    SanitizeAllowed(branch);
    assert AllSessionChars(named);
    ReplaceDashFreePrefix("gcool", x);
    var r := ReplaceAll(named, "--", "-");
    ReplaceAllShrinks(named, "--", "-");
    ReplaceAllChars(named, "--", "-");
    forall i | 0 <= i < |r| ensures SessionChar(r[i]) {
      assert r[i] in r;
      if r[i] in named {
        var j :| 0 <= j < |named| && named[j] == r[i];
      }
    }
  }

  /**
    Bash's session name keeps only allowed characters, starts with `gcool`,
    and the base name is never longer than the prefix plus the branch.
  */
  lemma BashSessionNameShape(branch: string, terminalOnly: string)
    ensures AllSessionChars(BashSessionName(branch, terminalOnly))
    ensures "gcool" <= BashSessionName(branch, terminalOnly)
    ensures |BashSessionBase(branch)| <= |SessionPrefix| + |branch|
  {
    var r := ReplaceAll(SessionPrefix + Sanitize(branch), "--", "-");
    ReplacedName(branch);
    assert RemovePrefix(r, "-") == r;
    var base := RemoveSuffix(r, "-");
    assert base == BashSessionBase(branch);
    assert base == r[..|base|];
    SliceKeeps(r, 0, |base|);
    assert "gcool" <= base;
    var n := BashSessionName(branch, terminalOnly);
    assert n[..|base|] == base;
    assert forall i | |base| <= i < |n| :: n[i] == TerminalSuffix[i - |base|];
  }

  /** When the sanitised name has no three dashes in a row, the two scripts name the session alike. */
  lemma BashAgreesWithFishWithoutTripleDash(branch: string, terminalOnly: string)
    requires !Contains(SessionPrefix + Sanitize(branch), "---")
    ensures BashSessionName(branch, terminalOnly) == FishSessionName(branch, terminalOnly)
  {
    var named := SessionPrefix + Sanitize(branch);
    ReplaceMatchesSqueeze(named);
    SqueezedName(branch);
    var q := SqueezeDashes(named);
    assert RemovePrefix(q, "-") == q && TrimLeft(q, '-') == q;
    RemoveSuffixIsTrim(q);
  }

  lemma SanitizeExample()
    ensures SessionPrefix + Sanitize("a///b") == "gcool" + "-a---b"
  {
    assert Sanitize("b") == "b";
    assert Sanitize("/b") == "-b";
    assert Sanitize("//b") == "--b";
    assert Sanitize("///b") == "---b";
  }

  lemma ReplaceExample()
    ensures ReplaceAll("-a---b", "--", "-") == "-a--b"
  {
    assert ReplaceAll("b", "--", "-") == "b";
    assert "-b"[..2][1] == 'b';
    assert ReplaceAll("-b", "--", "-") == "-b";
    assert ReplaceAll("---b", "--", "-") == "--b";
    assert ReplaceAll("a---b", "--", "-") == "a--b";
  }

  lemma SqueezeExample()
    ensures SqueezeDashes("-a---b") == "-a-b"
  {
    assert SqueezeDashes("b") == "b";
    assert SqueezeDashes("-b") == "-b";
    assert SqueezeDashes("--b") == "-b";
    assert SqueezeDashes("---b") == "-b";
    assert SqueezeDashes("a---b") == "a-b";
  }

  lemma BashReplaceExample()
    ensures ReplaceAll(SessionPrefix + Sanitize("a///b"), "--", "-") == "gcool" + "-a--b"
  {
    SanitizeExample();
    ReplaceDashFreePrefix("gcool", "-a---b");
    ReplaceExample();
  }

  lemma BashExample()
    ensures BashSessionBase("a///b") == "gcool-a--b"
  {
    BashReplaceExample();
    var r := "gcool" + "-a--b";
    assert r[0] == 'g';
    assert RemovePrefix(r, "-") == r;
    assert r[|r| - 1..] == "b";
    assert RemoveSuffix(r, "-") == r;
  }

  lemma FishExample()
    ensures FishSessionBase("a///b") == "gcool-a-b"
  {
    SanitizeExample();
    SqueezeDashFreePrefix("gcool", "-a---b");
    SqueezeExample();
    var q := SqueezeDashes(SessionPrefix + Sanitize("a///b"));
    assert q == "gcool" + "-a-b";
    assert TrimLeft(q, '-') == q;
    assert TrimRight(q, '-') == q;
  }

  /**
    Bash as written: a branch with three unsafe characters in a row, such as
    `a///b`, gives a session name with `--` in it, where fish gives `gcool-a-b`.
  */
  lemma BashSessionNameKeepsDoubleDash()
    ensures BashSessionName("a///b", "false") == "gcool-a--b"
    ensures FishSessionName("a///b", "false") == "gcool-a-b"
    ensures !NoDoubleDash(BashSessionName("a///b", "false"))
  {
    BashExample();
    FishExample();
    var n := BashSessionName("a///b", "false");
    assert n[7] == '-' && n[8] == '-';
  }

  /** Bash with the collapse of whole dash runs names every session as fish does. */
  lemma BashIntendedMatchesFish(branch: string, terminalOnly: string)
    ensures BashSessionNameIntended(branch, terminalOnly) == FishSessionName(branch, terminalOnly)
    ensures WellFormedName(BashSessionNameIntended(branch, terminalOnly))
  {
    var q := SqueezeDashes(SessionPrefix + Sanitize(branch));
    SqueezedName(branch);
    assert RemovePrefix(q, "-") == q && TrimLeft(q, '-') == q;
    RemoveSuffixIsTrim(q);
    FishSessionNameWellFormed(branch, terminalOnly);
  }

  // ---------------------------------------------------------------------
  // What a script does with the record
  // ---------------------------------------------------------------------

  /** What the script finds out about its surroundings (`command -v`, `$TMUX`, `tmux has-session`). */
  datatype Env = Env(
    tmuxAvailable: bool,
    claudeAvailable: bool,
    insideTmux: bool,
    currentSession: string,
    sessions: set<string>)

  /** What a new session runs: a shell, a shell that prints a notice, or the agent (resuming or not). */
  datatype Launch = Shell | ShellWithNotice | Agent(resume: bool)

  /** One turn of the wrapper's loop. */
  datatype Action =
    | Return(status: int)
    | ChangeDirectory(path: string)
    | Attach(session: string)
    | CreateAndAttach(session: string, dir: string, launch: Launch)
    | RunAgain

  /** Turns that go round the loop again rather than return to the prompt. */
  predicate Loops(a: Action) {
    a.Attach? || a.CreateAndAttach? || a.RunAgain?
  }

  /** Bash's choice of what a new session runs. */
  function BashLaunch(r: Record, claudeAvailable: bool): (l: Launch)
    ensures r.terminalOnly == "true" ==> l == Shell
    ensures l.Agent? <==> r.terminalOnly != "true" && r.autoClaude == "true" && claudeAvailable
    ensures l.Agent? ==> (l.resume <==> r.isClaudeInitialized == "true")
    ensures l == ShellWithNotice <==> r.terminalOnly != "true" && r.autoClaude == "true" && !claudeAvailable
  {
    if r.terminalOnly == "true" then Shell
    else if r.autoClaude == "true" then
      (if claudeAvailable then Agent(r.isClaudeInitialized == "true") else ShellWithNotice)
    else Shell
  }

  /** Fish's choice: the same, except that a missing agent gives a plain shell. */
  function FishLaunch(r: Record, claudeAvailable: bool): (l: Launch)
    ensures l != ShellWithNotice
    ensures l.Agent? <==> r.terminalOnly != "true" && r.autoClaude == "true" && claudeAvailable
    ensures l.Agent? ==> (l.resume <==> r.isClaudeInitialized == "true")
  {
    if r.terminalOnly == "true" then Shell
    else if r.autoClaude == "true" then
      (if claudeAvailable then Agent(r.isClaudeInitialized == "true") else Shell)
    else Shell
  }

  /** The agent's arguments as bash passes them (`bash -c "exec claude ..."` splits them into words). */
  function BashAgentArgs(resume: bool): seq<string> {
    (if resume then ["--continue"] else []) + ["--permission-mode", "plan"]
  }

  /** The agent's arguments as fish passes them: `$claude_args` is one list element, so one argument. */
  function FishAgentArgs(resume: bool): seq<string> {
    [if resume then "--continue --permission-mode plan" else "--permission-mode plan"]
  }

  /** Fish hands the agent, as a single argument, the words bash hands it separately. */
  lemma AgentArgsDiffer(resume: bool)
    ensures |FishAgentArgs(resume)| == 1
    ensures |BashAgentArgs(resume)| == (if resume then 3 else 2)
    ensures FishAgentArgs(resume)[0] == JoinWith(BashAgentArgs(resume), ' ')
  {
    if resume {
      var a := BashAgentArgs(true);
      assert a == ["--continue", "--permission-mode", "plan"];
      assert JoinWith(a[1..], ' ') == "--permission-mode" + " " + "plan" by {
        assert a[1..][1..] == ["plan"];
      }
    } else {
      var a := BashAgentArgs(false);
      assert a[1..] == ["plan"];
    }
  }

  /** Bash, once the record has been read and tmux is there. */
  function BashDecide(r: Record, env: Env): Action
    requires env.tmuxAvailable
  {
    var name := BashSessionName(r.branch, r.terminalOnly);
    if env.insideTmux && env.currentSession == name then ChangeDirectory(r.worktreePath)
    else if name in env.sessions then Attach(name)
    else CreateAndAttach(name, r.worktreePath, BashLaunch(r, env.claudeAvailable))
  }

  /**
    One turn of the bash function's loop. `handoff` is the record the CLI
    left behind, or None when the file is missing or empty.
  */
  function BashStep(handoff: Option<string>, exitCode: int, env: Env): Action {
    match handoff
    case None => Return(exitCode)
    case Some(info) =>
      if !BashRecordValid(info) then Return(1)
      else
        var r := BashParse(info);
        if !env.tmuxAvailable then ChangeDirectory(r.worktreePath)
        else BashDecide(r, env)
  }

  /** Fish, once the record has been read and tmux is there: inside tmux it only changes directory. */
  function FishDecide(r: Record, env: Env): Action
    requires env.tmuxAvailable
  {
    var name := FishSessionName(r.branch, r.terminalOnly);
    if env.insideTmux then ChangeDirectory(r.worktreePath)
    else if name in env.sessions then Attach(name)
    else CreateAndAttach(name, r.worktreePath, FishLaunch(r, env.claudeAvailable))
  }

  /** One turn of the fish function's loop, as written: a record of fewer than three parts is skipped. */
  function FishStep(handoff: Option<string>, exitCode: int, env: Env): Action {
    match handoff
    case None => Return(exitCode)
    case Some(info) =>
      var parts := Split(info, '|');
      if |parts| < 3 then RunAgain
      else
        var r := FishFields(parts);
        if !env.tmuxAvailable then ChangeDirectory(r.worktreePath)
        else FishDecide(r, env)
  }

  /** One turn of the fish loop with the initialised flag read from the seventh field. */
  function FishStepIntended(handoff: Option<string>, exitCode: int, env: Env): Action {
    match handoff
    case None => Return(exitCode)
    case Some(info) =>
      var parts := Split(info, '|');
      if |parts| < 3 then RunAgain
      else
        var r := FishFieldsIntended(parts);
        if !env.tmuxAvailable then ChangeDirectory(r.worktreePath)
        else FishDecide(r, env)
  }

  /**
    Bash returns to the prompt exactly when there is no record (with the
    CLI's exit status), the record is malformed (status 1), or it only
    changes directory; it creates a session exactly when the name is not
    among the existing sessions, and attaches otherwise.
  */
  lemma BashStepOutcomes(handoff: Option<string>, exitCode: int, env: Env)
    ensures handoff.None? ==> BashStep(handoff, exitCode, env) == Return(exitCode)
    ensures handoff.Some? && !BashRecordValid(handoff.value) ==>
      BashStep(handoff, exitCode, env) == Return(1)
    ensures handoff.Some? && BashRecordValid(handoff.value) ==>
      var r := BashParse(handoff.value);
      var name := BashSessionName(r.branch, r.terminalOnly);
      var a := BashStep(handoff, exitCode, env);
      && (a.ChangeDirectory? <==> !env.tmuxAvailable || (env.insideTmux && env.currentSession == name))
      && (a.ChangeDirectory? ==> a.path == r.worktreePath)
      && (a.Attach? <==>
            env.tmuxAvailable && !(env.insideTmux && env.currentSession == name) && name in env.sessions)
      && (a.Attach? ==> a.session == name)
      && (a.CreateAndAttach? ==>
            a.session == name && name !in env.sessions && a.dir == r.worktreePath
            && a.launch == BashLaunch(r, env.claudeAvailable))
      && (!a.ChangeDirectory? ==> (a.CreateAndAttach? <==> name !in env.sessions) && Loops(a))
  {
  }

  /**
    Fish as written returns on a missing record, runs the CLI again on one of
    fewer than three parts, changes directory exactly when tmux is missing or
    it already runs inside tmux, attaches exactly when the session exists, and
    otherwise creates it in the worktree with fish's launch choice.
  */
  lemma FishStepOutcomes(handoff: Option<string>, exitCode: int, env: Env)
    ensures handoff.None? ==> FishStep(handoff, exitCode, env) == Return(exitCode)
    ensures handoff.Some? && |Split(handoff.value, '|')| < 3 ==>
      FishStep(handoff, exitCode, env) == RunAgain
    ensures handoff.Some? && |Split(handoff.value, '|')| >= 3 ==>
      var r := FishFields(Split(handoff.value, '|'));
      var name := FishSessionName(r.branch, r.terminalOnly);
      var a := FishStep(handoff, exitCode, env);
      && (a.ChangeDirectory? <==> !env.tmuxAvailable || env.insideTmux)
      && (a.ChangeDirectory? ==> a.path == r.worktreePath)
      && (a.Attach? <==> env.tmuxAvailable && !env.insideTmux && name in env.sessions)
      && (a.Attach? ==> a.session == name)
      && (a.CreateAndAttach? <==> env.tmuxAvailable && !env.insideTmux && name !in env.sessions)
      && (a.CreateAndAttach? ==>
            a.session == name && a.dir == r.worktreePath && a.launch == FishLaunch(r, env.claudeAvailable))
      && (!a.ChangeDirectory? ==> Loops(a))
  {
  }

  /** Every session bash attaches to or creates has a name of allowed characters starting with `gcool`. */
  lemma BashSessionsAllowed(handoff: Option<string>, exitCode: int, env: Env)
    ensures var a := BashStep(handoff, exitCode, env);
      (a.Attach? || a.CreateAndAttach?) ==> AllSessionChars(a.session) && "gcool" <= a.session
  {
    var a := BashStep(handoff, exitCode, env);
    if a.Attach? || a.CreateAndAttach? {
      var r := BashParse(handoff.value);
      BashSessionNameShape(r.branch, r.terminalOnly);
    }
  }

  /** Every session fish attaches to or creates has a well-formed name, and fish never does so from inside tmux. */
  lemma FishSessionsWellFormed(handoff: Option<string>, exitCode: int, env: Env)
    ensures var a := FishStep(handoff, exitCode, env);
      (a.Attach? || a.CreateAndAttach?) ==>
        !env.insideTmux && WellFormedName(a.session) && "gcool" <= a.session
  {
    var a := FishStep(handoff, exitCode, env);
    if a.Attach? || a.CreateAndAttach? {
      var r := FishFields(Split(handoff.value, '|'));
      FishSessionNameWellFormed(r.branch, r.terminalOnly);
    }
  }

  /**
    Fish as written never resumes the agent for a record of at most seven
    fields, even when bash, given the same record, would.
  */
  lemma FishNeverResumes(info: string, exitCode: int, env: Env)
    requires Count(info, '|') <= 6
    ensures var a := FishStep(Some(info), exitCode, env);
      a.CreateAndAttach? ==> a.launch != Agent(true)
  {
    if Count(info, '|') >= 2 {
      FishIgnoresSeventhField(info);
    }
  }

  /**
    With the flag read from the seventh field, fish takes the same turn as
    bash on every record of at most seven fields, outside tmux, when the
    agent is installed and the sanitised name has no three dashes in a row.
  */
  lemma FishIntendedMatchesBash(info: string, exitCode: int, env: Env)
    requires 2 <= Count(info, '|') <= 6
    requires !env.insideTmux && env.claudeAvailable
    requires var p := Split(info, '|'); |p| > 1 ==> !Contains(SessionPrefix + Sanitize(p[1]), "---")
    ensures BashStep(Some(info), exitCode, env) == FishStepIntended(Some(info), exitCode, env)
  {
    TwoPipesIffCount(info);
    FishIntendedAgreesWithBash(info);
    var b, f := BashParse(info), FishFieldsIntended(Split(info, '|'));
    BashAgreesWithFishWithoutTripleDash(b.branch, b.terminalOnly);
    assert BashSessionName(b.branch, b.terminalOnly) == FishSessionName(f.branch, f.terminalOnly);
  }

  /**
    On a record with fewer than two `|` the scripts part ways: bash returns
    status 1 to the prompt, fish runs the CLI again.
  */
  lemma MalformedRecord(info: string, exitCode: int, env: Env)
    requires Count(info, '|') < 2
    ensures BashStep(Some(info), exitCode, env) == Return(1)
    ensures FishStep(Some(info), exitCode, env) == RunAgain
  {
    TwoPipesIffCount(info);
  }
}
