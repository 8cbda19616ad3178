/**
  Configurable naming for the CLI and its forks: environment-variable names,
  debug-log paths and the markers written into tmux and shell configuration.
  The Go package keeps these as package variables that a build may override
  with `-ldflags -X`; here a build's choice is a `Brand` value.
*/
module Branding {
  import opened Text

  datatype Brand = Brand(
    cliName: string,
    sessionPrefix: string,
    configDirName: string,
    envVarPrefix: string,
    agentCommand: string,
    agentWindowName: string)

  /** The values compiled in when no `-ldflags -X` override is given. */
  const Default: Brand := Brand("jean", "jean-", "jean", "JEAN", "claude", "claude")

  /** GetEnvVar: the prefix, an underscore, then the suffix. */
  function EnvVar(b: Brand, suffix: string): string {
    b.envVarPrefix + "_" + suffix
  }

  function DebugLogPath(b: Brand): string {
    "/tmp/" + b.cliName + "-debug.log"
  }

  function WrapperDebugLogPath(b: Brand): string {
    "/tmp/" + b.cliName + "-wrapper-debug.log"
  }

  function GitDebugLogPath(b: Brand): string {
    "/tmp/" + b.cliName + "-git-debug.log"
  }

  // The marker texts are written in two literals each: the verifier
  // compares string literals of this length only piece by piece.
  function TmuxConfigMarkerStart(b: Brand): string {
    "# === " + Upper(b.cliName) + "_TMUX_CONFIG_START" + "_DO_NOT_MODIFY_THIS_LINE ==="
  }

  function TmuxConfigMarkerEnd(b: Brand): string {
    "# === " + Upper(b.cliName) + "_TMUX_CONFIG_END" + "_DO_NOT_MODIFY_THIS_LINE ==="
  }

  function ShellWrapperMarkerStart(b: Brand): string {
    "# BEGIN " + Upper(b.cliName) + " INTEGRATION"
  }

  function ShellWrapperMarkerEnd(b: Brand): string {
    "# END " + Upper(b.cliName) + " INTEGRATION"
  }

  /** An agent runs in the agent window unless the command is blank. */
  predicate IsAgentEnabled(b: Brand) {
    b.agentCommand != ""
  }

  predicate IsClaudeAgent(b: Brand) {
    b.agentCommand == "claude"
  }

  /** The suffix can be read back from the variable name, so distinct suffixes give distinct names. */
  lemma EnvVarRoundTrip(b: Brand, suffix: string, other: string)
    ensures EnvVar(b, suffix)[|b.envVarPrefix| + 1..] == suffix
    ensures EnvVar(b, suffix) == EnvVar(b, other) ==> suffix == other
  {
    assert EnvVar(b, suffix)[|b.envVarPrefix| + 1..] == suffix;
    assert EnvVar(b, other)[|b.envVarPrefix| + 1..] == other;
  }

  /** The three debug logs never share a path, whatever the CLI name. */
  lemma DebugLogPathsDistinct(b: Brand)
    ensures DebugLogPath(b) != WrapperDebugLogPath(b)
    ensures DebugLogPath(b) != GitDebugLogPath(b)
    ensures WrapperDebugLogPath(b) != GitDebugLogPath(b)
  {
  }

  /** Every marker embeds the upper-cased CLI name. */
  lemma MarkersContainUpperName(b: Brand)
    ensures Contains(TmuxConfigMarkerStart(b), Upper(b.cliName))
    ensures Contains(TmuxConfigMarkerEnd(b), Upper(b.cliName))
    ensures Contains(ShellWrapperMarkerStart(b), Upper(b.cliName))
    ensures Contains(ShellWrapperMarkerEnd(b), Upper(b.cliName))
  {
    var u := Upper(b.cliName);
    assert OccursAt(TmuxConfigMarkerStart(b), u, 6);
    assert OccursAt(TmuxConfigMarkerEnd(b), u, 6);
    assert OccursAt(ShellWrapperMarkerStart(b), u, 8);
    assert OccursAt(ShellWrapperMarkerEnd(b), u, 6);
  }

  /** The start and end markers of each pair differ, whatever the CLI name. */
  lemma MarkersDistinct(b: Brand)
    ensures TmuxConfigMarkerStart(b) != TmuxConfigMarkerEnd(b)
    ensures ShellWrapperMarkerStart(b) != ShellWrapperMarkerEnd(b)
  {
    var k := 6 + |Upper(b.cliName)| + 13;
    assert TmuxConfigMarkerStart(b)[k] == 'S';
    assert TmuxConfigMarkerEnd(b)[k] == 'E';
    assert ShellWrapperMarkerStart(b)[2] == 'B';
    assert ShellWrapperMarkerEnd(b)[2] == 'E';
  }

  /**
    Neither shell-wrapper marker occurs inside the other, so searching a file
    for one of them can never stop at the other.
  */
  lemma ShellMarkersDoNotOverlap(b: Brand)
    ensures !Contains(ShellWrapperMarkerStart(b), ShellWrapperMarkerEnd(b))
    ensures !Contains(ShellWrapperMarkerEnd(b), ShellWrapperMarkerStart(b))
  {
    var s, e := ShellWrapperMarkerStart(b), ShellWrapperMarkerEnd(b);
    assert |s| == |e| + 2;
    forall i | 0 <= i <= |s| - |e| ensures !OccursAt(s, e, i) {
      if i == 0 {
        assert s[2] != e[2];
        assert s[i..i + |e|][2] != e[2];
      } else if i == 1 {
        assert s[1] != e[0];
        assert s[i..i + |e|][0] != e[0];
      } else {
        assert s[2] != e[0];
        assert s[i..i + |e|][0] != e[0];
      }
    }
  }

  /** A Claude agent is an enabled agent. */
  lemma ClaudeAgentIsEnabled(b: Brand)
    ensures IsClaudeAgent(b) ==> IsAgentEnabled(b)
  {
  }

  lemma UpperJean()
    ensures Upper("jean") == "JEAN"
  {
    assert Upper("n") == "N";
    assert Upper("an") == "AN";
    assert Upper("ean") == "EAN";
  }

  /** The default build's names and agent are the ones its tests pin down. */
  lemma DefaultBrandValues()
    ensures Default.cliName == "jean" && Default.sessionPrefix == "jean-"
    ensures Default.configDirName == "jean" && Default.envVarPrefix == "JEAN"
    ensures IsAgentEnabled(Default) && IsClaudeAgent(Default)
  {
  }

  /** The default build's environment-variable names are the ones its tests pin down. */
  lemma DefaultEnvVars()
    ensures EnvVar(Default, "SWITCH_FILE") == "JEAN_SWITCH_FILE"
    ensures EnvVar(Default, "INIT_ATTEMPTED") == "JEAN_INIT_ATTEMPTED"
    ensures EnvVar(Default, "WORKSPACE_PATH") == "JEAN_WORKSPACE_PATH"
    ensures EnvVar(Default, "ROOT_PATH") == "JEAN_ROOT_PATH"
  {
  }

  /** The default build's debug-log paths are the ones its tests pin down. */
  lemma DefaultLogPaths()
    ensures DebugLogPath(Default) == "/tmp/jean-debug.log"
    ensures WrapperDebugLogPath(Default) == "/tmp/jean-wrapper-debug.log"
    ensures GitDebugLogPath(Default) == "/tmp/jean-git-debug.log"
  {
  }

  /** The default build's tmux markers are the ones its tests pin down. */
  lemma DefaultTmuxMarkers()
    ensures TmuxConfigMarkerStart(Default) == "# === JEAN_TMUX_CONFIG_START" + "_DO_NOT_MODIFY_THIS_LINE ==="
    ensures TmuxConfigMarkerEnd(Default) == "# === JEAN_TMUX_CONFIG_END" + "_DO_NOT_MODIFY_THIS_LINE ==="
  {
    UpperJean();
  }

  /** The default build's shell-wrapper markers are the ones its tests pin down. */
  lemma DefaultShellMarkers()
    ensures ShellWrapperMarkerStart(Default) == "# BEGIN JEAN INTEGRATION"
    ensures ShellWrapperMarkerEnd(Default) == "# END JEAN INTEGRATION"
  {
    UpperJean();
  }
}
