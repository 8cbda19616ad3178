/**
  The per-user configuration: settings per repository (keyed by the
  repository's path) and two global settings. The manager keeps the
  configuration in memory and saves all of it after every change; a save
  that fails leaves the change in memory and reports the failure.
*/
module Config {
  import opened Wrappers

  /** The defaults the getters fall back to. */
  const DefaultEditor: string := "code"
  const DefaultAutoFetchInterval: int := 10
  const DefaultThemeName: string := "matrix"

  datatype RepoConfig = RepoConfig(
    baseBranch: string,
    lastSelectedBranch: string,
    editor: string,
    autoFetchInterval: int,
    theme: string)

  /** A fresh repository entry: every field at its zero value. */
  const EmptyRepo: RepoConfig := RepoConfig("", "", "", 0, "")

  /** The configuration as it is saved. */
  datatype Config = Config(
    repositories: map<string, RepoConfig>,
    lastUpdateCheckTime: string,
    defaultTheme: string)

  const EmptyConfig: Config := Config(map[], "", "")

  datatype SaveError = WriteFailed

  class Manager {
    var repositories: map<string, RepoConfig>
    var lastUpdateCheckTime: string
    var defaultTheme: string
    /** What the last successful save wrote, if any. */
    var saved: Option<Config>

    /** The configuration in memory. */
    function Current(): Config
      reads this
    {
      Config(repositories, lastUpdateCheckTime, defaultTheme)
    }

    /** NewManager: the configuration read from disk, or an empty one when it cannot be read. */
    constructor (loaded: Option<Config>)
      ensures loaded.Some? ==> Current() == loaded.value
      ensures loaded.None? ==> Current() == EmptyConfig
      ensures saved.None?
    {
      var c := if loaded.Some? then loaded.value else EmptyConfig;
      repositories := c.repositories;
      lastUpdateCheckTime := c.lastUpdateCheckTime;
      defaultTheme := c.defaultTheme;
      saved := None;
    }

    /** GetRepoConfig: the stored entry, or an empty one for an unknown repository. */
    function GetRepoConfig(repo: string): (r: RepoConfig)
      reads this
      ensures repo !in repositories ==> r == EmptyRepo
      ensures repo in repositories ==> r == repositories[repo]
    {
      if repo in repositories then repositories[repo] else EmptyRepo
    }

    /** GetBaseBranch: empty for an unknown repository. */
    function GetBaseBranch(repo: string): (r: string)
      reads this
      ensures repo !in repositories ==> r == ""
    {
      GetRepoConfig(repo).baseBranch
    }

    /** GetLastSelectedBranch: empty for an unknown repository. */
    function GetLastSelectedBranch(repo: string): (r: string)
      reads this
      ensures repo !in repositories ==> r == ""
    {
      GetRepoConfig(repo).lastSelectedBranch
    }

    /** GetEditor: the stored editor when one is set, otherwise `code`; never empty. */
    function GetEditor(repo: string): (r: string)
      reads this
      ensures r != ""
      ensures GetRepoConfig(repo).editor != "" ==> r == GetRepoConfig(repo).editor
      ensures GetRepoConfig(repo).editor == "" ==> r == DefaultEditor
    {
      var e := GetRepoConfig(repo).editor;
      if e != "" then e else DefaultEditor
    }

    /** GetAutoFetchInterval: a positive stored interval, otherwise 10 seconds; always positive. */
    function GetAutoFetchInterval(repo: string): (r: int)
      reads this
      ensures r > 0
      ensures GetRepoConfig(repo).autoFetchInterval > 0 ==> r == GetRepoConfig(repo).autoFetchInterval
      ensures GetRepoConfig(repo).autoFetchInterval <= 0 ==> r == DefaultAutoFetchInterval
    {
      var n := GetRepoConfig(repo).autoFetchInterval;
      if n > 0 then n else DefaultAutoFetchInterval
    }

    /**
      GetTheme: the repository's own theme, else the global default theme,
      else `matrix`; never empty.
    */
    function GetTheme(repo: string): (r: string)
      reads this
      ensures r != ""
      ensures GetRepoConfig(repo).theme != "" ==> r == GetRepoConfig(repo).theme
      ensures GetRepoConfig(repo).theme == "" ==> r == GetGlobalTheme()
    {
      var th := GetRepoConfig(repo).theme;
      if th != "" then th
      else if defaultTheme != "" then defaultTheme
      else DefaultThemeName
    }

    /** GetGlobalTheme: the global default theme, else `matrix`; never empty. */
    function GetGlobalTheme(): (r: string)
      reads this
      ensures r != ""
      ensures defaultTheme != "" ==> r == defaultTheme
      ensures defaultTheme == "" ==> r == DefaultThemeName
    {
      if defaultTheme != "" then defaultTheme else DefaultThemeName
    }

    function GetLastUpdateCheckTime(): string
      reads this
    {
      lastUpdateCheckTime
    }

    /** save: writes the whole configuration; its outcome is `writeOk`. */
    method Save(writeOk: bool) returns (err: Option<SaveError>)
      modifies this
      ensures err.None? <==> writeOk
      ensures saved == (if writeOk then Some(Current()) else old(saved))
      ensures Current() == old(Current())
    {
      if writeOk {
        saved := Some(Current());
        err := None;
      } else {
        err := Some(WriteFailed);
      }
    }

    /**
      SetBaseBranch: creates the entry when missing and sets its base branch;
      nothing else changes, and the change stays in memory even when the
      save fails.
    */
    method SetBaseBranch(repo: string, branch: string, writeOk: bool) returns (err: Option<SaveError>)
      modifies this
      ensures repositories == old(repositories)[repo := old(GetRepoConfig(repo)).(baseBranch := branch)]
      ensures lastUpdateCheckTime == old(lastUpdateCheckTime) && defaultTheme == old(defaultTheme)
      ensures GetBaseBranch(repo) == branch
      ensures forall other | other != repo :: GetRepoConfig(other) == old(GetRepoConfig(other))
      ensures err.None? <==> writeOk
      ensures saved == (if writeOk then Some(Current()) else old(saved))
    {
      repositories := repositories[repo := GetRepoConfig(repo).(baseBranch := branch)];
      err := Save(writeOk);
    }

    /** SetLastSelectedBranch: as SetBaseBranch, for the last selected branch. */
    method SetLastSelectedBranch(repo: string, branch: string, writeOk: bool) returns (err: Option<SaveError>)
      modifies this
      ensures repositories == old(repositories)[repo := old(GetRepoConfig(repo)).(lastSelectedBranch := branch)]
      ensures lastUpdateCheckTime == old(lastUpdateCheckTime) && defaultTheme == old(defaultTheme)
      ensures GetLastSelectedBranch(repo) == branch
      ensures GetBaseBranch(repo) == old(GetBaseBranch(repo))
      ensures forall other | other != repo :: GetRepoConfig(other) == old(GetRepoConfig(other))
      ensures err.None? <==> writeOk
      ensures saved == (if writeOk then Some(Current()) else old(saved))
    {
      repositories := repositories[repo := GetRepoConfig(repo).(lastSelectedBranch := branch)];
      err := Save(writeOk);
    }

    /** SetEditor: as SetBaseBranch; an empty editor reads back as `code`. */
    method SetEditor(repo: string, editor: string, writeOk: bool) returns (err: Option<SaveError>)
      modifies this
      ensures repositories == old(repositories)[repo := old(GetRepoConfig(repo)).(editor := editor)]
      ensures lastUpdateCheckTime == old(lastUpdateCheckTime) && defaultTheme == old(defaultTheme)
      ensures GetEditor(repo) == (if editor != "" then editor else DefaultEditor)
      ensures forall other | other != repo :: GetRepoConfig(other) == old(GetRepoConfig(other))
      ensures err.None? <==> writeOk
      ensures saved == (if writeOk then Some(Current()) else old(saved))
    {
      repositories := repositories[repo := GetRepoConfig(repo).(editor := editor)];
      err := Save(writeOk);
    }

    /** SetAutoFetchInterval: as SetBaseBranch; a non-positive interval reads back as 10. */
    method SetAutoFetchInterval(repo: string, interval: int, writeOk: bool) returns (err: Option<SaveError>)
      modifies this
      ensures repositories == old(repositories)[repo := old(GetRepoConfig(repo)).(autoFetchInterval := interval)]
      ensures lastUpdateCheckTime == old(lastUpdateCheckTime) && defaultTheme == old(defaultTheme)
      ensures GetAutoFetchInterval(repo) == (if interval > 0 then interval else DefaultAutoFetchInterval)
      ensures forall other | other != repo :: GetRepoConfig(other) == old(GetRepoConfig(other))
      ensures err.None? <==> writeOk
      ensures saved == (if writeOk then Some(Current()) else old(saved))
    {
      repositories := repositories[repo := GetRepoConfig(repo).(autoFetchInterval := interval)];
      err := Save(writeOk);
    }

    /** SetTheme: as SetBaseBranch; an empty theme falls back to the global one. */
    method SetTheme(repo: string, theme: string, writeOk: bool) returns (err: Option<SaveError>)
      modifies this
      ensures repositories == old(repositories)[repo := old(GetRepoConfig(repo)).(theme := theme)]
      ensures lastUpdateCheckTime == old(lastUpdateCheckTime) && defaultTheme == old(defaultTheme)
      ensures GetTheme(repo) == (if theme != "" then theme else GetGlobalTheme())
      ensures forall other | other != repo :: GetRepoConfig(other) == old(GetRepoConfig(other))
      ensures err.None? <==> writeOk
      ensures saved == (if writeOk then Some(Current()) else old(saved))
    {
      repositories := repositories[repo := GetRepoConfig(repo).(theme := theme)];
      err := Save(writeOk);
    }

    /**
      SetGlobalTheme: changes the global default only; every repository
      without a theme of its own now reads the new one (or `matrix` for "").
    */
    method SetGlobalTheme(theme: string, writeOk: bool) returns (err: Option<SaveError>)
      modifies this
      ensures defaultTheme == theme
      ensures repositories == old(repositories) && lastUpdateCheckTime == old(lastUpdateCheckTime)
      ensures GetGlobalTheme() == (if theme != "" then theme else DefaultThemeName)
      ensures forall repo | GetRepoConfig(repo).theme == "" :: GetTheme(repo) == GetGlobalTheme()
      ensures err.None? <==> writeOk
      ensures saved == (if writeOk then Some(Current()) else old(saved))
    {
      defaultTheme := theme;
      err := Save(writeOk);
    }

    /** SetLastUpdateCheckTime: the time reads back; nothing else changes. */
    method SetLastUpdateCheckTime(timestamp: string, writeOk: bool) returns (err: Option<SaveError>)
      modifies this
      ensures GetLastUpdateCheckTime() == timestamp
      ensures repositories == old(repositories) && defaultTheme == old(defaultTheme)
      ensures err.None? <==> writeOk
      ensures saved == (if writeOk then Some(Current()) else old(saved))
    {
      lastUpdateCheckTime := timestamp;
      err := Save(writeOk);
    }
  }

  /**
    One pair of setters on different repositories, illustrating their frame
    clauses: after the base branch of `a` and then the editor of `b` are set,
    each reads back its own value and `a` keeps its editor, whatever the
    saves did.
  */
  method SettersOnDifferentRepos(m: Manager, a: string, b: string, branch: string, editor: string, ok1: bool, ok2: bool)
    requires a != b
    modifies m
    ensures m.GetBaseBranch(a) == branch
    ensures m.GetEditor(b) == (if editor != "" then editor else DefaultEditor)
    ensures m.GetRepoConfig(a).editor == old(m.GetRepoConfig(a)).editor
  {
    var _ := m.SetBaseBranch(a, branch, ok1);
    var _ := m.SetEditor(b, editor, ok2);
  }
}
