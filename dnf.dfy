/** `InstallDNF` and `SetupDNFRepositories` of internal/installer/dnf.go, and the
    `dnf-plugins-core` bootstrap that `SetupRepositories` in
    internal/installer/installer.go repeats word for word. */
module Dnf {
  import opened Shell

  const PluginPackage := "dnf-plugins-core"

  /** `rpm -q dnf-plugins-core`: succeeds when the plugin package is installed. */
  const PluginCheckCmd := Cmd("rpm", ["-q", PluginPackage])

  /** `sudo dnf install --skip-unavailable <packages...>`, packages in declared order. */
  function InstallCmd(packages: seq<string>): Cmd {
    Cmd("sudo", ["dnf", "install", "--skip-unavailable"] + packages)
  }

  /** `sudo dnf config-manager addrepo --from-repofile=<repo> --overwrite`. */
  function AddRepoCmd(repo: string): Cmd {
    Cmd("sudo", ["dnf", "config-manager", "addrepo", "--from-repofile=" + repo, "--overwrite"])
  }

  /** An addrepo command of any repository. */
  predicate IsAddRepo(c: Cmd) {
    c.prog == "sudo" && |c.args| == 5 && c.args[..3] == ["dnf", "config-manager", "addrepo"]
  }

  /** One addrepo command per repository, in declared order. */
  function AddRepoCmds(repos: seq<string>): (cmds: seq<Cmd>)
    ensures |cmds| == |repos|
    ensures forall i :: 0 <= i < |repos| ==> cmds[i] == AddRepoCmd(repos[i])
  {
    seq(|repos|, i requires 0 <= i < |repos| => AddRepoCmd(repos[i]))
  }

  /** An empty list is a no-op; a missing dnf is an error before any command;
      otherwise exactly one install command carrying the packages in order is
      issued, and its status is the result. */
  function InstallDNF(env: Env, packages: seq<string>): (o: Outcome)
    ensures packages == [] ==> o == Outcome([], Ok)
    ensures packages != [] && !CommandExists(env, "dnf") ==> o == Outcome([], Err(ToolNotFound("dnf")))
    ensures packages != [] && CommandExists(env, "dnf") ==>
      && o.trace == [InstallCmd(packages)]
      && (o.result.Ok? <==> Succeeds(env, InstallCmd(packages)))
    ensures o.result.Err? ==> packages != []
    ensures OnlyPrograms(o.trace, {"sudo"})
  {
    if packages == [] then Outcome([], Ok)
    else if !CommandExists(env, "dnf") then Outcome([], Err(ToolNotFound("dnf")))
    else
      var install := InstallCmd(packages);
      Outcome([install], if Succeeds(env, install) then Ok else Err(CommandFailed(install)))
  }

  /** Check for `dnf-plugins-core` and install it when the check fails; a failed
      install is reported as such, wrapping the install's own error. */
  function PluginBootstrap(env: Env): (o: Outcome)
    ensures o.trace != [] && o.trace[0] == PluginCheckCmd
    ensures Succeeds(env, PluginCheckCmd) ==> o == Outcome([PluginCheckCmd], Ok)
    ensures !Succeeds(env, PluginCheckCmd) ==>
      var install := InstallDNF(env, [PluginPackage]);
      && o.trace == [PluginCheckCmd] + install.trace
      && (o.result.Err? <==> install.result.Err?)
      && (o.result.Err? ==> o.result.error == PluginInstallFailed(install.result.error))
    ensures forall i :: 0 <= i < |o.trace| ==> !IsAddRepo(o.trace[i])
    ensures OnlyPrograms(o.trace, {"rpm", "sudo"})
  {
    if Succeeds(env, PluginCheckCmd) then Outcome([PluginCheckCmd], Ok)
    else
      var install := InstallDNF(env, [PluginPackage]);
      Outcome([PluginCheckCmd] + install.trace,
              if install.result.Ok? then Ok else Err(PluginInstallFailed(install.result.error)))
  }

  /** The repository loop: one addrepo per repository, stopping at the first one that fails. */
  function AddRepos(env: Env, repos: seq<string>): (o: Outcome)
    ensures OnlyPrograms(o.trace, {"sudo"})
  {
    var cmds := AddRepoCmds(repos);
    var k := FirstFailure(env, cmds);
    Outcome(Issued(env, cmds), if k == |repos| then Ok else Err(RepoAddFailed(repos[k])))
  }

  /** What `SetupDNFRepositories` does: nothing for an empty list, otherwise the
      plugin bootstrap and then, if it succeeded, the repository loop. */
  function DnfReposOutcome(env: Env, repos: seq<string>): (o: Outcome)
    ensures repos == [] <==> o.trace == []
    ensures repos == [] ==> o.result.Ok?
    ensures repos != [] ==> o.trace[0] == PluginCheckCmd
    ensures OnlyPrograms(o.trace, {"rpm", "sudo"})
  {
    if repos == [] then Outcome([], Ok) else Then(PluginBootstrap(env), AddRepos(env, repos))
  }

  /** The loop of internal/installer/dnf.go as written: the plugin bootstrap, then one
      addrepo per repository with no skip check, returning at the first failure. */
  method SetupDNFRepositories(env: Env, repos: seq<string>) returns (trace: seq<Cmd>, res: Result)
    ensures Outcome(trace, res) == DnfReposOutcome(env, repos)
  {
    if |repos| == 0 {
      return [], Ok;
    }
    var boot := PluginBootstrap(env);
    trace := boot.trace;
    if boot.result.Err? {
      return trace, boot.result;
    }
    ghost var cmds := AddRepoCmds(repos);
    var i := 0;
    while i < |repos|
      invariant 0 <= i <= |repos|
      invariant forall j :: 0 <= j < i ==> Succeeds(env, cmds[j])
      invariant trace == boot.trace + cmds[..i]
    {
      var c := AddRepoCmd(repos[i]);
      trace := trace + [c];
      if !Succeeds(env, c) {
        FirstFailureAt(env, cmds, i);
        assert cmds[..i] + [c] == cmds[..i + 1];
        return trace, Err(RepoAddFailed(repos[i]));
      }
      i := i + 1;
    }
    assert cmds[..i] == cmds;
    IssuedAllSucceed(env, cmds);
    return trace, Ok;
  }

  /** When the plugin check fails, exactly one install of `dnf-plugins-core` is
      issued, right after the check and before any addrepo; if it fails, the
      result is that failure and no addrepo is issued at all. */
  lemma PluginInstallPrecedesAddRepo(env: Env, repos: seq<string>)
    requires repos != [] && !Succeeds(env, PluginCheckCmd)
    requires CommandExists(env, "dnf")
    ensures var o := DnfReposOutcome(env, repos);
      && |o.trace| >= 2
      && o.trace[..2] == [PluginCheckCmd, InstallCmd([PluginPackage])]
      && multiset(o.trace)[InstallCmd([PluginPackage])] == 1
      && (forall i :: 0 <= i < |o.trace| && IsAddRepo(o.trace[i]) ==> i >= 2)
      && (!Succeeds(env, InstallCmd([PluginPackage])) ==>
            o == Outcome([PluginCheckCmd, InstallCmd([PluginPackage])],
                         Err(PluginInstallFailed(CommandFailed(InstallCmd([PluginPackage]))))))
  {
    var o := DnfReposOutcome(env, repos);
    var boot := PluginBootstrap(env);
    var install := InstallCmd([PluginPackage]);
    assert boot.trace == [PluginCheckCmd, install];
    if boot.result.Ok? {
      var rest := AddRepos(env, repos).trace;
      AddReposOnlyAddRepo(env, repos);
      assert o.trace == [PluginCheckCmd, install] + rest;
      assert multiset(o.trace) == multiset([PluginCheckCmd, install]) + multiset(rest);
    }
  }

  /** A failed plugin bootstrap ends `SetupDNFRepositories` before any addrepo:
      its error is the result. With dnf missing, that is the check followed by
      nothing else and a wrapped "dnf command not found". */
  lemma PluginFailureStopsRepos(env: Env, repos: seq<string>)
    requires repos != [] && PluginBootstrap(env).result.Err?
    ensures var o := DnfReposOutcome(env, repos);
      && o == PluginBootstrap(env)
      && (forall i :: 0 <= i < |o.trace| ==> !IsAddRepo(o.trace[i]))
      && (!CommandExists(env, "dnf") ==>
            o == Outcome([PluginCheckCmd], Err(PluginInstallFailed(ToolNotFound("dnf")))))
  {
  }

  /** The repository loop issues nothing but addrepo commands, so never the
      plugin install. */
  lemma AddReposOnlyAddRepo(env: Env, repos: seq<string>)
    ensures var t := AddRepos(env, repos).trace;
      && (forall i :: 0 <= i < |t| ==> IsAddRepo(t[i]))
      && multiset(t)[InstallCmd([PluginPackage])] == 0
  {
    var t := AddRepos(env, repos).trace;
    var install := InstallCmd([PluginPackage]);
    assert forall i :: 0 <= i < |t| ==> t[i] == AddRepoCmd(repos[i]);
    assert !IsAddRepo(install);
    assert install !in t;
  }


  /** Once the bootstrap has succeeded, the trace continues with one addrepo per
      repository in declared order, up to and including the first that fails;
      later repositories are never attempted, and the result names the failing one. */
  lemma AddRepoLoopStopsAtFirstFailure(env: Env, repos: seq<string>)
    requires repos != [] && PluginBootstrap(env).result.Ok?
    ensures var o := DnfReposOutcome(env, repos);
      var k := FirstFailure(env, AddRepoCmds(repos));
      && (forall j :: 0 <= j < k ==> Succeeds(env, AddRepoCmd(repos[j])))
      && (k == |repos| ==> o == Outcome(PluginBootstrap(env).trace + AddRepoCmds(repos), Ok))
      && (k < |repos| ==>
            && !Succeeds(env, AddRepoCmd(repos[k]))
            && o == Outcome(PluginBootstrap(env).trace + AddRepoCmds(repos[..k + 1]), Err(RepoAddFailed(repos[k]))))
  {
    var cmds := AddRepoCmds(repos);
    var k := FirstFailure(env, cmds);
    if k < |repos| {
      assert AddRepoCmds(repos[..k + 1]) == cmds[..k + 1];
    } else {
      IssuedAllSucceed(env, cmds);
    }
  }
}
