/** internal/installer/installer.go: the post-install script runner and
    `SetupRepositories`, the repository setup that skips repositories already
    shown by `dnf repolist --enabled`. (`commandExists` is `Shell.CommandExists`.) */
module Installer {
  import opened Shell
  import opened Text
  import Dnf

  // ---------------------------------------------------------------------------
  // Post-install scripts

  /** `sh -c <script>`. */
  function ScriptCmd(script: string): Cmd {
    Cmd("sh", ["-c", script])
  }

  function ScriptCmds(scripts: seq<string>): (cmds: seq<Cmd>)
    ensures |cmds| == |scripts|
    ensures forall i :: 0 <= i < |scripts| ==> cmds[i] == ScriptCmd(scripts[i])
  {
    seq(|scripts|, i requires 0 <= i < |scripts| => ScriptCmd(scripts[i]))
  }

  /** What `RunScripts` does: each script through the shell, in order, up to and
      including the first that fails; success exactly when every script succeeds. */
  function ScriptsOutcome(env: Env, scripts: seq<string>): (o: Outcome)
    ensures OnlyPrograms(o.trace, {"sh"})
    ensures o.result.Ok? <==> forall i :: 0 <= i < |scripts| ==> Succeeds(env, ScriptCmd(scripts[i]))
    ensures o.result.Err? ==> o.result.error == ScriptFailed
    ensures scripts == [] ==> o == Outcome([], Ok)
  {
    var cmds := ScriptCmds(scripts);
    Outcome(Issued(env, cmds), if FirstFailure(env, cmds) == |scripts| then Ok else Err(ScriptFailed))
  }

  /** `RunScripts` as written: a loop that returns at the first failing script. */
  method RunScripts(env: Env, scripts: seq<string>) returns (trace: seq<Cmd>, res: Result)
    ensures Outcome(trace, res) == ScriptsOutcome(env, scripts)
  {
    ghost var cmds := ScriptCmds(scripts);
    trace := [];
    var i := 0;
    while i < |scripts|
      invariant 0 <= i <= |scripts|
      invariant forall j :: 0 <= j < i ==> Succeeds(env, cmds[j])
      invariant trace == cmds[..i]
    {
      var c := ScriptCmd(scripts[i]);
      trace := trace + [c];
      if !Succeeds(env, c) {
        FirstFailureAt(env, cmds, i);
        assert cmds[..i] + [c] == cmds[..i + 1];
        return trace, Err(ScriptFailed);
      }
      i := i + 1;
    }
    assert cmds[..i] == cmds;
    IssuedAllSucceed(env, cmds);
    return trace, Ok;
  }

  /** Scripts run in declared order up to and including the first that fails;
      the scripts after it are never run. */
  lemma ScriptsStopAtFirstFailure(env: Env, scripts: seq<string>)
    ensures var o := ScriptsOutcome(env, scripts);
      var k := FirstFailure(env, ScriptCmds(scripts));
      && (forall j :: 0 <= j < k ==> Succeeds(env, ScriptCmd(scripts[j])))
      && (k == |scripts| ==> o == Outcome(ScriptCmds(scripts), Ok))
      && (k < |scripts| ==>
            && !Succeeds(env, ScriptCmd(scripts[k]))
            && o == Outcome(ScriptCmds(scripts[..k + 1]), Err(ScriptFailed)))
  {
    var cmds := ScriptCmds(scripts);
    var k := FirstFailure(env, cmds);
    if k < |scripts| {
      assert ScriptCmds(scripts[..k + 1]) == cmds[..k + 1];
    } else {
      IssuedAllSucceed(env, cmds);
    }
  }

  /** The manifest `post_install: ["touch /tmp/a", "exit 1", "touch /tmp/b"]`,
      where only `exit 1` fails: the first script runs, the second fails the
      run, and the third is never started. */
  lemma ScriptsExample(env: Env)
    requires Succeeds(env, ScriptCmd("touch /tmp/a")) && !Succeeds(env, ScriptCmd("exit 1"))
    ensures ScriptsOutcome(env, ["touch /tmp/a", "exit 1", "touch /tmp/b"])
      == Outcome([ScriptCmd("touch /tmp/a"), ScriptCmd("exit 1")], Err(ScriptFailed))
  {
    var scripts := ["touch /tmp/a", "exit 1", "touch /tmp/b"];
    FirstFailureAt(env, ScriptCmds(scripts), 1);
    assert ScriptCmds(scripts)[..2] == [ScriptCmd("touch /tmp/a"), ScriptCmd("exit 1")];
  }

  // ---------------------------------------------------------------------------
  // Repositories with a skip check

  /** The name looked for in the repository listing: for a repository ending in
      `.repo`, the last `/`-separated piece of it, otherwise the whole string. */
  function RepoName(repo: string): string
  {
    if HasSuffix(repo, ".repo") then
      var parts := Split(repo, '/');
      parts[|parts| - 1]
    else repo
  }

  /** A derived name is the file name: the part after the last `/`, which itself
      ends in `.repo`; anything else is looked for as written. */
  lemma RepoNameShape(repo: string)
    ensures var name := RepoName(repo);
      && (!HasSuffix(repo, ".repo") ==> name == repo)
      && (HasSuffix(repo, ".repo") ==>
            && name == LastSegment(repo, '/')
            && '/' !in name
            && HasSuffix(name, ".repo")
            && HasSuffix(repo, name)
            && (|name| < |repo| ==> repo[|repo| - |name| - 1] == '/'))
  {
    if HasSuffix(repo, ".repo") {
      LastSegmentOfSplit(repo, '/');
      LastSegmentIsSuffix(repo, '/');
      var name := RepoName(repo);
      assert HasSuffix(name, ".repo") by {
        assert name[|name| - 5..] == repo[|repo| - 5..];
      }
    }
  }

  /** `dnf repolist --enabled`, run once per repository; its exit status is ignored. */
  const RepoListCmd := Cmd("dnf", ["repolist", "--enabled"])

  /** The skip check: the listing mentions the derived name or the repository string. */
  predicate AlreadyEnabled(listing: string, repo: string) {
    Contains(listing, RepoName(repo)) || Contains(listing, repo)
  }

  /** The loop of `SetupRepositories`: per repository, list the enabled
      repositories; skip it if the listing mentions it, otherwise add it and stop
      at the first addition that fails. */
  function ReposLoop(env: Env, repos: seq<string>): Outcome
    decreases |repos|
  {
    if repos == [] then Outcome([], Ok)
    else
      var repo := repos[0];
      var rest := ReposLoop(env, repos[1..]);
      if AlreadyEnabled(Output(env, RepoListCmd), repo) then
        Then(Outcome([RepoListCmd], Ok), rest)
      else
        var add := Dnf.AddRepoCmd(repo);
        if !Succeeds(env, add) then Outcome([RepoListCmd, add], Err(RepoAddFailed(repo)))
        else Then(Outcome([RepoListCmd, add], Ok), rest)
  }

  /** The loop runs only `dnf` (the listing) and `sudo` (the additions). */
  lemma {:induction false} ReposLoopPrograms(env: Env, repos: seq<string>)
    ensures OnlyPrograms(ReposLoop(env, repos).trace, {"dnf", "sudo"})
    decreases |repos|
  {
    if repos != [] {
      ReposLoopPrograms(env, repos[1..]);
    }
  }

  /** The loop fails only on an addition: its last command is that `addrepo`,
      which failed, for a repository the listing mentioned in neither form. */
  lemma {:induction false} ReposLoopResult(env: Env, repos: seq<string>)
    ensures var o := ReposLoop(env, repos);
      && (o.result.Err? ==>
            && o.trace != []
            && o.result.error.RepoAddFailed?
            && o.result.error.repo in repos
            && o.trace[|o.trace| - 1] == Dnf.AddRepoCmd(o.result.error.repo)
            && !Succeeds(env, Dnf.AddRepoCmd(o.result.error.repo))
            && !AlreadyEnabled(Output(env, RepoListCmd), o.result.error.repo))
    decreases |repos|
  {
    if repos != [] {
      ReposLoopResult(env, repos[1..]);
    }
  }

  /** The commands the loop plans for a listing: per repository, in order, the
      listing command and then its `addrepo` unless the listing mentions it. */
  function RepoPlan(listing: string, repos: seq<string>): seq<Cmd>
    decreases |repos|
  {
    if repos == [] then []
    else
      [RepoListCmd]
      + (if AlreadyEnabled(listing, repos[0]) then [] else [Dnf.AddRepoCmd(repos[0])])
      + RepoPlan(listing, repos[1..])
  }

  /** The loop issues a prefix of its plan, and the whole plan when it succeeds. */
  lemma {:induction false} ReposLoopFollowsPlan(env: Env, repos: seq<string>)
    ensures var o := ReposLoop(env, repos);
      var plan := RepoPlan(Output(env, RepoListCmd), repos);
      && |o.trace| <= |plan| && o.trace == plan[..|o.trace|]
      && (o.result.Ok? ==> o.trace == plan)
    decreases |repos|
  {
    if repos != [] {
      var listing := Output(env, RepoListCmd);
      var skip := AlreadyEnabled(listing, repos[0]);
      var add := Dnf.AddRepoCmd(repos[0]);
      var first := [RepoListCmd] + (if skip then [] else [add]);
      var stop := !skip && !Succeeds(env, add);
      var rest := ReposLoop(env, repos[1..]);
      var o := ReposLoop(env, repos);
      ReposLoopFollowsPlan(env, repos[1..]);
      ReposLoopHead(env, repos, first, stop);
      PlanCons(first, RepoPlan(listing, repos[1..]), rest, o, stop);
    }
  }

  /** The loop succeeds exactly when every repository the listing does not
      mention is added successfully, and every `addrepo` before the last command
      succeeded: the loop stops at the first failing addition. */
  lemma {:induction false} ReposLoopStopsAtFailure(env: Env, repos: seq<string>)
    ensures var o := ReposLoop(env, repos);
      && (o.result.Ok? <==>
            forall r :: r in repos && !AlreadyEnabled(Output(env, RepoListCmd), r) ==> Succeeds(env, Dnf.AddRepoCmd(r)))
      && (forall i :: 0 <= i < |o.trace| - 1 && Dnf.IsAddRepo(o.trace[i]) ==> Succeeds(env, o.trace[i]))
    decreases |repos|
  {
    if repos != [] {
      var listing := Output(env, RepoListCmd);
      var add := Dnf.AddRepoCmd(repos[0]);
      var rest := ReposLoop(env, repos[1..]);
      var o := ReposLoop(env, repos);
      ReposLoopStopsAtFailure(env, repos[1..]);
      assert forall r :: r in repos <==> r == repos[0] || r in repos[1..];
      assert !Dnf.IsAddRepo(RepoListCmd);
      if AlreadyEnabled(listing, repos[0]) {
        assert o.trace == [RepoListCmd] + rest.trace && o.result == rest.result;
        forall i | 0 <= i < |o.trace| - 1 && Dnf.IsAddRepo(o.trace[i])
          ensures Succeeds(env, o.trace[i])
        {
          assert o.trace[i] == rest.trace[i - 1];
        }
      } else if Succeeds(env, add) {
        assert o.trace == [RepoListCmd, add] + rest.trace && o.result == rest.result;
        forall i | 0 <= i < |o.trace| - 1 && Dnf.IsAddRepo(o.trace[i])
          ensures Succeeds(env, o.trace[i])
        {
          if i >= 2 {
            assert o.trace[i] == rest.trace[i - 2];
          }
        }
      } else {
        assert o == Outcome([RepoListCmd, add], Err(RepoAddFailed(repos[0])));
      }
    }
  }

  /** The first repository's commands, then the rest of the loop unless it stopped. */
  lemma ReposLoopHead(env: Env, repos: seq<string>, first: seq<Cmd>, stop: bool)
    requires repos != []
    requires var skip := AlreadyEnabled(Output(env, RepoListCmd), repos[0]);
      && first == [RepoListCmd] + (if skip then [] else [Dnf.AddRepoCmd(repos[0])])
      && stop == (!skip && !Succeeds(env, Dnf.AddRepoCmd(repos[0])))
    ensures var o := ReposLoop(env, repos);
      var rest := ReposLoop(env, repos[1..]);
      && (stop ==> o.trace == first && o.result.Err?)
      && (!stop ==> o.trace == first + rest.trace && o.result == rest.result)
      && RepoPlan(Output(env, RepoListCmd), repos) == first + RepoPlan(Output(env, RepoListCmd), repos[1..])
  {
  }

  /** One repository's commands in front of the rest of the loop keep the trace
      a prefix of the plan. */
  lemma PlanCons(first: seq<Cmd>, tail: seq<Cmd>, rest: Outcome, o: Outcome, stop: bool)
    requires |rest.trace| <= |tail| && rest.trace == tail[..|rest.trace|]
    requires rest.result.Ok? ==> rest.trace == tail
    requires stop ==> o.trace == first && o.result.Err?
    requires !stop ==> o.trace == first + rest.trace && o.result == rest.result
    ensures |o.trace| <= |first + tail| && o.trace == (first + tail)[..|o.trace|]
    ensures o.result.Ok? ==> o.trace == first + tail
  {
    if !stop {
      assert (first + tail)[..|first| + |rest.trace|] == first + tail[..|rest.trace|];
    }
  }

  /** When every `addrepo` the plan holds succeeds, the loop succeeds. */
  lemma {:induction false} ReposLoopSucceeds(env: Env, repos: seq<string>)
    requires forall r :: r in repos && !AlreadyEnabled(Output(env, RepoListCmd), r) ==> Succeeds(env, Dnf.AddRepoCmd(r))
    ensures ReposLoop(env, repos).result.Ok?
    decreases |repos|
  {
    if repos != [] {
      ReposLoopSucceeds(env, repos[1..]);
    }
  }

  /** What `SetupRepositories` does: nothing for an empty list, otherwise the
      plugin bootstrap and then, if it succeeded, the checked repository loop. */
  function ReposOutcome(env: Env, repos: seq<string>): (o: Outcome)
    ensures repos == [] <==> o.trace == []
    ensures repos == [] ==> o.result.Ok?
    ensures repos != [] ==> o.trace[0] == Dnf.PluginCheckCmd
    ensures OnlyPrograms(o.trace, {"rpm", "dnf", "sudo"})
  {
    if repos == [] then Outcome([], Ok)
    else
      ReposLoopPrograms(env, repos);
      OnlyProgramsThen(Dnf.PluginBootstrap(env), ReposLoop(env, repos), {"rpm", "sudo"}, {"dnf", "sudo"});
      Then(Dnf.PluginBootstrap(env), ReposLoop(env, repos))
  }

  /** `SetupRepositories` as written: the plugin bootstrap, then the checked loop. */
  method SetupRepositories(env: Env, repos: seq<string>) returns (trace: seq<Cmd>, res: Result)
    ensures Outcome(trace, res) == ReposOutcome(env, repos)
  {
    if |repos| == 0 {
      return [], Ok;
    }
    var boot := Dnf.PluginBootstrap(env);
    if boot.result.Err? {
      return boot.trace, boot.result;
    }
    var added;
    added, res := AddMissingRepos(env, repos);
    trace := boot.trace + added;
  }

  /** The loop of `SetupRepositories`: the repository name is recomputed and the
      listing re-read for every repository, as in the source. */
  method AddMissingRepos(env: Env, repos: seq<string>) returns (trace: seq<Cmd>, res: Result)
    ensures Outcome(trace, res) == ReposLoop(env, repos)
  {
    trace := [];
    var i := 0;
    while i < |repos|
      invariant 0 <= i <= |repos|
      invariant ReposLoop(env, repos).trace == trace + ReposLoop(env, repos[i..]).trace
      invariant ReposLoop(env, repos).result == ReposLoop(env, repos[i..]).result
    {
      var repo := repos[i];
      ReposLoopAdvance(env, repos, i, trace, ReposLoop(env, repos));
      trace := trace + [RepoListCmd];
      var output := Output(env, RepoListCmd);
      if AlreadyEnabled(output, repo) {
        i := i + 1;
        continue;
      }
      var add := Dnf.AddRepoCmd(repo);
      trace := trace + [add];
      if !Succeeds(env, add) {
        return trace, Err(RepoAddFailed(repo));
      }
      i := i + 1;
    }
    assert repos[i..] == [];
    return trace, Ok;
  }

  /** One turn of the loop, at position `i`. */
  lemma ReposLoopUnfold(env: Env, repos: seq<string>, i: nat)
    requires i < |repos|
    ensures var repo := repos[i];
      var add := Dnf.AddRepoCmd(repo);
      var rest := ReposLoop(env, repos[i + 1..]);
      ReposLoop(env, repos[i..]) ==
        if AlreadyEnabled(Output(env, RepoListCmd), repo) then Then(Outcome([RepoListCmd], Ok), rest)
        else if !Succeeds(env, add) then Outcome([RepoListCmd, add], Err(RepoAddFailed(repo)))
        else Then(Outcome([RepoListCmd, add], Ok), rest)
  {
    assert repos[i..][0] == repos[i];
    assert repos[i..][1..] == repos[i + 1..];
  }

  /** The loop invariant of `AddMissingRepos` carried over one repository. */
  lemma ReposLoopAdvance(env: Env, repos: seq<string>, i: nat, trace: seq<Cmd>, o: Outcome)
    requires i < |repos|
    requires o.trace == trace + ReposLoop(env, repos[i..]).trace
    requires o.result == ReposLoop(env, repos[i..]).result
    ensures var add := Dnf.AddRepoCmd(repos[i]);
      var rest := ReposLoop(env, repos[i + 1..]);
      && (AlreadyEnabled(Output(env, RepoListCmd), repos[i]) ==>
            o.trace == trace + [RepoListCmd] + rest.trace && o.result == rest.result)
      && (!AlreadyEnabled(Output(env, RepoListCmd), repos[i]) && !Succeeds(env, add) ==>
            o == Outcome(trace + [RepoListCmd] + [add], Err(RepoAddFailed(repos[i]))))
      && (!AlreadyEnabled(Output(env, RepoListCmd), repos[i]) && Succeeds(env, add) ==>
            o.trace == trace + [RepoListCmd] + [add] + rest.trace && o.result == rest.result)
  {
    ReposLoopUnfold(env, repos, i);
    var add := Dnf.AddRepoCmd(repos[i]);
    var rest := ReposLoop(env, repos[i + 1..]).trace;
    assert trace + ([RepoListCmd] + rest) == trace + [RepoListCmd] + rest;
    assert trace + ([RepoListCmd, add] + rest) == trace + [RepoListCmd] + [add] + rest;
    assert trace + [RepoListCmd, add] == trace + [RepoListCmd] + [add];
  }

  /** The skip decision: an addition is issued for a repository only when the
      listing mentions neither its derived name nor its full string; and when the
      loop succeeds, every such repository was added. */
  lemma {:induction false} ReposSkipIff(env: Env, repos: seq<string>, repo: string)
    requires repo in repos
    ensures var o := ReposLoop(env, repos);
      && (Dnf.AddRepoCmd(repo) in o.trace ==> !AlreadyEnabled(Output(env, RepoListCmd), repo))
      && (o.result.Ok? && !AlreadyEnabled(Output(env, RepoListCmd), repo) ==> Dnf.AddRepoCmd(repo) in o.trace)
    decreases |repos|
  {
    var first := repos[0];
    if repo in repos[1..] {
      ReposSkipIff(env, repos[1..], repo);
    } else {
      assert repo == first;
      AddRepoNotInLoop(env, repos[1..], repo);
    }
    var add := Dnf.AddRepoCmd(first);
    if Dnf.AddRepoCmd(repo) == add {
      AddRepoCmdInjective(repo, first);
    }
  }

  /** Different repositories give different addrepo commands. */
  lemma AddRepoCmdInjective(r1: string, r2: string)
    requires Dnf.AddRepoCmd(r1) == Dnf.AddRepoCmd(r2)
    ensures r1 == r2
  {
    var p := "--from-repofile=";
    assert (p + r1)[|p|..] == r1;
    assert (p + r2)[|p|..] == r2;
  }

  /** The loop adds only repositories of its own list. */
  lemma {:induction false} AddRepoNotInLoop(env: Env, repos: seq<string>, repo: string)
    requires repo !in repos
    ensures Dnf.AddRepoCmd(repo) !in ReposLoop(env, repos).trace
    decreases |repos|
  {
    if repos != [] {
      AddRepoNotInLoop(env, repos[1..], repo);
      if Dnf.AddRepoCmd(repo) == Dnf.AddRepoCmd(repos[0]) {
        AddRepoCmdInjective(repo, repos[0]);
      }
    }
  }

  /** Only the listing's text decides the skips: whether `dnf repolist` itself
      exits with an error changes nothing. */
  lemma {:induction false} RepoListStatusIgnored(env: Env, repos: seq<string>)
    ensures ReposLoop(env.(failing := env.failing + {RepoListCmd}), repos)
         == ReposLoop(env.(failing := env.failing - {RepoListCmd}), repos)
    decreases |repos|
  {
    if repos != [] {
      RepoListStatusIgnored(env, repos[1..]);
      var add := Dnf.AddRepoCmd(repos[0]);
      assert add != RepoListCmd;
      assert Succeeds(env.(failing := env.failing + {RepoListCmd}), add)
          == Succeeds(env.(failing := env.failing - {RepoListCmd}), add);
    }
  }

  /** The plugin bootstrap runs before the loop; if it fails, no repository is
      listed or added and its error is the result. */
  lemma ReposBootstrapFirst(env: Env, repos: seq<string>)
    requires repos != []
    ensures var o := ReposOutcome(env, repos);
      && o.trace[0] == Dnf.PluginCheckCmd
      && (Dnf.PluginBootstrap(env).result.Err? ==>
            && o == Dnf.PluginBootstrap(env)
            && forall i :: 0 <= i < |o.trace| ==> !Dnf.IsAddRepo(o.trace[i]) && o.trace[i] != RepoListCmd)
      && (Dnf.PluginBootstrap(env).result.Ok? ==>
            o == Outcome(Dnf.PluginBootstrap(env).trace + ReposLoop(env, repos).trace, ReposLoop(env, repos).result))
  {
    var boot := Dnf.PluginBootstrap(env);
    if boot.result.Err? {
      assert OnlyPrograms(boot.trace, {"rpm", "sudo"});
    }
  }
}
