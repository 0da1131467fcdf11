/** internal/installer/flatpak.go: the installed-app probe and its parser, the
    flatpak self-bootstrap, remote setup, and the convergence filter in front of
    one batched app install. */
module Flatpak {
  import opened Shell
  import opened Text
  import opened Manifest
  import Dnf
  import Apt

  /** `flatpak list --app --columns=application`: one installed application id per line. */
  const ListCmd := Cmd("flatpak", ["list", "--app", "--columns=application"])

  /** `flatpak remote-add --if-not-exists <name> <url>`. */
  function RemoteAddCmd(remote: Remote): Cmd {
    Cmd("flatpak", ["remote-add", "--if-not-exists", remote.name, remote.url])
  }

  /** One remote-add per remote, in declared order. */
  function RemoteAddCmds(remotes: seq<Remote>): (cmds: seq<Cmd>)
    ensures |cmds| == |remotes|
    ensures forall i :: 0 <= i < |remotes| ==> cmds[i] == RemoteAddCmd(remotes[i])
  {
    seq(|remotes|, i requires 0 <= i < |remotes| => RemoteAddCmd(remotes[i]))
  }

  /** `flatpak install -y --or-update <apps...>`. */
  function AppsInstallCmd(apps: seq<string>): Cmd {
    Cmd("flatpak", ["install", "-y", "--or-update"] + apps)
  }

  /** A `flatpak install` command, whatever its apps. */
  predicate IsAppsInstall(c: Cmd) {
    c.prog == "flatpak" && |c.args| >= 1 && c.args[0] == "install"
  }

  // ---------------------------------------------------------------------------
  // The installed set

  /** The trimmed, non-empty lines of `lines`. */
  function NonEmptyTrimmed(lines: seq<string>): set<string> {
    set l | l in lines && TrimSpace(l) != "" :: TrimSpace(l)
  }

  /** The set `getInstalledFlatpaks` builds from the probe's output: exactly the
      white-space-trimmed lines that are not empty; its members are trimmed and
      hold no line break. */
  function InstalledSet(output: string): (installed: set<string>)
    ensures forall x :: x in installed ==> x != ""
    ensures forall l :: l in Split(output, '\n') ==> (TrimSpace(l) in installed <==> TrimSpace(l) != "")
  {
    var lines := Split(output, '\n');
    TrimmedLinesFacts(lines);
    NonEmptyTrimmed(lines)
  }

  lemma TrimmedLinesFacts(lines: seq<string>)
    ensures forall x :: x in NonEmptyTrimmed(lines) ==> x != ""
    ensures forall l :: l in lines ==> (TrimSpace(l) in NonEmptyTrimmed(lines) <==> TrimSpace(l) != "")
  {
  }

  /** Every member of the installed set is the trimmed text of some line of the
      output; so it has no surrounding white space and holds no line break. */
  lemma InstalledSetFromLines(output: string, x: string)
    requires x in InstalledSet(output)
    ensures exists l :: l in Split(output, '\n') && TrimSpace(l) == x
    ensures TrimSpace(x) == x && '\n' !in x
  {
    var lines := Split(output, '\n');
    var l :| l in lines && TrimSpace(l) != "" && TrimSpace(l) == x;
    TrimSpaceIdempotent(l);
  }

  /** `getInstalledFlatpaks`: runs the probe; on failure reports no set, otherwise
      fills the set line by line. */
  method GetInstalledFlatpaks(env: Env) returns (installed: Option<set<string>>)
    ensures !Succeeds(env, ListCmd) ==> installed == None
    ensures Succeeds(env, ListCmd) ==> installed == Some(InstalledSet(Output(env, ListCmd)))
  {
    if !Succeeds(env, ListCmd) {
      return None;
    }
    var lines := Split(Output(env, ListCmd), '\n');
    var acc: set<string> := {};
    var i := 0;
    while i < |lines|
      invariant 0 <= i <= |lines|
      invariant acc == NonEmptyTrimmed(lines[..i])
    {
      var trimmed := TrimSpace(lines[i]);
      assert lines[..i + 1] == lines[..i] + [lines[i]];
      if trimmed != "" {
        acc := acc + {trimmed};
      }
      i := i + 1;
    }
    assert lines[..i] == lines;
    return Some(acc);
  }

  /** What the app filter looks up: the text after the last `/` of `remote/app.id`,
      or the whole string when it has no `/`. */
  function AppId(app: string): (id: string)
    ensures '/' !in app ==> id == app
    ensures '/' !in id
    ensures |id| <= |app| && app[|app| - |id|..] == id
    ensures |id| < |app| ==> app[|app| - |id| - 1] == '/'
  {
    var parts := Split(app, '/');
    LastSegmentOfSplit(app, '/');
    LastSegmentIsSuffix(app, '/');
    if |parts| > 1 then parts[|parts| - 1] else app
  }

  // ---------------------------------------------------------------------------
  // The convergence filter

  /** The declared apps whose id is not installed, as the loop appends them. */
  function Pending(apps: seq<string>, installed: set<string>): (r: seq<string>)
    ensures |r| <= |apps|
  {
    if apps == [] then []
    else
      var last := apps[|apps| - 1];
      Pending(apps[..|apps| - 1], installed) + (if AppId(last) in installed then [] else [last])
  }

  /** `xs` is `ys` with some elements removed, the rest kept in order. */
  ghost predicate IsSubsequence<T>(xs: seq<T>, ys: seq<T>)
    decreases |ys|
  {
    if xs == [] then true
    else if ys == [] then false
    else if xs[|xs| - 1] == ys[|ys| - 1] && IsSubsequence(xs[..|xs| - 1], ys[..|ys| - 1]) then true
    else IsSubsequence(xs, ys[..|ys| - 1])
  }

  lemma {:induction false} SubsequenceOfLonger<T>(xs: seq<T>, ys: seq<T>, y: T)
    requires IsSubsequence(xs, ys)
    ensures IsSubsequence(xs, ys + [y])
  {
    if xs != [] {
      assert (ys + [y])[..|ys|] == ys;
    }
  }

  lemma {:induction false} SubsequenceExtend<T>(xs: seq<T>, ys: seq<T>, y: T)
    requires IsSubsequence(xs, ys)
    ensures IsSubsequence(xs + [y], ys + [y])
  {
    assert (xs + [y])[..|xs|] == xs;
    assert (ys + [y])[..|ys|] == ys;
  }

  /** The filter keeps declared apps in declared order and invents none. */
  lemma {:induction false} PendingIsSubsequence(apps: seq<string>, installed: set<string>)
    ensures IsSubsequence(Pending(apps, installed), apps)
    decreases |apps|
  {
    if apps != [] {
      var init := apps[..|apps| - 1];
      var last := apps[|apps| - 1];
      assert apps == init + [last];
      PendingIsSubsequence(init, installed);
      if AppId(last) in installed {
        assert Pending(apps, installed) == Pending(init, installed);
        SubsequenceOfLonger(Pending(init, installed), init, last);
      } else {
        SubsequenceExtend(Pending(init, installed), init, last);
      }
    }
  }

  /** The filter keeps every copy of an app whose id is not installed and no copy
      of one whose id is: the kept strings are the original, possibly
      `remote/`-prefixed, declarations. */
  lemma {:induction false} PendingCount(apps: seq<string>, installed: set<string>, x: string)
    ensures multiset(Pending(apps, installed))[x] ==
            if AppId(x) in installed then 0 else multiset(apps)[x]
    decreases |apps|
  {
    if apps != [] {
      var init := apps[..|apps| - 1];
      var last := apps[|apps| - 1];
      assert apps == init + [last];
      PendingCount(init, installed, x);
    }
  }

  /** Membership form of `PendingCount`. */
  lemma PendingMember(apps: seq<string>, installed: set<string>, x: string)
    ensures x in Pending(apps, installed) <==> x in apps && AppId(x) !in installed
  {
    PendingCount(apps, installed, x);
  }

  /** When the probe failed nothing counts as installed, so every declared app is kept. */
  lemma {:induction false} PendingNothingInstalled(apps: seq<string>)
    ensures Pending(apps, {}) == apps
    decreases |apps|
  {
    if apps != [] {
      PendingNothingInstalled(apps[..|apps| - 1]);
    }
  }

  /** Filtering what the filter kept removes nothing more. */
  lemma {:induction false} PendingIdempotent(apps: seq<string>, installed: set<string>)
    ensures Pending(Pending(apps, installed), installed) == Pending(apps, installed)
    decreases |apps|
  {
    if apps != [] {
      var init := apps[..|apps| - 1];
      var last := apps[|apps| - 1];
      var p := Pending(init, installed);
      PendingIdempotent(init, installed);
      assert (p + [last])[..|p|] == p;
      if AppId(last) !in installed {
        calc {
          Pending(Pending(apps, installed), installed);
          Pending(p + [last], installed);
          Pending(p, installed) + [last];
          Pending(apps, installed);
        }
      } else {
        assert Pending(apps, installed) == p;
      }
    }
  }

  /** The ids of some apps. */
  function AppIds(apps: seq<string>): set<string> {
    set x | x in apps :: AppId(x)
  }

  /** Convergence: once the ids of the apps the filter kept are installed, a second
      run keeps nothing, so it issues no install command. */
  lemma PendingConverges(apps: seq<string>, installed: set<string>)
    ensures Pending(apps, installed + AppIds(Pending(apps, installed))) == []
  {
    var p := Pending(apps, installed);
    var after := installed + AppIds(p);
    var q := Pending(apps, after);
    if q != [] {
      var x := q[0];
      PendingMember(apps, after, x);
      PendingMember(apps, installed, x);
      assert false;
    }
  }

  /** Nothing is kept when every declared app's id is installed. */
  lemma PendingAllInstalled(apps: seq<string>, installed: set<string>)
    requires forall i :: 0 <= i < |apps| ==> AppId(apps[i]) in installed
    ensures Pending(apps, installed) == []
  {
    var p := Pending(apps, installed);
    if p != [] {
      PendingMember(apps, installed, p[0]);
      assert false;
    }
  }

  // ---------------------------------------------------------------------------
  // The self-bootstrap

  /** `EnsureFlatpakInstalled`: nothing when flatpak is on PATH; otherwise install
      `flatpak` with DNF when dnf is present (even if apt-get is too), else with APT
      when apt-get is present, else fail without issuing any command. */
  function EnsureFlatpakInstalled(env: Env): (o: Outcome)
    ensures CommandExists(env, "flatpak") ==> o == Outcome([], Ok)
    ensures !CommandExists(env, "flatpak") && CommandExists(env, "dnf") ==>
      && o.trace == [Dnf.InstallCmd(["flatpak"])]
      && (o.result.Ok? <==> Succeeds(env, Dnf.InstallCmd(["flatpak"])))
    ensures !CommandExists(env, "flatpak") && !CommandExists(env, "dnf") && CommandExists(env, "apt-get") ==>
      && o.trace != [] && o.trace[0] == Apt.UpdateCmd
      && o == Apt.InstallAPT(env, ["flatpak"])
    ensures !CommandExists(env, "flatpak") && !CommandExists(env, "dnf") && !CommandExists(env, "apt-get") ==>
      o == Outcome([], Err(NoFlatpakBackend))
    ensures forall i :: 0 <= i < |o.trace| ==> !IsAppsInstall(o.trace[i])
    ensures OnlyPrograms(o.trace, {"sudo"})
  {
    if CommandExists(env, "flatpak") then Outcome([], Ok)
    else if CommandExists(env, "dnf") then Dnf.InstallDNF(env, ["flatpak"])
    else if CommandExists(env, "apt-get") then Apt.InstallAPT(env, ["flatpak"])
    else Outcome([], Err(NoFlatpakBackend))
  }

  // ---------------------------------------------------------------------------
  // Remotes

  /** The remote loop: one remote-add per remote, stopping at the first that fails. */
  function AddRemotes(env: Env, remotes: seq<Remote>): (o: Outcome)
    ensures OnlyPrograms(o.trace, {"flatpak"})
  {
    var cmds := RemoteAddCmds(remotes);
    var k := FirstFailure(env, cmds);
    Outcome(Issued(env, cmds), if k == |remotes| then Ok else Err(RemoteAddFailed(remotes[k].name)))
  }

  /** What `SetupFlatpakRemotes` does: nothing for an empty list; otherwise the
      bootstrap and then, if it succeeded, the remote loop. */
  function RemotesOutcome(env: Env, remotes: seq<Remote>): (o: Outcome)
    ensures remotes == [] ==> o == Outcome([], Ok)
    ensures forall i :: 0 <= i < |o.trace| ==> !IsAppsInstall(o.trace[i])
    ensures OnlyPrograms(o.trace, {"sudo", "flatpak"})
  {
    if remotes == [] then Outcome([], Ok) else Then(EnsureFlatpakInstalled(env), AddRemotes(env, remotes))
  }

  /** `SetupFlatpakRemotes` as written: the bootstrap, then the remote loop. */
  method SetupFlatpakRemotes(env: Env, remotes: seq<Remote>) returns (trace: seq<Cmd>, res: Result)
    ensures Outcome(trace, res) == RemotesOutcome(env, remotes)
  {
    if |remotes| == 0 {
      return [], Ok;
    }
    var boot := EnsureFlatpakInstalled(env);
    if boot.result.Err? {
      return boot.trace, boot.result;
    }
    var added;
    added, res := AddRemotesLoop(env, remotes);
    trace := boot.trace + added;
  }

  /** The loop of `SetupFlatpakRemotes`: a remote-add per remote, returning at the
      first that fails. */
  method AddRemotesLoop(env: Env, remotes: seq<Remote>) returns (trace: seq<Cmd>, res: Result)
    ensures Outcome(trace, res) == AddRemotes(env, remotes)
  {
    ghost var cmds := RemoteAddCmds(remotes);
    trace := [];
    var i := 0;
    while i < |remotes|
      invariant 0 <= i <= |remotes|
      invariant forall j :: 0 <= j < i ==> Succeeds(env, cmds[j])
      invariant trace == cmds[..i]
    {
      var c := RemoteAddCmd(remotes[i]);
      trace := trace + [c];
      if !Succeeds(env, c) {
        FirstFailureAt(env, cmds, i);
        assert cmds[..i] + [c] == cmds[..i + 1];
        return trace, Err(RemoteAddFailed(remotes[i].name));
      }
      i := i + 1;
    }
    assert cmds[..i] == cmds;
    IssuedAllSucceed(env, cmds);
    return trace, Ok;
  }

  /** Once flatpak is available, one remote-add per remote is issued in declared
      order up to and including the first that fails; later remotes are never
      attempted, and the error names the failing remote. */
  lemma RemotesStopAtFirstFailure(env: Env, remotes: seq<Remote>)
    requires remotes != [] && EnsureFlatpakInstalled(env).result.Ok?
    ensures var o := RemotesOutcome(env, remotes);
      var k := FirstFailure(env, RemoteAddCmds(remotes));
      var boot := EnsureFlatpakInstalled(env).trace;
      && (forall j :: 0 <= j < k ==> Succeeds(env, RemoteAddCmd(remotes[j])))
      && (k == |remotes| ==> o == Outcome(boot + RemoteAddCmds(remotes), Ok))
      && (k < |remotes| ==>
            && !Succeeds(env, RemoteAddCmd(remotes[k]))
            && o == Outcome(boot + RemoteAddCmds(remotes[..k + 1]), Err(RemoteAddFailed(remotes[k].name))))
  {
    var cmds := RemoteAddCmds(remotes);
    var k := FirstFailure(env, cmds);
    if k < |remotes| {
      assert RemoteAddCmds(remotes[..k + 1]) == cmds[..k + 1];
    } else {
      IssuedAllSucceed(env, cmds);
    }
  }

  // ---------------------------------------------------------------------------
  // Apps

  /** The set the filter consults: the parsed probe output, or nothing when the probe failed. */
  function ProbedInstalled(env: Env): (installed: set<string>)
    ensures !Succeeds(env, ListCmd) ==> installed == {}
    ensures forall x :: x in installed ==> x != ""
  {
    if Succeeds(env, ListCmd) then InstalledSet(Output(env, ListCmd)) else {}
  }

  /** After the bootstrap: probe, filter, and install what is left in one batch, or
      nothing at all when nothing is left. */
  function InstallPending(env: Env, apps: seq<string>): (o: Outcome)
    ensures o.trace != [] && o.trace[0] == ListCmd
    ensures OnlyPrograms(o.trace, {"flatpak"})
  {
    var pending := Pending(apps, ProbedInstalled(env));
    if pending == [] then Outcome([ListCmd], Ok)
    else
      var install := AppsInstallCmd(pending);
      Outcome([ListCmd, install], if Succeeds(env, install) then Ok else Err(AppsInstallFailed))
  }

  /** What `InstallFlatpak` does. */
  function AppsOutcome(env: Env, apps: seq<string>): (o: Outcome)
    ensures apps == [] ==> o == Outcome([], Ok)
    ensures OnlyPrograms(o.trace, {"sudo", "flatpak"})
  {
    if apps == [] then Outcome([], Ok)
    else
      OnlyProgramsThen(EnsureFlatpakInstalled(env), InstallPending(env, apps), {"sudo"}, {"flatpak"});
      Then(EnsureFlatpakInstalled(env), InstallPending(env, apps))
  }

  /** `InstallFlatpak` as written: bootstrap, probe (a failed probe counts as
      nothing installed), a loop appending every app whose id is not installed,
      and one batched install unless that list is empty. */
  method InstallFlatpak(env: Env, apps: seq<string>) returns (trace: seq<Cmd>, res: Result)
    ensures Outcome(trace, res) == AppsOutcome(env, apps)
  {
    if |apps| == 0 {
      return [], Ok;
    }
    var boot := EnsureFlatpakInstalled(env);
    trace := boot.trace;
    if boot.result.Err? {
      return trace, boot.result;
    }
    trace := trace + [ListCmd];
    var probed := GetInstalledFlatpaks(env);
    var installed := if probed.Some? then probed.value else {};
    var toInstall := FilterApps(apps, installed);
    if |toInstall| == 0 {
      return trace, Ok;
    }
    var install := AppsInstallCmd(toInstall);
    trace := trace + [install];
    if !Succeeds(env, install) {
      return trace, Err(AppsInstallFailed);
    }
    return trace, Ok;
  }

  /** The filter loop of `InstallFlatpak`: the lookup id is the last `/`-segment
      when there is a `/`, and an app is appended unless that id is installed. */
  method FilterApps(apps: seq<string>, installed: set<string>) returns (toInstall: seq<string>)
    ensures toInstall == Pending(apps, installed)
  {
    toInstall := [];
    var i := 0;
    while i < |apps|
      invariant 0 <= i <= |apps|
      invariant toInstall == Pending(apps[..i], installed)
    {
      var app := apps[i];
      var appName := app;
      var parts := Split(app, '/');
      if |parts| > 1 {
        appName := parts[|parts| - 1];
      }
      assert appName == AppId(app);
      assert apps[..i + 1][..i] == apps[..i];
      if appName !in installed {
        toInstall := toInstall + [app];
      }
      i := i + 1;
    }
    assert apps[..i] == apps;
  }

  /** The plan of `InstallFlatpak` once flatpak is available: the probe is issued;
      when the filter leaves nothing (all apps already installed) no install command
      follows and the result is success; otherwise exactly one install follows,
      carrying the kept apps in declared order, and its status is the result. */
  lemma AppsPlan(env: Env, apps: seq<string>)
    requires apps != [] && EnsureFlatpakInstalled(env).result.Ok?
    ensures var o := AppsOutcome(env, apps);
      var boot := EnsureFlatpakInstalled(env).trace;
      var pending := Pending(apps, ProbedInstalled(env));
      && IsSubsequence(pending, apps)
      && (pending == [] ==>
            && o == Outcome(boot + [ListCmd], Ok)
            && forall i :: 0 <= i < |o.trace| ==> !IsAppsInstall(o.trace[i]))
      && (pending != [] ==>
            && o.trace == boot + [ListCmd, AppsInstallCmd(pending)]
            && (o.result.Ok? <==> Succeeds(env, AppsInstallCmd(pending))))
  {
    var boot := EnsureFlatpakInstalled(env);
    var rest := InstallPending(env, apps);
    var pending := Pending(apps, ProbedInstalled(env));
    PendingIsSubsequence(apps, ProbedInstalled(env));
    InstallPendingShape(env, apps);
    assert AppsOutcome(env, apps) == Outcome(boot.trace + rest.trace, rest.result);
    if pending == [] {
      assert !IsAppsInstall(ListCmd);
    }
  }

  /** The commands after the bootstrap: the probe, then the batched install of
      the kept apps unless none is kept. */
  lemma InstallPendingShape(env: Env, apps: seq<string>)
    ensures var o := InstallPending(env, apps);
      var pending := Pending(apps, ProbedInstalled(env));
      && (pending == [] ==> o == Outcome([ListCmd], Ok))
      && (pending != [] ==>
            && o.trace == [ListCmd, AppsInstallCmd(pending)]
            && (o.result.Ok? <==> Succeeds(env, AppsInstallCmd(pending))))
  {
  }

  /** A failed bootstrap ends `InstallFlatpak`: its error is the result, and neither
      the probe nor an app install is issued. */
  lemma AppsBootstrapFailure(env: Env, apps: seq<string>)
    requires apps != [] && EnsureFlatpakInstalled(env).result.Err?
    ensures var o := AppsOutcome(env, apps);
      && o == EnsureFlatpakInstalled(env)
      && ListCmd !in o.trace
      && (forall i :: 0 <= i < |o.trace| ==> !IsAppsInstall(o.trace[i]))
  {
  }

  /** A failed probe degrades to "nothing installed": every declared app goes into
      the one install command. */
  lemma AppsProbeFailureInstallsAll(env: Env, apps: seq<string>)
    requires apps != [] && EnsureFlatpakInstalled(env).result.Ok?
    requires !Succeeds(env, ListCmd)
    ensures AppsOutcome(env, apps).trace == EnsureFlatpakInstalled(env).trace + [ListCmd, AppsInstallCmd(apps)]
  {
    PendingNothingInstalled(apps);
  }

  /** With flatpak present and every declared app already installed, the only
      command issued is the probe. */
  lemma AppsAllInstalledIssuesNoInstall(env: Env, apps: seq<string>)
    requires apps != [] && CommandExists(env, "flatpak")
    requires forall i :: 0 <= i < |apps| ==> AppId(apps[i]) in ProbedInstalled(env)
    ensures AppsOutcome(env, apps) == Outcome([ListCmd], Ok)
  {
    var installed := ProbedInstalled(env);
    PendingAllInstalled(apps, installed);
    assert Pending(apps, ProbedInstalled(env)) == [];
    assert EnsureFlatpakInstalled(env) == Outcome([], Ok);
    assert InstallPending(env, apps) == Outcome([ListCmd], Ok);
  }
}
