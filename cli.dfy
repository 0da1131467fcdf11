/** The `install fedora` and `install debian` commands of cmd/fedora.go and
    cmd/debian.go, and `setupFlatpakRemotes` of cmd/install.go: which steps the
    flags select, in which fixed order they run, and how the first failing step
    ends the run (`log.Fatalf` exits the process). */
module Cli {
  import opened Shell
  import opened Manifest
  import Dnf
  import Apt
  import Flatpak
  import Installer

  /** The flag variables `--dnf`, `--flatpak` and `--repos` as `install fedora` reads them. */
  datatype FedoraFlags = FedoraFlags(onlyDNF: bool, onlyFlatpak: bool, repositories: bool)

  /** The flag variables `--apt` and `--flatpak` as `install debian` reads them. */
  datatype DebianFlags = DebianFlags(onlyAPT: bool, onlyFlatpak: bool)

  /** Run-everything mode of `install fedora`. */
  predicate FedoraInstallAll(f: FedoraFlags) {
    !f.onlyDNF && !f.onlyFlatpak && !f.repositories
  }

  /** Run-everything mode of `install debian`. */
  predicate DebianInstallAll(f: DebianFlags) {
    !f.onlyAPT && !f.onlyFlatpak
  }

  // ---------------------------------------------------------------------------
  // Default remote

  /** The remote used when the manifest declares none. */
  const DefaultRemote := Remote("flathub", "https://flathub.org/repo/flathub.flatpakrepo")

  /** The remotes `setupFlatpakRemotes` hands on: the declared ones unchanged and
      in order, or exactly the default remote when none are declared; never empty. */
  function EffectiveRemotes(cfg: Config): (remotes: seq<Remote>)
    ensures remotes != []
    ensures cfg.flatpakRemotes != [] ==> remotes == cfg.flatpakRemotes
    ensures cfg.flatpakRemotes == [] ==>
      && |remotes| == 1
      && remotes[0].name == "flathub"
      && remotes[0].url == "https://flathub.org/repo/flathub.flatpakrepo"
  {
    if |cfg.flatpakRemotes| == 0 then [DefaultRemote] else cfg.flatpakRemotes
  }

  /** `setupFlatpakRemotes`: substitute the default when needed, then set the
      remotes up; a failure there ends the run (see `RunFedora`, `RunDebian`). */
  method SetupRemotes(env: Env, cfg: Config) returns (trace: seq<Cmd>, res: Result)
    ensures Outcome(trace, res) == Flatpak.RemotesOutcome(env, EffectiveRemotes(cfg))
  {
    var remotes := cfg.flatpakRemotes;
    if |remotes| == 0 {
      remotes := [DefaultRemote];
    }
    trace, res := Flatpak.SetupFlatpakRemotes(env, remotes);
  }

  /** Since the remote list is never empty, the remote step always makes sure
      flatpak is available before anything else. */
  lemma RemoteStepAlwaysBootstraps(env: Env, cfg: Config)
    ensures var o := Flatpak.RemotesOutcome(env, EffectiveRemotes(cfg));
      var boot := Flatpak.EnsureFlatpakInstalled(env);
      && |o.trace| >= |boot.trace|
      && o.trace[..|boot.trace|] == boot.trace
      && (boot.result.Err? ==> o == boot)
      && (boot.result.Ok? ==>
            && |o.trace| > |boot.trace|
            && o.trace[|boot.trace|] == Flatpak.RemoteAddCmd(EffectiveRemotes(cfg)[0]))
  {
    var remotes := EffectiveRemotes(cfg);
    var cmds := Flatpak.RemoteAddCmds(remotes);
    var issued := Issued(env, cmds);
    assert issued != [] && issued[0] == cmds[0] by {
      if Succeeds(env, cmds[0]) {
        if issued == cmds {
        } else {
          assert |issued| > 0;
        }
      } else {
        FirstFailureAt(env, cmds, 0);
      }
    }
  }

  // ---------------------------------------------------------------------------
  // Step selection

  /** The position of a step in the fixed order of a run; APT takes the place
      that DNF packages have on Fedora. */
  function Rank(s: Step): nat {
    match s
    case DnfRepos => 0
    case FlatpakRemotes => 1
    case DnfPackages => 2
    case AptPackages => 2
    case FlatpakApps => 3
    case PostInstall => 4
  }

  /** Steps in strictly increasing rank: in the fixed order, each at most once. */
  predicate Ordered(steps: seq<Step>) {
    forall i, j :: 0 <= i < j < |steps| ==> Rank(steps[i]) < Rank(steps[j])
  }

  /** `s` in front of `rest` when `b` holds, `rest` alone otherwise. */
  function Prepend(b: bool, s: Step, rest: seq<Step>): seq<Step> {
    if b then [s] + rest else rest
  }

  /** The steps `install fedora` runs: DNF repositories → Flatpak remotes → DNF
      packages → Flatpak apps → post-install scripts, each exactly when its guard
      holds; `--repos` selects repositories and remotes, `--flatpak` remotes and
      apps, `--dnf` only packages, and no flag selects everything. */
  function FedoraSteps(f: FedoraFlags): seq<Step> {
    var all := FedoraInstallAll(f);
    Prepend(f.repositories || all, DnfRepos,
      Prepend(f.repositories || all || f.onlyFlatpak, FlatpakRemotes,
        Prepend(f.onlyDNF || all, DnfPackages,
          Prepend(f.onlyFlatpak || all, FlatpakApps,
            Prepend(all, PostInstall, [])))))
  }

  /** The steps `install debian` runs: Flatpak remotes → APT packages → Flatpak
      apps → post-install scripts; `--apt` selects only packages, `--flatpak`
      remotes and apps, no flag everything; there is no repository step. */
  function DebianSteps(f: DebianFlags): seq<Step> {
    var all := DebianInstallAll(f);
    Prepend(all || f.onlyFlatpak, FlatpakRemotes,
      Prepend(f.onlyAPT || all, AptPackages,
        Prepend(f.onlyFlatpak || all, FlatpakApps,
          Prepend(all, PostInstall, []))))
  }

  /** Fedora step selection, checked over all eight flag combinations: each
      step runs exactly when its guard holds, never none, and no flag means all
      five. */
  lemma FedoraSelection(f: FedoraFlags)
    ensures var steps := FedoraSteps(f);
      && steps != []
      && AptPackages !in steps
      && (DnfRepos in steps <==> f.repositories || FedoraInstallAll(f))
      && (FlatpakRemotes in steps <==> f.repositories || f.onlyFlatpak || FedoraInstallAll(f))
      && (DnfPackages in steps <==> f.onlyDNF || FedoraInstallAll(f))
      && (FlatpakApps in steps <==> f.onlyFlatpak || FedoraInstallAll(f))
      && (PostInstall in steps <==> FedoraInstallAll(f))
      && (FedoraInstallAll(f) <==> steps == [DnfRepos, FlatpakRemotes, DnfPackages, FlatpakApps, PostInstall])
  {
    FedoraCases(f);
  }

  /** The selected Fedora steps always run in the fixed order. */
  lemma FedoraOrdered(f: FedoraFlags)
    ensures Ordered(FedoraSteps(f))
  {
    FedoraCases(f);
  }

  /** The eight Fedora flag combinations, spelled out. */
  lemma FedoraCases(f: FedoraFlags)
    ensures var FedoraFlags(d, p, r) := f;
      FedoraSteps(f) ==
        if !d && !p && !r then [DnfRepos, FlatpakRemotes, DnfPackages, FlatpakApps, PostInstall]
        else if d && p && r then [DnfRepos, FlatpakRemotes, DnfPackages, FlatpakApps]
        else if d && p then [FlatpakRemotes, DnfPackages, FlatpakApps]
        else if d && r then [DnfRepos, FlatpakRemotes, DnfPackages]
        else if p && r then [DnfRepos, FlatpakRemotes, FlatpakApps]
        else if d then [DnfPackages]
        else if p then [FlatpakRemotes, FlatpakApps]
        else [DnfRepos, FlatpakRemotes]
  {
  }

  /** Debian step selection over all four flag combinations. */
  lemma DebianSelection(f: DebianFlags)
    ensures var steps := DebianSteps(f);
      && steps != []
      && DnfRepos !in steps && DnfPackages !in steps
      && (FlatpakRemotes in steps <==> f.onlyFlatpak || DebianInstallAll(f))
      && (AptPackages in steps <==> f.onlyAPT || DebianInstallAll(f))
      && (FlatpakApps in steps <==> f.onlyFlatpak || DebianInstallAll(f))
      && (PostInstall in steps <==> DebianInstallAll(f))
      && (DebianInstallAll(f) <==> steps == [FlatpakRemotes, AptPackages, FlatpakApps, PostInstall])
  {
    DebianCases(f);
  }

  /** The selected Debian steps always run in the fixed order. */
  lemma DebianOrdered(f: DebianFlags)
    ensures Ordered(DebianSteps(f))
  {
    DebianCases(f);
  }

  /** The four Debian flag combinations, spelled out. */
  lemma DebianCases(f: DebianFlags)
    ensures var DebianFlags(a, p) := f;
      DebianSteps(f) ==
        if a && p then [FlatpakRemotes, AptPackages, FlatpakApps]
        else if a then [AptPackages]
        else if p then [FlatpakRemotes, FlatpakApps]
        else [FlatpakRemotes, AptPackages, FlatpakApps, PostInstall]
  {
  }

  // ---------------------------------------------------------------------------
  // Running the steps

  /** The installer call behind each step. */
  function RunStep(env: Env, cfg: Config, s: Step): (o: Outcome)
    ensures s != PostInstall ==> OnlyPrograms(o.trace, {"rpm", "sudo", "flatpak"})
    ensures s == PostInstall ==> OnlyPrograms(o.trace, {"sh"})
  {
    match s
    case DnfRepos => Dnf.DnfReposOutcome(env, cfg.repositories)
    case FlatpakRemotes => Flatpak.RemotesOutcome(env, EffectiveRemotes(cfg))
    case DnfPackages => Dnf.InstallDNF(env, cfg.dnf)
    case AptPackages => Apt.InstallAPT(env, cfg.apt)
    case FlatpakApps => Flatpak.AppsOutcome(env, cfg.flatpak)
    case PostInstall => Installer.ScriptsOutcome(env, cfg.postInstall)
  }

  /** A step together with what running it on its own would do. */
  datatype StepRun = StepRun(step: Step, outcome: Outcome)

  /** Each selected step with its outcome, in order. */
  function Runs(env: Env, cfg: Config, steps: seq<Step>): (runs: seq<StepRun>)
    ensures |runs| == |steps|
    ensures forall i :: 0 <= i < |steps| ==> runs[i] == StepRun(steps[i], RunStep(env, cfg, steps[i]))
  {
    seq(|steps|, i requires 0 <= i < |steps| => StepRun(steps[i], RunStep(env, cfg, steps[i])))
  }

  /** One guarded step of a Run body in front of the `rest` of the run: skipped
      when its guard is off, ending the run (`log.Fatalf`) with its error tagged
      by the step when it fails, followed by the rest otherwise. */
  function Guarded(on: bool, s: Step, o: Outcome, rest: Outcome): Outcome {
    if !on then rest
    else if o.result.Err? then Outcome(o.trace, Err(StepFailed(s, o.result.error)))
    else Then(o, rest)
  }

  /** The steps in turn; the first one that fails ends the run. */
  function Sequence(runs: seq<StepRun>): Outcome {
    if runs == [] then Outcome([], Ok)
    else Guarded(true, runs[0].step, runs[0].outcome, Sequence(runs[1..]))
  }

  /** A failed run names one of its steps, and that step's own result was the
      error carried as the cause. */
  lemma {:induction false} SequenceFailure(runs: seq<StepRun>)
    ensures var o := Sequence(runs);
      o.result.Err? ==>
        && o.result.error.StepFailed?
        && exists i :: 0 <= i < |runs| && runs[i].step == o.result.error.step
                       && runs[i].outcome.result == Err(o.result.error.cause)
  {
    if runs != [] && runs[0].outcome.result.Ok? {
      var rest := Sequence(runs[1..]);
      SequenceFailure(runs[1..]);
      if rest.result.Err? {
        var j :| 0 <= j < |runs[1..]| && runs[1..][j].step == rest.result.error.step
          && runs[1..][j].outcome.result == Err(rest.result.error.cause);
        assert runs[j + 1] == runs[1..][j];
      }
    }
  }

  /** The commands of the given runs, one after the other. */
  function Traces(runs: seq<StepRun>): seq<Cmd> {
    if runs == [] then [] else runs[0].outcome.trace + Traces(runs[1..])
  }

  /** When every step succeeds, the run issues every step's commands in step order. */
  lemma {:induction false} SequenceAllOk(runs: seq<StepRun>)
    requires forall i :: 0 <= i < |runs| ==> runs[i].outcome.result.Ok?
    ensures Sequence(runs) == Outcome(Traces(runs), Ok)
  {
    if runs != [] {
      SequenceAllOk(runs[1..]);
    }
  }

  /** A failing step aborts the run: the commands of the steps before it and its
      own are issued, no later step runs, and the error names that step. */
  lemma {:induction false} SequenceAbort(runs: seq<StepRun>, k: nat)
    requires k < |runs|
    requires forall i :: 0 <= i < k ==> runs[i].outcome.result.Ok?
    requires runs[k].outcome.result.Err?
    ensures Sequence(runs) == Outcome(Traces(runs[..k + 1]), Err(StepFailed(runs[k].step, runs[k].outcome.result.error)))
  {
    if k == 0 {
      assert runs[..1][1..] == [];
    } else {
      SequenceAbort(runs[1..], k - 1);
      assert runs[..k + 1][1..] == runs[1..][..k];
    }
  }

  /** A run issues only programs that its steps issue. */
  lemma {:induction false} SequencePrograms(runs: seq<StepRun>, progs: set<string>)
    requires forall i :: 0 <= i < |runs| ==> OnlyPrograms(runs[i].outcome.trace, progs)
    ensures OnlyPrograms(Sequence(runs).trace, progs)
  {
    if runs != [] {
      SequencePrograms(runs[1..], progs);
      OnlyProgramsThen(runs[0].outcome, Sequence(runs[1..]), progs, progs);
    }
  }

  /** Selecting a step in front of others puts one guarded step in front of their run. */
  lemma SequencePrepend(env: Env, cfg: Config, on: bool, s: Step, tail: seq<Step>)
    ensures Sequence(Runs(env, cfg, Prepend(on, s, tail)))
         == Guarded(on, s, RunStep(env, cfg, s), Sequence(Runs(env, cfg, tail)))
  {
    if on {
      assert Runs(env, cfg, [s] + tail)[1..] == Runs(env, cfg, tail);
    }
  }

  /** One stage of a Run body. `whole` is the outcome of the entire run, `done`
      what the earlier stages issued, and `t`, `r` what this stage's call
      returned when its guard held: the run either ends here or carries on. */
  lemma Stage(whole: Outcome, done: seq<Cmd>, on: bool, s: Step, o: Outcome, rest: Outcome, t: seq<Cmd>, r: Result)
    requires whole == Then(Outcome(done, Ok), Guarded(on, s, o, rest))
    requires on ==> Outcome(t, r) == o
    ensures on && r.Err? ==> whole == Outcome(done + t, Err(StepFailed(s, r.error)))
    ensures on && r.Ok? ==> whole == Then(Outcome(done + t, Ok), rest)
    ensures !on ==> whole == Then(Outcome(done, Ok), rest)
  {
    if on && r.Ok? {
      assert done + (t + rest.trace) == (done + t) + rest.trace;
    }
  }

  // ---------------------------------------------------------------------------
  // The two commands

  /** `install fedora`: a manifest that fails to load ends the run before any
      command; otherwise the selected steps run in order. */
  function FedoraOutcome(env: Env, loaded: Option<Config>, f: FedoraFlags): Outcome
  {
    match loaded
    case None => Outcome([], Err(ConfigLoadFailed))
    case Some(cfg) => Sequence(Runs(env, cfg, FedoraSteps(f)))
  }

  /** `install debian`, likewise. */
  function DebianOutcome(env: Env, loaded: Option<Config>, f: DebianFlags): Outcome
  {
    match loaded
    case None => Outcome([], Err(ConfigLoadFailed))
    case Some(cfg) => Sequence(Runs(env, cfg, DebianSteps(f)))
  }

  /** A manifest that fails to load ends `install fedora` before any command;
      otherwise a failed run names a selected step whose installer returned the
      error carried as the cause. */
  lemma FedoraFailure(env: Env, loaded: Option<Config>, f: FedoraFlags)
    ensures var o := FedoraOutcome(env, loaded, f);
      && (loaded.None? ==> o == Outcome([], Err(ConfigLoadFailed)))
      && (loaded.Some? && o.result.Err? ==>
            && o.result.error.StepFailed?
            && o.result.error.step in FedoraSteps(f)
            && RunStep(env, loaded.value, o.result.error.step).result == Err(o.result.error.cause))
  {
    if loaded.Some? {
      var runs := Runs(env, loaded.value, FedoraSteps(f));
      SequenceFailure(runs);
      var o := Sequence(runs);
      if o.result.Err? {
        var i :| 0 <= i < |runs| && runs[i].step == o.result.error.step
                 && runs[i].outcome.result == Err(o.result.error.cause);
        assert FedoraSteps(f)[i] == o.result.error.step;
      }
    }
  }

  /** The same for `install debian`. */
  lemma DebianFailure(env: Env, loaded: Option<Config>, f: DebianFlags)
    ensures var o := DebianOutcome(env, loaded, f);
      && (loaded.None? ==> o == Outcome([], Err(ConfigLoadFailed)))
      && (loaded.Some? && o.result.Err? ==>
            && o.result.error.StepFailed?
            && o.result.error.step in DebianSteps(f)
            && RunStep(env, loaded.value, o.result.error.step).result == Err(o.result.error.cause))
  {
    if loaded.Some? {
      var runs := Runs(env, loaded.value, DebianSteps(f));
      SequenceFailure(runs);
      var o := Sequence(runs);
      if o.result.Err? {
        var i :| 0 <= i < |runs| && runs[i].step == o.result.error.step
                 && runs[i].outcome.result == Err(o.result.error.cause);
        assert DebianSteps(f)[i] == o.result.error.step;
      }
    }
  }

  /** `install fedora` with a loaded manifest, one guarded stage per step. */
  lemma FedoraStages(env: Env, cfg: Config, f: FedoraFlags)
    ensures var all := FedoraInstallAll(f);
      FedoraOutcome(env, Some(cfg), f)
        == Guarded(f.repositories || all, DnfRepos, Dnf.DnfReposOutcome(env, cfg.repositories),
           Guarded(f.repositories || all || f.onlyFlatpak, FlatpakRemotes,
                   Flatpak.RemotesOutcome(env, EffectiveRemotes(cfg)),
           Guarded(f.onlyDNF || all, DnfPackages, Dnf.InstallDNF(env, cfg.dnf),
           Guarded(f.onlyFlatpak || all, FlatpakApps, Flatpak.AppsOutcome(env, cfg.flatpak),
           Guarded(all, PostInstall, Installer.ScriptsOutcome(env, cfg.postInstall), Outcome([], Ok))))))
  {
    var all := FedoraInstallAll(f);
    var t5 := Prepend(all, PostInstall, []);
    var t4 := Prepend(f.onlyFlatpak || all, FlatpakApps, t5);
    var t3 := Prepend(f.onlyDNF || all, DnfPackages, t4);
    var t2 := Prepend(f.repositories || all || f.onlyFlatpak, FlatpakRemotes, t3);
    SequencePrepend(env, cfg, all, PostInstall, []);
    SequencePrepend(env, cfg, f.onlyFlatpak || all, FlatpakApps, t5);
    SequencePrepend(env, cfg, f.onlyDNF || all, DnfPackages, t4);
    SequencePrepend(env, cfg, f.repositories || all || f.onlyFlatpak, FlatpakRemotes, t3);
    SequencePrepend(env, cfg, f.repositories || all, DnfRepos, t2);
  }

  /** `install debian` with a loaded manifest, one guarded stage per step. */
  lemma DebianStages(env: Env, cfg: Config, f: DebianFlags)
    ensures var all := DebianInstallAll(f);
      DebianOutcome(env, Some(cfg), f)
        == Guarded(all || f.onlyFlatpak, FlatpakRemotes, Flatpak.RemotesOutcome(env, EffectiveRemotes(cfg)),
           Guarded(f.onlyAPT || all, AptPackages, Apt.InstallAPT(env, cfg.apt),
           Guarded(f.onlyFlatpak || all, FlatpakApps, Flatpak.AppsOutcome(env, cfg.flatpak),
           Guarded(all, PostInstall, Installer.ScriptsOutcome(env, cfg.postInstall), Outcome([], Ok)))))
  {
    var all := DebianInstallAll(f);
    StagesFromSteps(env, cfg, all || f.onlyFlatpak, FlatpakRemotes, f.onlyAPT || all, AptPackages,
      f.onlyFlatpak || all, FlatpakApps, all, PostInstall);
    assert RunStep(env, cfg, FlatpakRemotes) == Flatpak.RemotesOutcome(env, EffectiveRemotes(cfg));
    assert RunStep(env, cfg, AptPackages) == Apt.InstallAPT(env, cfg.apt);
    assert RunStep(env, cfg, FlatpakApps) == Flatpak.AppsOutcome(env, cfg.flatpak);
    assert RunStep(env, cfg, PostInstall) == Installer.ScriptsOutcome(env, cfg.postInstall);
  }

  /** Four selectable steps run in sequence as four nested guarded stages. */
  lemma StagesFromSteps(env: Env, cfg: Config, b1: bool, s1: Step, b2: bool, s2: Step,
                        b3: bool, s3: Step, b4: bool, s4: Step)
    ensures Sequence(Runs(env, cfg, Prepend(b1, s1, Prepend(b2, s2, Prepend(b3, s3, Prepend(b4, s4, []))))))
      == Guarded(b1, s1, RunStep(env, cfg, s1), Guarded(b2, s2, RunStep(env, cfg, s2),
         Guarded(b3, s3, RunStep(env, cfg, s3), Guarded(b4, s4, RunStep(env, cfg, s4), Outcome([], Ok)))))
  {
    var t4 := Prepend(b4, s4, []);
    var t3 := Prepend(b3, s3, t4);
    var t2 := Prepend(b2, s2, t3);
    SequencePrepend(env, cfg, b4, s4, []);
    SequencePrepend(env, cfg, b3, s3, t4);
    SequencePrepend(env, cfg, b2, s2, t3);
    SequencePrepend(env, cfg, b1, s1, t2);
  }

  /** The Run body of `install fedora` as written: a guarded call per step, each
      failure ending the run. */
  method RunFedora(env: Env, loaded: Option<Config>, f: FedoraFlags) returns (trace: seq<Cmd>, res: Result)
    ensures Outcome(trace, res) == FedoraOutcome(env, loaded, f)
  {
    if loaded.None? {
      return [], Err(ConfigLoadFailed);
    }
    var cfg := loaded.value;
    var installAll := !f.onlyDNF && !f.onlyFlatpak && !f.repositories;
    FedoraStages(env, cfg, f);
    ghost var rest5 := Guarded(installAll, PostInstall, Installer.ScriptsOutcome(env, cfg.postInstall), Outcome([], Ok));
    ghost var rest4 := Guarded(f.onlyFlatpak || installAll, FlatpakApps, Flatpak.AppsOutcome(env, cfg.flatpak), rest5);
    ghost var rest3 := Guarded(f.onlyDNF || installAll, DnfPackages, Dnf.InstallDNF(env, cfg.dnf), rest4);
    ghost var rest2 := Guarded(f.repositories || installAll || f.onlyFlatpak, FlatpakRemotes,
                               Flatpak.RemotesOutcome(env, EffectiveRemotes(cfg)), rest3);
    ghost var whole := FedoraOutcome(env, loaded, f);
    trace := [];
    var t: seq<Cmd>, r: Result := [], Ok;

    if f.repositories || installAll {
      t, r := Dnf.SetupDNFRepositories(env, cfg.repositories);
    }
    Stage(whole, trace, f.repositories || installAll, DnfRepos, Dnf.DnfReposOutcome(env, cfg.repositories), rest2, t, r);
    if f.repositories || installAll {
      trace := trace + t;
      if r.Err? {
        return trace, Err(StepFailed(DnfRepos, r.error));
      }
    }

    if f.repositories || installAll || f.onlyFlatpak {
      t, r := SetupRemotes(env, cfg);
    }
    Stage(whole, trace, f.repositories || installAll || f.onlyFlatpak, FlatpakRemotes,
          Flatpak.RemotesOutcome(env, EffectiveRemotes(cfg)), rest3, t, r);
    if f.repositories || installAll || f.onlyFlatpak {
      trace := trace + t;
      if r.Err? {
        return trace, Err(StepFailed(FlatpakRemotes, r.error));
      }
    }

    if f.onlyDNF || installAll {
      var o := Dnf.InstallDNF(env, cfg.dnf);
      t, r := o.trace, o.result;
    }
    Stage(whole, trace, f.onlyDNF || installAll, DnfPackages, Dnf.InstallDNF(env, cfg.dnf), rest4, t, r);
    if f.onlyDNF || installAll {
      trace := trace + t;
      if r.Err? {
        return trace, Err(StepFailed(DnfPackages, r.error));
      }
    }

    if f.onlyFlatpak || installAll {
      t, r := Flatpak.InstallFlatpak(env, cfg.flatpak);
    }
    Stage(whole, trace, f.onlyFlatpak || installAll, FlatpakApps, Flatpak.AppsOutcome(env, cfg.flatpak), rest5, t, r);
    if f.onlyFlatpak || installAll {
      trace := trace + t;
      if r.Err? {
        return trace, Err(StepFailed(FlatpakApps, r.error));
      }
    }

    if installAll {
      t, r := Installer.RunScripts(env, cfg.postInstall);
    }
    Stage(whole, trace, installAll, PostInstall, Installer.ScriptsOutcome(env, cfg.postInstall), Outcome([], Ok), t, r);
    if installAll {
      trace := trace + t;
      if r.Err? {
        return trace, Err(StepFailed(PostInstall, r.error));
      }
    }
    return trace, Ok;
  }

  /** The Run body of `install debian` as written. */
  method RunDebian(env: Env, loaded: Option<Config>, f: DebianFlags) returns (trace: seq<Cmd>, res: Result)
    ensures Outcome(trace, res) == DebianOutcome(env, loaded, f)
  {
    if loaded.None? {
      return [], Err(ConfigLoadFailed);
    }
    var cfg := loaded.value;
    var installAll := !f.onlyAPT && !f.onlyFlatpak;
    DebianStages(env, cfg, f);
    ghost var rest4 := Guarded(installAll, PostInstall, Installer.ScriptsOutcome(env, cfg.postInstall), Outcome([], Ok));
    ghost var rest3 := Guarded(f.onlyFlatpak || installAll, FlatpakApps, Flatpak.AppsOutcome(env, cfg.flatpak), rest4);
    ghost var rest2 := Guarded(f.onlyAPT || installAll, AptPackages, Apt.InstallAPT(env, cfg.apt), rest3);
    ghost var whole := DebianOutcome(env, loaded, f);
    trace := [];
    var t: seq<Cmd>, r: Result := [], Ok;

    if installAll || f.onlyFlatpak {
      t, r := SetupRemotes(env, cfg);
    }
    Stage(whole, trace, installAll || f.onlyFlatpak, FlatpakRemotes,
          Flatpak.RemotesOutcome(env, EffectiveRemotes(cfg)), rest2, t, r);
    if installAll || f.onlyFlatpak {
      trace := trace + t;
      if r.Err? {
        return trace, Err(StepFailed(FlatpakRemotes, r.error));
      }
    }

    if f.onlyAPT || installAll {
      var o := Apt.InstallAPT(env, cfg.apt);
      t, r := o.trace, o.result;
    }
    Stage(whole, trace, f.onlyAPT || installAll, AptPackages, Apt.InstallAPT(env, cfg.apt), rest3, t, r);
    if f.onlyAPT || installAll {
      trace := trace + t;
      if r.Err? {
        return trace, Err(StepFailed(AptPackages, r.error));
      }
    }

    if f.onlyFlatpak || installAll {
      t, r := Flatpak.InstallFlatpak(env, cfg.flatpak);
    }
    Stage(whole, trace, f.onlyFlatpak || installAll, FlatpakApps, Flatpak.AppsOutcome(env, cfg.flatpak), rest4, t, r);
    if f.onlyFlatpak || installAll {
      trace := trace + t;
      if r.Err? {
        return trace, Err(StepFailed(FlatpakApps, r.error));
      }
    }

    if installAll {
      t, r := Installer.RunScripts(env, cfg.postInstall);
    }
    Stage(whole, trace, installAll, PostInstall, Installer.ScriptsOutcome(env, cfg.postInstall), Outcome([], Ok), t, r);
    if installAll {
      trace := trace + t;
      if r.Err? {
        return trace, Err(StepFailed(PostInstall, r.error));
      }
    }
    return trace, Ok;
  }

  // ---------------------------------------------------------------------------
  // Properties of the commands

  /** Without the post-install step no shell script is run. */
  lemma NoScriptsWithoutPostInstall(env: Env, cfg: Config, steps: seq<Step>)
    requires PostInstall !in steps
    ensures OnlyPrograms(Sequence(Runs(env, cfg, steps)).trace, {"rpm", "sudo", "flatpak"})
  {
    var runs := Runs(env, cfg, steps);
    forall i | 0 <= i < |runs| ensures OnlyPrograms(runs[i].outcome.trace, {"rpm", "sudo", "flatpak"}) {
      assert steps[i] != PostInstall;
    }
    SequencePrograms(runs, {"rpm", "sudo", "flatpak"});
  }

  /** Outside run-everything mode `install fedora` never runs a shell script. */
  lemma FedoraScriptsOnlyInInstallAll(env: Env, cfg: Config, f: FedoraFlags)
    requires !FedoraInstallAll(f)
    ensures forall i :: 0 <= i < |FedoraOutcome(env, Some(cfg), f).trace| ==>
      FedoraOutcome(env, Some(cfg), f).trace[i].prog != "sh"
  {
    NoScriptsWithoutPostInstall(env, cfg, FedoraSteps(f));
  }

  /** Outside run-everything mode `install debian` never runs a shell script. */
  lemma DebianScriptsOnlyInInstallAll(env: Env, cfg: Config, f: DebianFlags)
    requires !DebianInstallAll(f)
    ensures forall i :: 0 <= i < |DebianOutcome(env, Some(cfg), f).trace| ==>
      DebianOutcome(env, Some(cfg), f).trace[i].prog != "sh"
  {
    NoScriptsWithoutPostInstall(env, cfg, DebianSteps(f));
  }

  /** A full `install fedora` run in which every step succeeds issues the commands
      of repositories, remotes, packages, apps and scripts, in that order. */
  lemma FedoraFullRun(env: Env, cfg: Config)
    requires Dnf.DnfReposOutcome(env, cfg.repositories).result.Ok?
    requires Flatpak.RemotesOutcome(env, EffectiveRemotes(cfg)).result.Ok?
    requires Dnf.InstallDNF(env, cfg.dnf).result.Ok?
    requires Flatpak.AppsOutcome(env, cfg.flatpak).result.Ok?
    requires Installer.ScriptsOutcome(env, cfg.postInstall).result.Ok?
    ensures FedoraOutcome(env, Some(cfg), FedoraFlags(false, false, false)) == Outcome(
      Dnf.DnfReposOutcome(env, cfg.repositories).trace
        + (Flatpak.RemotesOutcome(env, EffectiveRemotes(cfg)).trace
        + (Dnf.InstallDNF(env, cfg.dnf).trace
        + (Flatpak.AppsOutcome(env, cfg.flatpak).trace
        + Installer.ScriptsOutcome(env, cfg.postInstall).trace))),
      Ok)
  {
    var f := FedoraFlags(false, false, false);
    assert FedoraInstallAll(f);
    FedoraStages(env, cfg, f);
    FiveStagesOk(
      Dnf.DnfReposOutcome(env, cfg.repositories), Flatpak.RemotesOutcome(env, EffectiveRemotes(cfg)),
      Dnf.InstallDNF(env, cfg.dnf), Flatpak.AppsOutcome(env, cfg.flatpak),
      Installer.ScriptsOutcome(env, cfg.postInstall));
  }

  /** Five selected stages that all succeed issue their traces in order. */
  lemma FiveStagesOk(o1: Outcome, o2: Outcome, o3: Outcome, o4: Outcome, o5: Outcome)
    requires o1.result.Ok? && o2.result.Ok? && o3.result.Ok? && o4.result.Ok? && o5.result.Ok?
    ensures Guarded(true, DnfRepos, o1, Guarded(true, FlatpakRemotes, o2, Guarded(true, DnfPackages, o3,
              Guarded(true, FlatpakApps, o4, Guarded(true, PostInstall, o5, Outcome([], Ok))))))
      == Outcome(o1.trace + (o2.trace + (o3.trace + (o4.trace + o5.trace))), Ok)
  {
    assert o5.trace + [] == o5.trace;
  }

  /** On Debian the remote step comes first whenever it is selected, so a failure
      there ends the run with only the remote step's commands issued. */
  lemma DebianRemoteFailureAborts(env: Env, cfg: Config, f: DebianFlags)
    requires f.onlyFlatpak || DebianInstallAll(f)
    requires Flatpak.RemotesOutcome(env, EffectiveRemotes(cfg)).result.Err?
    ensures var remotes := Flatpak.RemotesOutcome(env, EffectiveRemotes(cfg));
      DebianOutcome(env, Some(cfg), f) == Outcome(remotes.trace, Err(StepFailed(FlatpakRemotes, remotes.result.error)))
  {
    var runs := Runs(env, cfg, DebianSteps(f));
    assert runs[0].step == FlatpakRemotes;
    SequenceAbort(runs, 0);
    assert runs[..1][1..] == [];
  }

  /** On Fedora a failing remote step ends the run once the repository step, if
      selected, has succeeded: no DNF package or Flatpak app install follows. */
  lemma FedoraRemoteFailureAborts(env: Env, cfg: Config, f: FedoraFlags)
    requires f.repositories || f.onlyFlatpak || FedoraInstallAll(f)
    requires DnfRepos in FedoraSteps(f) ==> Dnf.DnfReposOutcome(env, cfg.repositories).result.Ok?
    requires Flatpak.RemotesOutcome(env, EffectiveRemotes(cfg)).result.Err?
    ensures var remotes := Flatpak.RemotesOutcome(env, EffectiveRemotes(cfg));
      var repos := if DnfRepos in FedoraSteps(f) then Dnf.DnfReposOutcome(env, cfg.repositories).trace else [];
      FedoraOutcome(env, Some(cfg), f)
        == Outcome(repos + remotes.trace, Err(StepFailed(FlatpakRemotes, remotes.result.error)))
  {
    FedoraStages(env, cfg, f);
    FedoraSelection(f);
  }
}
