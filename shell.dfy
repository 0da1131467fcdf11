/** The outside world as the installers see it. Running a process is replaced by
    an oracle: `Env` says which programs are on PATH, which command lines exit
    with a non-zero status (or cannot be launched), and what a command prints.
    Every external command an installer issues is recorded, in order, in the
    trace of its `Outcome`. */
module Shell {

  datatype Option<T> = None | Some(value: T)

  /** One external command: a program and its argument list. */
  datatype Cmd = Cmd(prog: string, args: seq<string>)

  datatype Env = Env(
    onPath: set<string>,         // programs that `exec.LookPath` finds
    failing: set<Cmd>,           // commands whose run returns an error
    stdout: map<Cmd, string>)    // text a command prints (absent: nothing)

  /** `commandExists` in internal/installer/installer.go: a PATH lookup, no command issued. */
  predicate CommandExists(env: Env, name: string) {
    name in env.onPath
  }

  /** Running `c` returns no error. */
  predicate Succeeds(env: Env, c: Cmd) {
    c !in env.failing
  }

  /** What `c` prints, whether or not it exits successfully. */
  function Output(env: Env, c: Cmd): string {
    if c in env.stdout then env.stdout[c] else ""
  }

  /** The step of the command-line run that failed (see the orchestrator). */
  datatype Step = DnfRepos | FlatpakRemotes | DnfPackages | AptPackages | FlatpakApps | PostInstall

  /** The error values the installers return, one per distinct error path. */
  datatype Error =
    | ToolNotFound(tool: string)          // "dnf command not found", "apt-get command not found"
    | NoFlatpakBackend                    // flatpak missing and neither dnf nor apt-get on PATH
    | CommandFailed(cmd: Cmd)             // the error of `cmd.Run()` returned unchanged
    | AptUpdateFailed                     // "failed to update apt"
    | PluginInstallFailed(cause: Error)   // "failed to install dnf-plugins-core"
    | RepoAddFailed(repo: string)         // "failed to add repository <repo>"
    | RemoteAddFailed(name: string)       // "failed to add flatpak remote <name>"
    | AppsInstallFailed                   // "failed to install flatpak apps"
    | ScriptFailed                        // "script failed"
    | ConfigLoadFailed                    // the manifest could not be loaded
    | StepFailed(step: Step, cause: Error) // a command-line step aborted the run

  datatype Result = Ok | Err(error: Error)

  /** What running an installer did: the commands it issued, in order, and its result. */
  datatype Outcome = Outcome(trace: seq<Cmd>, result: Result)

  /** Go's `if err := first(); err != nil { return err }; return next()`. */
  function Then(first: Outcome, next: Outcome): Outcome {
    if first.result.Err? then first else Outcome(first.trace + next.trace, next.result)
  }

  /** Every command of `trace` runs one of the programs `progs`. */
  predicate OnlyPrograms(trace: seq<Cmd>, progs: set<string>) {
    forall i :: 0 <= i < |trace| ==> trace[i].prog in progs
  }

  /** The index of the first command of `cmds` that fails, or `|cmds|` if none does. */
  function FirstFailure(env: Env, cmds: seq<Cmd>): (k: nat)
    ensures k <= |cmds|
    ensures forall i :: 0 <= i < k ==> Succeeds(env, cmds[i])
    ensures k < |cmds| ==> !Succeeds(env, cmds[k])
  {
    if cmds == [] || !Succeeds(env, cmds[0]) then 0 else 1 + FirstFailure(env, cmds[1..])
  }

  /** The commands a loop that stops at its first failing command issues: all of
      `cmds` when none fails, otherwise those up to and including the first failure. */
  function Issued(env: Env, cmds: seq<Cmd>): (r: seq<Cmd>)
    ensures |r| <= |cmds| && r == cmds[..|r|]
    ensures forall i :: 0 <= i < |r| - 1 ==> Succeeds(env, r[i])
    ensures r != cmds ==> r != [] && !Succeeds(env, r[|r| - 1])
    ensures (forall i :: 0 <= i < |cmds| ==> Succeeds(env, cmds[i])) ==> r == cmds
  {
    var k := FirstFailure(env, cmds);
    if k < |cmds| then
      assert !Succeeds(env, cmds[..k + 1][k]);
      cmds[..k + 1]
    else cmds
  }

  /** The first failure is unique: a prefix that succeeds followed by a failing
      command pins it down. */
  lemma FirstFailureAt(env: Env, cmds: seq<Cmd>, k: nat)
    requires k < |cmds| && !Succeeds(env, cmds[k])
    requires forall i :: 0 <= i < k ==> Succeeds(env, cmds[i])
    ensures FirstFailure(env, cmds) == k
  {
  }

  /** A loop over a prefix that has succeeded so far issues that prefix. */
  lemma IssuedAllSucceed(env: Env, cmds: seq<Cmd>)
    requires forall i :: 0 <= i < |cmds| ==> Succeeds(env, cmds[i])
    ensures Issued(env, cmds) == cmds
  {
  }

  /** The commands of a sequenced pair come from the programs of either part. */
  lemma OnlyProgramsThen(first: Outcome, next: Outcome, p: set<string>, q: set<string>)
    requires OnlyPrograms(first.trace, p) && OnlyPrograms(next.trace, q)
    ensures OnlyPrograms(Then(first, next).trace, p + q)
  {
  }
}
