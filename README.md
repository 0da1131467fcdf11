# sysup: a Dafny model of its installers and step selection

sysup sets up a Fedora or Debian machine from a YAML manifest. The manifest
lists DNF or APT packages, DNF repository files, Flatpak remotes, Flatpak apps
and post-install shell scripts. `sysup install fedora` and
`sysup install debian` run the matching installers in a fixed order.

This project models the planning layer of sysup. The environment is an oracle
(`Shell.Env`), made of three parts:

- the programs `exec.LookPath` finds;
- the command lines that exit with an error;
- the text each command prints.

With the environment fixed, every installer is a pure function to an
`Outcome`. An `Outcome` holds the ordered trace of external commands issued
(a program plus its argument list) and a `Result`: `Ok`, or an `Error` with
one variant per error path of the source.

Where the source works by looping and returning early, a method does the same
step by step. Examples are `SetupDNFRepositories`, `SetupFlatpakRemotes`,
`SetupRepositories`, `RunScripts`, the app filter, the installed-set parser
and the two command Run bodies. Each such method is proved equal to its
specification function, and the lemmas state what the source promises about
that function:

- the convergence filter keeps a sub-sequence of the apps;
- "plugin install before any addrepo";
- "update before install";
- every loop stops at its first failure;
- step selection and order follow from the flags;
- a failing step aborts the run.

Modules:

- `Shell` holds the environment, commands, results, `Then` (an early return)
  and the stop-at-first-failure prefix.
- `Text` covers Go's `strings.Split`, `TrimSpace`, `HasSuffix` and
  `Contains`, and the "last `/`-segment" idiom.
- `Manifest` holds the manifest record.
- `Apt`, `Dnf`, `Flatpak` and `Installer` cover the four files of
  internal/installer.
- `Cli` covers cmd/fedora.go, cmd/debian.go and cmd/install.go.

## Model

| member | source | states |
|---|---|---|
| Shell.FirstFailure | internal/installer/dnf.go:45-50 | the index at which a stop-at-first-failure loop returns: every earlier command succeeds and the command there fails, or the loop runs through |
| Shell.Issued | internal/installer/installer.go:59-68 | the commands such a loop issues: a prefix of the planned commands, all successful except possibly the last, which failed; the whole list when nothing fails |
| Shell.FirstFailureAt | internal/installer/installer.go:59-66 | a successful prefix followed by a failing command pins down where the loop stops |
| Text.ContainsIff | internal/installer/installer.go:42 | `strings.Contains` holds exactly when the substring occurs at some index |
| Text.Contains | internal/installer/installer.go:42 | `strings.Contains`, scanning from the left; what it means is stated by `ContainsIff` |
| Text.HasSuffix | internal/installer/installer.go:30 | `strings.HasSuffix`; what it means is stated by `HasSuffixIff` |
| Text.HasSuffixIff | internal/installer/installer.go:30 | a string has a suffix exactly when it is some prefix followed by that suffix |
| Text.TrimSpace | internal/installer/flatpak.go:22 | the trimmed line neither starts nor ends with white space, is empty exactly when the line is all white space, and uses only the line's characters |
| Text.TrimSpaceSlice | internal/installer/flatpak.go:22 | the trimmed line is a slice of the line with nothing but white space before and after it; with the contract of `TrimSpace` this fixes the result uniquely |
| Text.TrimSpaceIdempotent | internal/installer/flatpak.go:22 | trimming a trimmed line changes nothing |
| Text.Split | internal/installer/flatpak.go:20 | `strings.Split` with a one-character separator gives at least one piece, and no piece holds the separator |
| Text.JoinSplit | internal/installer/flatpak.go:20 | joining the pieces of a split with the separator gives back the string |
| Text.SplitJoin | internal/installer/flatpak.go:86 | splitting the join of separator-free pieces gives back the pieces |
| Text.LastSegmentIsSuffix | internal/installer/flatpak.go:86-89 | the last segment is a suffix that holds no separator, is preceded by the separator when shorter than the string, and is the whole string when there is no separator |
| Text.LastSegmentOfSplit | internal/installer/installer.go:31-32 | `parts[len(parts)-1]` of a split is the text after the last separator |
| Apt.InstallAPT | internal/installer/apt.go:10-37 | an empty list is a no-op; a missing apt-get is an error with nothing issued; otherwise `sudo apt-get update` comes first; a failed update is the whole run, `[update]` with "failed to update apt"; a successful update is followed by exactly `sudo apt-get install -y` plus the packages in order, whose status is the result |
| Dnf.InstallDNF | internal/installer/dnf.go:55-74 | an empty list is a no-op; a missing dnf is an error with nothing issued; otherwise exactly one `sudo dnf install --skip-unavailable` carrying the packages in order, whose status is the result |
| Dnf.PluginBootstrap | internal/installer/dnf.go:15-22 | `rpm -q dnf-plugins-core` comes first; if it fails, the one DNF install of `dnf-plugins-core` follows, and its failure is reported wrapped; it never issues an addrepo |
| Dnf.DnfReposOutcome | internal/installer/dnf.go:10-53 | an empty repository list issues nothing and succeeds; otherwise the plugin check comes first |
| Dnf.SetupDNFRepositories | internal/installer/dnf.go:10-53 | the loop as written: the plugin bootstrap, then one addrepo per repository with no skip check, returning at the first failure; it equals `DnfReposOutcome` |
| Dnf.PluginInstallPrecedesAddRepo | internal/installer/dnf.go:15-22 | when the plugin check fails, exactly one plugin install is issued, right after the check and before every addrepo; if it fails, nothing else is issued and the error is the wrapped install failure |
| Dnf.PluginFailureStopsRepos | internal/installer/dnf.go:17-21 | a failed plugin bootstrap is the whole outcome, with no addrepo; with dnf missing that is the check alone and the wrapped "dnf command not found" |
| Dnf.AddRepoLoopStopsAtFirstFailure | internal/installer/dnf.go:24-51 | after a successful bootstrap, one addrepo per repository in declared order up to and including the first that fails; later repositories are never attempted, and the error names the failing one |
| Flatpak.InstalledSet | internal/installer/flatpak.go:19-27 | the installed set holds exactly the trimmed, non-empty lines of the probe output |
| Flatpak.InstalledSetFromLines | internal/installer/flatpak.go:19-27 | every member of the set is the trimmed text of an output line, so it is itself trimmed and holds no line break |
| Flatpak.GetInstalledFlatpaks | internal/installer/flatpak.go:12-28 | a failed probe gives no set; otherwise the line loop builds exactly `InstalledSet` of the output |
| Flatpak.AppId | internal/installer/flatpak.go:85-89 | the lookup id is the `/`-free suffix after the last `/`, or the whole string when it has no `/` |
| Flatpak.Pending | internal/installer/flatpak.go:82-96 | the apps the filter keeps, never more than declared; what it keeps is stated by `PendingIsSubsequence`, `PendingCount` and `PendingMember` |
| Flatpak.PendingIsSubsequence | internal/installer/flatpak.go:82-96 | the apps to install are a sub-sequence of the declared apps, in declared order |
| Flatpak.PendingCount | internal/installer/flatpak.go:82-96 | every copy of an app whose id is not installed is kept, as the original possibly `remote/`-prefixed string, and no copy of one whose id is installed |
| Flatpak.PendingMember | internal/installer/flatpak.go:91-95 | an app is kept if and only if it is declared and its id is not installed |
| Flatpak.PendingNothingInstalled | internal/installer/flatpak.go:76-80 | with nothing installed, every declared app is kept |
| Flatpak.PendingIdempotent | internal/installer/flatpak.go:82-96 | filtering the kept apps again removes nothing |
| Flatpak.PendingConverges | internal/installer/flatpak.go:82-101 | once the ids of the kept apps are installed, a second filter keeps nothing |
| Flatpak.PendingAllInstalled | internal/installer/flatpak.go:98-101 | when every declared id is installed, nothing is kept |
| Flatpak.EnsureFlatpakInstalled | internal/installer/flatpak.go:30-44 | nothing is issued when flatpak is on PATH; otherwise flatpak is installed via DNF when dnf exists (even beside apt-get), else via APT, else it is an error with nothing issued |
| Flatpak.RemotesOutcome | internal/installer/flatpak.go:46-65 | an empty remote list is a no-op; only sudo and flatpak run; no app install is issued |
| Flatpak.SetupFlatpakRemotes | internal/installer/flatpak.go:46-65 | the function as written: the empty-list return, the bootstrap with its early return, then the remote loop; it equals `RemotesOutcome` |
| Flatpak.AddRemotesLoop | internal/installer/flatpak.go:55-63 | the remote loop as written, a remote-add per remote returning at the first failure; it equals the loop specification `AddRemotes` |
| Flatpak.RemotesStopAtFirstFailure | internal/installer/flatpak.go:55-63 | one `flatpak remote-add --if-not-exists <name> <url>` per remote, in order, up to and including the first failure; later remotes are not attempted, and the error names the remote |
| Flatpak.InstallPending | internal/installer/flatpak.go:76-116 | the probe is issued first, and only flatpak runs |
| Flatpak.ProbedInstalled | internal/installer/flatpak.go:76-80 | the set the filter consults: empty when the probe fails, and never holding the empty string |
| Flatpak.AppsOutcome | internal/installer/flatpak.go:67-70 | an empty app list issues nothing and succeeds |
| Flatpak.InstallFlatpak | internal/installer/flatpak.go:67-117 | the function as written: bootstrap, probe, filter loop, then one batched install or none; it equals `AppsOutcome` |
| Flatpak.FilterApps | internal/installer/flatpak.go:82-96 | the filter loop keeps exactly `Pending` of the apps |
| Flatpak.AppsPlan | internal/installer/flatpak.go:98-116 | the kept list is a sub-sequence; if it is empty, no install is issued and the result is success; otherwise exactly one `flatpak install -y --or-update` carrying the kept apps follows the probe, and its status is the result |
| Flatpak.AppsBootstrapFailure | internal/installer/flatpak.go:72-74 | for a non-empty app list, a failed bootstrap is the whole outcome: its error, with no probe and no app install |
| Flatpak.AppsProbeFailureInstallsAll | internal/installer/flatpak.go:76-80 | a failed probe puts every declared app into the single install command |
| Flatpak.AppsAllInstalledIssuesNoInstall | internal/installer/flatpak.go:98-101 | with flatpak present and every app installed, the probe is the only command issued |
| Installer.ScriptsOutcome | internal/installer/installer.go:58-69 | only `sh` runs; the result is success exactly when every script succeeds (so on an empty list), and otherwise "script failed" |
| Installer.RunScripts | internal/installer/installer.go:58-69 | the loop as written, running `sh -c <script>` in order and returning at the first failure; it equals `ScriptsOutcome` |
| Installer.ScriptsStopAtFirstFailure | internal/installer/installer.go:59-66 | scripts run in declared order up to and including the first that fails; later scripts never run |
| Installer.ScriptsExample | internal/installer/installer.go:59-66 | a three-script manifest whose second script fails runs exactly the first two |
| Installer.RepoName | internal/installer/installer.go:29-33 | the name derivation; its shape is stated by `RepoNameShape` |
| Installer.RepoNameShape | internal/installer/installer.go:29-33 | for a `.repo` string, the name is its last `/`-segment, a `/`-free suffix that still ends in `.repo`; otherwise the whole string |
| Installer.AlreadyEnabled | internal/installer/installer.go:42 | the skip test: the listing contains the derived name or the whole repository string (see `ReposSkipIff`) |
| Installer.ReposLoop | internal/installer/installer.go:27-54 | the loop specification; its behaviour is stated by `ReposLoopPrograms`, `ReposLoopResult`, `ReposLoopFollowsPlan`, `ReposLoopSucceeds`, `ReposLoopStopsAtFailure` and `ReposSkipIff` |
| Installer.ReposLoopStopsAtFailure | internal/installer/installer.go:27-54 | the loop succeeds if and only if every repository the listing mentions in neither form is added successfully; every `addrepo` before the last command succeeded, so the loop stops at the first failing addition and never reaches the later repositories |
| Installer.ReposLoopPrograms | internal/installer/installer.go:27-54 | the loop runs only `dnf` (the listing) and `sudo` (the additions) |
| Installer.ReposLoopResult | internal/installer/installer.go:42-53 | the loop fails only on an addrepo for a listed repository that the listing mentioned in neither form; that failing addrepo is the last command |
| Installer.ReposLoopFollowsPlan | internal/installer/installer.go:27-54 | the loop issues a prefix of its plan (per repository in order, one `dnf repolist --enabled` and then its addrepo exactly when the listing mentions it in neither form), and the whole plan when it succeeds |
| Installer.ReposLoopSucceeds | internal/installer/installer.go:48-55 | when every addrepo the listing does not rule out succeeds, the loop succeeds |
| Installer.ReposOutcome | internal/installer/installer.go:12-56 | an empty list issues nothing and succeeds; otherwise the plugin check comes first |
| Installer.SetupRepositories | internal/installer/installer.go:12-56 | the function as written; it equals `ReposOutcome` |
| Installer.AddMissingRepos | internal/installer/installer.go:27-54 | the loop as written, re-deriving the name and re-reading the listing per repository; it equals the loop specification |
| Installer.ReposSkipIff | internal/installer/installer.go:42-45 | an addrepo is issued only for a repository whose listing mentions neither its derived name nor its full string; when the loop succeeds, every such repository was added |
| Installer.AddRepoNotInLoop | internal/installer/installer.go:27-54 | the loop adds only repositories of its own list |
| Installer.RepoListStatusIgnored | internal/installer/installer.go:38-39 | whether `dnf repolist --enabled` exits with an error changes nothing; only its text counts |
| Installer.ReposBootstrapFirst | internal/installer/installer.go:17-54 | the plugin check comes first; if the bootstrap fails, its error is the result, and no repository is listed or added; if it succeeds, the bootstrap's commands are followed by the repository loop's, whose result is the result |
| Cli.EffectiveRemotes | cmd/install.go:26-33 | the declared remotes unchanged and in order, or exactly `flathub` at `https://flathub.org/repo/flathub.flatpakrepo` when none are declared; never empty |
| Cli.SetupRemotes | cmd/install.go:26-37 | the substitution and then the remote setup; it equals `RemotesOutcome` of the effective remotes |
| Cli.RemoteStepAlwaysBootstraps | cmd/install.go:27-34 | since the list is never empty, the remote step always runs the flatpak bootstrap first and, if that succeeds, issues the first remote-add next |
| Cli.FedoraSelection | cmd/fedora.go:20-49 | run-everything mode holds exactly when no flag is set, and then all five steps run; `--repos` selects repositories and remotes, `--flatpak` remotes and apps, `--dnf` only packages; scripts run only in run-everything mode |
| Cli.FedoraOrdered | cmd/fedora.go:22-49 | selected steps follow the order repositories → remotes → packages → apps → scripts |
| Cli.DebianSelection | cmd/debian.go:20-43 | run-everything mode holds exactly when neither flag is set; `--apt` selects only APT, `--flatpak` remotes and apps; there is no repository step; scripts run only in run-everything mode |
| Cli.DebianOrdered | cmd/debian.go:23-43 | selected steps follow the order remotes → APT → apps → scripts |
| Cli.FedoraSteps | cmd/fedora.go:20-49 | the steps `install fedora` selects; selection and order are stated by `FedoraSelection`, `FedoraOrdered` and `FedoraCases` |
| Cli.DebianSteps | cmd/debian.go:20-43 | the steps `install debian` selects; stated by `DebianSelection`, `DebianOrdered` and `DebianCases` |
| Cli.RunStep | cmd/fedora.go:23-46 | the installer call behind each step; the script step runs only `sh`, and every other step only `rpm`, `sudo` and `flatpak` |
| Cli.SequenceFailure | cmd/fedora.go:22-49 | a failed run names one of its steps, and that step's own result was the error carried as the cause |
| Cli.SequenceAllOk | cmd/fedora.go:22-49 | when every step succeeds, the run issues every step's commands in step order |
| Cli.SequenceAbort | cmd/fedora.go:23-48 | a failing step ends the run: the earlier steps' commands and its own are issued, no later step runs, and the error names that step |
| Cli.FedoraOutcome | cmd/fedora.go:14-50 | what `install fedora` does; stated by `FedoraFailure`, `FedoraStages`, `FedoraFullRun`, `FedoraScriptsOnlyInInstallAll` and `FedoraRemoteFailureAborts` |
| Cli.DebianOutcome | cmd/debian.go:14-44 | what `install debian` does; stated by `DebianFailure`, `DebianStages`, `DebianScriptsOnlyInInstallAll` and `DebianRemoteFailureAborts` |
| Cli.FedoraFailure | cmd/fedora.go:15-49 | a manifest that does not load ends the run with no command; otherwise a failure names a selected step whose installer returned that error |
| Cli.DebianFailure | cmd/debian.go:15-43 | the same for `install debian` |
| Cli.FedoraStages | cmd/fedora.go:20-49 | the run is the five guarded stages, with the guards of the source, nested in source order |
| Cli.DebianStages | cmd/debian.go:20-43 | the run is the four guarded stages, with the guards of the source, nested in source order |
| Cli.RunFedora | cmd/fedora.go:14-50 | the Run body as written, with each `log.Fatalf` ending the run; it equals `FedoraOutcome` |
| Cli.RunDebian | cmd/debian.go:14-44 | the Run body as written; it equals `DebianOutcome` |
| Cli.FedoraScriptsOnlyInInstallAll | cmd/fedora.go:45-49 | outside run-everything mode, `install fedora` never runs a shell script |
| Cli.DebianScriptsOnlyInInstallAll | cmd/debian.go:39-43 | outside run-everything mode, `install debian` never runs a shell script |
| Cli.FedoraFullRun | cmd/fedora.go:20-49 | with no flag and every step succeeding, the run issues the commands of repositories, remotes, packages, apps and scripts, in that order, and succeeds |
| Cli.DebianRemoteFailureAborts | cmd/debian.go:23-25 | a selected remote step that fails ends the Debian run with only its own commands issued |
| Cli.FedoraRemoteFailureAborts | cmd/install.go:34-36 | whenever the remote step is selected and fails, and the repository step succeeded if it was selected, the Fedora run ends with the repository commands (if any) and the remote commands; no package or app install follows |

## Left out

- Process execution, stdout/stderr/stdin wiring, `sudo` prompting and the progress messages are not modelled. A command is an element of the trace, and its success and its output come from `Env`.
- `exec.LookPath` in `commandExists` is the oracle `Env.onPath`.
- The environment is static. A flatpak installed by the bootstrap is not seen by a later PATH check in the same run, and a remote added earlier does not change later command outcomes.
- YAML loading is not part of this model, and neither is internal/config/config.go. A manifest that fails to load is `None`. The `Config` struct there lacks the `APT` and `FlatpakRemotes` fields that cmd/debian.go and cmd/install.go read. `Manifest.Config` has both.
- Cobra wiring, flag registration, the default `config.yaml` path and cmd/root.go are not modelled. The package-level flag variables are the records `Cli.FedoraFlags` and `Cli.DebianFlags`.
- The older duplicates at internal/installer/installer.go:76-192 are not modelled. These are `InstallDNF`, `getInstalledFlatpaks`, `SetupFlatpakRemotes` and `InstallFlatpak`, which clash with the definitions in dnf.go and flatpak.go.
- The skip check commented out in internal/installer/dnf.go:25-42 is not modelled, because it is inactive code.
- Errors keep which error path was taken and the offending repository or remote. They drop Go's wrapped error text and exit status.
- `log.Fatalf` exiting the process is modelled as the run returning `Err(StepFailed(step, cause))` with no later step.
- Strings are sequences of Unicode characters, not UTF-8 bytes. `IsSpace` follows Go's `unicode.IsSpace`.
