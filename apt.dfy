/** `InstallAPT` of internal/installer/apt.go. */
module Apt {
  import opened Shell

  /** `sudo apt-get update`. */
  const UpdateCmd := Cmd("sudo", ["apt-get", "update"])

  /** `sudo apt-get install -y <packages...>`, packages in declared order. */
  function InstallCmd(packages: seq<string>): Cmd {
    Cmd("sudo", ["apt-get", "install", "-y"] + packages)
  }

  /** An empty list is a no-op; a missing apt-get is an error before any command;
      otherwise the package index is refreshed first, a failed refresh stops
      everything, and the install command's own status is the result. */
  function InstallAPT(env: Env, packages: seq<string>): (o: Outcome)
    ensures packages == [] ==> o == Outcome([], Ok)
    ensures packages != [] && !CommandExists(env, "apt-get") ==> o == Outcome([], Err(ToolNotFound("apt-get")))
    ensures packages != [] && CommandExists(env, "apt-get") ==> o.trace != [] && o.trace[0] == UpdateCmd
    ensures packages != [] && CommandExists(env, "apt-get") && !Succeeds(env, UpdateCmd) ==>
      o == Outcome([UpdateCmd], Err(AptUpdateFailed))
    ensures packages != [] && CommandExists(env, "apt-get") && Succeeds(env, UpdateCmd) ==>
      && o.trace == [UpdateCmd, InstallCmd(packages)]
      && (o.result.Ok? <==> Succeeds(env, InstallCmd(packages)))
    ensures !Succeeds(env, UpdateCmd) ==> InstallCmd(packages) !in o.trace
    ensures InstallCmd(packages) in o.trace ==>
      && o.trace == [UpdateCmd, InstallCmd(packages)]
      && (o.result.Ok? <==> Succeeds(env, InstallCmd(packages)))
    ensures o.result.Ok? ==> packages == [] || o.trace == [UpdateCmd, InstallCmd(packages)]
    ensures OnlyPrograms(o.trace, {"sudo"})
  {
    if packages == [] then Outcome([], Ok)
    else if !CommandExists(env, "apt-get") then Outcome([], Err(ToolNotFound("apt-get")))
    else if !Succeeds(env, UpdateCmd) then Outcome([UpdateCmd], Err(AptUpdateFailed))
    else
      var install := InstallCmd(packages);
      Outcome([UpdateCmd, install], if Succeeds(env, install) then Ok else Err(CommandFailed(install)))
  }
}
