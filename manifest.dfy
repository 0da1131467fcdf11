/** The declared state read from the YAML manifest. The loader itself (a YAML
    deserialiser) is not part of this model; only the shape of its result is. */
module Manifest {

  /** One entry of `flatpak_remotes`. */
  datatype Remote = Remote(name: string, url: string)

  /** The manifest: package lists for dnf and apt, Flatpak apps (optionally in
      `remote/app.id` form), Flatpak remotes, repository files or URLs and
      post-install shell scripts. A missing key is an empty list. */
  datatype Config = Config(
    dnf: seq<string>,
    apt: seq<string>,
    flatpak: seq<string>,
    flatpakRemotes: seq<Remote>,
    repositories: seq<string>,
    postInstall: seq<string>)
}
