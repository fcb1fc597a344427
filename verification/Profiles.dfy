/** The saved connection profile (guis/guis.go), secrets left out. */
module Profiles {
  datatype Profile = Profile(
    id: string,
    name: string,
    group: string,
    kind: string,
    host: string,
    port: int,
    username: string,
    workingDir: string,
    lastUsed: string,
    favorite: bool,
    description: string)

  const SSH := "ssh"
  const LOCAL := "local"
}
