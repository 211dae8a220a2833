/**
  The constants of `config.py` that the discovery and reconciliation logic
  reads. They come from the environment in the program; here they are one
  value passed to every operation that needs them.
 */
module Settings {
  import opened Wrappers

  /** The three K3s roles a VM can be given. */
  datatype Role = Server | Agent | Storage

  datatype Settings = Settings(
    serverTag: string,
    agentTag: string,
    storageTag: string,
    ipRangeStart: string,
    ipRangeEnd: string,
    cidr: string,
    gateway: string,
    dnsServers: seq<string>,
    searchDomain: Option<string>,
    ipconfigIndex: int,
    sshPublicKey: Option<string>)
  {
    /** `SERVER_TAG`, `AGENT_TAG` or `STORAGE_TAG`. */
    function Tag(r: Role): string {
      match r
      case Server => serverTag
      case Agent => agentTag
      case Storage => storageTag
    }
  }

  /** The values `config.py` ships with, with `K3S_SSH_PUBLIC_KEY` unset. */
  const Defaults: Settings := Settings(
    "k3s-server", "k3s-agent", "k3s-storage",
    "10.10.0.201", "10.10.0.229", "24", "10.10.0.1",
    ["10.10.0.1"], Some("lan.home.vwn.io"), 0,
    None)
}
