/**
  The decisions `proxmox_api.py` makes around each Proxmox request. The
  authenticated proxmoxer client is an oracle: for every request path it
  holds the answer the cluster would give (a response or a
  `ResourceException`), and every request the core reaches is recorded as a
  `Call` so that callers can state which requests were sent, in what order.
 */
module ProxmoxApi {
  import opened Wrappers
  import opened Text
  import opened Ordering
  import opened Errors

  /** What a proxmoxer request yields. */
  datatype ApiResult<+T> = Response(value: T) | ResourceException(content: string)

  /**
    The cluster as one command sees it. List responses keep, per entry, only
    the field the code reads (`None` when the entry lacks it).
   */
  datatype Client = Client(
    nodesGet: ApiResult<seq<Option<string>>>,
    qemuGet: string -> ApiResult<seq<Option<int>>>,
    configGet: (string, int) -> ApiResult<map<string, string>>,
    statusGet: (string, int) -> ApiResult<map<string, string>>,
    statusPost: (string, int, string) -> ApiResult<string>,
    configPut: (string, int, map<string, string>) -> ApiResult<string>)

  /** One request sent to the Proxmox API. */
  datatype Call =
    | NodesGet
    | QemuGet(node: string)
    | ConfigGet(node: string, vmid: int)
    | StatusGet(node: string, vmid: int)
    | StatusPost(node: string, vmid: int, action: string)
    | ConfigPut(node: string, vmid: int, params: map<string, string>)

  /** What a wrapper returned or raised, and the requests it sent. */
  datatype Reply<+T> = Reply(result: Result<T>, calls: seq<Call>)

  /** The entries that carry the field, in order, duplicates kept. */
  function Present<T(==,!new)>(entries: seq<Option<T>>): (r: seq<T>)
    ensures forall x :: multiset(r)[x] == multiset(entries)[Some(x)]
  {
    if |entries| == 0 then []
    else
      assert entries == [entries[0]] + entries[1..];
      (if entries[0].Some? then [entries[0].value] else []) + Present(entries[1..])
  }

  /**
    `get_proxmox_cluster_nodes`: the `node` fields of `GET /nodes`, sorted;
    a `ResourceException` becomes `ProxmoxError`.
   */
  function GetClusterNodes(c: Client): (r: Reply<seq<string>>)
    ensures r.calls == [NodesGet]
    ensures c.nodesGet.Response? <==> r.result.Ok?
    ensures r.result.Ok? ==> SortedBy(r.result.value, StrLe)
    ensures r.result.Ok? ==> forall x :: multiset(r.result.value)[x] == multiset(c.nodesGet.value)[Some(x)]
    ensures r.result.Raise? ==> r.result.error.ProxmoxError?
  {
    match c.nodesGet
    case Response(data) =>
      StrLeIsTotalPreorder();
      Reply(Ok(SortBy(Present(data), StrLe)), [NodesGet])
    case ResourceException(_) =>
      Reply(Raise(ProxmoxError("Could not fetch Proxmox cluster nodes.")), [NodesGet])
  }

  /**
    `get_vms_on_node`: the `vmid` fields of `GET /nodes/{node}/qemu`, sorted;
    a `ResourceException` yields no VMs rather than an error.
   */
  function GetVmsOnNode(c: Client, node: string): (r: Reply<seq<int>>)
    ensures r.calls == [QemuGet(node)]
    ensures r.result.Ok?
    ensures SortedBy(r.result.value, IntLe)
    ensures c.qemuGet(node).Response? ==>
              forall x :: multiset(r.result.value)[x] == multiset(c.qemuGet(node).value)[Some(x)]
    ensures c.qemuGet(node).ResourceException? ==> r.result.value == []
  {
    match c.qemuGet(node)
    case Response(data) =>
      assert IsTotalPreorder(IntLe);
      Reply(Ok(SortBy(Present(data), IntLe)), [QemuGet(node)])
    case ResourceException(_) =>
      Reply(Ok([]), [QemuGet(node)])
  }

  /** `get_vm_config`: the VM's configuration, or `ProxmoxError`. */
  function GetVmConfig(c: Client, node: string, vmid: int): (r: Reply<map<string, string>>)
    ensures r.calls == [ConfigGet(node, vmid)]
    ensures c.configGet(node, vmid).Response? ==> r.result == Ok(c.configGet(node, vmid).value)
    ensures c.configGet(node, vmid).ResourceException? ==> r.result.Raise? && r.result.error.ProxmoxError?
  {
    match c.configGet(node, vmid)
    case Response(data) => Reply(Ok(data), [ConfigGet(node, vmid)])
    case ResourceException(_) =>
      Reply(Raise(ProxmoxError("Could not fetch config for VM " + IntToString(vmid) + " on " + node + ".")),
            [ConfigGet(node, vmid)])
  }

  /** `get_vm_status`: the VM's current status record, or `ProxmoxError`. */
  function GetVmStatus(c: Client, node: string, vmid: int): (r: Reply<map<string, string>>)
    ensures r.calls == [StatusGet(node, vmid)]
    ensures c.statusGet(node, vmid).Response? ==> r.result == Ok(c.statusGet(node, vmid).value)
    ensures c.statusGet(node, vmid).ResourceException? ==> r.result.Raise? && r.result.error.ProxmoxError?
  {
    match c.statusGet(node, vmid)
    case Response(data) => Reply(Ok(data), [StatusGet(node, vmid)])
    case ResourceException(_) =>
      Reply(Raise(ProxmoxError("Could not fetch status for VM " + IntToString(vmid) + " on " + node + ".")),
            [StatusGet(node, vmid)])
  }

  /** The actions `control_vm` accepts. */
  const ValidActions: set<string> := {"start", "stop", "shutdown", "reboot"}

  /**
    `control_vm`: rejects an unknown action with `ValueError` before any
    request; otherwise posts it, "stop" as a graceful "shutdown"; a
    `ResourceException` becomes `ProxmoxError`.
   */
  function ControlVm(c: Client, node: string, vmid: int, action: string): (r: Reply<string>)
    ensures action !in ValidActions ==> r.calls == [] && r.result.Raise? && r.result.error.ValueError?
    ensures action in ValidActions ==>
              r.calls == [StatusPost(node, vmid, if action == "stop" then "shutdown" else action)]
    ensures action in ValidActions ==> r.calls[0].action in ValidActions - {"stop"}
    ensures action in ValidActions && r.result.Raise? ==> r.result.error.ProxmoxError?
    ensures r.result.Ok? <==> action in ValidActions && c.statusPost(node, vmid, r.calls[0].action).Response?
  {
    if action !in ValidActions then
      Reply(Raise(ValueError("Invalid VM action: " + action + ". Must be one of {'start', 'stop', 'shutdown', 'reboot'}")), [])
    else
      var apiAction := if action == "stop" then "shutdown" else action;
      match c.statusPost(node, vmid, apiAction)
      case Response(taskId) => Reply(Ok(taskId), [StatusPost(node, vmid, apiAction)])
      case ResourceException(_) =>
        Reply(Raise(ProxmoxError("Could not " + action + " VM " + IntToString(vmid) + " on " + node + ".")),
              [StatusPost(node, vmid, apiAction)])
  }

  /** The cloud-init slot key, `f"ipconfig{index}"`. */
  function IpconfigKey(index: int): (k: string)
    ensures |k| > 0 && k[0] == 'i'
  {
    "ipconfig" + IntToString(index)
  }

  /**
    The parameters `set_vm_network_config` sends: always the ipconfig slot;
    `nameserver`, `searchdomain` and the URL-quoted `sshkeys` only when given
    non-empty; nothing else. `quote` is `urllib.parse.quote`.
   */
  function NetworkParams(index: int, ipconfig: string, nameserver: Option<string>, searchdomain: Option<string>,
                         sshKey: Option<string>, quote: string -> string): (p: map<string, string>)
    ensures IpconfigKey(index) in p && p[IpconfigKey(index)] == ipconfig
    ensures "nameserver" in p <==> Truthy(nameserver)
    ensures "nameserver" in p ==> p["nameserver"] == nameserver.value
    ensures "searchdomain" in p <==> Truthy(searchdomain)
    ensures "searchdomain" in p ==> p["searchdomain"] == searchdomain.value
    ensures "sshkeys" in p <==> Truthy(sshKey)
    ensures "sshkeys" in p ==> p["sshkeys"] == quote(sshKey.value)
    ensures p.Keys <= {IpconfigKey(index), "nameserver", "searchdomain", "sshkeys"}
  {
    var key := IpconfigKey(index);
    var p := map[key := ipconfig];
    var p := if Truthy(nameserver) then p["nameserver" := nameserver.value] else p;
    var p := if Truthy(searchdomain) then p["searchdomain" := searchdomain.value] else p;
    if Truthy(sshKey) then p["sshkeys" := quote(sshKey.value)] else p
  }

  /** `set_vm_network_config`: one `PUT` of exactly `NetworkParams`; a `ResourceException` becomes `ProxmoxError`. */
  function SetVmNetworkConfig(c: Client, node: string, vmid: int, index: int, ipconfig: string,
                              nameserver: Option<string>, searchdomain: Option<string>,
                              sshKey: Option<string>, quote: string -> string): (r: Reply<string>)
    ensures |r.calls| == 1 && r.calls[0].ConfigPut? && r.calls[0].node == node && r.calls[0].vmid == vmid
    ensures r.calls[0].params == NetworkParams(index, ipconfig, nameserver, searchdomain, sshKey, quote)
    ensures r.result.Ok? <==> c.configPut(node, vmid, r.calls[0].params).Response?
    ensures r.result.Raise? ==> r.result.error.ProxmoxError?
  {
    var params := NetworkParams(index, ipconfig, nameserver, searchdomain, sshKey, quote);
    match c.configPut(node, vmid, params)
    case Response(result) => Reply(Ok(result), [ConfigPut(node, vmid, params)])
    case ResourceException(_) =>
      Reply(Raise(ProxmoxError("Could not set network config for VM " + IntToString(vmid) + ".")),
            [ConfigPut(node, vmid, params)])
  }

  /** How the client authenticates. */
  datatype Credentials =
    | TokenAuth(user: string, tokenValue: string)
    | PasswordAuth(user: string, password: string)

  const MissingHostOrUser := "Proxmox host (PROXMOX_HOST) and user (PROXMOX_USER) must be set in environment variables."
  const MissingSecret := "Either Proxmox password (PROXMOX_PASSWORD) or API token (PROXMOX_API_TOKEN_ID, PROXMOX_API_TOKEN_SECRET) must be set."

  /**
    The credential choice in `get_proxmox_client`: host and user are
    required; an API token (both id and secret) wins over a password, with
    user `user!tokenid`; with neither, `ConfigurationError`.
   */
  function SelectCredentials(host: Option<string>, user: Option<string>, password: Option<string>,
                             tokenId: Option<string>, tokenSecret: Option<string>): (r: Result<Credentials>)
    ensures r.Raise? ==> r.error.ConfigurationError?
    ensures r.Ok? <==> Truthy(host) && Truthy(user) && ((Truthy(tokenId) && Truthy(tokenSecret)) || Truthy(password))
    ensures r.Ok? && r.value.TokenAuth? <==> Truthy(host) && Truthy(user) && Truthy(tokenId) && Truthy(tokenSecret)
    ensures r.Ok? && r.value.TokenAuth? ==>
              r.value.user == user.value + "!" + tokenId.value && r.value.tokenValue == tokenSecret.value
    ensures r.Ok? && r.value.PasswordAuth? ==> r.value.user == user.value && r.value.password == password.value
  {
    if !Truthy(host) || !Truthy(user) then
      Raise(ConfigurationError(MissingHostOrUser))
    else if Truthy(tokenId) && Truthy(tokenSecret) then
      Ok(TokenAuth(user.value + "!" + tokenId.value, tokenSecret.value))
    else if Truthy(password) then
      Ok(PasswordAuth(user.value, password.value))
    else
      Raise(ConfigurationError(MissingSecret))
  }
}
