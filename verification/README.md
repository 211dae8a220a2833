# k3s-deploy-cli node discovery and reconciliation, in Dafny

This project models the engine of `K3sDeploymentManager`, the class that
drives a K3s cluster built from Proxmox VMs. It also models the decision
logic that engine relies on in the Proxmox wrapper module, the
`VMIdentifier` record and the tool's exception classes.

- **Registry** (`registry.dfy`, `models.dfy`). A `VMIdentifier` is known by
  its identity `(proxmox_node, vmid)` alone. `_populate_node_lists` sorts
  `servers`, `agents`, `storage` and `all_nodes` by identity. It then elects
  the first server as `server_master` and the rest as `servers_no_first`.
  `list(set(...))` is modelled as a first-arrival deduplication. A lemma
  shows that the order in which a Python set yields its elements cannot
  change the sorted result.
- **Discovery** (`file_discovery.dfy`, `tag_discovery.dfy`, `discovery.dfy`).
  - The file path reads already-decoded `config.json` data into role lists.
  - The tag path lists the cluster's hosts, then the VMs on each host, then
    each VM's configuration. It reads the `;`-separated tag string and files
    the VM under every role whose tag it carries.
  - `ensure_nodes_are_discovered` decides which of the two paths is used.
- **Power reconciler** (`power.dfy`). `perform_vm_action` reads each VM's
  status and sends at most one control request per VM.
- **Configuration reconciler** (`configure.dfy`). `configure_vms` has four
  parts:
  - a positional IPv4 cursor over the nodes sorted by identity, with
    addresses as naturals below 2^32 (`ipv4.dfy`);
  - the target `ipconfig` text;
  - the field-by-field idempotency check;
  - the update request, then either the restart step or the reminder list.
- **Proxmox wrapper** (`proxmox_api.dfy`). It covers:
  - `control_vm`'s action check and its mapping of "stop" to "shutdown";
  - the parameter map of `set_vm_network_config`;
  - the filtering and sorting of the host and VM-id lists;
  - the credential choice of `get_proxmox_client`.
- **Errors** (`errors.dfy`). The exception hierarchy with Python's
  `isinstance`, and `PveshCommandError.__str__`.
- **Python built-ins** (`text.dfy`, `ordering.dfy`). The core's use of
  `str.strip`, `str.split`, `str.join`, `int()`, `str()`, `upper`/`lower`
  and `sorted`, each stated with the property the core depends on.

## How the model is set up

The authenticated proxmoxer client is an oracle, the datatype
`ProxmoxApi.Client`. For every request path it holds the answer the cluster
would give: either a response or a `ResourceException`. Every request the
core sends is recorded as a `Call`, so contracts can say which requests went
out and in what order.

The settings of `config.py` are passed in as one value, `Settings.Settings`.
Its defaults are `Settings.Defaults`. Reading `config.json` and the SSH key
file is not modelled: their contents arrive as the datatypes
`FileDiscovery.ConfigFile` and `Configure.KeyFile`. Logging is a no-op.

The operations return values; nothing is mutated in place:

- a discovery returns the manager's lists as a `Registry.Registry`;
- `configure_vms` returns a report that holds:
  - each node's outcome;
  - the modified VMs;
  - the reminder list.

The two loops that the source writes as `for` statements with side effects,
the power loop of `perform_vm_action` (`Power.RunPowerLoop`) and the
configuration loop of `configure_vms` (`Configure.RunLoop`), are written
twice: as a method with loop invariants and as a recursive reference
function, tied together by the methods' `ensures`. The other iterations
(the host and VM scans, the role lists of `config.json`, the restart step)
are recursive functions only.

The model follows the code as written:

- A VM carrying several role tags joins every matching role list. It appears
  once in `all_nodes`.
- On the file path, an entry with an unknown role, a missing host id or a
  falsy vmid is skipped. An entry never carries an IP address.
- When the address range runs out, each remaining node is logged and
  skipped. Nothing is raised.
- A `control_vm` failure inside `perform_vm_action` is not caught, so it
  ends the loop.
- After configuring, the restart step passes `"restart"` to `control_vm`.
  `control_vm` rejects that action with `ValueError`, and the handler around
  it catches only `ProxmoxError`. So the first restart raises, before any
  request is sent (`Configure.RestartIsRejected`, `Configure.ConfigureNodes`).

## Model

| member | source | states |
|---|---|---|
| Errors.HandlerCoverage | src/k3s_deploy_cli/exceptions.py:4-33 | `except ProxmoxError` catches exactly ProxmoxError and PveshCommandError. `except K3sDeployError` catches every error of the tool but not ValueError. |
| Errors.Str | src/k3s_deploy_cli/exceptions.py:19-25 | `str(e)` starts with the message. For a pvesh error, a non-empty stdout follows as `\n  STDOUT: …`, then a non-empty stderr as `\n  STDERR: …`. With both empty, it is the message alone. |
| Models.EqualityIgnoresMetadata | src/k3s_deploy_cli/models.py:25-28 | Two records are equal iff host and vmid match. Changing name, address, tags, config or status never changes equality. |
| Models.HashRespectsEquality | src/k3s_deploy_cli/models.py:22-23 | Equal records hash equally, whatever the process's tuple hash is. |
| Models.Str | src/k3s_deploy_cli/models.py:19-20 | `node:vmid` when the name is None or empty; `node:vmid (name)` otherwise. |
| Models.StrParsesBack | src/k3s_deploy_cli/models.py:19-20 | For an unnamed record whose host has no `:`, `_parse_vm_location` recovers the identity from `str(vm)`. |
| Models.ParseVmLocation | src/k3s_deploy_cli/k3s_manager.py:38-50 | Without a `:` the result is ValueError. With one, the result is Ok exactly when `int()` accepts the text after the first `:`; the host is then the text before that `:` and the vmid is the integer the rest denotes. Every failure is ValueError. |
| Models.KeyLeIsTotalPreorder | src/k3s_deploy_cli/k3s_manager.py:55 | The `(proxmox_node, vmid)` tuple order is total and transitive, so sorting by it is well defined. |
| Models.KeyLeAntisymmetric | src/k3s_deploy_cli/k3s_manager.py:55 | Records ordered both ways by the sort key have the same identity. |
| Models.SortNodes | src/k3s_deploy_cli/k3s_manager.py:528 | The result is sorted by `(proxmox_node, vmid)` and is a permutation of the input. |
| Ordering.StrLeIsTotalPreorder | src/k3s_deploy_cli/proxmox_api.py:165-167 | Python's string `<=` is total and transitive. |
| Ordering.SortBy | src/k3s_deploy_cli/proxmox_api.py:192 | `sorted` returns a permutation of its input, ordered by the key. |
| Registry.Dedup | src/k3s_deploy_cli/k3s_manager.py:147-149 | `list(set(xs))`: no two entries are equal. It holds the same identities as `xs`, and every entry comes from `xs`. |
| Registry.SetOrderIrrelevant | src/k3s_deploy_cli/k3s_manager.py:246-249 | Any order in which the set yields the deduplicated records sorts to the same list, which holds no two equal entries. |
| Registry.PopulateNodeLists | src/k3s_deploy_cli/k3s_manager.py:52-77 | Each list is a sorted permutation of itself. `server_master` is `servers[0]` and `servers_no_first` is `servers[1:]`; with no servers they are None and []. |
| Registry.DedupThenSort | src/k3s_deploy_cli/k3s_manager.py:147-156 | Deduplicating and then sorting gives one entry per identity of the input, each taken from the input. |
| FileDiscovery.FileRole | src/k3s_deploy_cli/k3s_manager.py:127-142 | An entry's role is chosen by its upper-cased text, matched against the upper-cased tag or the literal role name. Server is checked first, then agent, then storage. Anything else selects no role. |
| FileDiscovery.FileRoleIgnoresCase | src/k3s_deploy_cli/k3s_manager.py:127 | Upper- or lower-casing an entry's role text never changes the role chosen. |
| FileDiscovery.FileRoleOfTag | src/k3s_deploy_cli/k3s_manager.py:135-142 | If the upper-cased tags do not collide, each role tag selects its own role. |
| FileDiscovery.HostRoleListMembers | src/k3s_deploy_cli/k3s_manager.py:122-142 | One host entry contributes a record to a role list iff one of its VM entries has a truthy host id, a truthy vmid and that role. |
| FileDiscovery.FileRoleListSound | src/k3s_deploy_cli/k3s_manager.py:121-142 | Every record in a file role list comes from an entry that declares it. |
| FileDiscovery.FileRoleListComplete | src/k3s_deploy_cli/k3s_manager.py:121-142 | Every entry that declares a node of a role puts its record in that role list. |
| FileDiscovery.FileRoleListMembers | src/k3s_deploy_cli/k3s_manager.py:121-142 | A record is in a file role list iff some host entry and VM entry declare it with that role. |
| FileDiscovery.FileRecordsAreBare | src/k3s_deploy_cli/k3s_manager.py:131 | A record read from the file has only an identity: no name, address, tags, config or status. |
| FileDiscovery.LoadNodesFromConfigFile | src/k3s_deploy_cli/k3s_manager.py:96-157 | A missing file returns False and leaves the lists unchanged. An I/O or JSON syntax error raises ConfigurationError. A file that is not UTF-8 raises the decoder's ValueError, which the handler does not catch. A parsed file replaces the lists with the file's, sorted, with `all_nodes` the deduplicated union of the role lists. |
| FileDiscovery.LoadYieldsNodes | src/k3s_deploy_cli/k3s_manager.py:144-149 | After a load, `all_nodes` is non-empty iff the file declares at least one node. |
| FileDiscovery.LoadMembers | src/k3s_deploy_cli/k3s_manager.py:113-149 | After a load, a record is in a role list iff some entry declares it with that role. Every node in `all_nodes` has only an identity. |
| ProxmoxApi.Present | src/k3s_deploy_cli/proxmox_api.py:166-167 | Keeps the entries that carry the field, each value as often as it occurs. |
| ProxmoxApi.GetClusterNodes | src/k3s_deploy_cli/proxmox_api.py:159-179 | Sends one `GET /nodes`. Returns the `node` fields, sorted ascending, with multiplicities kept; a ResourceException becomes ProxmoxError. |
| ProxmoxApi.GetVmsOnNode | src/k3s_deploy_cli/proxmox_api.py:182-209 | Sends one qemu listing. Returns the `vmid` fields, sorted ascending; a ResourceException yields [] and never an error. |
| ProxmoxApi.GetVmConfig | src/k3s_deploy_cli/proxmox_api.py:212-227 | Sends one config request. Returns the cluster's answer, or raises ProxmoxError. |
| ProxmoxApi.GetVmStatus | src/k3s_deploy_cli/proxmox_api.py:230-243 | Sends one status request. Returns the cluster's answer, or raises ProxmoxError. |
| ProxmoxApi.ControlVm | src/k3s_deploy_cli/proxmox_api.py:246-280 | An action outside {start, stop, shutdown, reboot} raises ValueError before any request. Otherwise exactly one post is sent: "stop" as "shutdown", any other action unchanged. Success iff the cluster accepts; failure is ProxmoxError. |
| ProxmoxApi.NetworkParams | src/k3s_deploy_cli/proxmox_api.py:307-319 | `ipconfig<index>` always holds the ipconfig value. `nameserver`, `searchdomain` and the quoted `sshkeys` are present iff their argument is non-empty. No other key appears. |
| ProxmoxApi.SetVmNetworkConfig | src/k3s_deploy_cli/proxmox_api.py:283-333 | Exactly one config PUT of exactly that parameter map. Success iff the cluster accepts; failure is ProxmoxError. |
| ProxmoxApi.SelectCredentials | src/k3s_deploy_cli/proxmox_api.py:42-102 | A missing host or user raises ConfigurationError. Token auth with user `user!tokenid` is chosen iff both token parts are set; otherwise password auth if a password is set; otherwise ConfigurationError. |
| TagDiscovery.KeepTagsMembers | src/k3s_deploy_cli/k3s_manager.py:197-198 | A tag is kept iff some piece strips to it and it is non-empty. |
| TagDiscovery.KeepTagsClean | src/k3s_deploy_cli/k3s_manager.py:197-198 | Every kept tag is non-empty and already stripped. |
| TagDiscovery.KeepTagsKeepsClean | src/k3s_deploy_cli/k3s_manager.py:197-198 | Pieces that are already stripped and non-empty are all kept, in order. |
| TagDiscovery.ParseTags | src/k3s_deploy_cli/k3s_manager.py:194-198 | Every tag read from the tag string is non-empty and stripped. |
| TagDiscovery.ParseTagsClean | src/k3s_deploy_cli/k3s_manager.py:194-198 | No tag read contains `;`. |
| TagDiscovery.ParseTagsMembers | src/k3s_deploy_cli/k3s_manager.py:194-198 | A tag is read iff some `;`-separated piece of the text strips to it and it is non-empty. |
| TagDiscovery.ParseTagsJoin | src/k3s_deploy_cli/k3s_manager.py:194-198 | Joining clean tags with `;` and reading them back gives the same tags, in order. |
| TagDiscovery.ScanVms | src/k3s_deploy_cli/k3s_manager.py:187-191 | Sends one config request per listed VM id, in order. |
| TagDiscovery.ScanVmsMembers | src/k3s_deploy_cli/k3s_manager.py:187-222 | A record is found on a host iff its vmid is listed, its config is readable and the config gives it a role tag. |
| TagDiscovery.VmsOnNodeMembers | src/k3s_deploy_cli/proxmox_api.py:187-195 | A vmid is returned for a host iff the host's listing answered and names it. |
| TagDiscovery.ScanHostsMembers | src/k3s_deploy_cli/k3s_manager.py:181-222 | A record is found iff its host is scanned, lists it, and its config gives it a role tag. Failing hosts and VMs contribute nothing. |
| TagDiscovery.ScanHostsListings | src/k3s_deploy_cli/k3s_manager.py:181-187 | The scan asks each host for its VMs exactly once, in the order of the host list. |
| TagDiscovery.ScanHostsRequests | src/k3s_deploy_cli/k3s_manager.py:181-222 | The scan sends only reads: VM listings, and configuration requests only for VMs a scanned host listed. |
| TagDiscovery.TaggedWith | src/k3s_deploy_cli/k3s_manager.py:212-242 | A found record goes to a role's list iff it carries that role's tag. |
| TagDiscovery.ClusterNodesMembers | src/k3s_deploy_cli/proxmox_api.py:165-167 | A host is scanned iff the cluster listing names it. |
| TagDiscovery.TaggedKeysOn | src/k3s_deploy_cli/k3s_manager.py:181-242 | Scanning hosts finds a record for `(n, v)` with a role tag iff `n` is scanned, lists `v`, and `v`'s config carries that tag. |
| TagDiscovery.FoundKeysOn | src/k3s_deploy_cli/k3s_manager.py:181-228 | Scanning hosts finds `(n, v)` iff `n` is scanned, lists `v`, and `v` carries at least one role tag. |
| TagDiscovery.TaggedKeys | src/k3s_deploy_cli/k3s_manager.py:171-242 | Over the cluster's hosts, `(n, v)` is found with a role's tag iff the cluster names `n`, `n` lists `v`, and `v` carries the tag. |
| TagDiscovery.FoundKeys | src/k3s_deploy_cli/k3s_manager.py:171-228 | Over the cluster's hosts, `(n, v)` is found iff it carries some role tag there. |
| TagDiscovery.DiscoverNodesByTags | src/k3s_deploy_cli/k3s_manager.py:159-259 | Lists the hosts first. Raises NodeDiscoveryError, with no further request, when the listing fails or is empty; otherwise succeeds. The resulting lists are sorted and the master is elected. |
| TagDiscovery.DiscoveryCalls | src/k3s_deploy_cli/k3s_manager.py:159-222 | After a successful host listing, the remaining requests list each listed host's VMs once, in sorted host order, and otherwise read only configurations of VMs those hosts listed. |
| TagDiscovery.DiscoveryMembers | src/k3s_deploy_cli/k3s_manager.py:159-249 | When the cluster names at least one host, so that discovery succeeds, a role list holds an identity iff it held it before or a VM carrying that role's tag declares it. `all_nodes` gains every VM carrying any role tag, so a multi-role VM is in every matching list. No list holds an identity twice. |
| Discovery.EnsureNodesAreDiscovered | src/k3s_deploy_cli/k3s_manager.py:260-291 | A no-op when nodes are held. Otherwise a `config.json` with an I/O or JSON syntax error raises ConfigurationError, one that is not UTF-8 raises ValueError, and a file that declares nodes wins; none of these sends a request. Tag discovery runs iff no nodes are held, `discover_if_empty` holds, and the file is absent or declares none; it then runs on the lists left by the file load, its requests are the only ones sent, and its result is returned when it found nodes. Success always leaves nodes. Given a constructed client, every failure apart from those two file errors is NodeDiscoveryError. |
| Discovery.EnsuredMembers | src/k3s_deploy_cli/k3s_manager.py:278-285 | When the search reaches the tags and succeeds, each role list and `all_nodes` hold an identity iff the lists left by the file load held it or some VM carries the matching role tag. |
| Power.PowerDecision | src/k3s_deploy_cli/k3s_manager.py:383-417 | `start` asks for "start" iff the status is not running. `stop` asks for "stop" iff not stopped. `restart` asks for "reboot" when running, else "start". Any other action asks for nothing. |
| Power.PowerRequest | src/k3s_deploy_cli/k3s_manager.py:383-404 | For start and stop, no request is sent iff the VM is already in the goal state; otherwise exactly one post of "start" or "shutdown". |
| Power.RestartRequest | src/k3s_deploy_cli/k3s_manager.py:405-415 | A restart always sends exactly one post: "reboot" for a running VM, "start" otherwise. |
| Power.PowerStep | src/k3s_deploy_cli/k3s_manager.py:369-417 | The status is fetched first; a failed fetch skips the VM, with no control request and no error. A second request goes out iff the lower-cased status (default "unknown") calls for one, and it posts the decided action to that VM: "start" for start, "shutdown" for stop, "reboot" or "start" for restart. A successful step returns that action; a step without a control request returns none. Only a control failure raises, and it is ProxmoxError. |
| Power.RunPowerLoop | src/k3s_deploy_cli/k3s_manager.py:369-417 | The loop equals the reference run: VMs in order, stopping at the first error. |
| Power.PowerRunStops | src/k3s_deploy_cli/k3s_manager.py:369-417 | Once a control request fails, no later VM is visited. |
| Power.PowerRunPosts | src/k3s_deploy_cli/k3s_manager.py:369-417 | Across a whole run, every control request directly follows a status read of the same VM and carries the action that VM's observed status calls for ("stop" sent as "shutdown"). |
| Power.PowerRunReachesAll | src/k3s_deploy_cli/k3s_manager.py:369-417 | A run that ends without error sent every VM whose status was read, and whose status calls for an action, that action's request. |
| Power.PerformVmAction | src/k3s_deploy_cli/k3s_manager.py:352-417 | Discovery errors propagate unchanged. Otherwise the requests are discovery's followed by the loop's. The call fails iff the loop does, with its error, and success leaves the lists unchanged. |
| Power.PowerRunErrors | src/k3s_deploy_cli/k3s_manager.py:369-417 | A run fails only with a ProxmoxError. |
| Power.PostsPerNode | src/k3s_deploy_cli/k3s_manager.py:369-417 | No VM gets more control requests than it has entries in the list. |
| Power.AtMostOneRequestPerNode | src/k3s_deploy_cli/k3s_manager.py:369-417 | Over a list with unique identities, each VM gets at most one control request. |
| Power.UnknownActionSendsNothing | src/k3s_deploy_cli/k3s_manager.py:416-417 | An unknown action sends no control request and never fails. |
| Configure.SshPublicKey | src/k3s_deploy_cli/k3s_manager.py:419-478 | The environment key is used when non-empty. Otherwise the `ssh_key` member of `config.json` is used whenever present, even null. Otherwise the stripped key file is used when non-empty. Otherwise None: an empty environment value is never returned. A `config.json` with an I/O or JSON error is passed over. Without an environment key, a `config.json` that is not UTF-8 raises ValueError; so does a key file that is not UTF-8 when `config.json` has no `ssh_key` member. |
| Configure.SshKeyPrecedence | src/k3s_deploy_cli/k3s_manager.py:429-478 | Earlier sources shadow later ones. With the environment key set, neither file matters; with an `ssh_key` member, the key file does not matter; otherwise a decodable `config.json` leaves the choice to the key file's stripped text. |
| Configure.TargetNamesAddress | src/k3s_deploy_cli/k3s_manager.py:566-570 | The target `ip=<addr>/<cidr>,gw=<gw>` names the cursor's address: the text between `ip=` and the first `/` parses back to it. |
| Configure.TargetsDiffer | src/k3s_deploy_cli/k3s_manager.py:566-570 | Different addresses give different target values. |
| Configure.UpToDateIffApplied | src/k3s_deploy_cli/k3s_manager.py:576-596 | Without `force`, a VM is up to date iff every parameter the update would send, except the SSH key, already holds that value in its config. |
| Configure.UpdateIsIdempotent | src/k3s_deploy_cli/k3s_manager.py:576-629 | Once an update has been applied to a config, the next check on it finds nothing to do. |
| Configure.ConfigureStep | src/k3s_deploy_cli/k3s_manager.py:530-650 | A node that takes an address takes the cursor's, and only within the range. The step's requests are exactly: the status, then the config when the record lacks the ipconfig slot, then the config PUT of the target settings iff the outcome is an update attempt. An up-to-date, out-of-range or skipped node gets no PUT. |
| Configure.StepSkips | src/k3s_deploy_cli/k3s_manager.py:542-564 | A node is skipped for its config iff the config had to be fetched and the fetch failed. Otherwise it takes an address iff the cursor is within the range, and an exhausted range means the cursor is past the end. |
| Configure.StepDiff | src/k3s_deploy_cli/k3s_manager.py:576-607 | Within the range, a node is left alone iff the idempotency check finds nothing to change in the config it read: the record's own, or the fetched one. |
| Configure.StepAttempts | src/k3s_deploy_cli/k3s_manager.py:582-629 | Within the range, an update is attempted iff the step's last request is the config PUT carrying the target ipconfig, the space-joined nameservers, the search domain and the SSH key. |
| Configure.StepUpdates | src/k3s_deploy_cli/k3s_manager.py:621-648 | An attempted update counts as a modification iff Proxmox accepts the PUT. |
| Configure.StepRunningAndForce | src/k3s_deploy_cli/k3s_manager.py:532-634 | A modified node counts as running iff its status fetch answered "running". With `force`, a node in range whose config was read is never left as up to date. |
| Configure.StepAt | src/k3s_deploy_cli/k3s_manager.py:556-566 | The loop body takes the cursor's address whenever it takes one, and never an address past the range end. |
| Configure.RunCursor | src/k3s_deploy_cli/k3s_manager.py:523-650 | After any prefix of nodes, the cursor is the range start plus the number of nodes that took an address. It moves after an up-to-date node and after every update attempt, but not after a failed fetch or past the range end. |
| Configure.RunPrefix | src/k3s_deploy_cli/k3s_manager.py:528-530 | Nodes are visited once, in sorted order. Each outcome is the step taken at the cursor the earlier nodes left. |
| Configure.CursorPosition | src/k3s_deploy_cli/k3s_manager.py:523-566 | The i-th node, if it takes an address, takes the range start plus the count of earlier nodes that took one. That address is never past the range end. |
| Configure.AddressesIncrease | src/k3s_deploy_cli/k3s_manager.py:523-650 | Within one run, assigned addresses rise strictly in node order and stay within the range, so no two nodes share one. |
| Configure.StepPuts | src/k3s_deploy_cli/k3s_manager.py:582-629 | One node sends exactly one update request, to itself, when its outcome is an update attempt, and none otherwise. |
| Configure.RunPuts | src/k3s_deploy_cli/k3s_manager.py:530-650 | Over any run of the loop, the update requests to a VM are exactly as many as its positions whose outcome is an update attempt. |
| Configure.ConfigurePuts | src/k3s_deploy_cli/k3s_manager.py:530-650 | In a run of `configure_vms` over distinct VMs, each VM receives one update request if its settings differed (or `force` was set) within the range, and none otherwise. |
| Configure.ConfigurePutsElsewhere | src/k3s_deploy_cli/k3s_manager.py:530-650 | No VM outside the run receives an update request. |
| Configure.PickMembers | src/k3s_deploy_cli/k3s_manager.py:630-634 | A node is in a bookkeeping list iff its outcome qualifies. |
| Configure.RunLoop | src/k3s_deploy_cli/k3s_manager.py:530-650 | The loop equals the reference run. The modified list holds exactly the nodes whose update returned, and the running list exactly those that were also running. |
| Configure.RestartAll | src/k3s_deploy_cli/k3s_manager.py:664-672 | The restart loop never ends in a ProxmoxError: those are logged and the loop goes on. |
| Configure.RestartIsRejected | src/k3s_deploy_cli/k3s_manager.py:664-672 | With at least one modified VM, the restart step raises ValueError on the first VM, before any request. |
| Configure.RestartAllValid | src/k3s_deploy_cli/k3s_manager.py:664-672 | With an action `control_vm` accepts, the loop sends one post per modified VM, in order, and never fails. |
| Configure.ConfigureNodes | src/k3s_deploy_cli/k3s_manager.py:528-674 | The requests are the loop's. The call fails, with ValueError, iff `restart_after` holds and some node was modified. Otherwise the report holds the outcomes, the modified nodes, and the reminder list. The reminder lists the modified running nodes, and is empty when restarting. |
| Configure.ConfigureVms | src/k3s_deploy_cli/k3s_manager.py:480-674 | Discovery errors propagate. Then the SSH key is resolved, and its ValueError propagates with no further request. A range bound that is not an IPv4 address raises ConfigurationError before any node request. Otherwise the result is that of configuring the nodes sorted by identity, from the range start. |
| Text.StripIdempotent | src/k3s_deploy_cli/k3s_manager.py:198 | Stripping twice is stripping once. |
| Text.JoinSplit | src/k3s_deploy_cli/k3s_manager.py:197 | Joining the pieces of a split with the separator gives the text back. |
| Text.SplitJoin | src/k3s_deploy_cli/k3s_manager.py:197 | Splitting a join of separator-free pieces gives the pieces back. |
| Text.IntRoundTrip | src/k3s_deploy_cli/k3s_manager.py:46 | `int(str(i)) == i` for every integer. |
| IPv4.Parse | src/k3s_deploy_cli/k3s_manager.py:515-521 | A parsed address is below 2^32. |
| IPv4.ParseFormat | src/k3s_deploy_cli/k3s_manager.py:515-521 | Only canonical dotted quads are accepted: a text that parses is exactly the printed form of the address it denotes (no leading zeros, signs or other characters). |
| IPv4.ParseIffFormat | src/k3s_deploy_cli/k3s_manager.py:515-521 | A range bound parses to an address iff it is that address's printed form. |
| IPv4.FormatParse | src/k3s_deploy_cli/k3s_manager.py:566 | Reading back a formatted address gives the address. |
| IPv4.FormatInjective | src/k3s_deploy_cli/k3s_manager.py:566 | Distinct addresses print differently. |

## Left out

- Reading files and decoding JSON are left out. `config.json` and the SSH key file arrive as one of a few cases: absent, failing with an I/O or JSON syntax error, not valid UTF-8 (with the decoder's message), or decoded. A decoded `config.json` has `id` as text, `vmid` as an integer and `role` as its text. Entries of other JSON types are not modelled.
- Proxmox connections are left out: client construction and caching, the version check, urllib3 warnings, and the connection errors `get_proxmox_client` wraps. Only the credential choice is kept (`ProxmoxApi.SelectCredentials`).
- `check_k3s_version` is left out: it makes HTTP requests and reads interactive input.
- `provision_k3s_cluster` is left out: it is a placeholder.
- The command-line layer, colour logging and the developer tools are left out. Every log call is a no-op.
- `urllib.parse.quote` is an opaque function parameter. Python's tuple hash is also a parameter.
- The `AttributeError` branch of `control_vm` is left out. It cannot fire for the four accepted actions, which are all attributes of the status endpoint.
- The `except ProxmoxError` around `get_vms_on_node` in tag discovery is left out, because that wrapper never raises. The model has no such branch.
- The `if not self.all_nodes` early returns of `perform_vm_action` and `configure_vms` are left out. They cannot be reached, because discovery either leaves nodes or raises.
- `str.upper` and `str.lower` are modelled on ASCII letters only, and `int()` on ASCII digits only. `str.strip` uses Python's full white-space set.
- Configure.ConfigureNodes: the report returns the registry unchanged. The source writes `status`, `config` and `name` onto the VM records while it visits them; these annotations are not carried back, since no later step of the same command reads them.
- Configure.ConfigureVms: has the same omission as `ConfigureNodes`.
- Power.PerformVmAction: the `status` it writes onto each record is not carried back, for the same reason.
- Configure.RestartIsRejected: states that the error is ValueError, not its message text. The message renders a Python set, and the order of its elements varies between runs.
- ProxmoxApi.ControlVm: its ValueError message shows the accepted actions in one fixed order; Python's set order may differ.
- Configure.StepAt: the ipconfig target is worked out only for cursors within the range. Past the end no request is sent, so the value is never used.
- Configure.UpToDateIffApplied: the idempotency check never compares the SSH key, so a changed key alone does not trigger an update. The lemma states exactly that, leaving `sshkeys` out of the comparison.
- The state the manager is left in after an operation raises is not modelled. The program stops at the error in every such case.
- Proxmox configuration values are taken as text (`VMIdentifier.config` maps keys to strings). JSON values of other types are not modelled, in particular a null `tags` value, on which `.split` would raise AttributeError.
