/**
  `load_nodes_from_config_file`: node lists read from `config.json`. The
  file is taken already decoded; each host entry keeps its `id` and each VM
  entry its `vmid` and its `role` as text (`str(vm_info.get("role", ""))`).
 */
module FileDiscovery {
  import opened Wrappers
  import opened Text
  import opened Errors
  import opened Models
  import opened Registry
  import opened Settings

  /** One element of a host's `vms` array; `vmid` is None when the key is absent or null. */
  datatype VmEntry = VmEntry(vmid: Option<int>, role: string)

  /** One element of the `nodes` array. */
  datatype HostEntry = HostEntry(id: Option<string>, vms: seq<VmEntry>)

  /** Whether the decoded object has an `ssh_key` member, and its value (None for JSON null). */
  datatype SshKeyField = NoSshKeyField | SshKeyField(value: Option<string>)

  /**
    `config.json` as the program finds it: absent; failing with an I/O or
    JSON syntax error; not valid UTF-8, so that reading it raises
    `UnicodeDecodeError` (a `ValueError` no handler of the file catches),
    with the decoder's message; or decoded.
   */
  datatype ConfigFile =
    | Missing
    | Unreadable(reason: string)
    | Undecodable(reason: string)
    | Parsed(hosts: seq<HostEntry>, sshKey: SshKeyField)
  {
    /** Loading the file raises. */
    predicate Fails() {
      Unreadable? || Undecodable?
    }
  }

  /** The literal role names the file may use instead of the tags. */
  function RoleName(q: Role): string {
    match q
    case Server => "SERVER"
    case Agent => "AGENT"
    case Storage => "STORAGE"
  }

  /** The upper-cased role names role `q`, by its tag or by its literal name. */
  predicate Names(s: Settings, role: string, q: Role) {
    Upper(role) == Upper(s.Tag(q)) || Upper(role) == RoleName(q)
  }

  /** The role an entry's `role` text selects; the server test comes first, then agent, then storage. */
  function FileRole(s: Settings, role: string): (r: Option<Role>)
    ensures r.Some? ==> Names(s, role, r.value)
    ensures r.None? <==> !Names(s, role, Server) && !Names(s, role, Agent) && !Names(s, role, Storage)
    ensures r == Some(Agent) ==> !Names(s, role, Server)
    ensures r == Some(Storage) ==> !Names(s, role, Server) && !Names(s, role, Agent)
  {
    if Names(s, role, Server) then Some(Server)
    else if Names(s, role, Agent) then Some(Agent)
    else if Names(s, role, Storage) then Some(Storage)
    else None
  }

  /** Only the letters' case is ignored: upper- or lower-casing the entry changes nothing. */
  lemma FileRoleIgnoresCase(s: Settings, role: string)
    ensures FileRole(s, Upper(role)) == FileRole(s, role)
    ensures FileRole(s, Lower(role)) == FileRole(s, role)
  {
    assert Upper(Upper(role)) == Upper(role);
    assert Upper(Lower(role)) == Upper(role);
  }

  /** With tags whose upper-case forms do not collide, each tag selects its own role. */
  lemma FileRoleOfTag(s: Settings, q: Role)
    requires Upper(s.agentTag) != Upper(s.serverTag) && Upper(s.agentTag) != "SERVER"
    requires Upper(s.storageTag) !in {Upper(s.serverTag), "SERVER", Upper(s.agentTag), "AGENT"}
    ensures FileRole(s, s.Tag(q)) == Some(q)
  {
  }

  /** Entry `j` of a host with id `id` is a node of role `r`. */
  predicate HostDeclares(s: Settings, id: Option<string>, vms: seq<VmEntry>, j: int, r: Role) {
    && 0 <= j < |vms|
    && Truthy(id)
    && vms[j].vmid.Some? && vms[j].vmid.value != 0
    && FileRole(s, vms[j].role) == Some(r)
  }

  /** The nodes of role `r` one host entry declares, in file order, repeats kept. */
  function HostRoleList(s: Settings, id: Option<string>, vms: seq<VmEntry>, r: Role): seq<VMIdentifier>
  {
    if |vms| == 0 then []
    else
      (if HostDeclares(s, id, vms, 0, r) then [Bare(id.value, vms[0].vmid.value)] else [])
      + HostRoleList(s, id, vms[1..], r)
  }

  /** The nodes of role `r` the whole file declares, in file order, repeats kept. */
  function FileRoleList(s: Settings, hosts: seq<HostEntry>, r: Role): seq<VMIdentifier>
  {
    if |hosts| == 0 then []
    else HostRoleList(s, hosts[0].id, hosts[0].vms, r) + FileRoleList(s, hosts[1..], r)
  }

  /** VM entry `j` of host entry `i` declares a node of role `r`. */
  predicate Declares(s: Settings, hosts: seq<HostEntry>, i: int, j: int, r: Role) {
    0 <= i < |hosts| && HostDeclares(s, hosts[i].id, hosts[i].vms, j, r)
  }

  /** The record the program builds for entry `j` of host `i`: identity only. */
  function Declared(hosts: seq<HostEntry>, i: int, j: int): VMIdentifier
    requires 0 <= i < |hosts| && 0 <= j < |hosts[i].vms|
    requires hosts[i].id.Some? && hosts[i].vms[j].vmid.Some?
  {
    Bare(hosts[i].id.value, hosts[i].vms[j].vmid.value)
  }

  lemma {:induction false} HostRoleListMembers(s: Settings, id: Option<string>, vms: seq<VmEntry>, r: Role, x: VMIdentifier)
    ensures x in HostRoleList(s, id, vms, r) <==>
              exists j :: HostDeclares(s, id, vms, j, r) && x == Bare(id.value, vms[j].vmid.value)
    decreases |vms|
  {
    if |vms| > 0 {
      var head := if HostDeclares(s, id, vms, 0, r) then [Bare(id.value, vms[0].vmid.value)] else [];
      var tail := HostRoleList(s, id, vms[1..], r);
      assert HostRoleList(s, id, vms, r) == head + tail;
      HostRoleListMembers(s, id, vms[1..], r, x);
      if x in tail {
        var j :| HostDeclares(s, id, vms[1..], j, r) && x == Bare(id.value, vms[1..][j].vmid.value);
        assert HostDeclares(s, id, vms, j + 1, r);
      }
      if exists j :: HostDeclares(s, id, vms, j, r) && x == Bare(id.value, vms[j].vmid.value) {
        var j :| HostDeclares(s, id, vms, j, r) && x == Bare(id.value, vms[j].vmid.value);
        if j > 0 {
          assert HostDeclares(s, id, vms[1..], j - 1, r);
        }
      }
    }
  }

  /** Every record in the file's role list comes from an entry that declares it. */
  lemma {:induction false} FileRoleListSound(s: Settings, hosts: seq<HostEntry>, r: Role, x: VMIdentifier)
    requires x in FileRoleList(s, hosts, r)
    ensures exists i, j :: Declares(s, hosts, i, j, r) && x == Declared(hosts, i, j)
    decreases |hosts|
  {
    var head := HostRoleList(s, hosts[0].id, hosts[0].vms, r);
    var tail := FileRoleList(s, hosts[1..], r);
    if x in head {
      HostRoleListMembers(s, hosts[0].id, hosts[0].vms, r, x);
      var j :| HostDeclares(s, hosts[0].id, hosts[0].vms, j, r) && x == Bare(hosts[0].id.value, hosts[0].vms[j].vmid.value);
      assert Declares(s, hosts, 0, j, r) && x == Declared(hosts, 0, j);
    } else {
      FileRoleListSound(s, hosts[1..], r, x);
      var i, j :| Declares(s, hosts[1..], i, j, r) && x == Declared(hosts[1..], i, j);
      assert hosts[1..][i] == hosts[i + 1];
      assert Declares(s, hosts, i + 1, j, r) && x == Declared(hosts, i + 1, j);
    }
  }

  /** Every entry that declares a node of role `r` puts its record in the file's role list. */
  lemma {:induction false} FileRoleListComplete(s: Settings, hosts: seq<HostEntry>, r: Role, i: int, j: int)
    requires Declares(s, hosts, i, j, r)
    ensures Declared(hosts, i, j) in FileRoleList(s, hosts, r)
    decreases |hosts|
  {
    var x := Declared(hosts, i, j);
    if i == 0 {
      HostRoleListMembers(s, hosts[0].id, hosts[0].vms, r, x);
    } else {
      assert hosts[1..][i - 1] == hosts[i];
      assert Declares(s, hosts[1..], i - 1, j, r) && x == Declared(hosts[1..], i - 1, j);
      FileRoleListComplete(s, hosts[1..], r, i - 1, j);
    }
  }

  /** A record is in the file's role list exactly when some entry declares it. */
  lemma FileRoleListMembers(s: Settings, hosts: seq<HostEntry>, r: Role, x: VMIdentifier)
    ensures x in FileRoleList(s, hosts, r) <==>
              exists i, j :: Declares(s, hosts, i, j, r) && x == Declared(hosts, i, j)
  {
    if x in FileRoleList(s, hosts, r) {
      FileRoleListSound(s, hosts, r, x);
    }
    if exists i, j :: Declares(s, hosts, i, j, r) && x == Declared(hosts, i, j) {
      var i, j :| Declares(s, hosts, i, j, r) && x == Declared(hosts, i, j);
      FileRoleListComplete(s, hosts, r, i, j);
    }
  }

  /** Every node the file path yields carries its identity and nothing else. */
  lemma FileRecordsAreBare(s: Settings, hosts: seq<HostEntry>, r: Role, x: VMIdentifier)
    requires x in FileRoleList(s, hosts, r)
    ensures x == Bare(x.proxmoxNode, x.vmid)
    ensures x.ipAddress.None? && x.name.None? && x.config == map[] && x.tags == []
  {
    FileRoleListMembers(s, hosts, r, x);
  }

  /** The three role lists of the file, concatenated. */
  function FileNodes(s: Settings, hosts: seq<HostEntry>): seq<VMIdentifier> {
    FileRoleList(s, hosts, Server) + FileRoleList(s, hosts, Agent) + FileRoleList(s, hosts, Storage)
  }

  /** The lists the file path leaves, before `_populate_node_lists` sorts them. */
  function FileRegistry(s: Settings, hosts: seq<HostEntry>): Registry {
    Registry(
      FileRoleList(s, hosts, Server),
      FileRoleList(s, hosts, Agent),
      FileRoleList(s, hosts, Storage),
      Dedup(FileNodes(s, hosts)),
      None, [])
  }

  /** What a successful load leaves: the file's role lists, sorted, and their union with one record per identity. */
  predicate LoadedFrom(s: Settings, hosts: seq<HostEntry>, g: Registry) {
    && WellFormed(g)
    && multiset(g.servers) == multiset(FileRoleList(s, hosts, Server))
    && multiset(g.agents) == multiset(FileRoleList(s, hosts, Agent))
    && multiset(g.storage) == multiset(FileRoleList(s, hosts, Storage))
    && UniqueKeys(g.allNodes)
    && KeySet(g.allNodes) == KeySet(FileNodes(s, hosts))
    && (forall x :: x in g.allNodes ==> x in FileNodes(s, hosts))
  }

  lemma PopulatedFileIsLoaded(s: Settings, hosts: seq<HostEntry>)
    ensures LoadedFrom(s, hosts, PopulateNodeLists(FileRegistry(s, hosts)))
  {
    var f := FileRegistry(s, hosts);
    var p := PopulateNodeLists(f);
    DedupThenSort(FileNodes(s, hosts));
    assert p.allNodes == SortNodes(Dedup(FileNodes(s, hosts)));
  }

  const ConfigFileName := "config.json"

  /**
    `load_nodes_from_config_file`: false and nothing changed when the file is
    absent; `ConfigurationError` on an I/O or JSON syntax error; the
    decoder's `ValueError` when the file is not UTF-8; otherwise the lists
    are replaced by the file's and populated.
   */
  function LoadNodesFromConfigFile(s: Settings, file: ConfigFile, g: Registry): (r: Result<(bool, Registry)>)
    ensures file.Missing? ==> r == Ok((false, g))
    ensures r.Raise? <==> file.Fails()
    ensures file.Unreadable? ==> r.Raise? && r.error.ConfigurationError?
    ensures file.Undecodable? ==> r.Raise? && r.error.ValueError?
    ensures file.Parsed? ==> r.Ok? && r.value.0 && LoadedFrom(s, file.hosts, r.value.1)
  {
    match file
    case Missing => Ok((false, g))
    case Unreadable(reason) =>
      Raise(ConfigurationError("Failed to load or parse " + ConfigFileName + ": " + reason))
    case Undecodable(reason) => Raise(ValueError(reason))
    case Parsed(hosts, _) =>
      PopulatedFileIsLoaded(s, hosts);
      Ok((true, PopulateNodeLists(FileRegistry(s, hosts))))
  }

  /** The file path yields at least one node exactly when some entry declares one. */
  lemma LoadYieldsNodes(s: Settings, hosts: seq<HostEntry>, g: Registry)
    requires LoadedFrom(s, hosts, g)
    ensures |g.allNodes| > 0 <==> |FileNodes(s, hosts)| > 0
  {
    KeySetEmpty(g.allNodes);
    KeySetEmpty(FileNodes(s, hosts));
  }

  /**
    Which records a successful load leaves in each list: exactly those some
    entry declares, none of them with an address, a name or a configuration.
   */
  lemma LoadMembers(s: Settings, hosts: seq<HostEntry>, g: Registry, q: Role, x: VMIdentifier)
    requires LoadedFrom(s, hosts, g)
    ensures x in Members(g, q) <==> exists i, j :: Declares(s, hosts, i, j, q) && x == Declared(hosts, i, j)
    ensures x in g.allNodes ==> x == Bare(x.proxmoxNode, x.vmid)
  {
    assert multiset(Members(g, q)) == multiset(FileRoleList(s, hosts, q));
    assert x in Members(g, q) <==> x in multiset(FileRoleList(s, hosts, q));
    FileRoleListMembers(s, hosts, q, x);
    if x in g.allNodes {
      var u := FileNodes(s, hosts);
      assert x in u;
      if x in FileRoleList(s, hosts, Server) {
        FileRecordsAreBare(s, hosts, Server, x);
      } else if x in FileRoleList(s, hosts, Agent) {
        FileRecordsAreBare(s, hosts, Agent, x);
      } else {
        FileRecordsAreBare(s, hosts, Storage, x);
      }
    }
  }
}
