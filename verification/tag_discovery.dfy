/**
  `discover_nodes_by_tags`: node lists read from the Proxmox tags of every VM
  on every cluster host. A VM's `tags` configuration value is a
  `;`-separated list; a VM is a node when it carries one of the three role
  tags, and it joins every role list whose tag it carries.
 */
module TagDiscovery {
  import opened Wrappers
  import opened Text
  import opened Errors
  import opened Models
  import opened ProxmoxApi
  import opened Registry
  import opened Settings

  /** Strips every piece and keeps the non-empty results, in order. */
  function KeepTags(parts: seq<string>): (tags: seq<string>)
    ensures |tags| <= |parts|
  {
    if |parts| == 0 then []
    else
      var t := Strip(parts[0]);
      (if t != "" then [t] else []) + KeepTags(parts[1..])
  }

  /** Every tag kept is non-empty and already stripped. */
  lemma {:induction false} KeepTagsClean(parts: seq<string>)
    ensures forall i :: 0 <= i < |KeepTags(parts)| ==> KeepTags(parts)[i] != "" && Strip(KeepTags(parts)[i]) == KeepTags(parts)[i]
  {
    if |parts| > 0 {
      var t := Strip(parts[0]);
      StripIdempotent(parts[0]);
      KeepTagsClean(parts[1..]);
      var rest := KeepTags(parts[1..]);
      if t != "" {
        var tags := [t] + rest;
        assert KeepTags(parts) == tags;
        forall i | 0 <= i < |tags|
          ensures tags[i] != "" && Strip(tags[i]) == tags[i]
        {
          if i > 0 {
            assert tags[i] == rest[i - 1];
          }
        }
      } else {
        assert KeepTags(parts) == rest;
      }
    }
  }

  lemma {:induction false} KeepTagsMembers(parts: seq<string>, t: string)
    ensures t in KeepTags(parts) <==> t != "" && exists i :: 0 <= i < |parts| && Strip(parts[i]) == t
  {
    if |parts| > 0 {
      KeepTagsMembers(parts[1..], t);
      assert KeepTags(parts) == (if Strip(parts[0]) != "" then [Strip(parts[0])] else []) + KeepTags(parts[1..]);
      if exists i :: 0 <= i < |parts[1..]| && Strip(parts[1..][i]) == t {
        var i :| 0 <= i < |parts[1..]| && Strip(parts[1..][i]) == t;
        assert Strip(parts[i + 1]) == t;
      }
      if exists i :: 0 <= i < |parts| && Strip(parts[i]) == t {
        var i :| 0 <= i < |parts| && Strip(parts[i]) == t;
        if i > 0 {
          assert Strip(parts[1..][i - 1]) == t;
        }
      }
    }
  }

  /** Pieces that are already stripped and non-empty are all kept. */
  lemma {:induction false} KeepTagsKeepsClean(parts: seq<string>)
    requires forall i :: 0 <= i < |parts| ==> parts[i] != "" && Strip(parts[i]) == parts[i]
    ensures KeepTags(parts) == parts
  {
    if |parts| > 0 {
      KeepTagsKeepsClean(parts[1..]);
      assert parts == [parts[0]] + parts[1..];
    }
  }

  /** A stripped piece holds only characters of the piece. */
  lemma StripKeepsOut(p: string, c: char)
    requires c !in p
    ensures c !in Strip(p)
  {
    var o := StripOffset(p);
    var r := Strip(p);
    forall k | 0 <= k < |r|
      ensures r[k] != c
    {
      assert r[k] == p[o + k];
    }
  }

  /** `[tag.strip() for tag in text.split(";") if tag.strip()]`. */
  function ParseTags(text: string): (tags: seq<string>)
    ensures forall i :: 0 <= i < |tags| ==> tags[i] != "" && Strip(tags[i]) == tags[i]
  {
    KeepTagsClean(Split(text, ';'));
    KeepTags(Split(text, ';'))
  }

  /** No tag read contains the separator. */
  lemma {:induction false} ParseTagsClean(text: string)
    ensures forall i :: 0 <= i < |ParseTags(text)| ==> ';' !in ParseTags(text)[i]
  {
    var parts := Split(text, ';');
    var tags := ParseTags(text);
    forall i | 0 <= i < |tags|
      ensures ';' !in tags[i]
    {
      KeepTagsMembers(parts, tags[i]);
      var j :| 0 <= j < |parts| && Strip(parts[j]) == tags[i];
      StripKeepsOut(parts[j], ';');
    }
  }

  /** A tag is read exactly when some `;`-separated piece of the text strips to it and it is not empty. */
  lemma {:induction false} ParseTagsMembers(text: string, pieces: seq<string>, t: string)
    requires pieces == Split(text, ';')
    ensures t in ParseTags(text) <==> t != "" && exists i :: 0 <= i < |pieces| && Strip(pieces[i]) == t
  {
    KeepTagsMembers(pieces, t);
  }

  /** Writing clean tags joined by `;` and reading them back gives the same tags. */
  lemma {:induction false} ParseTagsJoin(tags: seq<string>)
    requires forall i :: 0 <= i < |tags| ==> tags[i] != "" && Strip(tags[i]) == tags[i] && ';' !in tags[i]
    ensures ParseTags(Join(tags, ";")) == tags
  {
    if |tags| > 0 {
      assert ";" == [';'];
      SplitJoin(tags, ';');
      KeepTagsKeepsClean(tags);
    } else {
      assert Split("", ';') == [""];
      assert Strip("") == "";
    }
  }

  /** `vm_config.get("tags", "")`. */
  function TagsText(cfg: map<string, string>): string {
    if "tags" in cfg then cfg["tags"] else ""
  }

  /** `vm_config.get("name")`. */
  function NameOf(cfg: map<string, string>): Option<string> {
    if "name" in cfg then Some(cfg["name"]) else None
  }

  /** The record built for a VM from its configuration. */
  function TagRecord(node: string, vmid: int, cfg: map<string, string>): VMIdentifier {
    VMIdentifier(node, vmid, NameOf(cfg), None, ParseTags(TagsText(cfg)), cfg, None)
  }

  /** The tags include at least one of the three role tags. */
  predicate HasRole(s: Settings, tags: seq<string>) {
    s.serverTag in tags || s.agentTag in tags || s.storageTag in tags
  }

  /** The nodes one configuration answer contributes: the VM's record when it has a role tag. */
  function Found(s: Settings, node: string, vmid: int, cfg: Result<map<string, string>>): seq<VMIdentifier> {
    match cfg
    case Raise(_) => []
    case Ok(cfg) =>
      var vm := TagRecord(node, vmid, cfg);
      if vm.tags == [] || !HasRole(s, vm.tags) then [] else [vm]
  }

  /** The records found so far and the requests sent. */
  datatype Scan = Scan(found: seq<VMIdentifier>, calls: seq<Call>)

  /** The inner loop: one configuration request per VM id, skipping VMs whose request fails. */
  function ScanVms(c: Client, s: Settings, node: string, vmids: seq<int>): (r: Scan)
    ensures |r.calls| == |vmids|
    ensures forall i :: 0 <= i < |vmids| ==> r.calls[i] == ConfigGet(node, vmids[i])
  {
    if |vmids| == 0 then Scan([], [])
    else
      var head := GetVmConfig(c, node, vmids[0]);
      var rest := ScanVms(c, s, node, vmids[1..]);
      Scan(Found(s, node, vmids[0], head.result) + rest.found, head.calls + rest.calls)
  }

  /** The VM's configuration is readable and makes its record a node. */
  predicate Reported(c: Client, s: Settings, x: VMIdentifier) {
    && c.configGet(x.proxmoxNode, x.vmid).Response?
    && x == TagRecord(x.proxmoxNode, x.vmid, c.configGet(x.proxmoxNode, x.vmid).value)
    && HasRole(s, x.tags)
  }

  /** One VM's configuration answer contributes `x` exactly when `x` is that VM's record and reports a role. */
  lemma FoundMembers(c: Client, s: Settings, node: string, vmid: int, x: VMIdentifier)
    ensures x in Found(s, node, vmid, GetVmConfig(c, node, vmid).result) <==>
              x.proxmoxNode == node && x.vmid == vmid && Reported(c, s, x)
  {
    if c.configGet(node, vmid).Response? {
      var y := TagRecord(node, vmid, c.configGet(node, vmid).value);
      assert y.proxmoxNode == node && y.vmid == vmid;
    }
  }

  lemma {:induction false} ScanVmsMembers(c: Client, s: Settings, node: string, vmids: seq<int>, x: VMIdentifier)
    ensures x in ScanVms(c, s, node, vmids).found <==>
              x.proxmoxNode == node && x.vmid in vmids && Reported(c, s, x)
  {
    if |vmids| > 0 {
      var head := GetVmConfig(c, node, vmids[0]);
      ScanVmsMembers(c, s, node, vmids[1..], x);
      assert vmids == [vmids[0]] + vmids[1..];
      FoundMembers(c, s, node, vmids[0], x);
    }
  }

  /** The host's VM listing answered and lists `vmid`. */
  predicate Listed(c: Client, node: string, vmid: int) {
    c.qemuGet(node).Response? && Some(vmid) in c.qemuGet(node).value
  }

  lemma VmsOnNodeMembers(c: Client, node: string, vmid: int)
    ensures vmid in GetVmsOnNode(c, node).result.value <==> Listed(c, node, vmid)
  {
    var r := GetVmsOnNode(c, node).result.value;
    if c.qemuGet(node).Response? {
      assert multiset(r)[vmid] == multiset(c.qemuGet(node).value)[Some(vmid)];
    }
  }

  /** The outer loop: every host's VM ids, then those VMs' configurations. */
  function ScanHosts(c: Client, s: Settings, hosts: seq<string>): (r: Scan)
  {
    if |hosts| == 0 then Scan([], [])
    else
      var listing := GetVmsOnNode(c, hosts[0]);
      var vms := ScanVms(c, s, hosts[0], listing.result.value);
      var rest := ScanHosts(c, s, hosts[1..]);
      Scan(vms.found + rest.found, listing.calls + vms.calls + rest.calls)
  }

  /** A record is found exactly when its host is scanned, lists it, and its configuration gives it a role. */
  lemma {:induction false} ScanHostsMembers(c: Client, s: Settings, hosts: seq<string>, x: VMIdentifier)
    ensures x in ScanHosts(c, s, hosts).found <==>
              x.proxmoxNode in hosts && Listed(c, x.proxmoxNode, x.vmid) && Reported(c, s, x)
  {
    if |hosts| > 0 {
      var listing := GetVmsOnNode(c, hosts[0]);
      ScanVmsMembers(c, s, hosts[0], listing.result.value, x);
      ScanHostsMembers(c, s, hosts[1..], x);
      VmsOnNodeMembers(c, hosts[0], x.vmid);
      assert hosts == [hosts[0]] + hosts[1..];
    }
  }

  /** The hosts whose VM listing a trace requests, in order. */
  function ListingsIn(calls: seq<Call>): seq<string> {
    if |calls| == 0 then []
    else (if calls[0].QemuGet? then [calls[0].node] else []) + ListingsIn(calls[1..])
  }

  lemma {:induction false} ListingsInConcat(a: seq<Call>, b: seq<Call>)
    ensures ListingsIn(a + b) == ListingsIn(a) + ListingsIn(b)
    decreases |a|
  {
    if |a| == 0 {
      assert a + b == b;
    } else {
      assert (a + b)[0] == a[0];
      assert (a + b)[1..] == a[1..] + b;
      ListingsInConcat(a[1..], b);
    }
  }

  lemma {:induction false} NoListings(calls: seq<Call>)
    requires forall k :: 0 <= k < |calls| ==> !calls[k].QemuGet?
    ensures ListingsIn(calls) == []
    decreases |calls|
  {
    if |calls| > 0 {
      NoListings(calls[1..]);
    }
  }

  /** A request scanning `hosts` may send: a VM listing, or the configuration of a VM a scanned host listed. */
  predicate ScanRequest(c: Client, hosts: seq<string>, call: Call) {
    call.QemuGet? || (call.ConfigGet? && call.node in hosts && Listed(c, call.node, call.vmid))
  }

  predicate ScanRequests(c: Client, hosts: seq<string>, calls: seq<Call>) {
    forall k :: 0 <= k < |calls| ==> ScanRequest(c, hosts, calls[k])
  }

  lemma ScanRequestsConcat(c: Client, hosts: seq<string>, a: seq<Call>, b: seq<Call>)
    requires ScanRequests(c, hosts, a) && ScanRequests(c, hosts, b)
    ensures ScanRequests(c, hosts, a + b)
  {
    forall k | 0 <= k < |a + b|
      ensures ScanRequest(c, hosts, (a + b)[k])
    {
      if k < |a| {
        assert (a + b)[k] == a[k];
      } else {
        assert (a + b)[k] == b[k - |a|];
      }
    }
  }

  /** The inner loop over a host's listing reads only configurations of VMs that host listed. */
  lemma ScanVmsRequests(c: Client, s: Settings, hosts: seq<string>, node: string)
    requires node in hosts
    ensures ScanRequests(c, hosts, ScanVms(c, s, node, GetVmsOnNode(c, node).result.value).calls)
  {
    var vmids := GetVmsOnNode(c, node).result.value;
    var calls := ScanVms(c, s, node, vmids).calls;
    forall k | 0 <= k < |calls|
      ensures ScanRequest(c, hosts, calls[k])
    {
      assert calls[k] == ConfigGet(node, vmids[k]);
      VmsOnNodeMembers(c, node, vmids[k]);
    }
  }

  lemma ScanRequestsWiden(c: Client, hosts: seq<string>, calls: seq<Call>)
    requires |hosts| > 0 && ScanRequests(c, hosts[1..], calls)
    ensures ScanRequests(c, hosts, calls)
  {
    forall k | 0 <= k < |calls|
      ensures ScanRequest(c, hosts, calls[k])
    {
      assert ScanRequest(c, hosts[1..], calls[k]);
      if calls[k].ConfigGet? {
        assert calls[k].node in hosts[1..];
      }
    }
  }

  /** One round of the outer loop: the host's listing, its VMs' configurations, then the remaining hosts. */
  lemma ScanHostsUnfold(c: Client, s: Settings, hosts: seq<string>)
    requires |hosts| > 0
    ensures ScanHosts(c, s, hosts).calls
            == [QemuGet(hosts[0])] + ScanVms(c, s, hosts[0], GetVmsOnNode(c, hosts[0]).result.value).calls
               + ScanHosts(c, s, hosts[1..]).calls
  {
  }

  lemma ListingsStep(h: string, mid: seq<Call>, rest: seq<Call>)
    requires ListingsIn(mid) == []
    ensures ListingsIn([QemuGet(h)] + mid + rest) == [h] + ListingsIn(rest)
  {
    ListingsInConcat([QemuGet(h)] + mid, rest);
    ListingsInConcat([QemuGet(h)], mid);
    assert ListingsIn([QemuGet(h)]) == [h] + ListingsIn([]);
  }

  /** Scanning asks each host for its VMs exactly once, in the hosts' order. */
  lemma {:induction false} ScanHostsListings(c: Client, s: Settings, hosts: seq<string>)
    ensures ListingsIn(ScanHosts(c, s, hosts).calls) == hosts
    decreases |hosts|
  {
    if |hosts| > 0 {
      var vms := ScanVms(c, s, hosts[0], GetVmsOnNode(c, hosts[0]).result.value).calls;
      var rest := ScanHosts(c, s, hosts[1..]).calls;
      ScanHostsUnfold(c, s, hosts);
      ScanHostsListings(c, s, hosts[1..]);
      NoListings(vms);
      ListingsStep(hosts[0], vms, rest);
      assert hosts == [hosts[0]] + hosts[1..];
    }
  }

  lemma RequestsStep(c: Client, hosts: seq<string>, mid: seq<Call>, rest: seq<Call>)
    requires |hosts| > 0
    requires ScanRequests(c, hosts, mid) && ScanRequests(c, hosts[1..], rest)
    ensures ScanRequests(c, hosts, [QemuGet(hosts[0])] + mid + rest)
  {
    ScanRequestsWiden(c, hosts, rest);
    assert ScanRequests(c, hosts, [QemuGet(hosts[0])]);
    ScanRequestsConcat(c, hosts, [QemuGet(hosts[0])], mid);
    ScanRequestsConcat(c, hosts, [QemuGet(hosts[0])] + mid, rest);
  }

  /** Scanning only reads, and asks for a configuration only of a VM a scanned host listed. */
  lemma {:induction false} ScanHostsRequests(c: Client, s: Settings, hosts: seq<string>)
    ensures ScanRequests(c, hosts, ScanHosts(c, s, hosts).calls)
    decreases |hosts|
  {
    if |hosts| > 0 {
      var vms := ScanVms(c, s, hosts[0], GetVmsOnNode(c, hosts[0]).result.value).calls;
      var rest := ScanHosts(c, s, hosts[1..]).calls;
      ScanHostsUnfold(c, s, hosts);
      ScanHostsRequests(c, s, hosts[1..]);
      ScanVmsRequests(c, s, hosts, hosts[0]);
      RequestsStep(c, hosts, vms, rest);
    }
  }

  /** The found records that carry `tag`, in order. */
  function TaggedWith(found: seq<VMIdentifier>, tag: string): (r: seq<VMIdentifier>)
    ensures forall x :: x in r <==> x in found && tag in x.tags
  {
    if |found| == 0 then []
    else
      assert found == [found[0]] + found[1..];
      (if tag in found[0].tags then [found[0]] else []) + TaggedWith(found[1..], tag)
  }

  /**
    The lists after the scan: each existing list with the new records
    appended (the role lists only with the records carrying their tag), then
    deduplicated; the master fields are left for `_populate_node_lists`.
   */
  function Merged(s: Settings, g: Registry, found: seq<VMIdentifier>): Registry {
    Registry(
      Dedup(g.servers + TaggedWith(found, s.serverTag)),
      Dedup(g.agents + TaggedWith(found, s.agentTag)),
      Dedup(g.storage + TaggedWith(found, s.storageTag)),
      Dedup(g.allNodes + found),
      g.serverMaster, g.serversNoFirst)
  }

  const NoHostsMessage := "No Proxmox host nodes found. Cannot discover VMs by tags."

  /**
    `discover_nodes_by_tags`: lists the cluster's hosts (a failure or an
    empty list raises `NodeDiscoveryError`), scans them, merges what it
    found into the existing lists and populates them.
   */
  function DiscoverNodesByTags(c: Client, s: Settings, g: Registry): (r: Reply<Registry>)
    ensures |r.calls| > 0 && r.calls[0] == NodesGet
    ensures r.result.Raise? ==> r.result.error.NodeDiscoveryError? && r.calls == [NodesGet]
    ensures c.nodesGet.ResourceException? ==> r.result.Raise?
    ensures c.nodesGet.Response? ==> (r.result.Ok? <==> |Present(c.nodesGet.value)| > 0)
    ensures r.result.Ok? ==> WellFormed(r.result.value)
  {
    var listed := GetClusterNodes(c);
    match listed.result
    case Raise(e) =>
      Reply(Raise(NodeDiscoveryError("Failed to get Proxmox host nodes: " + Errors.Str(e))), listed.calls)
    case Ok(hosts) =>
      if hosts == [] then
        assert |Present(c.nodesGet.value)| == |multiset(Present(c.nodesGet.value))| == |multiset(hosts)|;
        Reply(Raise(NodeDiscoveryError(NoHostsMessage)), listed.calls)
      else
        assert |Present(c.nodesGet.value)| == |multiset(Present(c.nodesGet.value))| == |multiset(hosts)|;
        var scan := ScanHosts(c, s, hosts);
        Reply(Ok(PopulateNodeLists(Merged(s, g, scan.found))), listed.calls + scan.calls)
  }

  /** Host `n` is scanned exactly when the cluster listing names it. */
  lemma ClusterNodesMembers(c: Client, n: string)
    requires c.nodesGet.Response?
    ensures n in GetClusterNodes(c).result.value <==> Some(n) in c.nodesGet.value
  {
    var hosts := GetClusterNodes(c).result.value;
    assert multiset(hosts)[n] == multiset(c.nodesGet.value)[Some(n)];
  }

  /**
    After the host listing, tag discovery asks each listed host for its VMs
    once, in sorted order, and otherwise reads only configurations of VMs
    those hosts listed.
   */
  lemma DiscoveryCalls(c: Client, s: Settings, g: Registry)
    ensures var r := DiscoverNodesByTags(c, s, g);
            var hosts := GetClusterNodes(c).result;
            r.result.Ok? ==>
              && hosts.Ok?
              && ListingsIn(r.calls[1..]) == hosts.value
              && ScanRequests(c, hosts.value, r.calls[1..])
  {
    var r := DiscoverNodesByTags(c, s, g);
    if r.result.Ok? {
      var hosts := GetClusterNodes(c).result.value;
      var scan := ScanHosts(c, s, hosts);
      assert r.calls == [NodesGet] + scan.calls;
      assert r.calls[1..] == scan.calls;
      ScanHostsListings(c, s, hosts);
      ScanHostsRequests(c, s, hosts);
    }
  }

  /** The cluster names host `n`, the host lists VM `v`, and the VM's configuration answers with `tag` among its tags. */
  predicate TagDeclares(c: Client, s: Settings, n: string, v: int, tag: string) {
    && c.nodesGet.Response? && Some(n) in c.nodesGet.value
    && Listed(c, n, v)
    && ConfigTagged(c, n, v, tag)
  }

  /** The configuration of VM `v` on host `n` answers with `tag` among its tags. */
  predicate ConfigTagged(c: Client, n: string, v: int, tag: string) {
    c.configGet(n, v).Response? && tag in ParseTags(TagsText(c.configGet(n, v).value))
  }

  /** Scanning `hosts` finds a record for `(n, v)` carrying the role tag `tag` exactly when `n` is scanned, lists `v` and tags it. */
  lemma TaggedKeysOn(c: Client, s: Settings, hosts: seq<string>, tag: string, n: string, v: int)
    requires tag == s.serverTag || tag == s.agentTag || tag == s.storageTag
    ensures (n, v) in KeySet(TaggedWith(ScanHosts(c, s, hosts).found, tag)) <==>
              n in hosts && Listed(c, n, v) && ConfigTagged(c, n, v, tag)
  {
    var tagged := TaggedWith(ScanHosts(c, s, hosts).found, tag);
    if (n, v) in KeySet(tagged) {
      var i :| 0 <= i < |tagged| && tagged[i].Key() == (n, v);
      ScanHostsMembers(c, s, hosts, tagged[i]);
    }
    if n in hosts && Listed(c, n, v) && ConfigTagged(c, n, v, tag) {
      var x := TagRecord(n, v, c.configGet(n, v).value);
      ScanHostsMembers(c, s, hosts, x);
      var i :| 0 <= i < |tagged| && tagged[i] == x;
      assert tagged[i].Key() == (n, v);
    }
  }

  /** Scanning `hosts` finds a record for `(n, v)` exactly when `n` is scanned, lists `v` and gives it some role tag. */
  lemma FoundKeysOn(c: Client, s: Settings, hosts: seq<string>, n: string, v: int)
    ensures (n, v) in KeySet(ScanHosts(c, s, hosts).found) <==>
              n in hosts && Listed(c, n, v)
              && (ConfigTagged(c, n, v, s.serverTag) || ConfigTagged(c, n, v, s.agentTag) || ConfigTagged(c, n, v, s.storageTag))
  {
    var found := ScanHosts(c, s, hosts).found;
    if (n, v) in KeySet(found) {
      var i :| 0 <= i < |found| && found[i].Key() == (n, v);
      ScanHostsMembers(c, s, hosts, found[i]);
    }
    if n in hosts && Listed(c, n, v)
       && (ConfigTagged(c, n, v, s.serverTag) || ConfigTagged(c, n, v, s.agentTag) || ConfigTagged(c, n, v, s.storageTag)) {
      var x := TagRecord(n, v, c.configGet(n, v).value);
      ScanHostsMembers(c, s, hosts, x);
      var i :| 0 <= i < |found| && found[i] == x;
      assert found[i].Key() == (n, v);
    }
  }

  lemma TaggedKeys(c: Client, s: Settings, q: Role, n: string, v: int)
    requires c.nodesGet.Response?
    ensures var found := ScanHosts(c, s, GetClusterNodes(c).result.value).found;
            (n, v) in KeySet(TaggedWith(found, s.Tag(q))) <==> TagDeclares(c, s, n, v, s.Tag(q))
  {
    ClusterNodesMembers(c, n);
    TaggedKeysOn(c, s, GetClusterNodes(c).result.value, s.Tag(q), n, v);
  }

  lemma FoundKeys(c: Client, s: Settings, n: string, v: int)
    requires c.nodesGet.Response?
    ensures var found := ScanHosts(c, s, GetClusterNodes(c).result.value).found;
            (n, v) in KeySet(found) <==>
              TagDeclares(c, s, n, v, s.serverTag) || TagDeclares(c, s, n, v, s.agentTag) || TagDeclares(c, s, n, v, s.storageTag)
  {
    ClusterNodesMembers(c, n);
    FoundKeysOn(c, s, GetClusterNodes(c).result.value, n, v);
  }

  /**
    Which VMs tag discovery leaves in each list when the cluster names at
    least one host (exactly when it succeeds): those already there and those
    whose tags name the list's role; `all_nodes` gains every
    VM carrying any role tag, a VM carrying several joins every matching list,
    and no list holds an identity twice.
   */
  lemma DiscoveryMembers(c: Client, s: Settings, g: Registry, q: Role, n: string, v: int)
    requires c.nodesGet.Response? && |Present(c.nodesGet.value)| > 0
    ensures var d := DiscoverNodesByTags(c, s, g).result.value;
            (n, v) in KeySet(Members(d, q)) <==> (n, v) in KeySet(Members(g, q)) || TagDeclares(c, s, n, v, s.Tag(q))
    ensures var d := DiscoverNodesByTags(c, s, g).result.value;
            (n, v) in KeySet(d.allNodes) <==>
              || (n, v) in KeySet(g.allNodes)
              || TagDeclares(c, s, n, v, s.serverTag)
              || TagDeclares(c, s, n, v, s.agentTag)
              || TagDeclares(c, s, n, v, s.storageTag)
    ensures var d := DiscoverNodesByTags(c, s, g).result.value;
            UniqueKeys(Members(d, q)) && UniqueKeys(d.allNodes)
  {
    var d := DiscoverNodesByTags(c, s, g).result.value;
    var hosts := GetClusterNodes(c).result.value;
    var found := ScanHosts(c, s, hosts).found;
    var m := Merged(s, g, found);
    assert d == PopulateNodeLists(m);
    var old_q := Members(g, q) + TaggedWith(found, s.Tag(q));
    assert Members(m, q) == Dedup(old_q);
    assert Members(d, q) == SortNodes(Dedup(old_q)) by {
      match q
      case Server =>
      case Agent =>
      case Storage =>
    }
    DedupThenSort(old_q);
    KeySetAppend(Members(g, q), TaggedWith(found, s.Tag(q)));
    TaggedKeys(c, s, q, n, v);
    assert d.allNodes == SortNodes(Dedup(g.allNodes + found));
    DedupThenSort(g.allNodes + found);
    KeySetAppend(g.allNodes, found);
    FoundKeys(c, s, n, v);
  }
}
