/**
  `ensure_nodes_are_discovered`: the precedence between the lists already
  held, `config.json` and tag discovery, and the error when none yields a
  node.
 */
module Discovery {
  import opened Wrappers
  import opened Errors
  import opened ProxmoxApi
  import opened Registry
  import opened Settings
  import opened FileDiscovery
  import opened TagDiscovery

  const NothingFoundMessage :=
    "Failed to discover any nodes via tags and config.json not found or empty. Aborting operation that requires nodes."

  /** `config.json` is present, readable and declares at least one node. */
  predicate FileYieldsNodes(s: Settings, file: ConfigFile) {
    file.Parsed? && |FileNodes(s, file.hosts)| > 0
  }

  /** The lists held once `config.json` has been consulted: the loaded lists, or `g` when the file is absent. */
  function AfterLoad(s: Settings, file: ConfigFile, g: Registry): Registry {
    match LoadNodesFromConfigFile(s, file, g)
    case Ok((_, h)) => h
    case Raise(_) => g
  }

  /**
    Returns at once when nodes are already held; otherwise loads the file,
    and only when the file is absent or yields no node and `discoverIfEmpty`
    holds, discovers by tags; `NodeDiscoveryError` when nothing was found.
   */
  function EnsureNodesAreDiscovered(c: Client, s: Settings, file: ConfigFile, discoverIfEmpty: bool, g: Registry): (r: Reply<Registry>)
    ensures |g.allNodes| > 0 ==> r == Reply(Ok(g), [])
    ensures r.result.Ok? ==> |r.result.value.allNodes| > 0
    ensures r.result.Raise? ==> r.result.error.ConfigurationError? || r.result.error.NodeDiscoveryError? || r.result.error.ValueError?
    ensures |g.allNodes| == 0 && file.Unreadable? ==> r.result.Raise? && r.result.error.ConfigurationError? && r.calls == []
    ensures |g.allNodes| == 0 && file.Undecodable? ==> r.result.Raise? && r.result.error.ValueError? && r.calls == []
    ensures |g.allNodes| == 0 && FileYieldsNodes(s, file) ==>
              r.calls == [] && r.result.Ok? && LoadedFrom(s, file.hosts, r.result.value)
    ensures r.calls != [] <==>
              |g.allNodes| == 0 && discoverIfEmpty && !file.Fails() && !FileYieldsNodes(s, file)
    ensures r.calls != [] ==> r.calls[0] == NodesGet
    ensures |g.allNodes| == 0 && !discoverIfEmpty && !FileYieldsNodes(s, file) ==> r.result.Raise?
    ensures r.result.Raise? && !file.Fails() ==> r.result.error.NodeDiscoveryError?
    ensures var d := DiscoverNodesByTags(c, s, AfterLoad(s, file, g));
            r.calls != [] ==>
              && r.calls == d.calls
              && (r.result.Ok? <==> d.result.Ok? && |d.result.value.allNodes| > 0)
              && (r.result.Ok? ==> r.result == d.result)
  {
    if |g.allNodes| > 0 then Reply(Ok(g), [])
    else
      match LoadNodesFromConfigFile(s, file, g)
      case Raise(e) => Reply(Raise(e), [])
      case Ok((loaded, h)) =>
        assert file.Parsed? ==> (|h.allNodes| > 0 <==> FileYieldsNodes(s, file)) by {
          if file.Parsed? {
            LoadYieldsNodes(s, file.hosts, h);
          }
        }
        if loaded && |h.allNodes| > 0 then Reply(Ok(h), [])
        else if discoverIfEmpty then
          var d := DiscoverNodesByTags(c, s, h);
          match d.result
          case Raise(_) => d
          case Ok(found) =>
            if |found.allNodes| > 0 then d
            else Reply(Raise(NodeDiscoveryError(NothingFoundMessage)), d.calls)
        else Reply(Raise(NodeDiscoveryError(NothingFoundMessage)), [])
  }

  /**
    When the search reaches the tags, the lists it returns hold exactly the
    identities held after the file load plus the tagged ones, as tag
    discovery promises.
   */
  lemma EnsuredMembers(c: Client, s: Settings, file: ConfigFile, g: Registry, q: Role, n: string, v: int)
    requires |g.allNodes| == 0 && !file.Unreadable? && !FileYieldsNodes(s, file)
    requires c.nodesGet.Response? && |Present(c.nodesGet.value)| > 0
    ensures var r := EnsureNodesAreDiscovered(c, s, file, true, g);
            r.result.Ok? ==>
              && ((n, v) in KeySet(Members(r.result.value, q)) <==>
                    (n, v) in KeySet(Members(AfterLoad(s, file, g), q)) || TagDeclares(c, s, n, v, s.Tag(q)))
              && ((n, v) in KeySet(r.result.value.allNodes) <==>
                    || (n, v) in KeySet(AfterLoad(s, file, g).allNodes)
                    || TagDeclares(c, s, n, v, s.serverTag)
                    || TagDeclares(c, s, n, v, s.agentTag)
                    || TagDeclares(c, s, n, v, s.storageTag))
  {
    DiscoveryMembers(c, s, AfterLoad(s, file, g), q, n, v);
  }
}
