/**
  `perform_vm_action`: for every node, the observed power state decides
  whether one control request is sent. A status that cannot be read skips
  the node; a control request that fails ends the whole run.
 */
module Power {
  import opened Wrappers
  import opened Text
  import opened Errors
  import opened Models
  import opened ProxmoxApi
  import opened Registry
  import opened Settings
  import opened FileDiscovery
  import opened Discovery

  /** `status_data.get("status", "unknown").lower()`. */
  function ObservedStatus(data: map<string, string>): string {
    Lower(if "status" in data then data["status"] else "unknown")
  }

  /** The action handed to `control_vm` for a VM in `status`, if any. */
  function PowerDecision(action: string, status: string): (a: Option<string>)
    ensures a.Some? ==> a.value in ValidActions
    ensures action == "start" ==> (a.Some? <==> status != "running") && (a.Some? ==> a.value == "start")
    ensures action == "stop" ==> (a.Some? <==> status != "stopped") && (a.Some? ==> a.value == "stop")
    ensures action == "restart" ==> a == Some(if status == "running" then "reboot" else "start")
    ensures action !in {"start", "stop", "restart"} ==> a.None?
  {
    if action == "start" then
      if status == "running" then None else Some("start")
    else if action == "stop" then
      if status == "stopped" then None else Some("stop")
    else if action == "restart" then
      if status != "running" then Some("start") else Some("reboot")
    else None
  }

  /** The power state each command leaves a VM in. */
  function Goal(action: string): string {
    if action == "stop" then "stopped" else "running"
  }

  /**
    The request that reaches Proxmox: nothing exactly when the VM is already
    where `start` or `stop` would put it, and otherwise the request Proxmox
    understands for that goal ("stop" goes out as a graceful "shutdown").
   */
  lemma PowerRequest(action: string, status: string, c: Client, node: string, vmid: int)
    requires action in {"start", "stop"}
    ensures PowerDecision(action, status).None? <==> status == Goal(action)
    ensures PowerDecision(action, status).Some? ==>
              ControlVm(c, node, vmid, PowerDecision(action, status).value).calls
              == [StatusPost(node, vmid, if action == "stop" then "shutdown" else "start")]
  {
  }

  /** A restart reboots a running VM and starts any other; it always sends one request. */
  lemma RestartRequest(status: string, c: Client, node: string, vmid: int)
    ensures PowerDecision("restart", status).Some?
    ensures ControlVm(c, node, vmid, PowerDecision("restart", status).value).calls
              == [StatusPost(node, vmid, if status == "running" then "reboot" else "start")]
  {
  }

  /**
    One iteration: read the status (a failure skips the VM), decide, and
    send at most one control request, whose failure propagates.
   */
  function PowerStep(c: Client, vm: VMIdentifier, action: string): (r: Reply<Option<string>>)
    ensures 1 <= |r.calls| <= 2 && r.calls[0] == StatusGet(vm.proxmoxNode, vm.vmid)
    ensures c.statusGet(vm.proxmoxNode, vm.vmid).ResourceException? ==> r == Reply(Ok(None), r.calls) && |r.calls| == 1
    ensures |r.calls| == 2 <==>
              c.statusGet(vm.proxmoxNode, vm.vmid).Response?
              && PowerDecision(action, ObservedStatus(c.statusGet(vm.proxmoxNode, vm.vmid).value)).Some?
    ensures |r.calls| == 2 ==> r.calls[1].StatusPost? && r.calls[1].node == vm.proxmoxNode && r.calls[1].vmid == vm.vmid
    ensures r.result.Raise? ==> r.result.error.ProxmoxError? && |r.calls| == 2
    ensures |r.calls| == 2 ==>
              var a := PowerDecision(action, ObservedStatus(c.statusGet(vm.proxmoxNode, vm.vmid).value)).value;
              && r.calls[1] == StatusPost(vm.proxmoxNode, vm.vmid, if a == "stop" then "shutdown" else a)
              && (r.result.Ok? ==> r.result.value == Some(a))
    ensures |r.calls| == 1 ==> r.result == Ok(None)
  {
    var st := GetVmStatus(c, vm.proxmoxNode, vm.vmid);
    match st.result
    case Raise(_) => Reply(Ok(None), st.calls)
    case Ok(data) =>
      match PowerDecision(action, ObservedStatus(data))
      case None => Reply(Ok(None), st.calls)
      case Some(a) =>
        var ctl := ControlVm(c, vm.proxmoxNode, vm.vmid, a);
        match ctl.result
        case Raise(e) => Reply(Raise(e), st.calls + ctl.calls)
        case Ok(_) => Reply(Ok(Some(a)), st.calls + ctl.calls)
  }

  /** What reaches Proxmox for a VM in `status`: the decided action, with "stop" sent as "shutdown". */
  function WireAction(action: string, status: string): Option<string> {
    match PowerDecision(action, status)
    case None => None
    case Some(a) => Some(if a == "stop" then "shutdown" else a)
  }

  /**
    Every control request in `calls` directly follows a status read of the
    same VM and carries the action that VM's observed status calls for.
   */
  predicate PostsFollowStatus(c: Client, calls: seq<Call>, action: string) {
    forall j :: 0 <= j < |calls| && calls[j].StatusPost? ==>
      && j > 0 && calls[j - 1] == StatusGet(calls[j].node, calls[j].vmid)
      && c.statusGet(calls[j].node, calls[j].vmid).Response?
      && WireAction(action, ObservedStatus(c.statusGet(calls[j].node, calls[j].vmid).value)) == Some(calls[j].action)
  }

  /** One iteration's control request, if any, is the one its status read calls for. */
  lemma StepPostsFollowStatus(c: Client, vm: VMIdentifier, action: string)
    ensures PostsFollowStatus(c, PowerStep(c, vm, action).calls, action)
  {
  }

  lemma PostsFollowStatusConcat(c: Client, a: seq<Call>, b: seq<Call>, action: string)
    requires PostsFollowStatus(c, a, action) && PostsFollowStatus(c, b, action)
    ensures PostsFollowStatus(c, a + b, action)
  {
    var ab := a + b;
    forall j | 0 <= j < |ab| && ab[j].StatusPost?
      ensures j > 0 && ab[j - 1] == StatusGet(ab[j].node, ab[j].vmid)
    {
      if j >= |a| {
        assert b[j - |a|] == ab[j];
        assert ab[j - 1] == b[j - |a| - 1];
      } else {
        assert a[j] == ab[j];
        assert ab[j - 1] == a[j - 1];
      }
    }
  }

  /** The loop over `nodes` as a reference: iterations in order, stopping at the first error. */
  function PowerRun(c: Client, nodes: seq<VMIdentifier>, action: string): Reply<()>
    decreases |nodes|
  {
    if |nodes| == 0 then Reply(Ok(()), [])
    else
      var before := PowerRun(c, nodes[..|nodes| - 1], action);
      if before.result.Raise? then before
      else
        var step := PowerStep(c, nodes[|nodes| - 1], action);
        Reply(if step.result.Raise? then Raise(step.result.error) else Ok(()), before.calls + step.calls)
  }

  /** The loop of `perform_vm_action` over `nodes`, as the program runs it. */
  method RunPowerLoop(c: Client, nodes: seq<VMIdentifier>, action: string) returns (r: Reply<()>)
    ensures r == PowerRun(c, nodes, action)
  {
    var calls := [];
    var i := 0;
    while i < |nodes|
      invariant 0 <= i <= |nodes|
      invariant PowerRun(c, nodes[..i], action).result.Ok?
      invariant calls == PowerRun(c, nodes[..i], action).calls
    {
      var step := PowerStep(c, nodes[i], action);
      PowerRunNext(c, nodes, i, action);
      calls := calls + step.calls;
      if step.result.Raise? {
        PowerRunStops(c, nodes, i + 1, action);
        return Reply(Raise(step.result.error), calls);
      }
      i := i + 1;
    }
    assert nodes[..i] == nodes;
    return Reply(Ok(()), calls);
  }

  /** One more iteration after an error-free prefix. */
  lemma PowerRunNext(c: Client, nodes: seq<VMIdentifier>, i: nat, action: string)
    requires i < |nodes|
    requires PowerRun(c, nodes[..i], action).result.Ok?
    ensures var step := PowerStep(c, nodes[i], action);
            PowerRun(c, nodes[..i + 1], action)
            == Reply(if step.result.Raise? then Raise(step.result.error) else Ok(()),
                     PowerRun(c, nodes[..i], action).calls + step.calls)
  {
    assert nodes[..i + 1][..i] == nodes[..i];
  }

  /**
    Across a whole run, every control request follows a status read of its
    VM and sends what that status calls for: "start" to a VM that is not
    running on `start`, "shutdown" to one not stopped on `stop`, "reboot" to a
    running VM and "start" to any other on `restart`.
   */
  lemma {:induction false} PowerRunPosts(c: Client, nodes: seq<VMIdentifier>, action: string)
    ensures PostsFollowStatus(c, PowerRun(c, nodes, action).calls, action)
    decreases |nodes|
  {
    if |nodes| > 0 {
      var before := PowerRun(c, nodes[..|nodes| - 1], action);
      PowerRunPosts(c, nodes[..|nodes| - 1], action);
      if before.result.Ok? {
        StepPostsFollowStatus(c, nodes[|nodes| - 1], action);
        PostsFollowStatusConcat(c, before.calls, PowerStep(c, nodes[|nodes| - 1], action).calls, action);
      }
    }
  }

  /**
    A run that ends without error sent every VM whose status could be read
    the request its status calls for.
   */
  lemma {:induction false} PowerRunReachesAll(c: Client, nodes: seq<VMIdentifier>, action: string, i: nat)
    requires i < |nodes|
    requires PowerRun(c, nodes, action).result.Ok?
    requires c.statusGet(nodes[i].proxmoxNode, nodes[i].vmid).Response?
    requires WireAction(action, ObservedStatus(c.statusGet(nodes[i].proxmoxNode, nodes[i].vmid).value)).Some?
    ensures StatusPost(nodes[i].proxmoxNode, nodes[i].vmid,
                       WireAction(action, ObservedStatus(c.statusGet(nodes[i].proxmoxNode, nodes[i].vmid).value)).value)
            in PowerRun(c, nodes, action).calls
    decreases |nodes|
  {
    var before := PowerRun(c, nodes[..|nodes| - 1], action);
    var step := PowerStep(c, nodes[|nodes| - 1], action);
    assert PowerRun(c, nodes, action).calls == before.calls + step.calls;
    if i < |nodes| - 1 {
      var prefix := nodes[..|nodes| - 1];
      assert prefix[i] == nodes[i];
      PowerRunReachesAll(c, prefix, action, i);
    } else {
      assert step.calls[1] in step.calls;
    }
  }

  /** Once an iteration fails, the later nodes are never visited. */
  lemma {:induction false} PowerRunStops(c: Client, nodes: seq<VMIdentifier>, k: nat, action: string)
    requires k <= |nodes|
    requires PowerRun(c, nodes[..k], action).result.Raise?
    ensures PowerRun(c, nodes, action) == PowerRun(c, nodes[..k], action)
    decreases |nodes| - k
  {
    if k < |nodes| {
      var next := nodes[..k + 1];
      assert next[..|next| - 1] == nodes[..k];
      PowerRunStops(c, nodes, k + 1, action);
    } else {
      assert nodes[..k] == nodes;
    }
  }

  /**
    `perform_vm_action`: ensures nodes are known (its errors propagate), then
    runs the loop over `all_nodes`; the result carries the lists the manager
    holds afterwards.
   */
  method PerformVmAction(c: Client, s: Settings, file: ConfigFile, g: Registry, action: string) returns (r: Reply<Registry>)
    ensures var d := EnsureNodesAreDiscovered(c, s, file, true, g);
            d.result.Raise? ==> r == d
    ensures var d := EnsureNodesAreDiscovered(c, s, file, true, g);
            d.result.Ok? ==>
              var run := PowerRun(c, d.result.value.allNodes, action);
              && r.calls == d.calls + run.calls
              && (r.result.Ok? <==> run.result.Ok?)
              && (r.result.Ok? ==> r.result.value == d.result.value)
              && (r.result.Raise? ==> r.result.error == run.result.error)
  {
    var d := EnsureNodesAreDiscovered(c, s, file, true, g);
    if d.result.Raise? {
      return d;
    }
    var run := RunPowerLoop(c, d.result.value.allNodes, action);
    if run.result.Raise? {
      return Reply(Raise(run.result.error), d.calls + run.calls);
    }
    return Reply(Ok(d.result.value), d.calls + run.calls);
  }

  /** A run ends in an error only when a control request failed, and that error is a `ProxmoxError`. */
  lemma {:induction false} PowerRunErrors(c: Client, nodes: seq<VMIdentifier>, action: string)
    ensures PowerRun(c, nodes, action).result.Raise? ==> PowerRun(c, nodes, action).result.error.ProxmoxError?
    decreases |nodes|
  {
    if |nodes| > 0 {
      PowerRunErrors(c, nodes[..|nodes| - 1], action);
    }
  }

  /** The number of control requests to the VM `key` in a trace. */
  function PostsTo(calls: seq<Call>, key: (string, int)): nat {
    if |calls| == 0 then 0
    else
      var last := calls[|calls| - 1];
      PostsTo(calls[..|calls| - 1], key) + (if last.StatusPost? && (last.node, last.vmid) == key then 1 else 0)
  }

  lemma {:induction false} PostsToAppend(a: seq<Call>, b: seq<Call>, key: (string, int))
    ensures PostsTo(a + b, key) == PostsTo(a, key) + PostsTo(b, key)
    decreases |b|
  {
    if |b| > 0 {
      assert (a + b)[..|a + b| - 1] == a + b[..|b| - 1];
      assert (a + b)[|a + b| - 1] == b[|b| - 1];
      PostsToAppend(a, b[..|b| - 1], key);
    } else {
      assert a + b == a;
    }
  }

  /** How many of `nodes` have identity `key`. */
  function Occurrences(nodes: seq<VMIdentifier>, key: (string, int)): nat {
    if |nodes| == 0 then 0
    else Occurrences(nodes[..|nodes| - 1], key) + (if nodes[|nodes| - 1].Key() == key then 1 else 0)
  }

  /** A list with unique identities holds each identity at most once. */
  lemma {:induction false} UniqueOccurrences(nodes: seq<VMIdentifier>, key: (string, int))
    requires UniqueKeys(nodes)
    ensures Occurrences(nodes, key) <= 1
    ensures Occurrences(nodes, key) == 1 <==> key in KeySet(nodes)
    decreases |nodes|
  {
    if |nodes| > 0 {
      var init := nodes[..|nodes| - 1];
      UniqueOccurrences(init, key);
      assert nodes == init + [nodes[|nodes| - 1]];
      KeySetAppend(init, [nodes[|nodes| - 1]]);
    }
  }

  /** Every node gets at most as many control requests as it occurs in the list. */
  lemma {:induction false} PostsPerNode(c: Client, nodes: seq<VMIdentifier>, action: string, key: (string, int))
    ensures PostsTo(PowerRun(c, nodes, action).calls, key) <= Occurrences(nodes, key)
    decreases |nodes|
  {
    if |nodes| > 0 {
      var init := nodes[..|nodes| - 1];
      var before := PowerRun(c, init, action);
      PostsPerNode(c, init, action, key);
      if before.result.Ok? {
        var vm := nodes[|nodes| - 1];
        var step := PowerStep(c, vm, action);
        PostsToAppend(before.calls, step.calls, key);
        if |step.calls| == 2 {
          assert step.calls == [step.calls[0]] + [step.calls[1]];
          PostsToAppend([step.calls[0]], [step.calls[1]], key);
        }
        assert step.calls[..|step.calls| - 1][..0] == [];
      }
    }
  }

  /** Over nodes with unique identities, no VM receives more than one control request. */
  lemma AtMostOneRequestPerNode(c: Client, nodes: seq<VMIdentifier>, action: string, key: (string, int))
    requires UniqueKeys(nodes)
    ensures PostsTo(PowerRun(c, nodes, action).calls, key) <= 1
  {
    PostsPerNode(c, nodes, action, key);
    UniqueOccurrences(nodes, key);
  }

  /** An unknown command sends no control request at all and never fails. */
  lemma {:induction false} UnknownActionSendsNothing(c: Client, nodes: seq<VMIdentifier>, action: string, key: (string, int))
    requires action !in {"start", "stop", "restart"}
    ensures PowerRun(c, nodes, action).result.Ok?
    ensures PostsTo(PowerRun(c, nodes, action).calls, key) == 0
    decreases |nodes|
  {
    if |nodes| > 0 {
      var init := nodes[..|nodes| - 1];
      UnknownActionSendsNothing(c, init, action, key);
      var step := PowerStep(c, nodes[|nodes| - 1], action);
      PostsToAppend(PowerRun(c, init, action).calls, step.calls, key);
      assert step.calls == [StatusGet(nodes[|nodes| - 1].proxmoxNode, nodes[|nodes| - 1].vmid)];
    }
  }
}
