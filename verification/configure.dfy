/**
  `configure_vms`: gives every node, in identity order, the next address of
  the configured range through cloud-init, skipping nodes whose settings are
  already in place, and then either restarts the modified VMs or reminds the
  operator of the running ones.
 */
module Configure {
  import opened Wrappers
  import opened Text
  import opened Errors
  import opened Ordering
  import opened Models
  import opened ProxmoxApi
  import opened Registry
  import opened Settings
  import opened FileDiscovery
  import opened Discovery
  import opened Power
  import IPv4

  // ---------------------------------------------------------------------
  // The SSH key

  /**
    What `SSH_PUBLIC_KEY_PATH` holds: nothing, a file failing with an I/O
    error, a file that is not UTF-8 (its read raises `UnicodeDecodeError`,
    which `except IOError` does not catch), or text.
   */
  datatype KeyFile = KeyFileMissing | KeyFileUnreadable | KeyFileUndecodable(reason: string) | KeyFileText(text: string)

  /** `config.json` decodes and has an `ssh_key` member. */
  predicate HasKeyMember(file: ConfigFile) {
    file.Parsed? && file.sshKey.SshKeyField?
  }

  /**
    `_get_ssh_public_key`: the `K3S_SSH_PUBLIC_KEY` value when non-empty;
    else the `ssh_key` member of `config.json` whenever it is present, even
    when null or empty; else the stripped key file when that is non-empty;
    else None. A `config.json` that cannot be read or parsed is passed over,
    but one that is not UTF-8 raises, and so does such a key file.
   */
  function SshPublicKey(s: Settings, file: ConfigFile, keyFile: KeyFile): (k: Result<Option<string>>)
    ensures Truthy(s.sshPublicKey) ==> k == Ok(s.sshPublicKey)
    ensures !Truthy(s.sshPublicKey) && HasKeyMember(file) ==> k == Ok(file.sshKey.value)
    ensures k.Raise? <==>
              !Truthy(s.sshPublicKey) && (file.Undecodable? || (!HasKeyMember(file) && keyFile.KeyFileUndecodable?))
    ensures k.Raise? ==> k.error.ValueError?
    ensures k.Ok? && k.value.Some? ==>
              || (Truthy(s.sshPublicKey) && k.value == s.sshPublicKey)
              || (file.Parsed? && file.sshKey == SshKeyField(k.value))
              || (keyFile.KeyFileText? && k.value.value == Strip(keyFile.text) && k.value.value != "")
  {
    if Truthy(s.sshPublicKey) then Ok(s.sshPublicKey)
    else if HasKeyMember(file) then Ok(file.sshKey.value)
    else if file.Undecodable? then Raise(ValueError(file.reason))
    else
      match keyFile
      case KeyFileText(text) => if Strip(text) != "" then Ok(Some(Strip(text))) else Ok(None)
      case KeyFileUndecodable(reason) => Raise(ValueError(reason))
      case _ => Ok(None)
  }

  /**
    Earlier sources shadow later ones: with the variable set nothing on disk
    matters, and with an `ssh_key` member the key file does not matter.
   */
  lemma SshKeyPrecedence(s: Settings, file: ConfigFile, keyFile: KeyFile, file2: ConfigFile, keyFile2: KeyFile)
    ensures Truthy(s.sshPublicKey) ==> SshPublicKey(s, file, keyFile) == SshPublicKey(s, file2, keyFile2)
    ensures HasKeyMember(file) ==> SshPublicKey(s, file, keyFile) == SshPublicKey(s, file, keyFile2)
    ensures !Truthy(s.sshPublicKey) && !HasKeyMember(file) && !file.Undecodable? && keyFile.KeyFileText? ==>
              SshPublicKey(s, file, keyFile) == Ok(if Strip(keyFile.text) != "" then Some(Strip(keyFile.text)) else None)
  {
  }

  // ---------------------------------------------------------------------
  // Target settings and the idempotency diff

  /** `f"ip={address}/{K3S_NODE_CIDR},gw={K3S_NODE_GATEWAY}"`. */
  function TargetIpconfig(address: nat, cidr: string, gateway: string): string
    requires address < IPv4.AddressSpace
  {
    "ip=" + IPv4.Format(address) + "/" + cidr + ",gw=" + gateway
  }

  /** The address can be read back from the target: the text between `ip=` and the first `/`. */
  lemma TargetNamesAddress(address: nat, cidr: string, gateway: string)
    requires address < IPv4.AddressSpace
    ensures var t := TargetIpconfig(address, cidr, gateway);
            '/' in t && 3 <= IndexOf(t, '/') && IPv4.Parse(t[3..IndexOf(t, '/')]) == Some(address)
  {
    var f := IPv4.Format(address);
    var t := TargetIpconfig(address, cidr, gateway);
    IPv4.FormatChars(address);
    assert '/' !in "ip=" + f;
    assert t == ("ip=" + f) + ['/'] + (cidr + ",gw=" + gateway);
    FirstAfter("ip=" + f, '/', cidr + ",gw=" + gateway);
    assert t[3..3 + |f|] == f;
    IPv4.FormatParse(address);
  }

  /** Two nodes given different addresses are given different ipconfig values. */
  lemma TargetsDiffer(a: nat, b: nat, cidr: string, gateway: string)
    requires a < IPv4.AddressSpace && b < IPv4.AddressSpace && a != b
    ensures TargetIpconfig(a, cidr, gateway) != TargetIpconfig(b, cidr, gateway)
  {
    TargetNamesAddress(a, cidr, gateway);
    TargetNamesAddress(b, cidr, gateway);
  }

  /** `vm.config.get(key, "")`. */
  function Current(cfg: map<string, string>, key: string): string {
    if key in cfg then cfg[key] else ""
  }

  /** The idempotency check: whether the settings are sent. */
  predicate NeedsUpdate(force: bool, cfg: map<string, string>, key: string, target: string,
                        nameservers: string, searchDomain: Option<string>) {
    || force
    || Current(cfg, key) != target
    || (nameservers != "" && Current(cfg, "nameserver") != nameservers)
    || (Truthy(searchDomain) && Current(cfg, "searchdomain") != searchDomain.value)
  }

  /**
    Without `force`, the check skips a VM exactly when every parameter the
    update would send, other than the SSH key, already holds that value in
    the VM's configuration.
   */
  lemma UpToDateIffApplied(cfg: map<string, string>, index: int, target: string, nameservers: string,
                           searchDomain: Option<string>, quote: string -> string)
    requires target != ""
    ensures var wanted := NetworkParams(index, target, Some(nameservers), searchDomain, None, quote);
            !NeedsUpdate(false, cfg, IpconfigKey(index), target, nameservers, searchDomain) <==>
              forall k :: k in wanted ==> k in cfg && cfg[k] == wanted[k]
  {
    var wanted := NetworkParams(index, target, Some(nameservers), searchDomain, None, quote);
    var key := IpconfigKey(index);
    assert key != "nameserver" && key != "searchdomain" by {
      assert key[0] == 'i';
    }
  }

  /** Once an update has been applied, the next run finds nothing to do. */
  lemma UpdateIsIdempotent(cfg: map<string, string>, index: int, target: string, nameservers: string,
                           searchDomain: Option<string>, sshKey: Option<string>, quote: string -> string)
    requires target != ""
    ensures var applied := cfg + NetworkParams(index, target, Some(nameservers), searchDomain, sshKey, quote);
            !NeedsUpdate(false, applied, IpconfigKey(index), target, nameservers, searchDomain)
  {
    var sent := NetworkParams(index, target, Some(nameservers), searchDomain, sshKey, quote);
    var applied := cfg + sent;
    UpToDateIffApplied(applied, index, target, nameservers, searchDomain, quote);
  }

  // ---------------------------------------------------------------------
  // One node

  /** What happened to one node. */
  datatype NodeOutcome =
    | ConfigFetchFailed
    | RangeExhausted
    | UpToDate(address: nat)
    | Updated(address: nat, running: bool)
    | UpdateFailed(address: nat)

  /** The outcome took the cursor's address, so the cursor moves on. */
  predicate Consumes(o: NodeOutcome) {
    o.UpToDate? || o.Updated? || o.UpdateFailed?
  }

  /** The outcome comes from an update request sent for the node. */
  predicate Attempts(o: NodeOutcome) {
    o.Updated? || o.UpdateFailed?
  }

  datatype Step = Step(outcome: NodeOutcome, calls: seq<Call>)

  /** What stays fixed over one run of the loop: the SSH key, `force`, and how the key is quoted for the API. */
  datatype RunOptions = RunOptions(sshKey: Option<string>, force: bool, quote: string -> string)

  /** The configuration the check reads: the record's own, unless it is empty or lacks the ipconfig slot. */
  predicate MustFetch(vm: VMIdentifier, key: string) {
    vm.config == map[] || key !in vm.config
  }

  /** The parameters the loop body passes to `set_vm_network_config` for the ipconfig value `target`. */
  function Sent(s: Settings, o: RunOptions, target: string): map<string, string> {
    NetworkParams(s.ipconfigIndex, target, Some(Join(s.dnsServers, " ")), s.searchDomain, o.sshKey, o.quote)
  }

  /**
    One iteration of the loop: read the status ("unknown" when that fails),
    fetch the configuration when needed (a failure skips the node), stop at
    an exhausted range, compare with `target`, the ipconfig value for the
    cursor's address, and send the update when something differs.
   */
  function ConfigureStep(c: Client, s: Settings, o: RunOptions, vm: VMIdentifier, cursor: nat, last: nat,
                         target: string): (r: Step)
    ensures |r.calls| >= 1 && r.calls[0] == StatusGet(vm.proxmoxNode, vm.vmid)
    ensures Consumes(r.outcome) ==> r.outcome.address == cursor && cursor <= last
    ensures r.calls == [StatusGet(vm.proxmoxNode, vm.vmid)]
                       + (if MustFetch(vm, IpconfigKey(s.ipconfigIndex)) then [ConfigGet(vm.proxmoxNode, vm.vmid)] else [])
                       + (if Attempts(r.outcome) then [ConfigPut(vm.proxmoxNode, vm.vmid, Sent(s, o, target))] else [])
  {
    var st := GetVmStatus(c, vm.proxmoxNode, vm.vmid);
    var status := match st.result case Ok(data) => ObservedStatus(data) case Raise(_) => "unknown";
    var key := IpconfigKey(s.ipconfigIndex);
    if MustFetch(vm, key) && c.configGet(vm.proxmoxNode, vm.vmid).ResourceException? then
      Step(ConfigFetchFailed, st.calls + GetVmConfig(c, vm.proxmoxNode, vm.vmid).calls)
    else
      var cfg := if MustFetch(vm, key) then GetVmConfig(c, vm.proxmoxNode, vm.vmid).result.value else vm.config;
      var pre := st.calls + (if MustFetch(vm, key) then GetVmConfig(c, vm.proxmoxNode, vm.vmid).calls else []);
      if cursor > last then Step(RangeExhausted, pre)
      else
        var nameservers := Join(s.dnsServers, " ");
        if !NeedsUpdate(o.force, cfg, key, target, nameservers, s.searchDomain) then Step(UpToDate(cursor), pre)
        else
          var put := SetVmNetworkConfig(c, vm.proxmoxNode, vm.vmid, s.ipconfigIndex, target, Some(nameservers),
                                        s.searchDomain, o.sshKey, o.quote);
          var outcome := if put.result.Ok? then Updated(cursor, status == "running") else UpdateFailed(cursor);
          assert Consumes(outcome) && outcome.address == cursor;
          Step(outcome, pre + put.calls)
  }

  /**
    When a node is skipped: only when its configuration had to be fetched
    and could not be, or when the range is exhausted; otherwise it takes the
    cursor's address.
   */
  lemma StepSkips(c: Client, s: Settings, o: RunOptions, vm: VMIdentifier, cursor: nat, last: nat, target: string)
    ensures var r := ConfigureStep(c, s, o, vm, cursor, last, target);
            && (r.outcome == ConfigFetchFailed <==>
                  MustFetch(vm, IpconfigKey(s.ipconfigIndex)) && c.configGet(vm.proxmoxNode, vm.vmid).ResourceException?)
            && (r.outcome == RangeExhausted ==> cursor > last)
            && (r.outcome != ConfigFetchFailed ==> (Consumes(r.outcome) <==> cursor <= last))
  {
  }

  /** An update is attempted exactly when the request carrying `target` goes out as the step's last request. */
  lemma StepAttempts(c: Client, s: Settings, o: RunOptions, vm: VMIdentifier, cursor: nat, last: nat, target: string)
    requires cursor <= last
    ensures var r := ConfigureStep(c, s, o, vm, cursor, last, target);
            r.outcome.Updated? || r.outcome.UpdateFailed? <==>
              r.calls[|r.calls| - 1] == ConfigPut(vm.proxmoxNode, vm.vmid, Sent(s, o, target))
  {
    var r := ConfigureStep(c, s, o, vm, cursor, last, target);
    if !(r.outcome.Updated? || r.outcome.UpdateFailed?) {
      var fetch := MustFetch(vm, IpconfigKey(s.ipconfigIndex));
      var pre := [StatusGet(vm.proxmoxNode, vm.vmid)] + (if fetch then [ConfigGet(vm.proxmoxNode, vm.vmid)] else []);
      assert r.calls == pre;
    }
  }

  /**
    Within the range, a node whose configuration was read is left alone
    exactly when the idempotency check finds nothing to change in the
    configuration it read: the record's own, or the one fetched for it.
   */
  lemma StepDiff(c: Client, s: Settings, o: RunOptions, vm: VMIdentifier, cursor: nat, last: nat, target: string)
    requires cursor <= last
    ensures var r := ConfigureStep(c, s, o, vm, cursor, last, target);
            var key := IpconfigKey(s.ipconfigIndex);
            r.outcome != ConfigFetchFailed ==>
              (r.outcome.UpToDate? <==>
                 !NeedsUpdate(o.force, if MustFetch(vm, key) then c.configGet(vm.proxmoxNode, vm.vmid).value else vm.config,
                              key, target, Join(s.dnsServers, " "), s.searchDomain))
  {
  }

  /** An attempted update succeeds exactly when Proxmox accepts it. */
  lemma StepUpdates(c: Client, s: Settings, o: RunOptions, vm: VMIdentifier, cursor: nat, last: nat, target: string)
    ensures var r := ConfigureStep(c, s, o, vm, cursor, last, target);
            r.outcome.Updated? || r.outcome.UpdateFailed? ==>
              (r.outcome.Updated? <==> c.configPut(vm.proxmoxNode, vm.vmid, Sent(s, o, target)).Response?)
  {
  }

  /**
    A modified node counts as running exactly when its status read answered
    "running", and `force` never leaves a node untouched.
   */
  lemma StepRunningAndForce(c: Client, s: Settings, o: RunOptions, vm: VMIdentifier, cursor: nat, last: nat, target: string)
    ensures var r := ConfigureStep(c, s, o, vm, cursor, last, target);
            && (r.outcome.Updated? ==>
                  (r.outcome.running <==>
                     c.statusGet(vm.proxmoxNode, vm.vmid).Response?
                     && ObservedStatus(c.statusGet(vm.proxmoxNode, vm.vmid).value) == "running"))
            && (o.force && cursor <= last && r.outcome != ConfigFetchFailed ==> !r.outcome.UpToDate?)
  {
  }

  // ---------------------------------------------------------------------
  // The loop

  /** How many outcomes took an address. */
  function Consumed(outcomes: seq<NodeOutcome>): nat {
    if |outcomes| == 0 then 0
    else Consumed(outcomes[..|outcomes| - 1]) + (if Consumes(outcomes[|outcomes| - 1]) then 1 else 0)
  }

  /** The cursor, the outcomes so far and the requests sent. */
  datatype Progress = Progress(cursor: nat, outcomes: seq<NodeOutcome>, calls: seq<Call>)

  /** One iteration, given the node and the cursor. */
  type Stepper = (VMIdentifier, nat) -> Step

  /** A step that takes an address takes the cursor's, and only within the range. */
  ghost predicate Honest(step: Stepper, last: nat) {
    forall vm, cursor: nat :: Consumes(step(vm, cursor).outcome) ==> step(vm, cursor).outcome.address == cursor && cursor <= last
  }

  /**
    Iterations in order over `nodes`, the cursor moving on exactly at the
    outcomes that took an address.
   */
  function Run(nodes: seq<VMIdentifier>, start: nat, step: Stepper): (p: Progress)
    ensures |p.outcomes| == |nodes|
    decreases |nodes|
  {
    if |nodes| == 0 then Progress(start, [], [])
    else
      var before := Run(nodes[..|nodes| - 1], start, step);
      var st := step(nodes[|nodes| - 1], before.cursor);
      Progress(if Consumes(st.outcome) then before.cursor + 1 else before.cursor,
               before.outcomes + [st.outcome], before.calls + st.calls)
  }

  /** The ipconfig value for the cursor's address; the loop works it out only while the range lasts. */
  function TargetAt(s: Settings, cursor: nat, last: nat): string
    requires last < IPv4.AddressSpace
  {
    if cursor <= last then TargetIpconfig(cursor, s.cidr, s.gateway) else ""
  }

  /** The step `configure_vms` takes at each node. */
  function StepAt(c: Client, s: Settings, o: RunOptions, last: nat): (step: Stepper)
    requires last < IPv4.AddressSpace
    ensures Honest(step, last)
  {
    (vm, cursor: nat) => ConfigureStep(c, s, o, vm, cursor, last, TargetAt(s, cursor, last))
  }

  /** The loop of `configure_vms` over the sorted nodes, as a reference. */
  function ConfigureLoop(c: Client, s: Settings, o: RunOptions, nodes: seq<VMIdentifier>, start: nat, last: nat): Progress
    requires last < IPv4.AddressSpace
  {
    Run(nodes, start, StepAt(c, s, o, last))
  }

  /** The cursor has moved past exactly the addresses taken so far. */
  lemma {:induction false} RunCursor(nodes: seq<VMIdentifier>, start: nat, step: Stepper)
    ensures Run(nodes, start, step).cursor == start + Consumed(Run(nodes, start, step).outcomes)
    decreases |nodes|
  {
    if |nodes| > 0 {
      var before := Run(nodes[..|nodes| - 1], start, step);
      RunCursor(nodes[..|nodes| - 1], start, step);
      var st := step(nodes[|nodes| - 1], before.cursor);
      var whole := Run(nodes, start, step);
      assert whole.outcomes == before.outcomes + [st.outcome];
      assert whole.outcomes[..|whole.outcomes| - 1] == before.outcomes;
      assert whole.outcomes[|whole.outcomes| - 1] == st.outcome;
      assert whole.cursor == before.cursor + (if Consumes(st.outcome) then 1 else 0);
    }
  }

  /** Every node is visited once, in order: its outcome is the step taken at the cursor reached before it. */
  lemma {:induction false} RunPrefix(nodes: seq<VMIdentifier>, start: nat, step: Stepper, i: nat)
    requires i < |nodes|
    ensures Run(nodes, start, step).outcomes[..i] == Run(nodes[..i], start, step).outcomes
    ensures Run(nodes, start, step).outcomes[i] == step(nodes[i], Run(nodes[..i], start, step).cursor).outcome
    decreases |nodes|
  {
    var n := |nodes| - 1;
    var init := nodes[..n];
    var before := Run(init, start, step);
    var whole := Run(nodes, start, step);
    assert whole.outcomes == before.outcomes + [step(nodes[n], before.cursor).outcome];
    if i < n {
      RunPrefix(init, start, step, i);
      assert init[..i] == nodes[..i];
      assert whole.outcomes[..i] == before.outcomes[..i];
      assert whole.outcomes[i] == before.outcomes[i];
    } else {
      assert whole.outcomes[..i] == before.outcomes;
    }
  }

  /**
    The positional cursor: the `i`-th node, when it takes an address, takes
    the range start plus the number of earlier nodes that took one, and that
    address never lies beyond the range end.
   */
  lemma CursorPosition(nodes: seq<VMIdentifier>, start: nat, step: Stepper, last: nat, i: nat)
    requires Honest(step, last)
    requires i < |nodes|
    requires Consumes(Run(nodes, start, step).outcomes[i])
    ensures Run(nodes, start, step).outcomes[i].address == start + Consumed(Run(nodes, start, step).outcomes[..i])
    ensures Run(nodes, start, step).outcomes[i].address <= last
  {
    RunPrefix(nodes, start, step, i);
    RunCursor(nodes[..i], start, step);
  }

  /** `Consumed` never decreases along a prefix, and grows past an outcome that took an address. */
  lemma {:induction false} ConsumedMonotone(outcomes: seq<NodeOutcome>, i: nat, j: nat)
    requires i <= j <= |outcomes|
    ensures Consumed(outcomes[..i]) <= Consumed(outcomes[..j])
    ensures i < j && Consumes(outcomes[i]) ==> Consumed(outcomes[..i]) < Consumed(outcomes[..j])
    decreases j - i
  {
    if i < j {
      ConsumedMonotone(outcomes, i, j - 1);
      assert outcomes[..j][..j - 1] == outcomes[..j - 1];
      if i == j - 1 {
        assert outcomes[..j][j - 1] == outcomes[i];
      }
    }
  }

  /**
    In one run of `configure_vms`, a node given an address is given the
    range start plus the count of earlier nodes given one, never past the
    range end, and the addresses rise strictly in node order, so no two
    nodes share one.
   */
  lemma AddressesIncrease(c: Client, s: Settings, o: RunOptions, nodes: seq<VMIdentifier>, start: nat, last: nat,
                          i: nat, j: nat)
    requires last < IPv4.AddressSpace
    requires i < j < |nodes|
    requires Consumes(ConfigureLoop(c, s, o, nodes, start, last).outcomes[i])
    requires Consumes(ConfigureLoop(c, s, o, nodes, start, last).outcomes[j])
    ensures var p := ConfigureLoop(c, s, o, nodes, start, last);
            && p.outcomes[i].address == start + Consumed(p.outcomes[..i])
            && p.outcomes[i].address < p.outcomes[j].address <= last
  {
    var step := StepAt(c, s, o, last);
    var p := Run(nodes, start, step);
    CursorPosition(nodes, start, step, last, i);
    CursorPosition(nodes, start, step, last, j);
    ConsumedMonotone(p.outcomes, i, j);
  }

  /** The number of update requests to the VM `key` in a trace. */
  function PutsTo(calls: seq<Call>, key: (string, int)): nat {
    if |calls| == 0 then 0
    else
      var last := calls[|calls| - 1];
      PutsTo(calls[..|calls| - 1], key) + (if last.ConfigPut? && (last.node, last.vmid) == key then 1 else 0)
  }

  lemma {:induction false} PutsToConcat(a: seq<Call>, b: seq<Call>, key: (string, int))
    ensures PutsTo(a + b, key) == PutsTo(a, key) + PutsTo(b, key)
    decreases |b|
  {
    if |b| == 0 {
      assert a + b == a;
    } else {
      var ab := a + b;
      assert ab[..|ab| - 1] == a + b[..|b| - 1];
      assert ab[|ab| - 1] == b[|b| - 1];
      PutsToConcat(a, b[..|b| - 1], key);
    }
  }

  lemma PutsToOne(x: Call, key: (string, int))
    ensures PutsTo([x], key) == if x.ConfigPut? && (x.node, x.vmid) == key then 1 else 0
  {
    assert [x][..0] == [];
  }

  /** How many positions hold the VM `key` with an outcome that came from an update request. */
  function AttemptsOn(nodes: seq<VMIdentifier>, outcomes: seq<NodeOutcome>, key: (string, int)): nat
    requires |nodes| == |outcomes|
  {
    if |nodes| == 0 then 0
    else
      AttemptsOn(nodes[..|nodes| - 1], outcomes[..|outcomes| - 1], key)
      + (if nodes[|nodes| - 1].Key() == key && Attempts(outcomes[|outcomes| - 1]) then 1 else 0)
  }

  /** A step sends an update request to its own VM exactly when its outcome came from one, and to no other VM. */
  ghost predicate PutsOnlyOnAttempt(step: Stepper) {
    forall vm, cursor: nat, key: (string, int) ::
      PutsTo(step(vm, cursor).calls, key) == (if vm.Key() == key && Attempts(step(vm, cursor).outcome) then 1 else 0)
  }

  /** One node of `configure_vms` sends its update request only when the outcome says one was sent. */
  lemma StepPuts(c: Client, s: Settings, o: RunOptions, vm: VMIdentifier, cursor: nat, last: nat, target: string,
                 key: (string, int))
    ensures var r := ConfigureStep(c, s, o, vm, cursor, last, target);
            PutsTo(r.calls, key) == (if vm.Key() == key && Attempts(r.outcome) then 1 else 0)
  {
    var r := ConfigureStep(c, s, o, vm, cursor, last, target);
    var a := [StatusGet(vm.proxmoxNode, vm.vmid)];
    var b := if MustFetch(vm, IpconfigKey(s.ipconfigIndex)) then [ConfigGet(vm.proxmoxNode, vm.vmid)] else [];
    var d := if Attempts(r.outcome) then [ConfigPut(vm.proxmoxNode, vm.vmid, Sent(s, o, target))] else [];
    PutsToConcat(a + b, d, key);
    PutsToConcat(a, b, key);
    PutsToOne(a[0], key);
    if |b| == 1 {
      PutsToOne(b[0], key);
    }
    if |d| == 1 {
      PutsToOne(d[0], key);
    }
  }

  lemma StepAtPuts(c: Client, s: Settings, o: RunOptions, last: nat)
    requires last < IPv4.AddressSpace
    ensures PutsOnlyOnAttempt(StepAt(c, s, o, last))
  {
    var step := StepAt(c, s, o, last);
    forall vm, cursor: nat, key: (string, int)
      ensures PutsTo(step(vm, cursor).calls, key) == (if vm.Key() == key && Attempts(step(vm, cursor).outcome) then 1 else 0)
    {
      StepPuts(c, s, o, vm, cursor, last, TargetAt(s, cursor, last), key);
    }
  }

  /** Over a whole run, the update requests to a VM are exactly its positions whose outcome came from one. */
  lemma {:induction false} RunPuts(nodes: seq<VMIdentifier>, start: nat, step: Stepper, key: (string, int))
    requires PutsOnlyOnAttempt(step)
    ensures PutsTo(Run(nodes, start, step).calls, key) == AttemptsOn(nodes, Run(nodes, start, step).outcomes, key)
    decreases |nodes|
  {
    if |nodes| > 0 {
      var n := |nodes| - 1;
      var before := Run(nodes[..n], start, step);
      var st := step(nodes[n], before.cursor);
      var whole := Run(nodes, start, step);
      assert whole.calls == before.calls + st.calls;
      assert whole.outcomes == before.outcomes + [st.outcome];
      assert whole.outcomes[..n] == before.outcomes;
      assert whole.outcomes[n] == st.outcome;
      RunPuts(nodes[..n], start, step, key);
      PutsToConcat(before.calls, st.calls, key);
    }
  }

  /** With one position per VM, a VM's count is its own outcome's. */
  lemma {:induction false} AttemptsOnUnique(nodes: seq<VMIdentifier>, outcomes: seq<NodeOutcome>, i: nat)
    requires |nodes| == |outcomes| && i < |nodes|
    requires UniqueKeys(nodes)
    ensures AttemptsOn(nodes, outcomes, nodes[i].Key()) == if Attempts(outcomes[i]) then 1 else 0
    decreases |nodes|
  {
    var n := |nodes| - 1;
    var init := nodes[..n];
    assert UniqueKeys(init);
    if i < n {
      assert init[i] == nodes[i];
      AttemptsOnUnique(init, outcomes[..n], i);
      assert nodes[n].Key() != nodes[i].Key();
    } else {
      AttemptsOnNone(init, outcomes[..n], nodes[i].Key());
    }
  }

  lemma {:induction false} AttemptsOnNone(nodes: seq<VMIdentifier>, outcomes: seq<NodeOutcome>, key: (string, int))
    requires |nodes| == |outcomes|
    requires forall j :: 0 <= j < |nodes| ==> nodes[j].Key() != key
    ensures AttemptsOn(nodes, outcomes, key) == 0
    decreases |nodes|
  {
    if |nodes| > 0 {
      var n := |nodes| - 1;
      assert forall j :: 0 <= j < n ==> nodes[..n][j] == nodes[j];
      AttemptsOnNone(nodes[..n], outcomes[..n], key);
    }
  }

  /**
    `configure_vms` changes a VM's configuration only when its settings
    differ (or `force` is set) and the range still has an address for it:
    over a whole run on distinct VMs, each VM receives exactly one update
    request when its outcome came from one, and none otherwise, so an
    up-to-date, skipped or out-of-range VM is never written.
   */
  lemma ConfigurePuts(c: Client, s: Settings, o: RunOptions, nodes: seq<VMIdentifier>, start: nat, last: nat, i: nat)
    requires last < IPv4.AddressSpace
    requires UniqueKeys(nodes) && i < |nodes|
    ensures var p := ConfigureLoop(c, s, o, nodes, start, last);
            PutsTo(p.calls, nodes[i].Key()) == if Attempts(p.outcomes[i]) then 1 else 0
  {
    var step := StepAt(c, s, o, last);
    StepAtPuts(c, s, o, last);
    RunPuts(nodes, start, step, nodes[i].Key());
    AttemptsOnUnique(nodes, Run(nodes, start, step).outcomes, i);
  }

  /** A VM that is not in the run is never written. */
  lemma ConfigurePutsElsewhere(c: Client, s: Settings, o: RunOptions, nodes: seq<VMIdentifier>, start: nat, last: nat,
                               key: (string, int))
    requires last < IPv4.AddressSpace
    requires forall j :: 0 <= j < |nodes| ==> nodes[j].Key() != key
    ensures PutsTo(ConfigureLoop(c, s, o, nodes, start, last).calls, key) == 0
  {
    var step := StepAt(c, s, o, last);
    StepAtPuts(c, s, o, last);
    RunPuts(nodes, start, step, key);
    AttemptsOnNone(nodes, Run(nodes, start, step).outcomes, key);
  }

  /** An update request returned for the node. */
  predicate Modifies(o: NodeOutcome) {
    o.Updated?
  }

  /** An update request returned for a node that was running. */
  predicate ModifiesRunning(o: NodeOutcome) {
    o.Updated? && o.running
  }

  /** The nodes whose outcome satisfies `keep`, in loop order. */
  function Pick(nodes: seq<VMIdentifier>, outcomes: seq<NodeOutcome>, keep: NodeOutcome -> bool): seq<VMIdentifier>
    requires |nodes| == |outcomes|
  {
    if |nodes| == 0 then []
    else
      Pick(nodes[..|nodes| - 1], outcomes[..|outcomes| - 1], keep)
      + (if keep(outcomes[|outcomes| - 1]) then [nodes[|nodes| - 1]] else [])
  }

  /** A node is picked exactly when it stands at a position whose outcome satisfies `keep`. */
  lemma {:induction false} PickMembers(nodes: seq<VMIdentifier>, outcomes: seq<NodeOutcome>,
                                       keep: NodeOutcome -> bool, x: VMIdentifier)
    requires |nodes| == |outcomes|
    ensures x in Pick(nodes, outcomes, keep) <==> exists i :: 0 <= i < |nodes| && nodes[i] == x && keep(outcomes[i])
    decreases |nodes|
  {
    if |nodes| > 0 {
      var n := |nodes| - 1;
      var init, prior := nodes[..n], outcomes[..n];
      PickMembers(init, prior, keep, x);
      if x in Pick(init, prior, keep) {
        var i :| 0 <= i < n && init[i] == x && keep(prior[i]);
        assert nodes[i] == x && keep(outcomes[i]);
      }
      if exists i :: 0 <= i < |nodes| && nodes[i] == x && keep(outcomes[i]) {
        var i :| 0 <= i < |nodes| && nodes[i] == x && keep(outcomes[i]);
        if i < n {
          assert init[i] == x && keep(prior[i]);
        }
      }
    }
  }

  /** The loop of `configure_vms` as the program runs it, with the bookkeeping lists. */
  method RunLoop(nodes: seq<VMIdentifier>, start: nat, step: Stepper)
    returns (p: Progress, modified: seq<VMIdentifier>, runningModified: seq<VMIdentifier>)
    ensures p == Run(nodes, start, step)
    ensures modified == Pick(nodes, p.outcomes, Modifies)
    ensures runningModified == Pick(nodes, p.outcomes, ModifiesRunning)
  {
    var cursor := start;
    var outcomes: seq<NodeOutcome> := [];
    var calls: seq<Call> := [];
    modified := [];
    runningModified := [];
    var i := 0;
    while i < |nodes|
      invariant 0 <= i <= |nodes| && |outcomes| == i
      invariant Progress(cursor, outcomes, calls) == Run(nodes[..i], start, step)
      invariant modified == Pick(nodes[..i], outcomes, Modifies)
      invariant runningModified == Pick(nodes[..i], outcomes, ModifiesRunning)
    {
      var vm := nodes[i];
      var st := step(vm, cursor);
      assert nodes[..i + 1][..i] == nodes[..i];
      ghost var next := outcomes + [st.outcome];
      assert next[..i] == outcomes;
      if Modifies(st.outcome) {
        modified := modified + [vm];
      }
      if ModifiesRunning(st.outcome) {
        runningModified := runningModified + [vm];
      }
      if Consumes(st.outcome) {
        cursor := cursor + 1;
      }
      outcomes := outcomes + [st.outcome];
      calls := calls + st.calls;
      i := i + 1;
    }
    assert nodes[..i] == nodes;
    p := Progress(cursor, outcomes, calls);
  }

  // ---------------------------------------------------------------------
  // Restarting

  /**
    The restart loop: `control_vm` on each modified VM with `action`; a
    `ProxmoxError` is logged and the loop goes on, any other error ends it.
   */
  function RestartAll(c: Client, vms: seq<VMIdentifier>, action: string): (r: Reply<()>)
    ensures r.result.Raise? ==> !r.result.error.ProxmoxError?
  {
    if |vms| == 0 then Reply(Ok(()), [])
    else
      var ctl := ControlVm(c, vms[0].proxmoxNode, vms[0].vmid, action);
      if ctl.result.Raise? && !ctl.result.error.ProxmoxError? then Reply(Raise(ctl.result.error), ctl.calls)
      else
        var rest := RestartAll(c, vms[1..], action);
        Reply(rest.result, ctl.calls + rest.calls)
  }

  /** The action the program passes to `control_vm` after configuring. */
  const RestartAction := "restart"

  /** `control_vm` does not accept that action: the first restart raises `ValueError` before any request. */
  lemma RestartIsRejected(c: Client, vms: seq<VMIdentifier>)
    requires |vms| > 0
    ensures RestartAll(c, vms, RestartAction).result.Raise?
    ensures RestartAll(c, vms, RestartAction).result.error.ValueError?
    ensures RestartAll(c, vms, RestartAction).calls == []
  {
    assert RestartAction !in ValidActions;
  }

  /** A valid action is sent to every modified VM in turn and never ends the loop early. */
  lemma {:induction false} RestartAllValid(c: Client, vms: seq<VMIdentifier>, action: string)
    requires action in ValidActions
    ensures RestartAll(c, vms, action).result.Ok?
    ensures |RestartAll(c, vms, action).calls| == |vms|
    ensures forall i :: 0 <= i < |vms| ==>
              RestartAll(c, vms, action).calls[i].StatusPost?
              && RestartAll(c, vms, action).calls[i].node == vms[i].proxmoxNode
              && RestartAll(c, vms, action).calls[i].vmid == vms[i].vmid
  {
    if |vms| > 0 {
      RestartAllValid(c, vms[1..], action);
    }
  }

  // ---------------------------------------------------------------------
  // The whole command

  /** What a completed `configure_vms` leaves behind. */
  datatype ConfigureReport = ConfigureReport(
    registry: Registry,
    outcomes: seq<NodeOutcome>,
    modified: seq<VMIdentifier>,
    reminder: seq<VMIdentifier>)

  const BadRangeMessage := "Invalid IP address in range configuration"

  /**
    The part of `configure_vms` after the range is read: the loop over the
    nodes sorted by identity, then the reminder (when not restarting) or the
    restarts (when asked and something changed).
   */
  method ConfigureNodes(c: Client, s: Settings, o: RunOptions, registry: Registry, start: nat, last: nat,
                        restartAfter: bool)
    returns (r: Reply<ConfigureReport>)
    requires last < IPv4.AddressSpace
    ensures var nodes := SortNodes(registry.allNodes);
            var loop := ConfigureLoop(c, s, o, nodes, start, last);
            var modified := Pick(nodes, loop.outcomes, Modifies);
            && r.calls == loop.calls
            && (restartAfter && |modified| > 0 <==> r.result.Raise?)
            && (r.result.Raise? ==> r.result.error.ValueError?)
            && (r.result.Ok? ==>
                  && r.result.value.registry == registry
                  && r.result.value.outcomes == loop.outcomes
                  && r.result.value.modified == modified
                  && r.result.value.reminder == (if restartAfter then [] else Pick(nodes, loop.outcomes, ModifiesRunning)))
  {
    var nodes := SortNodes(registry.allNodes);
    var p, modified, runningModified := RunLoop(nodes, start, StepAt(c, s, o, last));
    var reminder := if |runningModified| > 0 && !restartAfter then runningModified else [];
    if |modified| > 0 && restartAfter {
      var restart := RestartAll(c, modified, RestartAction);
      RestartIsRejected(c, modified);
      return Reply(Raise(restart.result.error), p.calls + restart.calls);
    }
    return Reply(Ok(ConfigureReport(registry, p.outcomes, modified, reminder)), p.calls);
  }

  /**
    `configure_vms`: ensures nodes are known (its errors propagate),
    resolves the SSH key (its `ValueError` propagates), reads the range (an invalid bound raises
    `ConfigurationError`) and configures the nodes.
   */
  method ConfigureVms(c: Client, s: Settings, file: ConfigFile, keyFile: KeyFile, g: Registry,
                      restartAfter: bool, force: bool, quote: string -> string)
    returns (r: Reply<ConfigureReport>)
    ensures var d := EnsureNodesAreDiscovered(c, s, file, true, g);
            d.result.Raise? ==> r.result == Raise(d.result.error) && r.calls == d.calls
    ensures var d := EnsureNodesAreDiscovered(c, s, file, true, g);
            var key := SshPublicKey(s, file, keyFile);
            d.result.Ok? && key.Raise? ==> r.result == Raise(key.error) && r.calls == d.calls
    ensures var d := EnsureNodesAreDiscovered(c, s, file, true, g);
            var key := SshPublicKey(s, file, keyFile);
            d.result.Ok? && key.Ok? && (IPv4.Parse(s.ipRangeStart).None? || IPv4.Parse(s.ipRangeEnd).None?) ==>
              r.result.Raise? && r.result.error.ConfigurationError? && r.calls == d.calls
    ensures var d := EnsureNodesAreDiscovered(c, s, file, true, g);
            var key := SshPublicKey(s, file, keyFile);
            d.result.Ok? && key.Ok? && IPv4.Parse(s.ipRangeStart).Some? && IPv4.Parse(s.ipRangeEnd).Some? ==>
              var o := RunOptions(key.value, force, quote);
              var nodes := SortNodes(d.result.value.allNodes);
              var loop := ConfigureLoop(c, s, o, nodes, IPv4.Parse(s.ipRangeStart).value, IPv4.Parse(s.ipRangeEnd).value);
              var modified := Pick(nodes, loop.outcomes, Modifies);
              && r.calls == d.calls + loop.calls
              && (restartAfter && |modified| > 0 <==> r.result.Raise?)
              && (r.result.Raise? ==> r.result.error.ValueError?)
              && (r.result.Ok? ==>
                    && r.result.value.registry == d.result.value
                    && r.result.value.outcomes == loop.outcomes
                    && r.result.value.modified == modified
                    && r.result.value.reminder == (if restartAfter then [] else Pick(nodes, loop.outcomes, ModifiesRunning)))
  {
    var d := EnsureNodesAreDiscovered(c, s, file, true, g);
    if d.result.Raise? {
      return Reply(Raise(d.result.error), d.calls);
    }
    var key := SshPublicKey(s, file, keyFile);
    if key.Raise? {
      return Reply(Raise(key.error), d.calls);
    }
    var o := RunOptions(key.value, force, quote);
    var start := IPv4.Parse(s.ipRangeStart);
    var last := IPv4.Parse(s.ipRangeEnd);
    if start.None? || last.None? {
      return Reply(Raise(ConfigurationError(BadRangeMessage)), d.calls);
    }
    var rest := ConfigureNodes(c, s, o, d.result.value, start.value, last.value, restartAfter);
    return Reply(rest.result, d.calls + rest.calls);
  }
}
