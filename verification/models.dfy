/**
  `models.VMIdentifier`: a Proxmox VM that is a node of the cluster, whose
  identity is its host and VM id alone.
 */
module Models {
  import opened Wrappers
  import opened Text
  import opened Ordering
  import opened Errors

  /**
    A VM record. `status` is the attribute the manager attaches while
    reconciling; `config` is the raw Proxmox configuration, values as text.
   */
  datatype VMIdentifier = VMIdentifier(
    proxmoxNode: string,
    vmid: int,
    name: Option<string>,
    ipAddress: Option<string>,
    tags: seq<string>,
    config: map<string, string>,
    status: Option<string>)
  {
    /** The identity `(proxmox_node, vmid)`. */
    function Key(): (string, int) {
      (proxmoxNode, vmid)
    }
  }

  /** `VMIdentifier(proxmox_node=node, vmid=vmid)` with every other field at its default. */
  function Bare(node: string, vmid: int): VMIdentifier {
    VMIdentifier(node, vmid, None, None, [], map[], None)
  }

  /** `a == b` (`__eq__`): compares the identity only. */
  predicate SameVm(a: VMIdentifier, b: VMIdentifier) {
    a.Key() == b.Key()
  }

  /** Name, address, tags, config and status never distinguish two records. */
  lemma EqualityIgnoresMetadata(a: VMIdentifier, b: VMIdentifier)
    ensures SameVm(a, b) <==> a.proxmoxNode == b.proxmoxNode && a.vmid == b.vmid
    ensures SameVm(a, b) <==> SameVm(a, b.(name := a.name, ipAddress := a.ipAddress, tags := a.tags, config := a.config, status := a.status))
    ensures SameVm(a, b) <==> a == b.(name := a.name, ipAddress := a.ipAddress, tags := a.tags, config := a.config, status := a.status)
  {
  }

  /**
    `hash(vm)` (`__hash__`): Python hashes the identity tuple; `tupleHash` is
    that process's (salted) tuple hash.
   */
  function Hash(v: VMIdentifier, tupleHash: ((string, int)) -> int): int {
    tupleHash(v.Key())
  }

  /** Equal records hash equally, whatever the process's hash function. */
  lemma HashRespectsEquality(a: VMIdentifier, b: VMIdentifier, tupleHash: ((string, int)) -> int)
    requires SameVm(a, b)
    ensures Hash(a, tupleHash) == Hash(b, tupleHash)
  {
  }

  /** `str(vm)`: `node:vmid`, followed by ` (name)` when the name is non-empty. */
  function Str(v: VMIdentifier): (s: string)
    ensures !Truthy(v.name) ==> s == v.proxmoxNode + ":" + IntToString(v.vmid)
    ensures Truthy(v.name) ==> s == v.proxmoxNode + ":" + IntToString(v.vmid) + " (" + v.name.value + ")"
  {
    v.proxmoxNode + ":" + IntToString(v.vmid) + (if Truthy(v.name) then " (" + v.name.value + ")" else "")
  }

  /**
    `_parse_vm_location`: splits at the first `:` and reads the rest with
    `int()`; `ValueError` when there is no `:` or the rest is no integer.
   */
  function ParseVmLocation(s: string): (r: Result<(string, int)>)
    ensures ':' !in s ==> r.Raise? && r.error.ValueError?
    ensures r.Raise? ==> r.error.ValueError?
    ensures r.Ok? ==> ':' !in r.value.0
    ensures r.Ok? ==> exists rest :: s == r.value.0 + ":" + rest && ParseInt(rest) == Some(r.value.1)
    ensures ':' in s ==> (r.Ok? <==> ParseInt(s[IndexOf(s, ':') + 1..]).Some?)
    ensures ':' in s && r.Ok? ==> r.value.0 == s[..IndexOf(s, ':')] && ParseInt(s[IndexOf(s, ':') + 1..]) == Some(r.value.1)
  {
    if ':' !in s then Raise(ValueError(NoColonMessage(s)))
    else
      var k := IndexOf(s, ':');
      var rest := s[k + 1..];
      assert s == s[..k] + ":" + rest;
      match ParseInt(rest)
      case Some(n) => Ok((s[..k], n))
      case None => Raise(ValueError(BadVmidMessage(s)))
  }

  function NoColonMessage(s: string): string {
    "Invalid VM location format: '" + s + "'. Expected 'node:vmid'."
  }

  function BadVmidMessage(s: string): string {
    "Invalid VMID in location: '" + s + "'. VMID must be an integer."
  }

  /** `str` of an unnamed record on a host without `:` parses back to its identity. */
  lemma StrParsesBack(v: VMIdentifier)
    requires ':' !in v.proxmoxNode
    requires !Truthy(v.name)
    ensures ParseVmLocation(Str(v)) == Ok(v.Key())
  {
    var s := Str(v);
    var digits := IntToString(v.vmid);
    assert s == v.proxmoxNode + ":" + digits;
    assert s[|v.proxmoxNode|] == ':';
    var k := IndexOf(s, ':');
    assert s[..k] == v.proxmoxNode;
    assert s[k + 1..] == digits;
    IntRoundTrip(v.vmid);
  }

  /** The sort key `(vm.proxmox_node, vm.vmid)`, compared as a Python tuple. */
  function KeyLe(a: VMIdentifier, b: VMIdentifier): bool {
    (StrLe(a.proxmoxNode, b.proxmoxNode) && a.proxmoxNode != b.proxmoxNode)
    || (a.proxmoxNode == b.proxmoxNode && a.vmid <= b.vmid)
  }

  lemma KeyLeIsTotalPreorder()
    ensures IsTotalPreorder(KeyLe)
  {
    forall a: VMIdentifier, b: VMIdentifier
      ensures KeyLe(a, b) || KeyLe(b, a)
    {
      StrLeTotal(a.proxmoxNode, b.proxmoxNode);
    }
    forall a: VMIdentifier, b: VMIdentifier, c: VMIdentifier | KeyLe(a, b) && KeyLe(b, c)
      ensures KeyLe(a, c)
    {
      if a.proxmoxNode != b.proxmoxNode && b.proxmoxNode != c.proxmoxNode {
        StrLeTransitive(a.proxmoxNode, b.proxmoxNode, c.proxmoxNode);
        if a.proxmoxNode == c.proxmoxNode {
          StrLeAntisymmetric(a.proxmoxNode, b.proxmoxNode);
        }
      }
    }
  }

  /** Records ordered both ways share their identity. */
  lemma KeyLeAntisymmetric(a: VMIdentifier, b: VMIdentifier)
    requires KeyLe(a, b) && KeyLe(b, a)
    ensures SameVm(a, b)
  {
    if a.proxmoxNode != b.proxmoxNode {
      StrLeAntisymmetric(a.proxmoxNode, b.proxmoxNode);
    }
  }

  /** `sorted(nodes, key=lambda vm: (vm.proxmox_node, vm.vmid))`. */
  function SortNodes(nodes: seq<VMIdentifier>): (r: seq<VMIdentifier>)
    ensures SortedBy(r, KeyLe)
    ensures multiset(r) == multiset(nodes)
  {
    KeyLeIsTotalPreorder();
    SortBy(nodes, KeyLe)
  }
}
