/**
  The node lists `K3sDeploymentManager` holds, their deduplication by
  identity and the ordering and master election of `_populate_node_lists`.
 */
module Registry {
  import opened Wrappers
  import opened Ordering
  import opened Models
  import opened Settings

  /** `servers`, `agents`, `storage`, `all_nodes`, `server_master`, `servers_no_first`. */
  datatype Registry = Registry(
    servers: seq<VMIdentifier>,
    agents: seq<VMIdentifier>,
    storage: seq<VMIdentifier>,
    allNodes: seq<VMIdentifier>,
    serverMaster: Option<VMIdentifier>,
    serversNoFirst: seq<VMIdentifier>)

  /** The lists of a freshly constructed manager. */
  const Empty: Registry := Registry([], [], [], [], None, [])

  /** The list of the nodes that have role `r`. */
  function Members(g: Registry, r: Role): seq<VMIdentifier> {
    match r
    case Server => g.servers
    case Agent => g.agents
    case Storage => g.storage
  }

  /** The identities present in a list. */
  function KeySet(s: seq<VMIdentifier>): set<(string, int)> {
    set i | 0 <= i < |s| :: s[i].Key()
  }

  lemma KeySetAppend(a: seq<VMIdentifier>, b: seq<VMIdentifier>)
    ensures KeySet(a + b) == KeySet(a) + KeySet(b)
  {
    var ab := a + b;
    forall k | k in KeySet(ab)
      ensures k in KeySet(a) + KeySet(b)
    {
      var i :| 0 <= i < |ab| && ab[i].Key() == k;
      if i < |a| {
        assert a[i] == ab[i];
      } else {
        assert b[i - |a|] == ab[i];
      }
    }
    forall k | k in KeySet(a) + KeySet(b)
      ensures k in KeySet(ab)
    {
      if k in KeySet(a) {
        var i :| 0 <= i < |a| && a[i].Key() == k;
        assert ab[i] == a[i];
      } else {
        var i :| 0 <= i < |b| && b[i].Key() == k;
        assert ab[|a| + i] == b[i];
      }
    }
  }

  /** A list holds some identity exactly when it is non-empty. */
  lemma KeySetEmpty(s: seq<VMIdentifier>)
    ensures KeySet(s) == {} <==> |s| == 0
  {
    if |s| > 0 {
      assert s[0].Key() in KeySet(s);
    }
  }

  /** Lists with the same elements hold the same identities. */
  lemma KeySetOfPermutation(a: seq<VMIdentifier>, b: seq<VMIdentifier>)
    requires multiset(a) == multiset(b)
    ensures KeySet(a) == KeySet(b)
  {
    forall k | k in KeySet(a)
      ensures k in KeySet(b)
    {
      var i :| 0 <= i < |a| && a[i].Key() == k;
      assert a[i] in multiset(b);
      var j :| 0 <= j < |b| && b[j] == a[i];
    }
    forall k | k in KeySet(b)
      ensures k in KeySet(a)
    {
      var j :| 0 <= j < |b| && b[j].Key() == k;
      assert b[j] in multiset(a);
      var i :| 0 <= i < |a| && a[i] == b[j];
    }
  }

  /** No two entries are equal in the sense of `__eq__`. */
  predicate UniqueKeys(s: seq<VMIdentifier>) {
    forall i, j :: 0 <= i < j < |s| ==> s[i].Key() != s[j].Key()
  }

  /**
    `list(set(nodes))` up to order: one record per identity, the first one
    that arrived (a Python set keeps the element already present).
   */
  function Dedup(s: seq<VMIdentifier>): (d: seq<VMIdentifier>)
    ensures UniqueKeys(d)
    ensures KeySet(d) == KeySet(s)
    ensures forall x :: x in d ==> x in s
    ensures |d| <= |s|
    decreases |s|
  {
    if |s| == 0 then []
    else
      var init := s[..|s| - 1];
      var last := s[|s| - 1];
      assert s == init + [last];
      KeySetAppend(init, [last]);
      var d := Dedup(init);
      if last.Key() in KeySet(d) then d
      else
        KeySetAppend(d, [last]);
        d + [last]
  }

  /** Removing the common head of two permutations leaves permutations. */
  lemma TailPermutation(a: seq<VMIdentifier>, b: seq<VMIdentifier>)
    requires |a| > 0 && |b| > 0 && a[0] == b[0]
    requires multiset(a) == multiset(b)
    ensures multiset(a[1..]) == multiset(b[1..])
  {
    assert a == [a[0]] + a[1..];
    assert b == [b[0]] + b[1..];
    assert multiset(a) == multiset{a[0]} + multiset(a[1..]);
    assert multiset(b) == multiset{a[0]} + multiset(b[1..]);
    forall x
      ensures multiset(a[1..])[x] == multiset(b[1..])[x]
    {
      assert multiset(a)[x] == multiset{a[0]}[x] + multiset(a[1..])[x];
      assert multiset(b)[x] == multiset{a[0]}[x] + multiset(b[1..])[x];
    }
  }

  /** The head of a list sorted by identity is ordered before every element of it. */
  lemma HeadIsLeast(a: seq<VMIdentifier>, x: VMIdentifier)
    requires SortedBy(a, KeyLe)
    requires x in a
    ensures KeyLe(a[0], x)
  {
    var i :| 0 <= i < |a| && a[i] == x;
    if i == 0 {
      assert KeyLe(x, x);
    }
  }

  /** A list sorted by identity with no repeated identity is fixed by its elements. */
  lemma {:induction false} SortedUniqueIsCanonical(a: seq<VMIdentifier>, b: seq<VMIdentifier>)
    requires SortedBy(a, KeyLe) && SortedBy(b, KeyLe)
    requires UniqueKeys(a)
    requires multiset(a) == multiset(b)
    ensures a == b
    decreases |a|
  {
    if |a| > 0 {
      assert a[0] in multiset(b);
      assert b[0] in multiset(a);
      HeadIsLeast(a, b[0]);
      HeadIsLeast(b, a[0]);
      KeyLeAntisymmetric(a[0], b[0]);
      var i :| 0 <= i < |a| && a[i] == b[0];
      assert a[i].Key() == a[0].Key();
      assert i == 0;
      TailPermutation(a, b);
      SortedUniqueIsCanonical(a[1..], b[1..]);
      assert a == [a[0]] + a[1..];
      assert b == [b[0]] + b[1..];
    }
  }

  /**
    The order in which a Python set yields its elements does not matter:
    every ordering of the deduplicated records sorts to the same list.
   */
  lemma SetOrderIrrelevant(s: seq<VMIdentifier>, anyOrder: seq<VMIdentifier>)
    requires multiset(anyOrder) == multiset(Dedup(s))
    ensures SortNodes(anyOrder) == SortNodes(Dedup(s))
    ensures UniqueKeys(SortNodes(anyOrder))
  {
    var d := Dedup(s);
    var x := SortNodes(anyOrder);
    var y := SortNodes(d);
    UniqueUnderPermutation(d, y);
    SortedUniqueIsCanonical(y, x);
  }

  /** An element that occurs twice in a list occurs at two positions. */
  lemma TwiceAtTwoPositions(a: seq<VMIdentifier>, x: VMIdentifier)
    requires multiset(a)[x] >= 2
    ensures exists p, q :: 0 <= p < q < |a| && a[p] == x && a[q] == x
  {
    assert x in multiset(a);
    var p :| 0 <= p < |a| && a[p] == x;
    assert a == a[..p] + [a[p]] + a[p + 1..];
    assert multiset(a[..p])[x] + multiset(a[p + 1..])[x] >= 1;
    if multiset(a[..p])[x] >= 1 {
      assert x in multiset(a[..p]);
      var q :| 0 <= q < p && a[..p][q] == x;
      assert a[q] == x;
    } else {
      assert x in multiset(a[p + 1..]);
      var q :| 0 <= q < |a[p + 1..]| && a[p + 1..][q] == x;
      assert a[p + 1 + q] == x;
    }
  }

  /** Two positions of a permutation come from two positions of the original. */
  lemma TwoPositions(a: seq<VMIdentifier>, b: seq<VMIdentifier>, i: int, j: int)
    requires multiset(a) == multiset(b)
    requires 0 <= i < j < |b|
    ensures exists p, q :: 0 <= p < |a| && 0 <= q < |a| && p != q && a[p] == b[i] && a[q] == b[j]
  {
    if b[i] == b[j] {
      assert b == b[..i] + [b[i]] + b[i + 1..j] + [b[j]] + b[j + 1..];
      assert multiset(b)[b[i]] >= 2;
      TwiceAtTwoPositions(a, b[i]);
    } else {
      assert b[i] in multiset(a);
      assert b[j] in multiset(a);
    }
  }

  /** Reordering keeps identities unique. */
  lemma UniqueUnderPermutation(a: seq<VMIdentifier>, b: seq<VMIdentifier>)
    requires UniqueKeys(a)
    requires multiset(a) == multiset(b)
    ensures UniqueKeys(b)
  {
    forall i, j | 0 <= i < j < |b|
      ensures b[i].Key() != b[j].Key()
    {
      TwoPositions(a, b, i, j);
    }
  }

  /** What `_populate_node_lists` leaves: sorted lists and a master consistent with `servers`. */
  predicate WellFormed(r: Registry) {
    && SortedBy(r.servers, KeyLe)
    && SortedBy(r.agents, KeyLe)
    && SortedBy(r.storage, KeyLe)
    && SortedBy(r.allNodes, KeyLe)
    && (|r.servers| > 0 ==> r.serverMaster == Some(r.servers[0]) && r.serversNoFirst == r.servers[1..])
    && (|r.servers| == 0 ==> r.serverMaster == None && r.serversNoFirst == [])
  }

  /**
    `_populate_node_lists`: sorts each list by `(proxmox_node, vmid)` and
    elects the first server as master, the rest as the other servers.
   */
  function PopulateNodeLists(r: Registry): (p: Registry)
    ensures WellFormed(p)
    ensures multiset(p.servers) == multiset(r.servers)
    ensures multiset(p.agents) == multiset(r.agents)
    ensures multiset(p.storage) == multiset(r.storage)
    ensures multiset(p.allNodes) == multiset(r.allNodes)
  {
    var servers := SortNodes(r.servers);
    Registry(
      servers,
      SortNodes(r.agents),
      SortNodes(r.storage),
      SortNodes(r.allNodes),
      if |servers| > 0 then Some(servers[0]) else None,
      if |servers| > 0 then servers[1..] else [])
  }

  /**
    `list(set(s))` followed by the sort of `_populate_node_lists`: one record
    per identity of `s`, each taken from `s`, in identity order.
   */
  lemma DedupThenSort(s: seq<VMIdentifier>)
    ensures UniqueKeys(SortNodes(Dedup(s)))
    ensures KeySet(SortNodes(Dedup(s))) == KeySet(s)
    ensures forall x :: x in SortNodes(Dedup(s)) ==> x in s
  {
    var d := Dedup(s);
    var t := SortNodes(d);
    UniqueUnderPermutation(d, t);
    KeySetOfPermutation(d, t);
    forall x | x in t
      ensures x in s
    {
      assert x in multiset(d);
    }
  }
}
