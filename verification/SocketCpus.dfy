/** Which dedicated CPUs belong to a socket: `_get_dedicated_cpus_from_numa_node` and
    `_get_cpu_ids_with_socket_affinity` of test_sriov.py. */
module SocketCpus {
  import opened PyText

  /** NUMA node name to CPU ids. */
  type Topology = map<string, seq<int>>

  /** None when the node is not configured (`set(None)` is a TypeError). */
  function DedicatedFromNode(topology: Topology, node: string, dedicated: set<int>): Option<set<int>>
  {
    if node in topology then Some(dedicated * Members(topology[node])) else None
  }

  predicate AllConfigured(topology: Topology, nodes: seq<int>)
  {
    forall i :: 0 <= i < |nodes| ==> Str(nodes[i]) in topology
  }

  /** On how many of the listed nodes the CPU sits. */
  function NodesOf(topology: Topology, nodes: seq<int>, x: int): nat
    requires AllConfigured(topology, nodes)
  {
    if nodes == [] then 0 else
      NodesOf(topology, nodes[..|nodes| - 1], x) + if x in topology[Str(nodes[|nodes| - 1])] then 1 else 0
  }

  /** The places in the list of nodes the CPU sits on. */
  ghost function Places(topology: Topology, nodes: seq<int>, x: int): set<int>
    requires AllConfigured(topology, nodes)
  {
    set i | 0 <= i < |nodes| && x in topology[Str(nodes[i])]
  }

  lemma {:induction false} NodesOfCounts(topology: Topology, nodes: seq<int>, x: int)
    requires AllConfigured(topology, nodes)
    ensures NodesOf(topology, nodes, x) == |Places(topology, nodes, x)|
  {
    hide Str;
    if nodes == [] {
      assert Places(topology, nodes, x) == {};
    } else {
      var last := |nodes| - 1;
      NodesOfCounts(topology, nodes[..last], x);
      LastPlace(topology, nodes, x);
    }
  }

  lemma LastPlace(topology: Topology, nodes: seq<int>, x: int)
    requires AllConfigured(topology, nodes) && nodes != []
    ensures var last := |nodes| - 1;
      var before := Places(topology, nodes[..last], x);
      && last !in before
      && Places(topology, nodes, x) == if x in topology[Str(nodes[last])] then before + {last} else before
  {
    hide Str;
    var last := |nodes| - 1;
    assert forall i :: 0 <= i < last ==> nodes[..last][i] == nodes[i];
  }

  /** `_get_cpu_ids_with_socket_affinity`. The list is extended with a set, in no particular
      order; as a collection it holds every dedicated CPU once per listed node it sits on. */
  method CpuIdsWithSocketAffinity(topology: Topology, sockets: map<string, seq<int>>, socket: int,
                                  dedicated: set<int>) returns (r: Option<seq<int>>)
    ensures r.Some? <==> Str(socket) in sockets && AllConfigured(topology, sockets[Str(socket)])
    ensures r.Some? ==> forall x ::
      multiset(r.value)[x] == if x in dedicated then NodesOf(topology, sockets[Str(socket)], x) else 0
  {
    hide Str;
    if Str(socket) !in sockets { return None; }
    var nodes := sockets[Str(socket)];
    var ids: seq<int> := [];
    for k := 0 to |nodes|
      invariant AllConfigured(topology, nodes[..k])
      invariant forall x :: multiset(ids)[x] == if x in dedicated then NodesOf(topology, nodes[..k], x) else 0
    {
      var part := DedicatedFromNode(topology, Str(nodes[k]), dedicated);
      if part.None? { return None; }
      assert nodes[..k + 1][..k] == nodes[..k];
      ids := Extend(ids, part.value);
    }
    assert nodes[..|nodes|] == nodes;
    return Some(ids);
  }

  /** `list += set`. */
  method Extend(ids: seq<int>, more: set<int>) returns (r: seq<int>)
    ensures multiset(r) == multiset(ids) + multiset(more)
  {
    r := ids;
    var todo := more;
    while todo != {}
      invariant multiset(r) + multiset(todo) == multiset(ids) + multiset(more)
    {
      ghost var some := SomeMember(todo);
      var x :| x in todo;
      r, todo := r + [x], todo - {x};
    }
  }

  // ---------- over all sockets ----------

  lemma {:induction false} NodesOfConcat(topology: Topology, a: seq<int>, b: seq<int>, x: int)
    requires AllConfigured(topology, a) && AllConfigured(topology, b)
    ensures AllConfigured(topology, a + b)
    ensures NodesOf(topology, a + b, x) == NodesOf(topology, a, x) + NodesOf(topology, b, x)
  {
    if b == [] {
      assert a + b == a;
    } else {
      assert (a + b)[..|a + b| - 1] == a + b[..|b| - 1];
      NodesOfConcat(topology, a, b[..|b| - 1], x);
    }
  }

  ghost predicate IsSocketList(topology: Topology, nodes: seq<int>, dedicated: set<int>, ids: seq<int>)
  {
    && AllConfigured(topology, nodes)
    && forall x :: multiset(ids)[x] == if x in dedicated then NodesOf(topology, nodes, x) else 0
  }

  function Lengths(lists: seq<seq<int>>): nat
  {
    if lists == [] then 0 else |lists[0]| + Lengths(lists[1..])
  }

  lemma {:induction false} ConcatLists(topology: Topology, sockets: seq<seq<int>>, dedicated: set<int>,
                                       lists: seq<seq<int>>)
    requires |lists| == |sockets|
    requires forall i :: 0 <= i < |lists| ==> IsSocketList(topology, sockets[i], dedicated, lists[i])
    ensures IsSocketList(topology, Concat(sockets), dedicated, Concat(lists))
    ensures |Concat(lists)| == Lengths(lists)
  {
    if lists != [] {
      ConcatLists(topology, sockets[1..], dedicated, lists[1..]);
      forall x ensures multiset(Concat(lists))[x] == multiset(lists[0])[x] + multiset(Concat(lists[1..]))[x] {}
      forall x ensures NodesOf(topology, Concat(sockets), x) ==
                       NodesOf(topology, sockets[0], x) + NodesOf(topology, Concat(sockets[1..]), x)
      {
        NodesOfConcat(topology, sockets[0], Concat(sockets[1..]), x);
      }
      NodesOfConcat(topology, sockets[0], Concat(sockets[1..]), 0);
    }
  }

  /** If every dedicated CPU sits on exactly one of the listed nodes, the lists together are the
      dedicated set. */
  lemma ListsAreDedicated(topology: Topology, sockets: seq<seq<int>>, dedicated: set<int>, lists: seq<seq<int>>)
    requires |lists| == |sockets|
    requires forall i :: 0 <= i < |lists| ==> IsSocketList(topology, sockets[i], dedicated, lists[i])
    requires AllConfigured(topology, Concat(sockets))
    requires forall x :: x in dedicated ==> NodesOf(topology, Concat(sockets), x) == 1
    ensures multiset(Concat(lists)) == multiset(dedicated)
    ensures Lengths(lists) == |dedicated|
  {
    ConcatLists(topology, sockets, dedicated, lists);
    if multiset(Concat(lists)) != multiset(dedicated) {
      var x := SomeDifference(multiset(Concat(lists)), multiset(dedicated));
      assert false;
    }
    assert |multiset(Concat(lists))| == |Concat(lists)|;
    SetSize(dedicated);
  }

  lemma {:induction false} SetSize(s: set<int>)
    ensures |multiset(s)| == |s|
  {
    if s != {} {
      var x := SomeMember(s);
      SetSize(s - {x});
      assert multiset(s) == multiset(s - {x}) + multiset{x};
    }
  }

  /** Pairwise disjoint nodes hold each CPU at most once, and exactly once when they cover it. */
  lemma {:induction false} DisjointNodes(topology: Topology, nodes: seq<int>, x: int)
    requires AllConfigured(topology, nodes)
    requires forall i, j :: 0 <= i < j < |nodes| ==>
      !(x in topology[Str(nodes[i])] && x in topology[Str(nodes[j])])
    ensures NodesOf(topology, nodes, x) ==
            if exists i :: 0 <= i < |nodes| && x in topology[Str(nodes[i])] then 1 else 0
  {
    if nodes != [] {
      var init, last := nodes[..|nodes| - 1], |nodes| - 1;
      assert forall i :: 0 <= i < last ==> init[i] == nodes[i];
      DisjointNodes(topology, init, x);
      if x in topology[Str(nodes[last])] {
        forall i | 0 <= i < last ensures x !in topology[Str(init[i])] {}
      }
    }
  }

  /** If the nodes the sockets list are pairwise disjoint and cover the dedicated set, the sockets'
      lists share no CPU, repeat none, and together are the dedicated set: their lengths add up. */
  lemma SocketsPartition(topology: Topology, sockets: seq<seq<int>>, dedicated: set<int>, lists: seq<seq<int>>)
    requires |lists| == |sockets|
    requires forall i :: 0 <= i < |lists| ==> IsSocketList(topology, sockets[i], dedicated, lists[i])
    requires AllConfigured(topology, Concat(sockets))
    requires var nodes := Concat(sockets); forall i, j :: 0 <= i < j < |nodes| ==>
      Members(topology[Str(nodes[i])]) !! Members(topology[Str(nodes[j])])
    requires var nodes := Concat(sockets); forall x :: x in dedicated ==>
      exists i :: 0 <= i < |nodes| && x in Members(topology[Str(nodes[i])])
    ensures multiset(Concat(lists)) == multiset(dedicated)
    ensures Lengths(lists) == |dedicated|
  {
    var nodes := Concat(sockets);
    forall x | x in dedicated ensures NodesOf(topology, nodes, x) == 1 {
      forall i | 0 <= i < |nodes| ensures x in topology[Str(nodes[i])] <==> x in Members(topology[Str(nodes[i])]) {}
      DisjointNodes(topology, nodes, x);
    }
    ListsAreDedicated(topology, sockets, dedicated, lists);
  }
}
