/** Sizing a guest that fills a NUMA node, as `test_hugepages` of test_cpu_pinning.py does from the
    page counts of two hosts. */
module Hugepages {
  import opened PyText

  datatype Pages = Pages(total: int, free: int)

  /** Skip the test, fail on a missing node 0, or boot guests of that many pages. */
  datatype Sizing = SkipTest | NoNodeZero | Fill(pages: int)

  /** The guards a pair of hosts passes, apart from the page counts of node 0. */
  ghost predicate Comparable(nodes: seq<Pages>, total: int)
  {
    total != 0 && forall i :: 0 <= i < |nodes| ==> nodes[i].total == total
  }

  ghost predicate IsLeastFree(nodes: seq<Pages>, m: int)
  {
    (exists i :: 0 <= i < |nodes| && nodes[i].free == m) && forall i :: 0 <= i < |nodes| ==> m <= nodes[i].free
  }

  /** What the guards let through: two nodes on each host, node 0 known, equal totals, and a least free
      count of m that is at least half of them. */
  ghost predicate Fillable(a: seq<Pages>, b: seq<Pages>, zero: Option<Pages>, m: int)
  {
    && |a| >= 2 && |b| >= 2 && zero.Some? && Comparable(a + b, zero.value.total)
    && IsLeastFree(a + b, m) && 2 * m >= zero.value.total
  }

  /** The page-count guards, in order, over the nodes of both hosts; `zero` is host A's node 0.
      The division by two is exact. */
  method SizeGuest(a: seq<Pages>, b: seq<Pages>, zero: Option<Pages>) returns (r: Sizing)
    requires zero.Some? ==> zero.value in a
    ensures forall m :: r == Fill(m) <==> Fillable(a, b, zero, m)
    ensures r.NoNodeZero? <==> |a| >= 2 && |b| >= 2 && zero.None? && Comparable(a + b, a[0].total)
  {
    var nodes := a + b;
    for i := 0 to |nodes|
      invariant forall j :: 0 <= j < i ==> nodes[j].total != 0
    {
      if nodes[i].total == 0 { return SkipTest; }
    }
    if |a| < 2 || |b| < 2 { return SkipTest; }
    for i := 0 to |nodes|
      invariant forall j :: 0 <= j < i ==> nodes[j].total == nodes[0].total
    {
      if nodes[i].total != nodes[0].total { return SkipTest; }
    }
    var least := nodes[0].free;
    for i := 1 to |nodes|
      invariant exists j :: 0 <= j < i && nodes[j].free == least
      invariant forall j :: 0 <= j < i ==> least <= nodes[j].free
    {
      if nodes[i].free < least { least := nodes[i].free; }
    }
    assert IsLeastFree(nodes, least);
    if zero.None? { return NoNodeZero; }
    var k :| 0 <= k < |a| && a[k] == zero.value;
    assert nodes[k] == zero.value;
    if 2 * least < zero.value.total { return SkipTest; }
    return Fill(least);
  }

  /** A guest of that size fits on every node. A second one fits on the same node exactly when all
      of the node's pages are free and the guest takes half of them, which the guard lets through
      although its purpose is to exclude it. */
  lemma SecondGuestFits(a: seq<Pages>, b: seq<Pages>, zero: Option<Pages>, m: int, i: nat)
    requires Fillable(a, b, zero, m)
    requires i < |a + b| && (a + b)[i].free <= (a + b)[i].total
    ensures var node := (a + b)[i];
      && m <= node.free
      && (m <= node.free - m <==> node.free == node.total == 2 * m)
  {}

  /** Such hosts pass the guards: two nodes of two pages on each, one page in use on one of them. Two
      guests of one page fit on node 0. */
  lemma BoundaryPassesGuards()
    ensures var a, b := [Pages(2, 2), Pages(2, 1)], [Pages(2, 2), Pages(2, 2)];
      Fillable(a, b, Some(a[0]), 1) && 1 <= a[0].free - 1
  {
    var a, b := [Pages(2, 2), Pages(2, 1)], [Pages(2, 2), Pages(2, 2)];
    var nodes := a + b;
    assert nodes == [Pages(2, 2), Pages(2, 1), Pages(2, 2), Pages(2, 2)];
    assert nodes[1].free == 1;
  }
}
