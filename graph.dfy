/**
 * `Graph` (src/private/graph.h, src/graph.cpp): the dependency graph the
 * manager sorts to find a loading order. Each node names a plugin and lists
 * the indices of its parents, the plugins it depends on. The sort is a
 * depth-first search that marks nodes TEMP while they are on the search path
 * and PERMANENT once they and their parents are emitted.
 */
module Graphs {

  datatype Flag = Unmarked | MarkTemp | MarkPermanent
  {
    /** Flags only ever move up this order. */
    function Rank(): nat
    {
      match this
      case Unmarked => 0
      case MarkTemp => 1
      case MarkPermanent => 2
    }
  }

  /** `Graph::Node`; an edge runs from each parent to this node. */
  datatype Node = Node(name: string, parentNodes: seq<int>, flag: Flag)

  /** Every parent index names a node. */
  ghost predicate ParentsValid(parents: seq<seq<int>>)
  {
    forall n, j :: 0 <= n < |parents| && 0 <= j < |parents[n]| ==> 0 <= parents[n][j] < |parents|
  }

  ghost predicate InRange(parents: seq<seq<int>>, ids: seq<int>)
  {
    forall i :: 0 <= i < |ids| ==> 0 <= ids[i] < |parents|
  }

  /**
   * No index repeats, stated pairwise because the search's proofs compare
   * positions; `Sequences.Distinct` states the same element by element for
   * loops that append, and `Sequences.DistinctAt` and
   * `Sequences.DistinctFromPairs` carry one form to the other.
   */
  ghost predicate Distinct(ids: seq<int>)
  {
    forall i, j :: 0 <= i < j < |ids| ==> ids[i] != ids[j]
  }

  /** Each node of `s` after the first is a parent of the one before it. */
  ghost predicate IsPath(parents: seq<seq<int>>, s: seq<int>)
  {
    InRange(parents, s) && forall i :: 0 <= i < |s| - 1 ==> s[i + 1] in parents[s[i]]
  }

  /** A path whose first node is also a parent of its last: a dependency cycle. */
  ghost predicate IsCycle(parents: seq<seq<int>>, c: seq<int>)
  {
    |c| > 0 && IsPath(parents, c) && c[0] in parents[c[|c| - 1]]
  }

  ghost predicate Acyclic(parents: seq<seq<int>>)
  {
    forall c :: !IsCycle(parents, c)
  }

  /** Every node of `ids` comes after all its parents, and none comes twice. */
  ghost predicate TopologicalOrder(parents: seq<seq<int>>, ids: seq<int>)
  {
    InRange(parents, ids) && Distinct(ids) &&
    forall i, p :: 0 <= i < |ids| && p in parents[ids[i]] ==> p in ids[..i]
  }

  /** The position of a node in an order. */
  function IndexOf(ids: seq<int>, x: int): (r: nat)
    requires x in ids
    ensures r < |ids| && ids[r] == x
  {
    if ids[0] == x then 0 else 1 + IndexOf(ids[1..], x)
  }

  /** In a topological order every parent sits strictly before its child. */
  lemma ParentBefore(parents: seq<seq<int>>, ids: seq<int>, u: int, p: int)
    requires TopologicalOrder(parents, ids) && u in ids && p in parents[u]
    ensures p in ids && IndexOf(ids, p) < IndexOf(ids, u)
  {
    var i := IndexOf(ids, u);
    assert p in ids[..i];
    var j :| 0 <= j < i && ids[j] == p;
    assert IndexOf(ids, p) == j;
  }

  /** Walking a path moves strictly backwards in a topological order. */
  lemma {:induction false} PathGoesBack(parents: seq<seq<int>>, ids: seq<int>, c: seq<int>, m: nat)
    requires TopologicalOrder(parents, ids) && IsPath(parents, c)
    requires forall i :: 0 <= i < |c| ==> c[i] in ids
    requires 0 < m < |c|
    ensures IndexOf(ids, c[m]) < IndexOf(ids, c[0])
  {
    ParentBefore(parents, ids, c[m - 1], c[m]);
    if m > 1 {
      PathGoesBack(parents, ids, c, m - 1);
    }
  }

  /** A graph whose nodes can all be put in a topological order has no cycle. */
  lemma TopologicalOrderAcyclic(parents: seq<seq<int>>, ids: seq<int>)
    requires TopologicalOrder(parents, ids)
    requires forall n :: 0 <= n < |parents| ==> n in ids
    ensures Acyclic(parents)
  {
    forall c | IsCycle(parents, c)
      ensures false
    {
      var last := |c| - 1;
      ParentBefore(parents, ids, c[last], c[0]);
      if last > 0 {
        PathGoesBack(parents, ids, c, last);
      }
    }
  }

  /** The flag-independent part of a node list is unchanged and every flag has only moved up. */
  ghost predicate Advanced(a: seq<Node>, b: seq<Node>)
  {
    |a| == |b| &&
    forall i :: 0 <= i < |a| ==>
      a[i].name == b[i].name && a[i].parentNodes == b[i].parentNodes && a[i].flag.Rank() <= b[i].flag.Rank()
  }

  lemma AdvancedTransitive(a: seq<Node>, b: seq<Node>, c: seq<Node>)
    requires Advanced(a, b) && Advanced(b, c)
    ensures Advanced(a, c)
  {
  }

  function CountUnmarked(nodes: seq<Node>): nat
  {
    if |nodes| == 0 then 0
    else (if nodes[0].flag == Unmarked then 1 else 0) + CountUnmarked(nodes[1..])
  }

  /** Advancing flags never adds an unmarked node, and marking one removes it from the count. */
  lemma {:induction false} CountAdvanced(a: seq<Node>, b: seq<Node>, k: int)
    requires Advanced(a, b)
    ensures CountUnmarked(b) <= CountUnmarked(a)
    ensures 0 <= k < |a| && a[k].flag == Unmarked && b[k].flag != Unmarked ==> CountUnmarked(b) < CountUnmarked(a)
  {
    if |a| > 0 {
      CountAdvanced(a[1..], b[1..], k - 1);
    }
  }

  ghost predicate NoTemp(nodes: seq<Node>)
  {
    forall n :: 0 <= n < |nodes| ==> nodes[n].flag != MarkTemp
  }

  /** The TEMP nodes are exactly the nodes on the search path. */
  ghost predicate TempIsStack(nodes: seq<Node>, stack: seq<int>)
  {
    forall n :: 0 <= n < |nodes| ==> (nodes[n].flag == MarkTemp <==> n in stack)
  }

  /** `list` holds the names of the nodes `ids`, in order. */
  ghost predicate Lists(names: seq<string>, list: seq<string>, ids: seq<int>)
  {
    |list| == |ids| && forall i :: 0 <= i < |ids| ==> 0 <= ids[i] < |names| && list[i] == names[ids[i]]
  }

  /**
   * What the search has achieved since the flags were `start`: `ids`, the
   * nodes emitted so far, are the nodes that became PERMANENT, each after
   * its parents unless a parent was PERMANENT already.
   */
  ghost predicate Progress(parents: seq<seq<int>>, start: seq<Node>, nodes: seq<Node>, ids: seq<int>)
  {
    Advanced(start, nodes) && |nodes| == |parents| && ParentsValid(parents) &&
    InRange(parents, ids) && Distinct(ids) &&
    (forall i :: 0 <= i < |ids| ==> nodes[ids[i]].flag == MarkPermanent && start[ids[i]].flag == Unmarked) &&
    (forall n :: 0 <= n < |nodes| && nodes[n].flag == MarkPermanent && start[n].flag != MarkPermanent ==> n in ids) &&
    (forall i, p :: 0 <= i < |ids| && p in parents[ids[i]] ==> start[p].flag == MarkPermanent || p in ids[..i])
  }

  /** The nodes carry these names and parent lists. */
  ghost predicate Matches(names: seq<string>, parents: seq<seq<int>>, nodes: seq<Node>)
  {
    |nodes| == |names| == |parents| &&
    forall n :: 0 <= n < |nodes| ==> nodes[n].name == names[n] && nodes[n].parentNodes == parents[n]
  }

  lemma MatchesAdvanced(names: seq<string>, parents: seq<seq<int>>, a: seq<Node>, b: seq<Node>)
    requires Matches(names, parents, a) && Advanced(a, b)
    ensures Matches(names, parents, b)
  {
  }

  ghost predicate AllPermanent(nodes: seq<Node>, ps: seq<int>)
  {
    forall p :: p in ps ==> 0 <= p < |nodes| && nodes[p].flag == MarkPermanent
  }

  /** PERMANENT nodes stay PERMANENT, so one more visited parent extends the PERMANENT prefix. */
  lemma AllPermanentStep(a: seq<Node>, b: seq<Node>, ps: seq<int>, j: int)
    requires Advanced(a, b) && 0 <= j < |ps| && AllPermanent(a, ps[..j])
    requires 0 <= ps[j] < |b| && b[ps[j]].flag == MarkPermanent
    ensures AllPermanent(b, ps[..j + 1])
  {
    assert ps[..j + 1] == ps[..j] + [ps[j]];
  }

  lemma PathExtend(parents: seq<seq<int>>, stack: seq<int>, k: int)
    requires IsPath(parents, stack) && 0 <= k < |parents|
    requires |stack| > 0 ==> k in parents[stack[|stack| - 1]]
    ensures IsPath(parents, stack + [k])
  {
  }

  /** Marking an UNMARKED node TEMP pushes it on the search path and emits nothing. */
  lemma MarkTempStep(parents: seq<seq<int>>, start: seq<Node>, entry: seq<Node>, ids: seq<int>, stack: seq<int>, k: int)
    requires Progress(parents, start, entry, ids) && TempIsStack(entry, stack)
    requires 0 <= k < |entry| && entry[k].flag == Unmarked
    ensures k !in stack && start[k].flag == Unmarked
    ensures var marked := entry[k := entry[k].(flag := MarkTemp)];
            Advanced(entry, marked) && Progress(parents, start, marked, ids) && TempIsStack(marked, stack + [k])
  {
    var marked := entry[k := entry[k].(flag := MarkTemp)];
    assert forall n :: 0 <= n < |marked| && n != k ==> marked[n] == entry[n];
  }

  /**
   * Once all its parents are PERMANENT, marking the TEMP node `k` PERMANENT
   * and emitting it keeps the search's progress and pops it off the path.
   */
  lemma MarkPermanentStep(parents: seq<seq<int>>, names: seq<string>, start: seq<Node>, now: seq<Node>,
                          ids: seq<int>, list: seq<string>, stack: seq<int>, k: int)
    requires Progress(parents, start, now, ids) && Lists(names, list, ids) && TempIsStack(now, stack + [k])
    requires 0 <= k < |now| == |names| && k !in stack && start[k].flag == Unmarked && now[k].flag == MarkTemp
    requires AllPermanent(now, parents[k])
    ensures var fin := now[k := now[k].(flag := MarkPermanent)];
            Advanced(now, fin) && Progress(parents, start, fin, ids + [k]) &&
            Lists(names, list + [names[k]], ids + [k]) && TempIsStack(fin, stack)
  {
    var fin := now[k := now[k].(flag := MarkPermanent)];
    var ids' := ids + [k];
    assert forall n :: 0 <= n < |fin| && n != k ==> fin[n] == now[n];
    assert ids'[..|ids|] == ids;
    forall i, p | 0 <= i < |ids'| && p in parents[ids'[i]]
      ensures start[p].flag == MarkPermanent || p in ids'[..i]
    {
      if i < |ids| {
        assert ids'[..i] == ids[..i];
      } else {
        assert ids'[..i] == ids;
      }
    }
  }

  /** Meeting a TEMP node that is a parent of the path's end closes a cycle. */
  lemma TempClosesCycle(parents: seq<seq<int>>, stack: seq<int>, k: int, j: int)
    requires IsPath(parents, stack) && 0 <= j < |stack| && stack[j] == k
    requires k in parents[stack[|stack| - 1]]
    ensures IsCycle(parents, stack[j..])
  {
  }

  /**
   * When every node has become PERMANENT: a sort that started from no
   * PERMANENT node emitted every node in topological order, so the graph has
   * no cycle; a sort that started with all of them PERMANENT emitted nothing.
   */
  lemma CompleteSort(parents: seq<seq<int>>, start: seq<Node>, nodes: seq<Node>, ids: seq<int>)
    requires Progress(parents, start, nodes, ids)
    requires forall n :: 0 <= n < |nodes| ==> nodes[n].flag == MarkPermanent
    ensures (forall n :: 0 <= n < |start| ==> start[n].flag == Unmarked) ==>
              TopologicalOrder(parents, ids) && Acyclic(parents)
    ensures (forall n :: 0 <= n < |start| ==> start[n].flag == MarkPermanent) ==> ids == []
  {
    if forall n :: 0 <= n < |start| ==> start[n].flag == Unmarked {
      assert forall n :: 0 <= n < |parents| ==> n in ids;
      forall i, p | 0 <= i < |ids| && p in parents[ids[i]]
        ensures p in ids[..i]
      {
        var j :| 0 <= j < |parents[ids[i]]| && parents[ids[i]][j] == p;
        assert start[p].flag == Unmarked;
      }
      TopologicalOrderAcyclic(parents, ids);
    }
    assert |ids| > 0 ==> start[ids[0]].flag == Unmarked;
  }

  class Graph {
    const nodeList: array<Node>
    ghost const names: seq<string>
    ghost const parents: seq<seq<int>>

    ghost predicate Valid()
      reads nodeList
    {
      Matches(names, parents, nodeList[..]) && ParentsValid(parents)
    }

    /** `Graph(nodeList)`: copies the nodes; every parent index must name one of them. */
    constructor(nodes: seq<Node>)
      requires forall n, j :: 0 <= n < |nodes| && 0 <= j < |nodes[n].parentNodes| ==>
                 0 <= nodes[n].parentNodes[j] < |nodes|
      ensures Valid() && fresh(nodeList) && nodeList[..] == nodes
      ensures names == seq(|nodes|, i requires 0 <= i < |nodes| => nodes[i].name)
      ensures parents == seq(|nodes|, i requires 0 <= i < |nodes| => nodes[i].parentNodes)
    {
      names := seq(|nodes|, i requires 0 <= i < |nodes| => nodes[i].name);
      parents := seq(|nodes|, i requires 0 <= i < |nodes| => nodes[i].parentNodes);
      nodeList := new Node[|nodes|](i requires 0 <= i < |nodes| => nodes[i]);
    }

    /**
     * `Graph::visitNode`: a PERMANENT node is done, a TEMP node closes a
     * cycle; otherwise the node is marked TEMP, its parents are visited in
     * order, then it is marked PERMANENT and its name is appended.
     * On failure `cycle` is a dependency cycle.
     */
    method VisitNode(k: int, list: seq<string>, ghost start: seq<Node>, ghost ids: seq<int>, ghost stack: seq<int>)
      returns (ok: bool, list': seq<string>, ghost ids': seq<int>, ghost cycle: seq<int>)
      requires Valid() && 0 <= k < nodeList.Length
      requires Progress(parents, start, nodeList[..], ids) && Lists(names, list, ids)
      requires IsPath(parents, stack) && TempIsStack(nodeList[..], stack)
      requires |stack| > 0 ==> k in parents[stack[|stack| - 1]]
      modifies nodeList
      ensures Valid() && Advanced(old(nodeList[..]), nodeList[..])
      ensures ok ==> nodeList[k].flag == MarkPermanent && TempIsStack(nodeList[..], stack)
      ensures ok ==> Progress(parents, start, nodeList[..], ids') && Lists(names, list', ids')
      ensures !ok ==> IsCycle(parents, cycle)
      decreases CountUnmarked(nodeList[..]), 0
    {
      if nodeList[k].flag == MarkPermanent {
        return true, list, ids, [];
      } else if nodeList[k].flag == MarkTemp {
        ghost var j :| 0 <= j < |stack| && stack[j] == k;
        TempClosesCycle(parents, stack, k, j);
        cycle := stack[j..];
        return false, list, ids, cycle;
      }

      ghost var entry := nodeList[..];
      var node := nodeList[k];
      MarkTempStep(parents, start, entry, ids, stack, k);
      nodeList[k] := node.(flag := MarkTemp);
      ghost var marked := nodeList[..];
      assert marked == entry[k := entry[k].(flag := MarkTemp)];
      CountAdvanced(entry, marked, k);
      MatchesAdvanced(names, parents, entry, marked);
      PathExtend(parents, stack, k);

      ok, list', ids', cycle := VisitParents(k, node.parentNodes, list, start, ids, stack);
      ghost var now := nodeList[..];
      AdvancedTransitive(entry, marked, now);
      if !ok {
        return;
      }

      MarkPermanentStep(parents, names, start, now, ids', list', stack, k);
      nodeList[k] := nodeList[k].(flag := MarkPermanent);
      assert nodeList[..] == now[k := now[k].(flag := MarkPermanent)];
      AdvancedTransitive(entry, now, nodeList[..]);
      MatchesAdvanced(names, parents, now, nodeList[..]);
      list' := list' + [node.name];
      ids' := ids' + [k];
    }

    /** The loop of `visitNode` over the parents of the TEMP node `k`, stopping at the first failure. */
    method VisitParents(k: int, parentNodes: seq<int>, list: seq<string>, ghost start: seq<Node>,
                        ghost ids: seq<int>, ghost stack: seq<int>)
      returns (ok: bool, list': seq<string>, ghost ids': seq<int>, ghost cycle: seq<int>)
      requires Valid() && 0 <= k < nodeList.Length && parentNodes == parents[k]
      requires Progress(parents, start, nodeList[..], ids) && Lists(names, list, ids)
      requires nodeList[k].flag == MarkTemp && k !in stack && start[k].flag == Unmarked
      requires IsPath(parents, stack + [k]) && TempIsStack(nodeList[..], stack + [k])
      modifies nodeList
      ensures Valid() && Advanced(old(nodeList[..]), nodeList[..])
      ensures ok ==> AllPermanent(nodeList[..], parents[k]) && nodeList[k].flag == MarkTemp
      ensures ok ==> TempIsStack(nodeList[..], stack + [k])
      ensures ok ==> Progress(parents, start, nodeList[..], ids') && Lists(names, list', ids')
      ensures !ok ==> IsCycle(parents, cycle)
      decreases CountUnmarked(nodeList[..]), 1
    {
      ghost var entry := nodeList[..];
      list', ids' := list, ids;
      var j := 0;
      while j < |parentNodes|
        invariant 0 <= j <= |parentNodes|
        invariant Valid() && Advanced(entry, nodeList[..]) && nodeList[k].flag == MarkTemp
        invariant Progress(parents, start, nodeList[..], ids') && Lists(names, list', ids')
        invariant TempIsStack(nodeList[..], stack + [k])
        invariant AllPermanent(nodeList[..], parentNodes[..j])
      {
        var parentId := parentNodes[j];
        ghost var before := nodeList[..];
        CountAdvanced(entry, before, k);
        var visited;
        visited, list', ids', cycle := VisitNode(parentId, list', start, ids', stack + [k]);
        AdvancedTransitive(entry, before, nodeList[..]);
        if !visited {
          return false, list', ids', cycle;
        }
        AllPermanentStep(before, nodeList[..], parentNodes, j);
        j := j + 1;
      }
      assert parentNodes[..j] == parents[k];
      return true, list', ids', [];
    }

    /**
     * `Graph::topologicalSort`: visits every UNMARKED node in index order.
     * On success the names of the newly emitted nodes are returned, each
     * after its parents; on a cycle the result is empty and `error` is set.
     */
    method TopologicalSort() returns (list: seq<string>, error: bool, ghost ids: seq<int>, ghost cycle: seq<int>)
      requires Valid() && NoTemp(nodeList[..])
      modifies nodeList
      ensures Valid() && Advanced(old(nodeList[..]), nodeList[..])
      ensures !error ==> forall n :: 0 <= n < nodeList.Length ==> nodeList[n].flag == MarkPermanent
      ensures !error ==> Lists(names, list, ids) && Distinct(ids)
      ensures !error ==> forall n :: 0 <= n < nodeList.Length ==> (n in ids <==> old(nodeList[n].flag) == Unmarked)
      ensures !error ==> forall i, p :: 0 <= i < |ids| && p in parents[ids[i]] ==>
                           old(nodeList[p].flag) == MarkPermanent || p in ids[..i]
      ensures error ==> list == [] && IsCycle(parents, cycle)
      ensures (forall n :: 0 <= n < nodeList.Length ==> old(nodeList[n].flag) == Unmarked) && !error ==>
                TopologicalOrder(parents, ids) && Acyclic(parents)
      ensures (forall n :: 0 <= n < nodeList.Length ==> old(nodeList[n].flag) == MarkPermanent) ==>
                !error && list == []
    {
      ghost var start := nodeList[..];
      list, ids := [], [];
      var i := 0;
      while i < nodeList.Length
        invariant 0 <= i <= nodeList.Length
        invariant Valid() && Progress(parents, start, nodeList[..], ids) && Lists(names, list, ids)
        invariant NoTemp(nodeList[..])
        invariant forall n :: 0 <= n < i ==> nodeList[n].flag == MarkPermanent
      {
        if nodeList[i].flag == Unmarked {
          var visited;
          visited, list, ids, cycle := VisitNode(i, list, start, ids, []);
          if !visited {
            return [], true, ids, cycle;
          }
        }
        i := i + 1;
      }
      CompleteSort(parents, start, nodeList[..], ids);
      return list, false, ids, [];
    }
  }
}
