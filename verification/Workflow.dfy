/** Workflow validation: the depth-first cycle search with its colour map and path stack. */
module Workflow {
  import opened Wrappers
  import opened WorkflowGraph

  /** Outcome of `validate`. */
  datatype Verdict =
    | Valid
    | MissingDependency(node: NodeId, dependency: NodeId)
    | CycleFound(cycle: seq<NodeId>)

  /** The colour map and the path that `check_cycle` passes along by mutable reference. */
  class Search {
    var visited: map<NodeId, bool>
    var path: seq<NodeId>
    ghost var finished: seq<NodeId>

    ghost predicate Consistent(nodes: seq<Node>)
      reads this
    {
      SearchOk(nodes, visited, path, finished)
    }

    constructor ()
      ensures visited == map[] && path == [] && finished == []
    {
      visited, path, finished := map[], [], [];
    }

    /** The position of an id on the path. */
    method Position(id: NodeId) returns (i: nat)
      requires id in path
      ensures i < |path| && path[i] == id
    {
      i := 0;
      while path[i] != id
        invariant i < |path| && id in path[i..]
        decreases |path| - i
      {
        i := i + 1;
      }
    }

    /** `check_cycle`: `None` is success, `Some` is the cycle that was found. */
    method CheckCycle(nodes: seq<Node>, id: NodeId) returns (cycle: Option<seq<NodeId>>)
      requires DependenciesExist(nodes) && Consistent(nodes)
      requires id in Ids(nodes) && id !in visited
      requires |path| > 0 ==> Edge(nodes, path[|path| - 1], id)
      modifies this
      decreases Ids(nodes) - visited.Keys, 1
      ensures cycle.Some? ==> ClosedWalk(nodes, cycle.value)
      ensures cycle.None? ==>
                && Consistent(nodes) && path == old(path)
                && old(visited.Keys) <= visited.Keys && id in visited && !visited[id]
    {
      ghost var before := path;
      ghost var seen := visited.Keys;
      PushKeeps(nodes, visited, path, finished, id);
      visited := visited[id := true];
      path := path + [id];

      var node := GetNode(nodes, id).value;
      var i := 0;
      while i < |node.dependencies|
        invariant 0 <= i <= |node.dependencies|
        invariant Consistent(nodes) && path == before + [id]
        invariant seen + {id} <= visited.Keys
        invariant forall k :: 0 <= k < i ==> Finished(node.dependencies[k])
        decreases |node.dependencies| - i
      {
        cycle := Follow(nodes, id, node.dependencies[i]);
        if cycle.Some? {
          return;
        }
        i := i + 1;
      }

      FinishKeeps(nodes, visited, before, finished, id);
      visited := visited[id := false];
      path := path[..|path| - 1];
      assert path == before;
      finished := finished + [id];
      return None;
    }

    ghost predicate Finished(id: NodeId)
      reads this
    {
      id in visited && !visited[id]
    }

    /** The loop body of `check_cycle`: descend into an unvisited dependency, report one on the path. */
    method Follow(nodes: seq<Node>, id: NodeId, dep: NodeId) returns (cycle: Option<seq<NodeId>>)
      requires DependenciesExist(nodes) && Consistent(nodes)
      requires |path| > 0 && path[|path| - 1] == id && Edge(nodes, id, dep) && dep in Ids(nodes)
      modifies this
      decreases Ids(nodes) - visited.Keys, 2
      ensures cycle.Some? ==> ClosedWalk(nodes, cycle.value)
      ensures cycle.None? ==>
                && Consistent(nodes) && path == old(path) && old(visited.Keys) <= visited.Keys
                && Finished(dep) && forall x :: old(Finished(x)) ==> Finished(x)
    {
      if dep !in visited {
        cycle := CheckCycle(nodes, dep);
        return;
      }
      if visited[dep] {
        var start := Position(dep);
        ClosesCycle(nodes, path, start, dep);
        return Some(path[start..] + [dep]);
      }
      return None;
    }
  }

  class WorkflowDefinition {
    var nodes: seq<Node>

    constructor ()
      ensures nodes == []
    {
      nodes := [];
    }

    method AddNode(node: Node)
      modifies this
      ensures nodes == old(nodes) + [node]
    {
      nodes := nodes + [node];
    }

    /** Takes the first node with the id out; an unknown id changes nothing. */
    method RemoveNode(id: NodeId) returns (removed: Option<Node>)
      modifies this
      ensures removed == GetNode(old(nodes), id)
      ensures removed.None? ==> nodes == old(nodes)
      ensures removed.Some? ==>
                exists i :: 0 <= i < |old(nodes)| && old(nodes)[i] == removed.value
                            && id !in Ids(old(nodes)[..i]) && nodes == old(nodes)[..i] + old(nodes)[i + 1..]
    {
      var i := 0;
      while i < |nodes| && nodes[i].id != id
        invariant 0 <= i <= |nodes|
        invariant id !in Ids(nodes[..i])
        invariant GetNode(nodes, id) == GetNode(nodes[i..], id)
      {
        assert nodes[i..][1..] == nodes[i + 1..];
        assert nodes[..i + 1] == nodes[..i] + [nodes[i]];
        i := i + 1;
      }
      if i == |nodes| {
        return None;
      }
      removed := Some(nodes[i]);
      nodes := nodes[..i] + nodes[i + 1..];
    }

    /** The first loop of `validate`. */
    method FindMissing() returns (r: Verdict)
      ensures r.Valid? <==> DependenciesExist(nodes)
      ensures r.MissingDependency? ==>
                (exists n :: n in nodes && n.id == r.node && r.dependency in n.dependencies)
                && r.dependency !in Ids(nodes)
      ensures !r.CycleFound?
    {
      for i := 0 to |nodes|
        invariant forall n, d :: n in nodes[..i] && d in n.dependencies ==> d in Ids(nodes)
      {
        var deps := nodes[i].dependencies;
        for j := 0 to |deps|
          invariant forall d :: d in deps[..j] ==> d in Ids(nodes)
        {
          if deps[j] !in Ids(nodes) {
            return MissingDependency(nodes[i].id, deps[j]);
          }
        }
        assert deps[..|deps|] == deps;
      }
      assert nodes[..|nodes|] == nodes;
      return Valid;
    }

    /**
     * `validate` accepts exactly the workflows whose dependencies exist and whose graph has no
     * cycle; an accepted one has a topological order, and a reported cycle is a real one.
     */
    method Validate() returns (r: Verdict)
      ensures r.Valid? <==> Validated(nodes)
      ensures r.Valid? ==> NeverStuck(nodes) && exists order :: TopologicalOrder(nodes, order)
      ensures r.MissingDependency? ==> !DependenciesExist(nodes) && r.dependency !in Ids(nodes)
      ensures r.CycleFound? ==> DependenciesExist(nodes) && ClosedWalk(nodes, r.cycle)
    {
      r := FindMissing();
      if r.MissingDependency? {
        return;
      }
      var search := new Search();
      for i := 0 to |nodes|
        invariant fresh(search) && search.Consistent(nodes) && search.path == []
        invariant Ids(nodes[..i]) <= search.visited.Keys
      {
        assert nodes[..i + 1] == nodes[..i] + [nodes[i]];
        assert nodes[i].id in Ids(nodes);
        if nodes[i].id !in search.visited {
          var cycle := search.CheckCycle(nodes, nodes[i].id);
          if cycle.Some? {
            return CycleFound(cycle.value);
          }
        }
      }
      assert nodes[..|nodes|] == nodes;
      assert TopologicalOrder(nodes, search.finished);
      OrderMeansAcyclic(nodes, search.finished);
      AcyclicIffNeverStuck(nodes);
      return Valid;
    }
  }
}
