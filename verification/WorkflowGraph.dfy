/** The dependency graph of a workflow: walks, topological orders, and what they mean for each other. */
module WorkflowGraph {
  import opened Wrappers

  type NodeId = nat

  /** The parts of a workflow node that validation and scheduling look at. */
  datatype Node = Node(id: NodeId, dependencies: seq<NodeId>)

  /** `get_node`: the first node with the id; later nodes with the same id are shadowed. */
  function GetNode(nodes: seq<Node>, id: NodeId): (r: Option<Node>)
    ensures r.Some? ==> r.value in nodes && r.value.id == id
    ensures r.None? <==> id !in Ids(nodes)
  {
    if |nodes| == 0 then None
    else if nodes[0].id == id then Some(nodes[0])
    else GetNode(nodes[1..], id)
  }

  function Ids(nodes: seq<Node>): set<NodeId> {
    set n | n in nodes :: n.id
  }

  function Deps(nodes: seq<Node>, id: NodeId): seq<NodeId> {
    match GetNode(nodes, id)
    case Some(n) => n.dependencies
    case None => []
  }

  ghost predicate Edge(nodes: seq<Node>, a: NodeId, b: NodeId) {
    b in Deps(nodes, a)
  }

  ghost predicate Walk(nodes: seq<Node>, w: seq<NodeId>) {
    forall i :: 0 <= i < |w| - 1 ==> Edge(nodes, w[i], w[i + 1])
  }

  /** A walk along dependency edges, of at least one step, that ends where it starts. */
  ghost predicate ClosedWalk(nodes: seq<Node>, w: seq<NodeId>) {
    |w| >= 2 && w[0] == w[|w| - 1] && Walk(nodes, w)
  }

  ghost predicate Acyclic(nodes: seq<Node>) {
    forall w :: !ClosedWalk(nodes, w)
  }

  ghost predicate DependenciesExist(nodes: seq<Node>) {
    forall n, d :: n in nodes && d in n.dependencies ==> d in Ids(nodes)
  }

  /** Every element comes after its dependencies. */
  ghost predicate Ordered(nodes: seq<Node>, order: seq<NodeId>) {
    forall i, d :: 0 <= i < |order| && d in Deps(nodes, order[i]) ==> d in order[..i]
  }

  ghost predicate TopologicalOrder(nodes: seq<Node>, order: seq<NodeId>) {
    && Ordered(nodes, order)
    && (forall x :: x in order <==> x in Ids(nodes))
  }

  ghost predicate Validated(nodes: seq<Node>) {
    DependenciesExist(nodes) && Acyclic(nodes)
  }

  ghost function FirstIndex(s: seq<NodeId>, x: NodeId): (i: nat)
    requires x in s
    ensures i < |s| && s[i] == x && x !in s[..i]
  {
    if s[0] == x then 0 else
      var i := FirstIndex(s[1..], x);
      assert s[..i + 1] == [s[0]] + s[1..][..i];
      i + 1
  }

  lemma {:induction false} WalkGoesDown(nodes: seq<Node>, order: seq<NodeId>, w: seq<NodeId>)
    requires TopologicalOrder(nodes, order) && Walk(nodes, w) && |w| >= 2
    ensures w[0] in order && w[|w| - 1] in order
    ensures FirstIndex(order, w[|w| - 1]) < FirstIndex(order, w[0])
  {
    if |w| > 2 {
      assert Walk(nodes, w[1..]) by {
        forall i | 0 <= i < |w[1..]| - 1
          ensures Edge(nodes, w[1..][i], w[1..][i + 1])
        {
          assert Edge(nodes, w[i + 1], w[i + 1 + 1]);
        }
      }
      WalkGoesDown(nodes, order, w[1..]);
    }
  }

  lemma OrderMeansAcyclic(nodes: seq<Node>, order: seq<NodeId>)
    requires TopologicalOrder(nodes, order)
    ensures Acyclic(nodes)
  {
    forall w
      ensures !ClosedWalk(nodes, w)
    {
      if ClosedWalk(nodes, w) {
        WalkGoesDown(nodes, order, w);
      }
    }
  }

  /** A node that is not finished although all its dependencies are. */
  ghost predicate Ready(nodes: seq<Node>, finished: set<NodeId>, id: NodeId) {
    id in Ids(nodes) && id !in finished && forall d :: d in Deps(nodes, id) ==> d in finished
  }

  ghost predicate Stuck(nodes: seq<Node>, finished: set<NodeId>) {
    !(Ids(nodes) <= finished) && forall id :: !Ready(nodes, finished, id)
  }

  /** Whatever is finished, unless it is everything, some node is ready. */
  ghost predicate NeverStuck(nodes: seq<Node>) {
    forall finished :: !Stuck(nodes, finished)
  }

  ghost predicate WaitsIn(nodes: seq<Node>, waiting: set<NodeId>, x: NodeId) {
    exists d :: d in waiting && Edge(nodes, x, d)
  }

  /** From a set in which every node waits for another, a walk can be extended until it closes. */
  lemma {:induction false} WaitingClosesWalk(nodes: seq<Node>, waiting: set<NodeId>,
                                              path: seq<NodeId>, unvisited: set<NodeId>)
      returns (cycle: seq<NodeId>)
    requires |path| > 0 && Walk(nodes, path) && forall x :: x in path ==> x in waiting
    requires forall x :: x in waiting ==> WaitsIn(nodes, waiting, x)
    requires forall x :: x in waiting ==> x in path || x in unvisited
    ensures ClosedWalk(nodes, cycle)
    decreases unvisited
  {
    assert WaitsIn(nodes, waiting, path[|path| - 1]);
    var d :| d in waiting && Edge(nodes, path[|path| - 1], d);
    if d in path {
      var start := FirstIndex(path, d);
      ClosesCycle(nodes, path, start, d);
      cycle := path[start..] + [d];
    } else {
      ExtendWalk(nodes, path, d);
      cycle := WaitingClosesWalk(nodes, waiting, path + [d], unvisited - {d});
    }
  }

  lemma ExtendWalk(nodes: seq<Node>, path: seq<NodeId>, d: NodeId)
    requires |path| > 0 && Walk(nodes, path) && Edge(nodes, path[|path| - 1], d)
    ensures Walk(nodes, path + [d])
    ensures forall x :: x in path + [d] <==> x in path || x == d
  {
  }

  /** If nothing is ready, the unfinished nodes wait for each other in a cycle. */
  lemma StuckGivesCycle(nodes: seq<Node>, finished: set<NodeId>) returns (cycle: seq<NodeId>)
    requires DependenciesExist(nodes) && Stuck(nodes, finished)
    ensures ClosedWalk(nodes, cycle)
  {
    var waiting := Ids(nodes) - finished;
    forall x | x in waiting
      ensures WaitsIn(nodes, waiting, x)
    {
      assert !Ready(nodes, finished, x);
      var d :| d in Deps(nodes, x) && d !in finished;
      assert d in Ids(nodes) && Edge(nodes, x, d);
    }
    var x :| x in Ids(nodes) && x !in finished;
    cycle := WaitingClosesWalk(nodes, waiting, [x], waiting);
  }

  /** With exactly the nodes of a cycle unfinished, nothing is ready. */
  lemma CycleGetsStuck(nodes: seq<Node>, w: seq<NodeId>)
    requires ClosedWalk(nodes, w)
    ensures Stuck(nodes, Ids(nodes) - set x | x in w)
  {
    var finished := Ids(nodes) - set x | x in w;
    forall id
      ensures !Ready(nodes, finished, id)
    {
      if id in w {
        var i := FirstIndex(w, id);
        assert i < |w| - 1 && Edge(nodes, w[i], w[i + 1]);
        assert w[i + 1] in w && w[i + 1] !in finished;
      }
    }
    assert Edge(nodes, w[0], w[1]);
    assert w[0] in Ids(nodes) && w[0] !in finished;
  }

  /** A scheduler is never stuck exactly when the graph has no cycle. */
  lemma AcyclicIffNeverStuck(nodes: seq<Node>)
    requires DependenciesExist(nodes)
    ensures Acyclic(nodes) <==> NeverStuck(nodes)
  {
    if !Acyclic(nodes) {
      var w :| ClosedWalk(nodes, w);
      CycleGetsStuck(nodes, w);
    }
    if !NeverStuck(nodes) {
      var finished :| Stuck(nodes, finished);
      var cycle := StuckGivesCycle(nodes, finished);
    }
  }

  /** `entry_nodes`: the nodes without dependencies. */
  function EntryNodes(nodes: seq<Node>): (entries: seq<Node>)
    ensures forall n :: n in entries <==> n in nodes && |n.dependencies| == 0
  {
    if |nodes| == 0 then [] else
      (if |nodes[0].dependencies| == 0 then [nodes[0]] else []) + EntryNodes(nodes[1..])
  }

  /** `get_dependents`: the nodes that list the id among their dependencies. */
  function Dependents(nodes: seq<Node>, id: NodeId): (ds: seq<Node>)
    ensures forall n :: n in ds <==> n in nodes && id in n.dependencies
  {
    if |nodes| == 0 then [] else
      (if id in nodes[0].dependencies then [nodes[0]] else []) + Dependents(nodes[1..], id)
  }

  /** A non-empty validated workflow has an entry node. */
  lemma EntryNodeExists(nodes: seq<Node>)
    requires Validated(nodes) && |nodes| > 0
    ensures |EntryNodes(nodes)| > 0
  {
    AcyclicIffNeverStuck(nodes);
    assert nodes[0] in nodes && nodes[0].id in Ids(nodes);
    assert !(Ids(nodes) <= {}) && !Stuck(nodes, {});
    var id :| Ready(nodes, {}, id);
    var n := GetNode(nodes, id).value;
    assert forall i :: 0 <= i < |n.dependencies| ==> n.dependencies[i] in Deps(nodes, id);
    assert n in EntryNodes(nodes);
  }

  // ----- adding a node

  lemma {:induction false} GetAppended(nodes: seq<Node>, n: Node, x: NodeId)
    ensures GetNode(nodes + [n], x) ==
            if x in Ids(nodes) then GetNode(nodes, x) else if x == n.id then Some(n) else None
  {
    var all := nodes + [n];
    if |nodes| > 0 {
      assert all[0] == nodes[0] && all[1..] == nodes[1..] + [n];
      GetAppended(nodes[1..], n, x);
      assert forall m :: m in nodes <==> m == nodes[0] || m in nodes[1..];
    }
  }

  /** An edge to a new id comes from the new node itself. */
  lemma EdgeToNew(nodes: seq<Node>, n: Node, x: NodeId, y: NodeId)
    requires DependenciesExist(nodes) && Edge(nodes + [n], x, y)
    ensures x in Ids(nodes) ==> Edge(nodes, x, y) && y in Ids(nodes)
    ensures x !in Ids(nodes) ==> x == n.id && y in n.dependencies
  {
    GetAppended(nodes, n, x);
    if x in Ids(nodes) {
      var m := GetNode(nodes, x).value;
      assert m in nodes && y in m.dependencies;
    }
  }

  lemma WalkAmongOld(nodes: seq<Node>, n: Node, w: seq<NodeId>)
    requires DependenciesExist(nodes) && ClosedWalk(nodes + [n], w)
    requires forall k :: 0 <= k < |w| - 1 ==> w[k] in Ids(nodes)
    ensures ClosedWalk(nodes, w)
  {
    forall k | 0 <= k < |w| - 1
      ensures Edge(nodes, w[k], w[k + 1])
    {
      assert Edge(nodes + [n], w[k], w[k + 1]);
      EdgeToNew(nodes, n, w[k], w[k + 1]);
    }
  }

  /** Every node of a closed walk has a successor and a predecessor on it. */
  lemma Neighbours(nodes: seq<Node>, w: seq<NodeId>, k: nat) returns (before: NodeId, after: NodeId)
    requires ClosedWalk(nodes, w) && k < |w| - 1
    ensures Edge(nodes, before, w[k]) && Edge(nodes, w[k], after)
  {
    var j := if k == 0 then |w| - 2 else k - 1;
    before, after := w[j], w[k + 1];
    assert Edge(nodes, w[j], w[j + 1]);
  }

  /** A cycle that appears when a node is added is the node depending on itself. */
  lemma AppendedCycle(nodes: seq<Node>, n: Node, w: seq<NodeId>)
    requires Validated(nodes) && ClosedWalk(nodes + [n], w)
    ensures n.id !in Ids(nodes) && n.id in n.dependencies
  {
    if k :| 0 <= k < |w| - 1 && w[k] !in Ids(nodes) {
      var before, after := Neighbours(nodes + [n], w, k);
      EdgeToNew(nodes, n, w[k], after);
      EdgeToNew(nodes, n, before, w[k]);
    } else {
      WalkAmongOld(nodes, n, w);
      assert false;
    }
  }

  lemma DependenciesAppended(nodes: seq<Node>, n: Node)
    requires DependenciesExist(nodes)
    ensures DependenciesExist(nodes + [n]) <==> forall d :: d in n.dependencies ==> d in Ids(nodes) || d == n.id
  {
    var all := nodes + [n];
    assert n in all;
    if DependenciesExist(all) {
      assert forall d :: d in n.dependencies ==> d in Ids(all);
    } else {
      var m, d :| m in all && d in m.dependencies && d !in Ids(all);
      assert m in nodes ==> d in Ids(nodes);
    }
  }

  /**
   * Adding a node keeps a validated workflow valid exactly when its dependencies exist, itself
   * counting, and it does not depend on itself unless an earlier node with its id hides it.
   */
  lemma AdditionKeepsValid(nodes: seq<Node>, n: Node)
    requires Validated(nodes)
    ensures Validated(nodes + [n]) <==>
            && (forall d :: d in n.dependencies ==> d in Ids(nodes) || d == n.id)
            && (n.id in n.dependencies ==> n.id in Ids(nodes))
  {
    DependenciesAppended(nodes, n);
    if n.id in n.dependencies && n.id !in Ids(nodes) {
      GetAppended(nodes, n, n.id);
      assert ClosedWalk(nodes + [n], [n.id, n.id]);
    } else {
      forall w
        ensures !ClosedWalk(nodes + [n], w)
      {
        if ClosedWalk(nodes + [n], w) {
          AppendedCycle(nodes, n, w);
        }
      }
    }
  }

  // ----- taking a node out

  function Without(nodes: seq<Node>, i: nat): seq<Node>
    requires i < |nodes|
  {
    nodes[..i] + nodes[i + 1..]
  }

  /** The other ids are found as before. */
  lemma {:induction false} GetWithout(nodes: seq<Node>, i: nat, x: NodeId)
    requires i < |nodes| && x != nodes[i].id
    ensures GetNode(Without(nodes, i), x) == GetNode(nodes, x)
  {
    var rest := Without(nodes, i);
    if i == 0 {
      assert rest == nodes[1..];
    } else {
      assert rest[0] == nodes[0] && rest[1..] == Without(nodes[1..], i - 1);
      GetWithout(nodes[1..], i - 1, x);
    }
  }

  lemma EdgeWithout(nodes: seq<Node>, i: nat, x: NodeId, y: NodeId)
    requires i < |nodes| && x != nodes[i].id
    ensures Edge(Without(nodes, i), x, y) <==> Edge(nodes, x, y)
  {
    GetWithout(nodes, i, x);
  }

  /** A path from `a` to `b` along dependency edges, possibly of length zero. */
  ghost predicate Reaches(nodes: seq<Node>, a: NodeId, b: NodeId) {
    exists w :: PathFrom(nodes, w, a, b)
  }

  ghost predicate PathFrom(nodes: seq<Node>, w: seq<NodeId>, a: NodeId, b: NodeId) {
    |w| > 0 && w[0] == a && w[|w| - 1] == b && Walk(nodes, w)
  }

  /** Up to its first visit of `id`, a walk with the node and one without are the same. */
  lemma UpToFirst(nodes: seq<Node>, i: nat, w: seq<NodeId>) returns (u: seq<NodeId>)
    requires i < |nodes| && nodes[i].id in w
    ensures u <= w && |u| > 0 && u[|u| - 1] == nodes[i].id
    ensures Walk(nodes, w) ==> Walk(Without(nodes, i), u)
    ensures Walk(Without(nodes, i), w) ==> Walk(nodes, u)
  {
    var j := FirstIndex(w, nodes[i].id);
    u := w[..j + 1];
    var rest := Without(nodes, i);
    forall k | 0 <= k < |u| - 1
      ensures Walk(nodes, w) ==> Edge(rest, u[k], u[k + 1])
    {
      assert w[k] in w[..j];
      EdgeWithout(nodes, i, w[k], w[k + 1]);
    }
    forall k | 0 <= k < |u| - 1
      ensures Walk(rest, w) ==> Edge(nodes, u[k], u[k + 1])
    {
      assert w[k] in w[..j];
      EdgeWithout(nodes, i, w[k], w[k + 1]);
    }
  }

  /** A newly exposed dependency that leads back to `id` closes a cycle. */
  lemma ExposedCycle(nodes: seq<Node>, i: nat, d: NodeId, w: seq<NodeId>)
    requires i < |nodes| && d in Deps(Without(nodes, i), nodes[i].id) && PathFrom(nodes, w, d, nodes[i].id)
    ensures !Acyclic(Without(nodes, i))
  {
    var u := UpToFirst(nodes, i, w);
    var cycle := [nodes[i].id] + u;
    forall k | 0 <= k < |cycle| - 1
      ensures Edge(Without(nodes, i), cycle[k], cycle[k + 1])
    {
      if k > 0 {
        assert Edge(Without(nodes, i), u[k - 1], u[k - 1 + 1]);
      }
    }
    assert ClosedWalk(Without(nodes, i), cycle);
  }

  /** A closed walk can be entered at any of its nodes. */
  lemma Rotate(nodes: seq<Node>, w: seq<NodeId>, t: nat) returns (u: seq<NodeId>)
    requires ClosedWalk(nodes, w) && t < |w| - 1
    ensures PathFrom(nodes, u, w[t + 1], w[t])
  {
    u := w[t + 1..] + w[1..t + 1];
    var n := |w| - (t + 1);
    forall k | 0 <= k < |u| - 1
      ensures Edge(nodes, u[k], u[k + 1])
    {
      if k < n - 1 {
        assert Edge(nodes, w[t + 1 + k], w[t + 1 + k + 1]);
      } else {
        assert Edge(nodes, w[k - n + 1], w[k - n + 1 + 1]);
      }
    }
  }

  /** A cycle that appears when a node is taken out goes through a newly exposed dependency. */
  lemma NewCycle(nodes: seq<Node>, i: nat, w: seq<NodeId>) returns (d: NodeId)
    requires i < |nodes| && Acyclic(nodes) && ClosedWalk(Without(nodes, i), w)
    ensures d in Deps(Without(nodes, i), nodes[i].id) && Reaches(nodes, d, nodes[i].id)
  {
    var rest, id := Without(nodes, i), nodes[i].id;
    if id !in w[..|w| - 1] {
      forall k | 0 <= k < |w| - 1
        ensures Edge(nodes, w[k], w[k + 1])
      {
        assert w[k] in w[..|w| - 1] && Edge(rest, w[k], w[k + 1]);
        EdgeWithout(nodes, i, w[k], w[k + 1]);
      }
      assert ClosedWalk(nodes, w);
      assert false;
    } else {
      var t := FirstIndex(w[..|w| - 1], id);
      d := w[t + 1];
      assert Edge(rest, w[t], w[t + 1]);
      var u := Rotate(rest, w, t);
      var v := UpToFirst(nodes, i, u);
      assert PathFrom(nodes, v, d, id);
    }
  }

  /** Without the node the graph stays acyclic exactly when no newly exposed dependency leads back to its id. */
  lemma AcyclicWithoutIff(nodes: seq<Node>, i: nat)
    requires i < |nodes| && Acyclic(nodes)
    ensures Acyclic(Without(nodes, i)) <==>
            forall d :: d in Deps(Without(nodes, i), nodes[i].id) ==> !Reaches(nodes, d, nodes[i].id)
  {
    if !Acyclic(Without(nodes, i)) {
      var w :| ClosedWalk(Without(nodes, i), w);
      var d := NewCycle(nodes, i, w);
    }
    if d :| d in Deps(Without(nodes, i), nodes[i].id) && Reaches(nodes, d, nodes[i].id) {
      var w :| PathFrom(nodes, w, d, nodes[i].id);
      ExposedCycle(nodes, i, d, w);
    }
  }

  lemma IdsWithout(nodes: seq<Node>, i: nat)
    requires i < |nodes|
    ensures forall n :: n in Without(nodes, i) ==> n in nodes
    ensures forall n :: n in nodes && n.id != nodes[i].id ==> n in Without(nodes, i)
    ensures Ids(Without(nodes, i)) + {nodes[i].id} == Ids(nodes)
  {
    var rest := Without(nodes, i);
    forall n | n in nodes && n.id != nodes[i].id
      ensures n in rest
    {
    }
    assert nodes[i] in nodes;
    assert forall x :: x in Ids(nodes) ==> x in Ids(rest) + {nodes[i].id};
  }

  /** All dependencies still exist exactly when the id is still there or no node depends on it. */
  lemma DependenciesWithoutIff(nodes: seq<Node>, i: nat)
    requires i < |nodes| && Validated(nodes)
    ensures DependenciesExist(Without(nodes, i)) <==>
            nodes[i].id in Ids(Without(nodes, i)) || Dependents(nodes, nodes[i].id) == []
  {
    var id, rest := nodes[i].id, Without(nodes, i);
    IdsWithout(nodes, i);
    if id in Ids(rest) {
      assert Ids(rest) == Ids(nodes);
      assert forall n, d :: n in rest && d in n.dependencies ==> n in nodes && d in Ids(nodes);
    } else {
      if Dependents(nodes, id) != [] {
        var n := Dependents(nodes, id)[0];
        assert n in Dependents(nodes, id);
        NoSelfDependency(nodes, i, n);
        assert n in rest;
      } else {
        assert forall n :: n in nodes ==> n !in Dependents(nodes, id);
      }
    }
  }

  /** In a validated workflow the only node with an id does not depend on itself. */
  lemma NoSelfDependency(nodes: seq<Node>, i: nat, n: Node)
    requires i < |nodes| && Acyclic(nodes) && nodes[i].id !in Ids(Without(nodes, i))
    requires n in nodes && nodes[i].id in n.dependencies
    ensures n in Without(nodes, i)
  {
    var id, rest := nodes[i].id, Without(nodes, i);
    if n !in rest {
      assert GetNode(nodes, id) == Some(n);
      assert ClosedWalk(nodes, [id, id]);
    }
  }

  /**
   * Taking out the first node with its id keeps a validated workflow valid exactly when, if it was
   * the only one, nothing depends on it, and if others had the id, no dependency of the one that
   * now counts leads back to it.
   */
  lemma RemovalKeepsValid(nodes: seq<Node>, i: nat)
    requires i < |nodes| && Validated(nodes)
    ensures Validated(Without(nodes, i)) <==>
            if nodes[i].id in Ids(Without(nodes, i)) then
              forall d :: d in Deps(Without(nodes, i), nodes[i].id) ==> !Reaches(nodes, d, nodes[i].id)
            else
              Dependents(nodes, nodes[i].id) == []
  {
    AcyclicWithoutIff(nodes, i);
    DependenciesWithoutIff(nodes, i);
  }

  // ----- the state of the depth-first search

  /** "On the path" is exactly "visited, and true"; finished ids follow their dependencies. */
  ghost predicate SearchOk(nodes: seq<Node>, visited: map<NodeId, bool>, path: seq<NodeId>, finished: seq<NodeId>) {
    && visited.Keys <= Ids(nodes)
    && (forall x :: x in path <==> x in visited && visited[x])
    && (forall x :: x in finished <==> x in visited && !visited[x])
    && Distinct(path)
    && Walk(nodes, path)
    && Ordered(nodes, finished)
  }

  ghost predicate Distinct(s: seq<NodeId>) {
    forall i, j :: 0 <= i < j < |s| ==> s[i] != s[j]
  }

  lemma PushKeeps(nodes: seq<Node>, visited: map<NodeId, bool>, path: seq<NodeId>, finished: seq<NodeId>, id: NodeId)
    requires SearchOk(nodes, visited, path, finished)
    requires id in Ids(nodes) && id !in visited
    requires |path| > 0 ==> Edge(nodes, path[|path| - 1], id)
    ensures SearchOk(nodes, visited[id := true], path + [id], finished)
  {
    assert forall x :: x in path + [id] <==> x in path || x == id;
  }

  lemma FinishKeeps(nodes: seq<Node>, visited: map<NodeId, bool>, path: seq<NodeId>, finished: seq<NodeId>, id: NodeId)
    requires SearchOk(nodes, visited, path + [id], finished)
    requires forall d :: d in Deps(nodes, id) ==> d in finished
    ensures SearchOk(nodes, visited[id := false], path, finished + [id])
  {
    var was := path + [id];
    assert was[|path|] == id;
    assert forall i :: 0 <= i < |path| ==> was[i] == path[i];
    assert forall x :: x in was <==> x in path || x == id;
    assert id !in path;
    assert id in was && id in visited;
    FinishOrdered(nodes, finished, id);
    assert forall x :: x in finished + [id] <==> x in finished || x == id;
  }

  lemma FinishOrdered(nodes: seq<Node>, finished: seq<NodeId>, id: NodeId)
    requires Ordered(nodes, finished)
    requires forall d :: d in Deps(nodes, id) ==> d in finished
    ensures Ordered(nodes, finished + [id])
  {
    var next := finished + [id];
    forall i, d | 0 <= i < |next| && d in Deps(nodes, next[i])
      ensures d in next[..i]
    {
      if i < |finished| {
        assert next[..i] == finished[..i];
      } else {
        assert next[..i] == finished;
      }
    }
  }

  /** A dependency that is on the path closes a cycle. */
  lemma ClosesCycle(nodes: seq<Node>, path: seq<NodeId>, start: nat, dep: NodeId)
    requires Walk(nodes, path) && start < |path| && path[start] == dep
    requires Edge(nodes, path[|path| - 1], dep)
    ensures ClosedWalk(nodes, path[start..] + [dep])
  {
    var w := path[start..] + [dep];
    forall i | 0 <= i < |w| - 1
      ensures Edge(nodes, w[i], w[i + 1])
    {
      if i < |w| - 2 {
        assert Edge(nodes, path[start + i], path[start + i + 1]);
      }
    }
  }
}
