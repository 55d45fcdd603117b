/**
 * The mirror (`_NFMHandler`): the map from node ids to captured nodes, with
 * `getId`, `getNode`, `has` and `removeNodeFromMap`, and the predicates that
 * walk up the tree: `isBlocked`, `isAncestorRemoved`, `isIframeNodeFormated`.
 */
module RecorderUtils {
  import opened Wrappers
  import opened Dom
  import opened Captured

  /** `getId`: the id in a node's `_cnode`, or -1 for a node that has none. */
  function GetId(cnode: map<NodeRef, NodeCaptured>, n: NodeRef): int {
    if n in cnode then cnode[n].nodeId else -1
  }

  /** The ids recorded in the `_cnode` of the nodes of `s` that have one. */
  function Ids(cnode: map<NodeRef, NodeCaptured>, s: set<NodeRef>): set<int> {
    set m | m in s && m in cnode :: cnode[m].nodeId
  }

  lemma IdsUnion(cnode: map<NodeRef, NodeCaptured>, a: set<NodeRef>, b: set<NodeRef>)
    ensures Ids(cnode, a + b) == Ids(cnode, a) + Ids(cnode, b)
  {
    forall id | id in Ids(cnode, a + b)
      ensures id in Ids(cnode, a) + Ids(cnode, b)
    {
      var m :| m in a + b && m in cnode && cnode[m].nodeId == id;
      if m in a {
        assert id in Ids(cnode, a);
      } else {
        assert id in Ids(cnode, b);
      }
    }
  }

  /** Every id in the map names a node whose `_cnode` carries that id. */
  ghost predicate Consistent(cnode: map<NodeRef, NodeCaptured>, entries: map<int, NodeRef>) {
    forall id :: id in entries ==> entries[id] in cnode && cnode[entries[id]].nodeId == id
  }

  /** A `DocumentNodesMap`; the mirror is the one the recorder shares. */
  class NodesMap {
    var entries: map<int, NodeRef>

    /** `getNode`: the node stored under `id`, or null. */
    function GetNode(id: int): (r: Option<NodeRef>)
      reads this
      ensures r.Some? <==> Has(id)
      ensures r.Some? ==> entries[id] == r.value
    {
      if id in entries then Some(entries[id]) else None
    }

    /** `has`: whether `id` is a key of the map. */
    predicate Has(id: int)
      reads this
    {
      id in entries
    }

    /** In a consistent map, the node found under an id gives that id back. */
    lemma GetNodeThenGetId(cnode: map<NodeRef, NodeCaptured>, id: int)
      requires Consistent(cnode, entries) && Has(id)
      ensures GetNode(id).Some? && GetId(cnode, GetNode(id).value) == id
    {
      assert entries[id] in cnode;
    }

    /**
     * `removeNodeFromMap`: deletes the id of `n` and, recursively, of every
     * descendant; every other entry stays.
     */
    method RemoveNodeFromMap(d: Dom, cnode: map<NodeRef, NodeCaptured>, n: NodeRef)
      requires Wf(d) && n in d.nodes
      modifies this
      ensures entries == old(entries) - Ids(cnode, Subtree(d, n))
      decreases d.height - d.nodes[n].depth
    {
      RemovedFirst(d, cnode, n);
      if n in cnode {
        entries := entries - {cnode[n].nodeId};
      }
      var cs := d.nodes[n].children;
      for i := 0 to |cs|
        invariant entries == old(entries) - RemovedWithChildren(d, cnode, n, i)
      {
        ChildAt(d, n, i);
        RemoveNodeFromMap(d, cnode, cs[i]);
        RemovedNextChild(d, cnode, n, i, old(entries));
      }
      RemovedAll(d, cnode, n);
    }
  }

  /** The ids of `n` and of the subtrees of its first `i` children. */
  ghost function RemovedWithChildren(d: Dom, cnode: map<NodeRef, NodeCaptured>, n: NodeRef, i: nat): set<int>
    requires Wf(d) && n in d.nodes && i <= |d.nodes[n].children|
  {
    Ids(cnode, {n} + Forest(d, n, i))
  }

  lemma RemovedFirst(d: Dom, cnode: map<NodeRef, NodeCaptured>, n: NodeRef)
    requires Wf(d) && n in d.nodes
    ensures RemovedWithChildren(d, cnode, n, 0) == if n in cnode then {cnode[n].nodeId} else {}
  {
    assert {n} + Forest(d, n, 0) == {n};
  }

  lemma RemovedAll(d: Dom, cnode: map<NodeRef, NodeCaptured>, n: NodeRef)
    requires Wf(d) && n in d.nodes
    ensures RemovedWithChildren(d, cnode, n, |d.nodes[n].children|) == Ids(cnode, Subtree(d, n))
  {
  }

  lemma RemovedNextChild(d: Dom, cnode: map<NodeRef, NodeCaptured>, n: NodeRef, i: nat, m: map<int, NodeRef>)
    requires Wf(d) && n in d.nodes && i < |d.nodes[n].children| && d.nodes[n].children[i] in d.nodes
    ensures m - RemovedWithChildren(d, cnode, n, i) - Ids(cnode, Subtree(d, d.nodes[n].children[i]))
            == m - RemovedWithChildren(d, cnode, n, i + 1)
  {
    IdsStep(cnode, m, n, Forest(d, n, i), Subtree(d, d.nodes[n].children[i]), Forest(d, n, i + 1));
  }

  /** Removing the ids of one more subtree after those of `{n} + before`. */
  lemma IdsStep(cnode: map<NodeRef, NodeCaptured>, m: map<int, NodeRef>, n: NodeRef,
                before: set<NodeRef>, s: set<NodeRef>, after: set<NodeRef>)
    requires after == before + s
    ensures m - Ids(cnode, {n} + before) - Ids(cnode, s) == m - Ids(cnode, {n} + after)
  {
    IdsUnion(cnode, {n} + before, s);
    assert {n} + after == {n} + before + s;
  }

  /** `isBlocked(node, blockClass)` for a string class. */
  function IsBlocked(d: Dom, n: Option<NodeRef>, blockClass: string): bool
    requires Wf(d) && (n.Some? ==> n.value in d.nodes)
    decreases if n.Some? then d.nodes[n.value].depth + 1 else 0
  {
    match n
    case None => false
    case Some(x) =>
      if IsElement(d, x) then blockClass in d.nodes[x].classes || IsBlocked(d, d.nodes[x].parent, blockClass)
      else IsBlocked(d, d.nodes[x].parent, blockClass)
  }

  /** `n` or one of its ancestors is an element carrying the class. */
  ghost predicate HasMarkedAncestor(d: Dom, n: NodeRef, blockClass: string)
    requires Wf(d) && n in d.nodes
  {
    exists k: nat :: AncestorAt(d, n, k).Some? && IsElement(d, AncestorAt(d, n, k).value)
                && blockClass in d.nodes[AncestorAt(d, n, k).value].classes
  }

  /** A node is blocked exactly when it or an ancestor element carries the block class. */
  lemma {:induction false} BlockedIffMarkedAncestor(d: Dom, n: NodeRef, blockClass: string)
    requires Wf(d) && n in d.nodes
    ensures IsBlocked(d, Some(n), blockClass) <==> HasMarkedAncestor(d, n, blockClass)
    decreases d.nodes[n].depth
  {
    assert AncestorAt(d, n, 0) == Some(n);
    match d.nodes[n].parent
    case None =>
      assert forall k: nat :: k > 0 ==> AncestorAt(d, n, k) == None;
    case Some(p) =>
      BlockedIffMarkedAncestor(d, p, blockClass);
      assert forall k: nat :: AncestorAt(d, n, k + 1) == AncestorAt(d, p, k);
      if HasMarkedAncestor(d, n, blockClass) && !(IsElement(d, n) && blockClass in d.nodes[n].classes) {
        var k: nat :| AncestorAt(d, n, k).Some? && IsElement(d, AncestorAt(d, n, k).value)
                      && blockClass in d.nodes[AncestorAt(d, n, k).value].classes;
        assert AncestorAt(d, p, k - 1) == AncestorAt(d, n, k);
      }
  }

  /** Blocking is inherited: every node of a blocked node's subtree is blocked. */
  lemma {:induction false} BlockedSubtree(d: Dom, n: NodeRef, blockClass: string)
    requires Wf(d) && n in d.nodes && IsBlocked(d, Some(n), blockClass)
    ensures forall m :: m in Subtree(d, n) ==> IsBlocked(d, Some(m), blockClass)
    decreases d.height - d.nodes[n].depth, |d.nodes[n].children| + 1
  {
    BlockedForest(d, n, |d.nodes[n].children|, blockClass);
  }

  lemma {:induction false} BlockedForest(d: Dom, n: NodeRef, i: nat, blockClass: string)
    requires Wf(d) && n in d.nodes && i <= |d.nodes[n].children| && IsBlocked(d, Some(n), blockClass)
    ensures forall m :: m in Forest(d, n, i) ==> IsBlocked(d, Some(m), blockClass)
    decreases d.height - d.nodes[n].depth, i
  {
    if i > 0 {
      var c := d.nodes[n].children[i - 1];
      assert IsBlocked(d, Some(c), blockClass);
      assert Forest(d, n, i) == Forest(d, n, i - 1) + Subtree(d, c);
      BlockedSubtree(d, c, blockClass);
      BlockedForest(d, n, i - 1, blockClass);
    }
  }

  /** `isAncestorRemoved` */
  function IsAncestorRemoved(d: Dom, cnode: map<NodeRef, NodeCaptured>, entries: map<int, NodeRef>, n: NodeRef): bool
    requires Wf(d) && n in d.nodes
    decreases d.nodes[n].depth
  {
    if GetId(cnode, n) !in entries then true
    else match d.nodes[n].parent
      case Some(p) =>
        if IsDocument(d, p) then false else IsAncestorRemoved(d, cnode, entries, p)
      case None => true
  }

  /**
   * The walk from `n` up `k` steps meets only mapped nodes and ends at a
   * child of a document.
   */
  ghost predicate MappedChainToDocument(d: Dom, cnode: map<NodeRef, NodeCaptured>, entries: map<int, NodeRef>,
                                        n: NodeRef, k: nat)
    requires Wf(d) && n in d.nodes
  {
    && AncestorAt(d, n, k).Some?
    && (forall j :: 0 <= j <= k ==> AncestorAt(d, n, j).Some? && GetId(cnode, AncestorAt(d, n, j).value) in entries)
    && var a := AncestorAt(d, n, k).value;
       d.nodes[a].parent.Some? && IsDocument(d, d.nodes[a].parent.value)
  }

  /**
   * A node counts as still attached exactly when every node from it up to a
   * child of a document is in the map.
   */
  lemma {:induction false} AncestorRemovedIffNoMappedChain(d: Dom, cnode: map<NodeRef, NodeCaptured>,
                                                           entries: map<int, NodeRef>, n: NodeRef)
    requires Wf(d) && n in d.nodes
    ensures !IsAncestorRemoved(d, cnode, entries, n) <==> exists k: nat :: MappedChainToDocument(d, cnode, entries, n, k)
    decreases d.nodes[n].depth
  {
    assert AncestorAt(d, n, 0) == Some(n);
    if GetId(cnode, n) in entries {
      match d.nodes[n].parent
      case None =>
        assert forall k: nat :: k > 0 ==> AncestorAt(d, n, k) == None;
      case Some(p) =>
        if IsDocument(d, p) {
          assert MappedChainToDocument(d, cnode, entries, n, 0);
        } else {
          AncestorRemovedIffNoMappedChain(d, cnode, entries, p);
          if exists k: nat :: MappedChainToDocument(d, cnode, entries, p, k) {
            var k: nat :| MappedChainToDocument(d, cnode, entries, p, k);
            ChainFromParent(d, cnode, entries, n, p, k);
          }
          if exists k: nat :: MappedChainToDocument(d, cnode, entries, n, k) {
            var k: nat :| MappedChainToDocument(d, cnode, entries, n, k);
            ChainToParent(d, cnode, entries, n, p, k);
          }
        }
    }
  }

  /** Following `parentNode` `k + 1` times from a child is following it `k` times from the parent. */
  lemma AncestorThroughParent(d: Dom, n: NodeRef, p: NodeRef)
    requires Wf(d) && n in d.nodes && d.nodes[n].parent == Some(p)
    ensures p in d.nodes && forall k: nat :: AncestorAt(d, n, k + 1) == AncestorAt(d, p, k)
  {
  }

  lemma ChainFromParent(d: Dom, cnode: map<NodeRef, NodeCaptured>, entries: map<int, NodeRef>,
                        n: NodeRef, p: NodeRef, k: nat)
    requires Wf(d) && n in d.nodes && d.nodes[n].parent == Some(p) && GetId(cnode, n) in entries
    requires p in d.nodes && MappedChainToDocument(d, cnode, entries, p, k)
    ensures MappedChainToDocument(d, cnode, entries, n, k + 1)
  {
    AncestorThroughParent(d, n, p);
    assert AncestorAt(d, n, 0) == Some(n);
    forall j | 0 <= j <= k + 1
      ensures AncestorAt(d, n, j).Some? && GetId(cnode, AncestorAt(d, n, j).value) in entries
    {
      if j > 0 {
        assert AncestorAt(d, n, j) == AncestorAt(d, p, j - 1);
      }
    }
  }

  lemma ChainToParent(d: Dom, cnode: map<NodeRef, NodeCaptured>, entries: map<int, NodeRef>,
                      n: NodeRef, p: NodeRef, k: nat)
    requires Wf(d) && n in d.nodes && d.nodes[n].parent == Some(p) && !IsDocument(d, p)
    requires MappedChainToDocument(d, cnode, entries, n, k)
    ensures p in d.nodes && k > 0 && MappedChainToDocument(d, cnode, entries, p, k - 1)
  {
    AncestorThroughParent(d, n, p);
    assert AncestorAt(d, n, 0) == Some(n);
    forall j | 0 <= j <= k - 1
      ensures AncestorAt(d, p, j).Some? && GetId(cnode, AncestorAt(d, p, j).value) in entries
    {
      assert AncestorAt(d, p, j) == AncestorAt(d, n, j + 1);
    }
  }

  /**
   * Once the ids of a subtree are deleted from a map whose ids are all
   * non-negative, every node of that subtree counts as removed.
   */
  lemma RemovedSubtreeIsAncestorRemoved(d: Dom, cnode: map<NodeRef, NodeCaptured>, entries: map<int, NodeRef>,
                                        n: NodeRef, m: NodeRef)
    requires Wf(d) && n in d.nodes && m in Subtree(d, n)
    requires forall id :: id in entries ==> id >= 0
    ensures IsAncestorRemoved(d, cnode, entries - Ids(cnode, Subtree(d, n)), m)
  {
    if m in cnode {
      assert cnode[m].nodeId in Ids(cnode, Subtree(d, n));
    }
  }

  /** `isIframeNodeFormated`: the node's `_cnode` is an element named 'iframe'. */
  predicate IsIframeNodeFormated(cnode: map<NodeRef, NodeCaptured>, n: NodeRef) {
    n in cnode && cnode[n].body.ElementNode? && cnode[n].body.elementName == "iframe"
  }
}
