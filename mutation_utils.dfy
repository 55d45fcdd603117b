/**
 * The helpers beside the mutation buffer: `moveKey`, the insertion-ordered
 * node sets (`Set<Node>`) with `deepDelete`, and the two walks up the tree,
 * `isParentRemoved` and `isAncestorInSet`.
 */
module MutationUtils {
  import opened Wrappers
  import opened Strings
  import opened Dom
  import opened Captured
  import opened RecorderUtils

  /** `moveKey(id, parentId)`: the template string `${id}@${parentId}`. */
  function MoveKey(id: int, parentId: int): string {
    IntToString(id) + "@" + IntToString(parentId)
  }

  /** Distinct pairs of ids give distinct move keys. */
  lemma MoveKeyInjective(a: int, b: int, c: int, e: int)
    requires MoveKey(a, b) == MoveKey(c, e)
    ensures a == c && b == e
  {
    var s := MoveKey(a, b);
    var i := |IntToString(a)|;
    var j := |IntToString(c)|;
    assert s[i] == '@';
    assert MoveKey(c, e)[j] == '@';
    if i < j {
      assert false;
    } else if j < i {
      assert false;
    }
    assert IntToString(a) == s[..i] == IntToString(c);
    assert IntToString(b) == s[i + 1..] == IntToString(e);
    IntToStringInjective(a, c);
    IntToStringInjective(b, e);
  }

  /** A change record `{parentId, id}` for a removed node. */
  datatype RemovedNodeMutation = RemovedNodeMutation(parentId: int, id: int)

  predicate NoDups(s: seq<NodeRef>) {
    forall i, j :: 0 <= i < j < |s| ==> s[i] != s[j]
  }

  /** The nodes of `s` outside `x`, in their order. */
  function Without(s: seq<NodeRef>, x: set<NodeRef>): (r: seq<NodeRef>)
    ensures |r| <= |s|
  {
    if s == [] then []
    else if s[0] in x then Without(s[1..], x)
    else [s[0]] + Without(s[1..], x)
  }

  /** `Without` keeps exactly the nodes outside `x`, and no node twice if there was none. */
  lemma {:induction false} WithoutMembers(s: seq<NodeRef>, x: set<NodeRef>)
    ensures forall m :: m in Without(s, x) <==> m in s && m !in x
    ensures NoDups(s) ==> NoDups(Without(s, x))
  {
    if s != [] {
      WithoutMembers(s[1..], x);
      assert forall m :: m in s <==> m == s[0] || m in s[1..];
    }
  }

  /** Taking out `a` and then `b` is taking out `a + b`. */
  lemma {:induction false} WithoutTwice(s: seq<NodeRef>, a: set<NodeRef>, b: set<NodeRef>)
    ensures Without(Without(s, a), b) == Without(s, a + b)
  {
    if s != [] {
      WithoutTwice(s[1..], a, b);
      if s[0] !in a {
        assert Without(s, a) == [s[0]] + Without(s[1..], a);
        assert Without(s, a)[1..] == Without(s[1..], a);
      }
    }
  }

  /** Taking out nodes that are not there changes nothing. */
  lemma {:induction false} WithoutAbsent(s: seq<NodeRef>, x: set<NodeRef>)
    requires forall m :: m in x ==> m !in s
    ensures Without(s, x) == s
  {
    if s != [] {
      assert forall m :: m in s[1..] ==> m in s;
      WithoutAbsent(s[1..], x);
    }
  }

  /** A JavaScript `Set<Node>`: its elements in insertion order. */
  class NodeSet {
    var elems: seq<NodeRef>

    constructor()
      ensures elems == []
    {
      elems := [];
    }

    /** `has(n)` */
    predicate Has(n: NodeRef)
      reads this
    {
      n in elems
    }

    /** `add(n)`: appended unless already there. */
    method Add(n: NodeRef)
      modifies this
      ensures elems == if n in old(elems) then old(elems) else old(elems) + [n]
    {
      if n !in elems {
        elems := elems + [n];
      }
    }

    /** `delete(n)` */
    method Delete(n: NodeRef)
      modifies this
      ensures elems == Without(old(elems), {n})
    {
      elems := Without(elems, {n});
    }
  }

  /** `deepDelete(set, n)`: takes `n` and all its descendants out of the set; the rest keep their order. */
  method DeepDelete(s: NodeSet, d: Dom, n: NodeRef)
    requires Wf(d) && n in d.nodes
    modifies s
    ensures s.elems == Without(old(s.elems), Subtree(d, n))
    decreases d.height - d.nodes[n].depth
  {
    s.Delete(n);
    var cs := d.nodes[n].children;
    SubtreeEnds(d, n);
    for i := 0 to |cs|
      invariant s.elems == Without(old(s.elems), {n} + Forest(d, n, i))
    {
      ChildAt(d, n, i);
      DeepDelete(s, d, cs[i]);
      WithoutTwice(old(s.elems), {n} + Forest(d, n, i), Subtree(d, cs[i]));
      SubtreeGrows(d, n, i);
    }
  }

  lemma SubtreeEnds(d: Dom, n: NodeRef)
    requires Wf(d) && n in d.nodes
    ensures {n} + Forest(d, n, 0) == {n}
    ensures Subtree(d, n) == {n} + Forest(d, n, |d.nodes[n].children|)
  {
  }

  lemma SubtreeGrows(d: Dom, n: NodeRef, i: nat)
    requires Wf(d) && n in d.nodes && i < |d.nodes[n].children|
    ensures d.nodes[n].children[i] in d.nodes
    ensures {n} + Forest(d, n, i) + Subtree(d, d.nodes[n].children[i]) == {n} + Forest(d, n, i + 1)
  {
    ForestLast(d, n, i + 1);
  }

  /** The ids the recorded removals name. */
  function RemovedIds(removes: seq<RemovedNodeMutation>): set<int> {
    set r | r in removes :: r.id
  }

  /** `isParentRemoved(removes, n)`: some ancestor's id is the id of a recorded removal. */
  function IsParentRemoved(d: Dom, cnode: map<NodeRef, NodeCaptured>, removes: seq<RemovedNodeMutation>, n: NodeRef): bool
    requires Wf(d) && n in d.nodes
    decreases d.nodes[n].depth
  {
    match d.nodes[n].parent
    case None => false
    case Some(p) => GetId(cnode, p) in RemovedIds(removes) || IsParentRemoved(d, cnode, removes, p)
  }

  /** `isAncestorInSet(set, n)` */
  function IsAncestorInSet(d: Dom, s: seq<NodeRef>, n: NodeRef): bool
    requires Wf(d) && n in d.nodes
    decreases d.nodes[n].depth
  {
    match d.nodes[n].parent
    case None => false
    case Some(p) => p in s || IsAncestorInSet(d, s, p)
  }

  /** Some proper ancestor of `n` (one step up or more) satisfies `test`. */
  ghost predicate HasProperAncestor(d: Dom, n: NodeRef, test: NodeRef -> bool)
    requires Wf(d) && n in d.nodes
  {
    exists k: nat :: 0 < k && AncestorAt(d, n, k).Some? && test(AncestorAt(d, n, k).value)
  }

  /** One step up from `n` and then `k` more is `k + 1` steps from `n`. */
  lemma ProperAncestorThroughParent(d: Dom, n: NodeRef, p: NodeRef, test: NodeRef -> bool)
    requires Wf(d) && n in d.nodes && d.nodes[n].parent == Some(p)
    ensures p in d.nodes
    ensures HasProperAncestor(d, n, test) <==> test(p) || HasProperAncestor(d, p, test)
  {
    AncestorThroughParent(d, n, p);
    assert AncestorAt(d, p, 0) == Some(p);
    if HasProperAncestor(d, n, test) && !test(p) {
      var k: nat :| 0 < k && AncestorAt(d, n, k).Some? && test(AncestorAt(d, n, k).value);
      assert AncestorAt(d, n, k) == AncestorAt(d, p, k - 1);
      assert k - 1 > 0;
    }
    if HasProperAncestor(d, p, test) {
      var k: nat :| 0 < k && AncestorAt(d, p, k).Some? && test(AncestorAt(d, p, k).value);
      assert AncestorAt(d, n, k + 1) == AncestorAt(d, p, k);
    }
    if test(p) {
      assert AncestorAt(d, n, 1) == AncestorAt(d, p, 0);
    }
  }

  /** A node without a parent has no proper ancestor. */
  lemma NoProperAncestorAtRoot(d: Dom, n: NodeRef, test: NodeRef -> bool)
    requires Wf(d) && n in d.nodes && d.nodes[n].parent.None?
    ensures !HasProperAncestor(d, n, test)
  {
    assert forall k: nat :: 0 < k ==> AncestorAt(d, n, k) == None;
  }

  /** `isAncestorInSet` holds exactly when some proper ancestor is in the set. */
  lemma {:induction false} AncestorInSetIff(d: Dom, s: seq<NodeRef>, n: NodeRef)
    requires Wf(d) && n in d.nodes
    ensures IsAncestorInSet(d, s, n) <==> HasProperAncestor(d, n, m => m in s)
    decreases d.nodes[n].depth
  {
    match d.nodes[n].parent
    case None =>
      NoProperAncestorAtRoot(d, n, m => m in s);
    case Some(p) =>
      ProperAncestorThroughParent(d, n, p, m => m in s);
      AncestorInSetIff(d, s, p);
  }

  /**
   * `isParentRemoved` holds exactly when some proper ancestor's id is the
   * id of a recorded removal.
   */
  lemma {:induction false} ParentRemovedIff(d: Dom, cnode: map<NodeRef, NodeCaptured>, removes: seq<RemovedNodeMutation>, n: NodeRef)
    requires Wf(d) && n in d.nodes
    ensures IsParentRemoved(d, cnode, removes, n) <==> HasProperAncestor(d, n, (m: NodeRef) => GetId(cnode, m) in RemovedIds(removes))
    decreases d.nodes[n].depth
  {
    var test := (m: NodeRef) => GetId(cnode, m) in RemovedIds(removes);
    match d.nodes[n].parent
    case None =>
      NoProperAncestorAtRoot(d, n, test);
    case Some(p) =>
      ProperAncestorThroughParent(d, n, p, test);
      ParentRemovedIff(d, cnode, removes, p);
  }
}
