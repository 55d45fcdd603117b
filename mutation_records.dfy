/**
 * How `processMutation` and `handleAddedNode` sort the records of a
 * `MutationObserver` into the buffer's per-cycle state, as functions from
 * the old state to the new one. The `MutationBuffer` class in
 * `MutationBuffers` is proved to make exactly these changes.
 */
module MutationRecords {
  import opened Wrappers
  import opened Dom
  import opened Captured
  import opened RecorderUtils
  import opened CaptorUtils
  import opened MutationUtils

  /** The class that hides a subtree from the recorder. */
  const BlockClass: string := "norecord"

  /** A `mutationRecord`, by its `type`. */
  datatype MutationRecord =
    | CharacterData(target: NodeRef, oldValue: Option<string>)
    | AttributesRecord(target: NodeRef, attributeName: string, oldValue: Option<string>)
    | ChildList(target: NodeRef, addedNodes: seq<NodeRef>, removedNodes: seq<NodeRef>)
    | OtherRecord(target: NodeRef)

  datatype TextCursor = TextCursor(node: NodeRef, value: string)

  /** An `attributeCursor`: the node and its changed attributes, null for a removed one. */
  datatype AttributeCursor = AttributeCursor(node: NodeRef, attributes: map<string, Option<string>>)

  /**
   * What classification reads and never changes: the document, the browser
   * services, the global `document`, the `_cnode` stamps and the `_fnode`
   * stamps that make a node count as already serialized.
   */
  datatype Env = Env(d: Dom, b: Browser, doc: NodeRef, cnode: map<NodeRef, NodeCaptured>, fnode: map<NodeRef, int>)

  /**
   * The buffer's per-cycle state: the text and attribute cursors, the
   * removals, the nodes waiting to leave the mirror, the move keys and the
   * added, moved and dropped node sets (each in insertion order).
   */
  datatype Buffers = Buffers(
    texts: seq<TextCursor>,
    attributes: seq<AttributeCursor>,
    removes: seq<RemovedNodeMutation>,
    removedNodeMap: seq<NodeRef>,
    movedNodeMap: set<string>,
    added: seq<NodeRef>,
    moved: seq<NodeRef>,
    dropped: seq<NodeRef>)

  /** `isBlocked(n, 'norecord')` */
  predicate Blocked(e: Env, n: NodeRef)
    requires Wf(e.d) && n in e.d.nodes
  {
    IsBlocked(e.d, Some(n), BlockClass)
  }

  /** `set.add(n)` on a set's elements. */
  function AddTo(s: seq<NodeRef>, n: NodeRef): seq<NodeRef> {
    if n in s then s else s + [n]
  }

  /** Every node a record names is one the document knows. */
  predicate RecordOk(e: Env, m: MutationRecord) {
    && m.target in e.d.nodes
    && (m.ChildList? ==> (forall n :: n in m.addedNodes ==> n in e.d.nodes) && (forall n :: n in m.removedNodes ==> n in e.d.nodes))
  }

  // ---------------------------------------------------------------- text

  /** A `characterData` record: a cursor with the current text unless blocked or unchanged. */
  function TextRecorded(e: Env, s: Buffers, target: NodeRef, oldValue: Option<string>): Buffers
    requires Wf(e.d) && target in e.d.nodes
  {
    var value := e.d.nodes[target].text;
    if !Blocked(e, target) && Some(value) != oldValue then s.(texts := s.texts + [TextCursor(target, value)]) else s
  }

  /**
   * A text record adds one cursor, at the end, exactly when the target is
   * not blocked and its text differs from `oldValue`, even when the node
   * already has a cursor; nothing else changes.
   */
  lemma TextCursorAppended(e: Env, s: Buffers, target: NodeRef, oldValue: Option<string>)
    requires Wf(e.d) && target in e.d.nodes
    ensures var r := TextRecorded(e, s, target, oldValue);
            && r.(texts := s.texts) == s
            && (r.texts != s.texts <==> !Blocked(e, target) && oldValue != Some(e.d.nodes[target].text))
            && (r.texts != s.texts ==> r.texts == s.texts + [TextCursor(target, e.d.nodes[target].text)])
  {
  }

  // ---------------------------------------------------------- attributes

  /** `attributes.find(a => a.node === n)`: the position of the first cursor for `n`. */
  function CursorOf(cursors: seq<AttributeCursor>, n: NodeRef): (r: Option<nat>)
    ensures r.Some? ==> r.value < |cursors| && cursors[r.value].node == n
    ensures r.None? ==> forall k :: 0 <= k < |cursors| ==> cursors[k].node != n
  {
    if cursors == [] then None
    else if cursors[0].node == n then Some(0)
    else match CursorOf(cursors[1..], n)
      case None => None
      case Some(k) => Some(k + 1)
  }

  /** No node has two attribute cursors. */
  predicate OneCursorPerNode(cursors: seq<AttributeCursor>) {
    forall i, j :: 0 <= i < j < |cursors| ==> cursors[i].node != cursors[j].node
  }

  /** The value recorded for a changed attribute: transformed, or null for a removed one. */
  function RecordedValue(e: Env, name: string, value: Option<string>): Option<string> {
    if value.Some? then Some(TransformAttribute(e.b, e.doc, name, value.value)) else None
  }

  /**
   * An `attributes` record: ignored when the target is blocked or the value
   * equals `oldValue`; otherwise the target's cursor, created at the end if
   * missing, gets the attribute set to the transformed value.
   */
  function AttributeRecorded(e: Env, s: Buffers, target: NodeRef, name: string, oldValue: Option<string>): Buffers
    requires Wf(e.d) && target in e.d.nodes
  {
    var value := GetAttribute(e.d.nodes[target].state.attributes, name);
    if Blocked(e, target) || value == oldValue then s
    else
      var v := RecordedValue(e, name, value);
      match CursorOf(s.attributes, target)
      case Some(i) => s.(attributes := s.attributes[i := s.attributes[i].(attributes := s.attributes[i].attributes[name := v])])
      case None => s.(attributes := s.attributes + [AttributeCursor(target, map[name := v])])
  }

  /**
   * Attribute records keep one cursor per node. A recorded change leaves
   * the target's cursor with the attribute at its new value and every
   * other attribute and cursor as it was; an ignored one changes nothing.
   */
  lemma AttributeOverwrites(e: Env, s: Buffers, target: NodeRef, name: string, oldValue: Option<string>)
    requires Wf(e.d) && target in e.d.nodes && OneCursorPerNode(s.attributes)
    ensures var r := AttributeRecorded(e, s, target, name, oldValue);
            var value := GetAttribute(e.d.nodes[target].state.attributes, name);
            && r.(attributes := s.attributes) == s
            && OneCursorPerNode(r.attributes)
            && (Blocked(e, target) || value == oldValue ==> r == s)
            && (!Blocked(e, target) && value != oldValue ==>
                  exists i :: 0 <= i < |r.attributes| && r.attributes[i].node == target
                    && r.attributes[i].attributes == (if i < |s.attributes| then s.attributes[i].attributes else map[])[name := RecordedValue(e, name, value)]
                    && (forall j :: 0 <= j < |s.attributes| && j != i ==> r.attributes[j] == s.attributes[j]))
  {
    var r := AttributeRecorded(e, s, target, name, oldValue);
    var value := GetAttribute(e.d.nodes[target].state.attributes, name);
    if !Blocked(e, target) && value != oldValue {
      match CursorOf(s.attributes, target)
      case Some(i) =>
        assert r.attributes[i].node == target;
      case None =>
        var i := |s.attributes|;
        assert r.attributes[i].node == target;
    }
  }

  // ---------------------------------------------------------- added nodes

  /**
   * `handleAddedNode(n, target)` for `n` itself: an already serialized node
   * joins the moved set, with a move key when the target is serialized
   * with a truthy id; any other node joins the added set and leaves the
   * dropped set.
   */
  function AddedNodeSeen(e: Env, s: Buffers, n: NodeRef, target: Option<NodeRef>): Buffers {
    if n in e.fnode then
      var targetId := if target.Some? && target.value in e.fnode then e.fnode[target.value] else 0;
      s.(moved := AddTo(s.moved, n),
         movedNodeMap := if targetId != 0 then s.movedNodeMap + {MoveKey(e.fnode[n], targetId)} else s.movedNodeMap)
    else
      s.(added := AddTo(s.added, n), dropped := Without(s.dropped, {n}))
  }

  /** `handleAddedNode(n, target)`: nothing for a blocked node, else `n` and then its children in order. */
  function HandledAdded(e: Env, s: Buffers, n: NodeRef, target: Option<NodeRef>): Buffers
    requires Wf(e.d) && n in e.d.nodes
    decreases e.d.height - e.d.nodes[n].depth, |e.d.nodes[n].children| + 1
  {
    if Blocked(e, n) then s
    else HandledChildren(e, AddedNodeSeen(e, s, n, target), n, |e.d.nodes[n].children|)
  }

  /** The first `i` children of `n` handled in order, with no target. */
  function HandledChildren(e: Env, s: Buffers, n: NodeRef, i: nat): Buffers
    requires Wf(e.d) && n in e.d.nodes && i <= |e.d.nodes[n].children|
    decreases e.d.height - e.d.nodes[n].depth, i
  {
    if i == 0 then s
    else
      ChildAt(e.d, n, i - 1);
      HandledAdded(e, HandledChildren(e, s, n, i - 1), e.d.nodes[n].children[i - 1], None)
  }

  /** `m` is a node of `nodes` that the recorder does not block. */
  predicate Reached(e: Env, nodes: set<NodeRef>, m: NodeRef)
    requires Wf(e.d)
  {
    m in nodes && m in e.d.nodes && !Blocked(e, m)
  }

  /**
   * `r` is `s` after handling added nodes that cover `nodes`: only the
   * three sets and the move keys change; the added and moved sets only
   * grow, and only by reached nodes; the dropped set only loses reached
   * unserialized nodes; and every reached node is in the moved set when
   * serialized, else in the added set and out of the dropped set.
   */
  ghost predicate HandledOver(e: Env, s: Buffers, r: Buffers, nodes: set<NodeRef>)
    requires Wf(e.d)
  {
    && r.texts == s.texts && r.attributes == s.attributes && r.removes == s.removes
    && r.removedNodeMap == s.removedNodeMap && s.movedNodeMap <= r.movedNodeMap
    && (forall m :: m in s.added ==> m in r.added)
    && (forall m :: m in r.added ==> m in s.added || Reached(e, nodes, m))
    && (forall m :: m in s.moved ==> m in r.moved)
    && (forall m :: m in r.moved ==> m in s.moved || Reached(e, nodes, m))
    && (forall m :: m in r.dropped ==> m in s.dropped)
    && (forall m :: m in s.dropped && !(Reached(e, nodes, m) && m !in e.fnode) ==> m in r.dropped)
    && (forall m :: Reached(e, nodes, m) ==>
          (m in e.fnode ==> m in r.moved) && (m !in e.fnode ==> m in r.added && m !in r.dropped))
  }

  /** Handling that covers `a` and then handling that covers `b` together cover `ab`, their union. */
  lemma HandledOverJoin(e: Env, s: Buffers, r1: Buffers, r2: Buffers, a: set<NodeRef>, b: set<NodeRef>, ab: set<NodeRef>)
    requires Wf(e.d) && HandledOver(e, s, r1, a) && HandledOver(e, r1, r2, b) && ab == a + b
    ensures HandledOver(e, s, r2, ab)
  {
  }

  lemma HandledOverNothing(e: Env, s: Buffers, nodes: set<NodeRef>)
    requires Wf(e.d) && forall m :: m in nodes && m in e.d.nodes ==> Blocked(e, m)
    ensures HandledOver(e, s, s, nodes)
  {
  }

  lemma SeenOver(e: Env, s: Buffers, n: NodeRef, target: Option<NodeRef>)
    requires Wf(e.d) && n in e.d.nodes && !Blocked(e, n)
    ensures HandledOver(e, s, AddedNodeSeen(e, s, n, target), {n})
  {
    WithoutMembers(s.dropped, {n});
  }

  /**
   * Handling an added node reaches every node of its subtree that is not
   * blocked: each ends up in the moved set if already serialized, else in
   * the added set and out of the dropped set; nothing outside those nodes
   * joins a set and nothing else changes.
   */
  lemma {:induction false} HandledAddedCovers(e: Env, s: Buffers, n: NodeRef, target: Option<NodeRef>)
    requires Wf(e.d) && n in e.d.nodes
    ensures HandledOver(e, s, HandledAdded(e, s, n, target), Subtree(e.d, n))
    decreases e.d.height - e.d.nodes[n].depth, |e.d.nodes[n].children| + 1
  {
    if Blocked(e, n) {
      BlockedSubtree(e.d, n, BlockClass);
      HandledOverNothing(e, s, Subtree(e.d, n));
    } else {
      var s1 := AddedNodeSeen(e, s, n, target);
      var k := |e.d.nodes[n].children|;
      SeenOver(e, s, n, target);
      HandledChildrenCover(e, s1, n, k);
      HandledOverJoin(e, s, s1, HandledChildren(e, s1, n, k), {n}, Forest(e.d, n, k), Subtree(e.d, n));
    }
  }

  lemma {:induction false} HandledChildrenCover(e: Env, s: Buffers, n: NodeRef, i: nat)
    requires Wf(e.d) && n in e.d.nodes && i <= |e.d.nodes[n].children|
    ensures HandledOver(e, s, HandledChildren(e, s, n, i), Forest(e.d, n, i))
    decreases e.d.height - e.d.nodes[n].depth, i
  {
    if i == 0 {
      HandledOverNothing(e, s, {});
    } else {
      ChildAt(e.d, n, i - 1);
      HandledChildrenCover(e, s, n, i - 1);
      HandledAddedCovers(e, HandledChildren(e, s, n, i - 1), e.d.nodes[n].children[i - 1], None);
      ChildrenCoverStep(e, s, n, i);
    }
  }

  /** One more child: what the first `i - 1` children cover and what the `i`-th covers add up. */
  lemma ChildrenCoverStep(e: Env, s: Buffers, n: NodeRef, i: nat)
    requires Wf(e.d) && n in e.d.nodes && 0 < i <= |e.d.nodes[n].children|
    requires e.d.nodes[n].children[i - 1] in e.d.nodes
    requires HandledOver(e, s, HandledChildren(e, s, n, i - 1), Forest(e.d, n, i - 1))
    requires HandledOver(e, HandledChildren(e, s, n, i - 1),
                         HandledAdded(e, HandledChildren(e, s, n, i - 1), e.d.nodes[n].children[i - 1], None),
                         Subtree(e.d, e.d.nodes[n].children[i - 1]))
    ensures HandledOver(e, s, HandledChildren(e, s, n, i), Forest(e.d, n, i))
  {
    var c := e.d.nodes[n].children[i - 1];
    var s1 := HandledChildren(e, s, n, i - 1);
    var s2 := HandledAdded(e, s1, c, None);
    assert HandledChildren(e, s, n, i) == s2;
    ForestLast(e.d, n, i);
    HandledOverJoin(e, s, s1, s2, Forest(e.d, n, i - 1), Subtree(e.d, c), Forest(e.d, n, i));
  }

  // -------------------------------------------------------- removed nodes

  /** What becomes of a removed node; each removed node gets exactly one. */
  datatype Disposition =
    | Ignored          // the node or the target is blocked
    | Dropped          // still waiting to be serialized: it leaves the added set
    | UnderNewParent   // the target is newly added and the node was never serialized
    | UnderRemoved     // the target already counts as removed
    | MoveUndone       // a move into this target is cancelled
    | Recorded         // a removal `{parentId, id}` is recorded

  /** The `if`-chain of the `removedNodes` callback. */
  function DispositionOf(e: Env, entries: map<int, NodeRef>, s: Buffers, target: NodeRef, n: NodeRef): Disposition
    requires Wf(e.d) && target in e.d.nodes && n in e.d.nodes
  {
    var nodeId := GetId(e.cnode, n);
    var parentId := GetId(e.cnode, target);
    if Blocked(e, n) || Blocked(e, target) then Ignored
    else if n in s.added then Dropped
    else if target in s.added && nodeId == -1 then UnderNewParent
    else if IsAncestorRemoved(e.d, e.cnode, entries, target) then UnderRemoved
    else if n in s.moved && MoveKey(nodeId, parentId) in s.movedNodeMap then MoveUndone
    else Recorded
  }

  /** One removed node of a `childList` record; every node not ignored is queued for eviction from the mirror. */
  function RemovedHandled(e: Env, entries: map<int, NodeRef>, s: Buffers, target: NodeRef, n: NodeRef): (r: Buffers)
    requires Wf(e.d) && target in e.d.nodes && n in e.d.nodes
    ensures r.texts == s.texts && r.attributes == s.attributes
  {
    var s1 := match DispositionOf(e, entries, s, target, n)
      case Dropped => s.(added := Without(s.added, Subtree(e.d, n)), dropped := AddTo(s.dropped, n))
      case MoveUndone => s.(moved := Without(s.moved, Subtree(e.d, n)))
      case Recorded => s.(removes := s.removes + [RemovedNodeMutation(GetId(e.cnode, target), GetId(e.cnode, n))])
      case _ => s;
    if DispositionOf(e, entries, s, target, n).Ignored? then s else s1.(removedNodeMap := s1.removedNodeMap + [n])
  }

  /**
   * A removed node is queued for eviction exactly once unless it or the
   * target is blocked, in which case nothing changes. A node still waiting
   * to be added leaves the added set with all its descendants and joins
   * the dropped set, with no removal recorded; a removal is recorded, with
   * the target's and the node's ids, exactly when none of the earlier
   * cases applies.
   */
  lemma RemovedNodeDisposition(e: Env, entries: map<int, NodeRef>, s: Buffers, target: NodeRef, n: NodeRef)
    requires Wf(e.d) && target in e.d.nodes && n in e.d.nodes
    ensures var r := RemovedHandled(e, entries, s, target, n);
            var blocked := Blocked(e, n) || Blocked(e, target);
            && (blocked ==> r == s)
            && (!blocked ==> r.removedNodeMap == s.removedNodeMap + [n])
            && (!blocked && n in s.added ==>
                  n in r.dropped && r.removes == s.removes && forall m :: m in Subtree(e.d, n) ==> m !in r.added)
            && (r.removes != s.removes <==>
                  !blocked && n !in s.added && !(target in s.added && GetId(e.cnode, n) == -1)
                  && !IsAncestorRemoved(e.d, e.cnode, entries, target)
                  && !(n in s.moved && MoveKey(GetId(e.cnode, n), GetId(e.cnode, target)) in s.movedNodeMap))
            && (r.removes != s.removes ==>
                  r.removes == s.removes + [RemovedNodeMutation(GetId(e.cnode, target), GetId(e.cnode, n))])
  {
    var disposition := DispositionOf(e, entries, s, target, n);
    if disposition.Dropped? {
      WithoutMembers(s.added, Subtree(e.d, n));
    } else if disposition.Recorded? {
      assert RemovedHandled(e, entries, s, target, n).removes
          == s.removes + [RemovedNodeMutation(GetId(e.cnode, target), GetId(e.cnode, n))];
    } else {
      assert RemovedHandled(e, entries, s, target, n).removes == s.removes;
    }
  }

  // ------------------------------------------------------------- records

  /** The added nodes of a `childList` record, the first `i` of them handled in order. */
  function AddedNodesHandled(e: Env, s: Buffers, target: NodeRef, ns: seq<NodeRef>, i: nat): Buffers
    requires Wf(e.d) && i <= |ns| && forall n :: n in ns ==> n in e.d.nodes
  {
    if i == 0 then s else HandledAdded(e, AddedNodesHandled(e, s, target, ns, i - 1), ns[i - 1], Some(target))
  }

  /** The removed nodes of a `childList` record, the first `i` of them handled in order. */
  function RemovedNodesHandled(e: Env, entries: map<int, NodeRef>, s: Buffers, target: NodeRef, ns: seq<NodeRef>, i: nat): Buffers
    requires Wf(e.d) && target in e.d.nodes && i <= |ns| && forall n :: n in ns ==> n in e.d.nodes
  {
    if i == 0 then s else RemovedHandled(e, entries, RemovedNodesHandled(e, entries, s, target, ns, i - 1), target, ns[i - 1])
  }

  /** `processMutation(m)` */
  function Processed(e: Env, entries: map<int, NodeRef>, s: Buffers, m: MutationRecord): Buffers
    requires Wf(e.d) && RecordOk(e, m)
  {
    match m
    case CharacterData(target, oldValue) => TextRecorded(e, s, target, oldValue)
    case AttributesRecord(target, name, oldValue) => AttributeRecorded(e, s, target, name, oldValue)
    case ChildList(target, addedNodes, removedNodes) =>
      var s1 := AddedNodesHandled(e, s, target, addedNodes, |addedNodes|);
      RemovedNodesHandled(e, entries, s1, target, removedNodes, |removedNodes|)
    case OtherRecord(_) => s
  }

  /** The first `i` records classified in order (`mutations.forEach(processMutation)`). */
  function ProcessedAll(e: Env, entries: map<int, NodeRef>, s: Buffers, records: seq<MutationRecord>, i: nat): Buffers
    requires Wf(e.d) && i <= |records| && forall m :: m in records ==> RecordOk(e, m)
  {
    if i == 0 then s else Processed(e, entries, ProcessedAll(e, entries, s, records, i - 1), records[i - 1])
  }

  /** Classifying a record keeps one attribute cursor per node. */
  lemma {:induction false} ProcessedKeepsOneCursor(e: Env, entries: map<int, NodeRef>, s: Buffers, m: MutationRecord)
    requires Wf(e.d) && RecordOk(e, m) && OneCursorPerNode(s.attributes)
    ensures OneCursorPerNode(Processed(e, entries, s, m).attributes)
  {
    match m
    case AttributesRecord(target, name, oldValue) =>
      AttributeOverwrites(e, s, target, name, oldValue);
    case ChildList(target, addedNodes, removedNodes) =>
      var s1 := AddedNodesHandled(e, s, target, addedNodes, |addedNodes|);
      AddedNodesKeepAttributes(e, s, target, addedNodes, |addedNodes|);
      RemovedNodesKeepAttributes(e, entries, s1, target, removedNodes, |removedNodes|);
    case _ =>
  }

  lemma {:induction false} AddedNodesKeepAttributes(e: Env, s: Buffers, target: NodeRef, ns: seq<NodeRef>, i: nat)
    requires Wf(e.d) && i <= |ns| && forall n :: n in ns ==> n in e.d.nodes
    ensures AddedNodesHandled(e, s, target, ns, i).attributes == s.attributes
  {
    if i > 0 {
      var s1 := AddedNodesHandled(e, s, target, ns, i - 1);
      AddedNodesKeepAttributes(e, s, target, ns, i - 1);
      HandledAddedCovers(e, s1, ns[i - 1], Some(target));
    }
  }

  lemma {:induction false} RemovedNodesKeepAttributes(e: Env, entries: map<int, NodeRef>, s: Buffers, target: NodeRef, ns: seq<NodeRef>, i: nat)
    requires Wf(e.d) && target in e.d.nodes && i <= |ns| && forall n :: n in ns ==> n in e.d.nodes
    ensures RemovedNodesHandled(e, entries, s, target, ns, i).attributes == s.attributes
  {
    if i > 0 {
      RemovedNodesKeepAttributes(e, entries, s, target, ns, i - 1);
    }
  }
}
