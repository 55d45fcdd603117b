/**
 * The `MutationBuffer` class: the frozen flag, the per-cycle arrays and
 * node sets, `processMutation` / `handleAddedNode`, which sort records into
 * them, and `emit`, which flushes them into one incremental mutation event.
 * Each method is proved to make exactly the change that the functions of
 * `MutationRecords` and `Flush` describe.
 */
module MutationBuffers {
  import opened Wrappers
  import opened Dom
  import opened Captured
  import opened RecorderUtils
  import opened LinkedList
  import opened MutationUtils
  import opened MutationRecords
  import opened Flush

  // ------------------------------------------- the buffer keeps to the document

  /** Added-node handling that covers some nodes adds only document nodes. */
  lemma HandledOverStaysIn(e: Env, s: Buffers, r: Buffers, nodes: set<NodeRef>)
    requires Wf(e.d) && HandledOver(e, s, r, nodes) && BuffersIn(e.d, s)
    ensures BuffersIn(e.d, r)
  {
    assert forall m :: m in r.added ==> m in s.added || Reached(e, nodes, m);
    assert forall m :: m in r.moved ==> m in s.moved || Reached(e, nodes, m);
    assert forall m :: m in r.dropped ==> m in s.dropped;
  }

  /** Handling an added node puts only document nodes into the sets. */
  lemma {:induction false} AddedNodesStayIn(e: Env, s: Buffers, target: NodeRef, ns: seq<NodeRef>, i: nat)
    requires Wf(e.d) && i <= |ns| && (forall n :: n in ns ==> n in e.d.nodes) && BuffersIn(e.d, s)
    ensures BuffersIn(e.d, AddedNodesHandled(e, s, target, ns, i))
  {
    if i > 0 {
      AddedNodesStayIn(e, s, target, ns, i - 1);
      HandledAddedStaysIn(e, AddedNodesHandled(e, s, target, ns, i - 1), ns[i - 1], Some(target));
    }
  }

  lemma HandledAddedStaysIn(e: Env, s: Buffers, n: NodeRef, target: Option<NodeRef>)
    requires Wf(e.d) && n in e.d.nodes && BuffersIn(e.d, s)
    ensures BuffersIn(e.d, HandledAdded(e, s, n, target))
  {
    HandledAddedCovers(e, s, n, target);
    HandledOverStaysIn(e, s, HandledAdded(e, s, n, target), Subtree(e.d, n));
  }

  /** Handling a removed node of the document keeps every set within the document. */
  lemma RemovedStaysIn(e: Env, entries: map<int, NodeRef>, s: Buffers, target: NodeRef, n: NodeRef)
    requires Wf(e.d) && target in e.d.nodes && n in e.d.nodes && BuffersIn(e.d, s)
    ensures BuffersIn(e.d, RemovedHandled(e, entries, s, target, n))
  {
    var r := RemovedHandled(e, entries, s, target, n);
    match DispositionOf(e, entries, s, target, n)
    case Ignored =>
      assert r == s;
    case Dropped =>
      WithoutMembers(s.added, Subtree(e.d, n));
      assert r == s.(added := Without(s.added, Subtree(e.d, n)), dropped := AddTo(s.dropped, n), removedNodeMap := s.removedNodeMap + [n]);
    case MoveUndone =>
      WithoutMembers(s.moved, Subtree(e.d, n));
      assert r == s.(moved := Without(s.moved, Subtree(e.d, n)), removedNodeMap := s.removedNodeMap + [n]);
    case Recorded =>
      assert r.removedNodeMap == s.removedNodeMap + [n] && r.added == s.added && r.moved == s.moved && r.dropped == s.dropped;
    case _ =>
      assert r == s.(removedNodeMap := s.removedNodeMap + [n]);
  }

  lemma {:induction false} RemovedNodesStayIn(e: Env, entries: map<int, NodeRef>, s: Buffers, target: NodeRef, ns: seq<NodeRef>, i: nat)
    requires Wf(e.d) && target in e.d.nodes && i <= |ns| && (forall n :: n in ns ==> n in e.d.nodes) && BuffersIn(e.d, s)
    ensures BuffersIn(e.d, RemovedNodesHandled(e, entries, s, target, ns, i))
  {
    if i > 0 {
      RemovedNodesStayIn(e, entries, s, target, ns, i - 1);
      RemovedStaysIn(e, entries, RemovedNodesHandled(e, entries, s, target, ns, i - 1), target, ns[i - 1]);
    }
  }

  /** Classifying a record keeps every node the buffer holds within the document. */
  lemma ProcessedStaysIn(e: Env, entries: map<int, NodeRef>, s: Buffers, m: MutationRecord)
    requires Wf(e.d) && RecordOk(e, m) && BuffersIn(e.d, s)
    ensures BuffersIn(e.d, Processed(e, entries, s, m))
  {
    if m.ChildList? {
      AddedNodesStayIn(e, s, m.target, m.addedNodes, |m.addedNodes|);
      var s1 := AddedNodesHandled(e, s, m.target, m.addedNodes, |m.addedNodes|);
      RemovedNodesStayIn(e, entries, s1, m.target, m.removedNodes, |m.removedNodes|);
    }
  }

  // ------------------------------------------------------ emit's local state

  /** `pushAdd(n)` on the local queue and `adds` array. */
  method PushAddTo(e: Env, list: DoubleLinkedList, adds: seq<AddedNodeMutation>, n: NodeRef, captured: NodeCaptured)
    returns (adds1: seq<AddedNodeMutation>)
    requires list.Valid() && Wf(e.d) && n in e.d.nodes
    modifies list
    ensures list.Valid()
    ensures Pending(list.State(), adds1) == PushAdd(e, Pending(old(list.State()), adds), n, captured)
    ensures Ready(e, n) ==> list.rank == old(list.rank)
  {
    match e.d.nodes[n].parent {
      case None =>
        return adds;
      case Some(parent) =>
        var parentId := GetId(e.cnode, parent);
        var nextId := GetNextId(e, n);
        if parentId == -1 || nextId == Some(-1) {
          list.AddNode(e.d, n);
          return adds;
        }
        return adds + [AddedNodeMutation(parentId, nextId, captured)];
    }
  }

  /** The backward scan `for (index = length - 1; index >= 0; index--)` for a ready node. */
  method ScanQueue(e: Env, list: DoubleLinkedList) returns (pick: Pick)
    requires list.Valid() && Wf(e.d) && QueueOk(e, list.State())
    ensures pick == Scan(e, list.State(), list.length - 1)
  {
    ghost var l := list.State();
    assert Closed(l);
    var index := list.length - 1;
    while index >= 0
      invariant -1 <= index < l.length && list.State() == l
      invariant Scan(e, l, l.length - 1) == Scan(e, l, index)
      decreases index + 1
    {
      var got := list.Get(index);
      var node := got.value;
      assert node == Walk(l.cells, l.head, index);
      if node.None? {
        assert Scan(e, l, index) == ScanCrash;
        return ScanCrash;
      }
      if Ready(e, list.cells[node.value].value) {
        assert Scan(e, l, index) == Found(node.value);
        return Found(node.value);
      }
      ScanPast(e, l, index);
      index := index - 1;
    }
    assert index == -1;
    pick := NotFound;
    assert pick == Scan(e, l, -1);
  }

  /** Which cell the drain takes next: the candidate when it is ready, else the backward scan. */
  method PickNext(e: Env, list: DoubleLinkedList, candidate: Option<nat>) returns (pick: Pick)
    requires list.Valid() && Wf(e.d) && QueueOk(e, list.State()) && InRange(candidate, |list.cells|)
    ensures pick == if candidate.Some? && Ready(e, list.cells[candidate.value].value) then Found(candidate.value)
                    else Scan(e, list.State(), list.length - 1)
  {
    if candidate.Some? && Ready(e, list.cells[candidate.value].value) {
      return Found(candidate.value);
    }
    pick := ScanQueue(e, list);
  }

  /** Take the ready node in cell `c`: unlink it and push it, unless `removeNode` throws. */
  method TakeCell(e: Env, list: DoubleLinkedList, candidate: Option<nat>, c: nat, adds: seq<AddedNodeMutation>, captured: NodeCaptured)
    returns (thrown: bool, next: Option<nat>, adds1: seq<AddedNodeMutation>)
    requires list.Valid() && Wf(e.d) && QueueOk(e, list.State()) && InRange(candidate, |list.cells|)
    requires list.length != 0 && c < |list.cells|
    requires (if candidate.Some? && Ready(e, list.cells[candidate.value].value) then Found(candidate.value)
              else Scan(e, list.State(), list.length - 1)) == Found(c)
    modifies list
    ensures list.Valid() && list.rank == old(list.rank) && QueueOk(e, list.State()) && InRange(next, |list.cells|)
    ensures thrown ==> Drained(true, list.State(), adds1) == Drain(e, old(list.State()), old(list.rank), candidate, adds, captured)
    ensures !thrown ==> Drain(e, list.State(), list.rank, next, adds1, captured)
                        == Drain(e, old(list.State()), old(list.rank), candidate, adds, captured)
    ensures !thrown ==> list.length < old(list.length)
                        || (list.length == old(list.length) && Below(list.cells, list.rank, next) < Below(old(list.cells), list.rank, candidate))
  {
    ghost var l := list.State();
    var v := list.cells[c].value;
    next, adds1 := list.cells[c].previous, adds;
    thrown := list.RemoveNode(v);
    if thrown {
      DrainThrows(e, l, list.rank, candidate, c, adds, captured);
      return;
    }
    DrainTakes(e, l, list.rank, candidate, c, adds, captured);
    adds1 := PushAddTo(e, list, adds, v, captured);
  }

  /**
   * One round of the drain loop: stop on an empty queue, when nothing is
   * ready or when a `TypeError` escapes; otherwise take the picked node
   * and make its `previous` the next candidate.
   */
  method DrainRound(e: Env, list: DoubleLinkedList, candidate: Option<nat>, adds: seq<AddedNodeMutation>, captured: NodeCaptured)
    returns (stop: bool, crashed: bool, next: Option<nat>, adds1: seq<AddedNodeMutation>)
    requires list.Valid() && Wf(e.d) && QueueOk(e, list.State()) && InRange(candidate, |list.cells|)
    modifies list
    ensures list.Valid() && list.rank == old(list.rank) && QueueOk(e, list.State()) && InRange(next, |list.cells|)
    ensures stop ==> Drained(crashed, list.State(), adds1) == Drain(e, old(list.State()), old(list.rank), candidate, adds, captured)
    ensures !stop ==> Drain(e, list.State(), list.rank, next, adds1, captured)
                      == Drain(e, old(list.State()), old(list.rank), candidate, adds, captured)
    ensures !stop ==> list.length < old(list.length)
                      || (list.length == old(list.length) && Below(list.cells, list.rank, next) < Below(old(list.cells), list.rank, candidate))
  {
    next, adds1 := candidate, adds;
    if list.length == 0 {
      DrainEmpty(e, list.State(), list.rank, candidate, adds, captured);
      return true, false, next, adds1;
    }
    var pick := PickNext(e, list, candidate);
    if !pick.Found? {
      DrainIdle(e, list.State(), list.rank, candidate, pick, adds, captured);
      return true, pick.ScanCrash?, next, adds1;
    }
    var thrown;
    thrown, next, adds1 := TakeCell(e, list, candidate, pick.cell, adds, captured);
    stop, crashed := thrown, thrown;
  }

  /**
   * The drain loop `while (addedNodeList.length)` over the local queue,
   * with `crashed` when a `TypeError` escapes.
   */
  method DrainQueue(e: Env, list: DoubleLinkedList, adds: seq<AddedNodeMutation>, captured: NodeCaptured)
    returns (crashed: bool, adds1: seq<AddedNodeMutation>)
    requires list.Valid() && Wf(e.d) && QueueOk(e, list.State())
    modifies list
    ensures Drained(crashed, list.State(), adds1) == Drain(e, old(list.State()), old(list.rank), None, adds, captured)
  {
    ghost var rank := list.rank;
    ghost var goal := Drain(e, list.State(), rank, None, adds, captured);
    var candidate: Option<nat> := None;
    var done := false;
    crashed := false;
    adds1 := adds;
    while !done
      invariant list.Valid() && list.rank == rank && QueueOk(e, list.State()) && InRange(candidate, |list.cells|)
      invariant !done ==> Drain(e, list.State(), rank, candidate, adds1, captured) == goal
      invariant done ==> Drained(crashed, list.State(), adds1) == goal
      decreases if done then 0 else 1, list.length, Below(list.cells, rank, candidate)
    {
      done, crashed, candidate, adds1 := DrainRound(e, list, candidate, adds1, captured);
    }
  }

  /** Taking two key sets out of a map one after the other takes out their union. */
  lemma MapMinusUnion(m: map<int, NodeRef>, a: set<int>, b: set<int>)
    ensures m - a - b == m - (a + b)
  {
  }

  /** Processing a batch of well-formed records keeps every buffered node in the document. */
  lemma {:induction false} ProcessedAllStaysIn(e: Env, entries: map<int, NodeRef>, s: Buffers, records: seq<MutationRecord>, i: nat)
    requires Wf(e.d) && BuffersIn(e.d, s) && i <= |records| && forall k :: 0 <= k < |records| ==> RecordOk(e, records[k])
    ensures BuffersIn(e.d, ProcessedAll(e, entries, s, records, i))
  {
    if i > 0 {
      ProcessedAllStaysIn(e, entries, s, records, i - 1);
      ProcessedStaysIn(e, entries, ProcessedAll(e, entries, s, records, i - 1), records[i - 1]);
    }
  }

  /** The moved-set pass: `pushAdd` each moved node unless it sits below a removed node and its parent is not moved. */
  method StageMoved(e: Env, list: DoubleLinkedList, removes: seq<RemovedNodeMutation>, moved: seq<NodeRef>, captured: NodeCaptured)
    returns (adds: seq<AddedNodeMutation>)
    requires Wf(e.d) && list.Valid() && forall n :: n in moved ==> n in e.d.nodes
    modifies list
    ensures list.Valid()
    ensures Pending(list.State(), adds) == MovedPushed(e, removes, moved, Pending(old(list.State()), []), captured, |moved|)
  {
    adds := [];
    ghost var p0 := Pending(list.State(), adds);
    assert Closed(p0.list);
    for i := 0 to |moved|
      invariant list.Valid()
      invariant Pending(list.State(), adds) == MovedPushed(e, removes, moved, p0, captured, i)
    {
      MovedPushedStep(e, removes, moved, p0, captured, i);
      var n := moved[i];
      var parent := e.d.nodes[n].parent;
      if IsParentRemoved(e.d, e.cnode, removes, n) && !(parent.Some? && parent.value in moved) {
        continue;
      }
      adds := PushAddTo(e, list, adds, n, captured);
    }
  }

  /**
   * The added-set pass: `pushAdd` a node with no dropped and no removed
   * ancestor, or with a moved ancestor; otherwise add it to the dropped
   * set.
   */
  method StageAdded(e: Env, list: DoubleLinkedList, removes: seq<RemovedNodeMutation>, moved: seq<NodeRef>, added: seq<NodeRef>,
                    dropped: NodeSet, adds: seq<AddedNodeMutation>, captured: NodeCaptured)
    returns (adds1: seq<AddedNodeMutation>)
    requires Wf(e.d) && list.Valid() && forall n :: n in added ==> n in e.d.nodes
    modifies list, dropped
    ensures list.Valid()
    ensures Staging(Pending(list.State(), adds1), dropped.elems)
            == AddedPushed(e, removes, moved, added, Staging(Pending(old(list.State()), adds), old(dropped.elems)), captured, |added|)
  {
    ghost var start := Staging(Pending(list.State(), adds), dropped.elems);
    assert Closed(start.pending.list);
    adds1 := adds;
    for i := 0 to |added|
      invariant list.Valid()
      invariant Staging(Pending(list.State(), adds1), dropped.elems) == AddedPushed(e, removes, moved, added, start, captured, i)
    {
      AddedPushedStep(e, removes, moved, added, start, captured, i);
      adds1 := StageAddedNode(e, list, removes, moved, dropped, adds1, added[i], captured);
    }
  }

  /** One node of the added-set pass. */
  method StageAddedNode(e: Env, list: DoubleLinkedList, removes: seq<RemovedNodeMutation>, moved: seq<NodeRef>,
                        dropped: NodeSet, adds: seq<AddedNodeMutation>, n: NodeRef, captured: NodeCaptured)
    returns (adds1: seq<AddedNodeMutation>)
    requires Wf(e.d) && list.Valid() && n in e.d.nodes
    modifies list, dropped
    ensures list.Valid()
    ensures var q := Staging(Pending(old(list.State()), adds), old(dropped.elems));
            Staging(Pending(list.State(), adds1), dropped.elems)
            == if !IsAncestorInSet(e.d, q.dropped, n) && !IsParentRemoved(e.d, e.cnode, removes, n) then q.(pending := PushAdd(e, q.pending, n, captured))
               else if IsAncestorInSet(e.d, moved, n) then q.(pending := PushAdd(e, q.pending, n, captured))
               else q.(dropped := AddTo(q.dropped, n))
  {
    adds1 := adds;
    if !IsAncestorInSet(e.d, dropped.elems, n) && !IsParentRemoved(e.d, e.cnode, removes, n) {
      adds1 := PushAddTo(e, list, adds, n, captured);
    } else if IsAncestorInSet(e.d, moved, n) {
      adds1 := PushAddTo(e, list, adds, n, captured);
    } else {
      dropped.Add(n);
    }
  }

  /** Both passes over a new queue for the buffer state `s`; `rank` is the queue's ranking when they end. */
  method StageAll(e: Env, ghost s: Buffers, removes: seq<RemovedNodeMutation>, moved: seq<NodeRef>, added: seq<NodeRef>,
                  dropped: NodeSet, captured: NodeCaptured)
    returns (list: DoubleLinkedList, adds: seq<AddedNodeMutation>, ghost rank: seq<real>)
    requires Wf(e.d) && BuffersIn(e.d, s)
    requires s.removes == removes && s.moved == moved && s.added == added && s.dropped == dropped.elems
    modifies dropped
    ensures fresh(list) && list.Valid() && rank == list.rank
    ensures Staging(Pending(list.State(), adds), dropped.elems) == Staged(e, s, captured)
  {
    list := new DoubleLinkedList();
    assert list as object != dropped as object;
    ghost var l0 := list.State();
    adds := StageMoved(e, list, removes, moved, captured);
    ghost var p := Pending(list.State(), adds);
    ghost var d0 := dropped.elems;
    adds := StageAdded(e, list, removes, moved, added, dropped, adds, captured);
    StagedFrom(e, s, captured, removes, moved, added, d0, l0, p, Staging(Pending(list.State(), adds), dropped.elems));
    rank := list.rank;
  }

  // ------------------------------------------------------------- the class

  class MutationBuffer {
    var frozen: bool
    var texts: seq<TextCursor>
    var attributes: seq<AttributeCursor>
    var removes: seq<RemovedNodeMutation>
    var removedNodeMap: seq<NodeRef>
    var movedNodeMap: set<string>
    var addedNodeSet: NodeSet
    var movedNodeSet: NodeSet
    var droppedNodeSet: NodeSet

    /** The three sets are distinct objects and no node has two attribute cursors. */
    ghost predicate Valid()
      reads this`attributes, this`addedNodeSet, this`movedNodeSet, this`droppedNodeSet
    {
      && addedNodeSet != movedNodeSet && addedNodeSet != droppedNodeSet && movedNodeSet != droppedNodeSet
      && OneCursorPerNode(attributes)
    }

    /** The per-cycle state as a value. */
    function Snapshot(): Buffers
      reads this, addedNodeSet, movedNodeSet, droppedNodeSet
    {
      Buffers(texts, attributes, removes, removedNodeMap, movedNodeMap,
              addedNodeSet.elems, movedNodeSet.elems, droppedNodeSet.elems)
    }

    constructor()
      ensures Valid() && !frozen
      ensures Snapshot() == Buffers([], [], [], [], {}, [], [], [])
    {
      frozen := false;
      texts := [];
      attributes := [];
      removes := [];
      removedNodeMap := [];
      movedNodeMap := {};
      addedNodeSet := new NodeSet();
      movedNodeSet := new NodeSet();
      droppedNodeSet := new NodeSet();
    }

    /** `freeze()` */
    method Freeze()
      modifies this`frozen
      ensures frozen
    {
      frozen := true;
    }

    /** `unfreeze()` */
    method Unfreeze()
      modifies this`frozen
      ensures !frozen
    {
      frozen := false;
    }

    /** `isFrozen()` */
    method IsFrozen() returns (r: bool)
      ensures r == frozen
    {
      return frozen;
    }

    /**
     * `handleAddedNode(n, target)`: a blocked node is skipped with its
     * subtree; otherwise the node joins the moved set (with a move key) or
     * the added set, and its children follow, in order, with no target.
     */
    method HandleAddedNode(e: Env, n: NodeRef, target: Option<NodeRef>)
      requires Valid() && Wf(e.d) && n in e.d.nodes
      modifies this`movedNodeMap, addedNodeSet, movedNodeSet, droppedNodeSet
      ensures Valid()
      ensures Snapshot() == HandledAdded(e, old(Snapshot()), n, target)
      decreases e.d.height - e.d.nodes[n].depth, |e.d.nodes[n].children| + 1
    {
      if Blocked(e, n) {
        return;
      }
      MarkAdded(e, n, target);
      ghost var seen := Snapshot();
      var cs := e.d.nodes[n].children;
      for i := 0 to |cs|
        invariant Valid()
        invariant Snapshot() == HandledChildren(e, seen, n, i)
      {
        ChildAt(e.d, n, i);
        HandleAddedNode(e, cs[i], None);
      }
    }

    /** `handleAddedNode` for the node itself: the moved set and a move key, or the added set and out of the dropped set. */
    method MarkAdded(e: Env, n: NodeRef, target: Option<NodeRef>)
      requires Valid()
      modifies this`movedNodeMap, addedNodeSet, movedNodeSet, droppedNodeSet
      ensures Snapshot() == AddedNodeSeen(e, old(Snapshot()), n, target)
    {
      if n in e.fnode {
        movedNodeSet.Add(n);
        var targetId := if target.Some? && target.value in e.fnode then e.fnode[target.value] else 0;
        if targetId != 0 {
          movedNodeMap := movedNodeMap + {MoveKey(e.fnode[n], targetId)};
        }
      } else {
        addedNodeSet.Add(n);
        droppedNodeSet.Delete(n);
      }
    }

    /**
     * One node of a record's `removedNodes`: its disposition decides what
     * changes, and every node that is not ignored waits in
     * `removedNodeMap` to leave the mirror.
     */
    method HandleRemovedNode(e: Env, mirror: NodesMap, target: NodeRef, n: NodeRef)
      requires Valid() && Wf(e.d) && target in e.d.nodes && n in e.d.nodes
      modifies this`removes, this`removedNodeMap, addedNodeSet, movedNodeSet, droppedNodeSet
      ensures Valid()
      ensures Snapshot() == RemovedHandled(e, mirror.entries, old(Snapshot()), target, n)
    {
      if Blocked(e, n) || Blocked(e, target) {
        return;
      }
      Dispose(e, mirror, target, n);
      removedNodeMap := removedNodeMap + [n];
    }

    /** The `if`-chain for a removed node that is not blocked, before it is queued for eviction. */
    method Dispose(e: Env, mirror: NodesMap, target: NodeRef, n: NodeRef)
      requires Valid() && Wf(e.d) && target in e.d.nodes && n in e.d.nodes && !Blocked(e, n) && !Blocked(e, target)
      modifies this`removes, addedNodeSet, movedNodeSet, droppedNodeSet
      ensures Snapshot() == RemovedHandled(e, mirror.entries, old(Snapshot()), target, n).(removedNodeMap := removedNodeMap)
    {
      var nodeId := GetId(e.cnode, n);
      var parentId := GetId(e.cnode, target);
      ghost var disposition := DispositionOf(e, mirror.entries, Snapshot(), target, n);
      if addedNodeSet.Has(n) {
        assert disposition == Dropped;
        DropPending(e, n);
      } else if addedNodeSet.Has(target) && nodeId == -1 {
        assert disposition == UnderNewParent;
      } else if IsAncestorRemoved(e.d, e.cnode, mirror.entries, target) {
        assert disposition == UnderRemoved;
      } else if movedNodeSet.Has(n) && MoveKey(nodeId, parentId) in movedNodeMap {
        assert disposition == MoveUndone;
        UndoMove(e, n);
      } else {
        assert disposition == Recorded;
        removes := removes + [RemovedNodeMutation(parentId, nodeId)];
      }
    }

    /** A removed node still waiting to be added: `deepDelete(addedNodeSet, n)`, then `droppedNodeSet.add(n)`. */
    method DropPending(e: Env, n: NodeRef)
      requires Valid() && Wf(e.d) && n in e.d.nodes
      modifies addedNodeSet, droppedNodeSet
      ensures Valid()
      ensures addedNodeSet.elems == Without(old(addedNodeSet.elems), Subtree(e.d, n))
      ensures droppedNodeSet.elems == AddTo(old(droppedNodeSet.elems), n)
    {
      DeepDelete(addedNodeSet, e.d, n);
      droppedNodeSet.Add(n);
    }

    /** A move into the target is cancelled: `deepDelete(movedNodeSet, n)`. */
    method UndoMove(e: Env, n: NodeRef)
      requires Valid() && Wf(e.d) && n in e.d.nodes
      modifies movedNodeSet
      ensures Valid()
      ensures movedNodeSet.elems == Without(old(movedNodeSet.elems), Subtree(e.d, n))
    {
      DeepDelete(movedNodeSet, e.d, n);
    }

    /** The `characterData` case of `processMutation`. */
    method RecordText(e: Env, target: NodeRef, oldValue: Option<string>)
      requires Wf(e.d) && target in e.d.nodes
      modifies this`texts
      ensures Snapshot() == TextRecorded(e, old(Snapshot()), target, oldValue)
    {
      var value := e.d.nodes[target].text;
      if !Blocked(e, target) && Some(value) != oldValue {
        texts := texts + [TextCursor(target, value)];
      }
    }

    /** The `attributes` case of `processMutation`: `find` the target's cursor, or push a new one, and set the attribute. */
    method RecordAttribute(e: Env, target: NodeRef, name: string, oldValue: Option<string>)
      requires Wf(e.d) && target in e.d.nodes
      modifies this`attributes
      ensures Snapshot() == AttributeRecorded(e, old(Snapshot()), target, name, oldValue)
    {
      var value := GetAttribute(e.d.nodes[target].state.attributes, name);
      if Blocked(e, target) || value == oldValue {
        return;
      }
      var v := RecordedValue(e, name, value);
      match CursorOf(attributes, target) {
        case Some(i) =>
          attributes := attributes[i := attributes[i].(attributes := attributes[i].attributes[name := v])];
        case None =>
          attributes := attributes + [AttributeCursor(target, map[name := v])];
      }
    }

    /** The `childList` case of `processMutation`: the added nodes, then the removed ones, each in order. */
    method RecordChildList(e: Env, mirror: NodesMap, target: NodeRef, addedNodes: seq<NodeRef>, removedNodes: seq<NodeRef>)
      requires Valid() && Wf(e.d) && RecordOk(e, ChildList(target, addedNodes, removedNodes))
      modifies this`removes, this`removedNodeMap, this`movedNodeMap, addedNodeSet, movedNodeSet, droppedNodeSet
      ensures Valid()
      ensures Snapshot() == Processed(e, mirror.entries, old(Snapshot()), ChildList(target, addedNodes, removedNodes))
    {
      HandleAddedNodes(e, target, addedNodes);
      HandleRemovedNodes(e, mirror, target, removedNodes);
    }

    /** `m.addedNodes.forEach(n => handleAddedNode(n, m.target))` */
    method HandleAddedNodes(e: Env, target: NodeRef, addedNodes: seq<NodeRef>)
      requires Valid() && Wf(e.d) && forall n :: n in addedNodes ==> n in e.d.nodes
      modifies this`movedNodeMap, addedNodeSet, movedNodeSet, droppedNodeSet
      ensures Valid()
      ensures Snapshot() == AddedNodesHandled(e, old(Snapshot()), target, addedNodes, |addedNodes|)
    {
      for i := 0 to |addedNodes|
        invariant Valid()
        invariant Snapshot() == AddedNodesHandled(e, old(Snapshot()), target, addedNodes, i)
      {
        HandleAddedNode(e, addedNodes[i], Some(target));
      }
    }

    /** `m.removedNodes.forEach(...)` */
    method HandleRemovedNodes(e: Env, mirror: NodesMap, target: NodeRef, removedNodes: seq<NodeRef>)
      requires Valid() && Wf(e.d) && target in e.d.nodes && forall n :: n in removedNodes ==> n in e.d.nodes
      modifies this`removes, this`removedNodeMap, addedNodeSet, movedNodeSet, droppedNodeSet
      ensures Valid()
      ensures Snapshot() == RemovedNodesHandled(e, mirror.entries, old(Snapshot()), target, removedNodes, |removedNodes|)
    {
      for i := 0 to |removedNodes|
        invariant Valid()
        invariant Snapshot() == RemovedNodesHandled(e, mirror.entries, old(Snapshot()), target, removedNodes, i)
      {
        HandleRemovedNode(e, mirror, target, removedNodes[i]);
      }
    }

    /** `processMutation(m)`, dispatched on the record's type. */
    method ProcessMutation(e: Env, mirror: NodesMap, m: MutationRecord)
      requires Valid() && Wf(e.d) && RecordOk(e, m)
      modifies this`texts, this`attributes, this`removes, this`removedNodeMap, this`movedNodeMap
      modifies addedNodeSet, movedNodeSet, droppedNodeSet
      ensures Valid()
      ensures Snapshot() == Processed(e, mirror.entries, old(Snapshot()), m)
    {
      ProcessedKeepsOneCursor(e, mirror.entries, Snapshot(), m);
      match m
      case CharacterData(target, oldValue) =>
        RecordText(e, target, oldValue);
      case AttributesRecord(target, name, oldValue) =>
        RecordAttribute(e, target, name, oldValue);
      case ChildList(target, addedNodes, removedNodes) =>
        RecordChildList(e, mirror, target, addedNodes, removedNodes);
      case OtherRecord(_) =>
    }

    // ------------------------------------------------------------ emit

    /**
     * `while (this.removedNodeMap.length) mirror.removeNodeFromMap(this.removedNodeMap.shift())`:
     * every queued subtree leaves the mirror.
     */
    method EvictRemoved(e: Env, mirror: NodesMap)
      requires Wf(e.d) && forall n :: n in removedNodeMap ==> n in e.d.nodes
      modifies this`removedNodeMap, mirror
      ensures removedNodeMap == []
      ensures mirror.entries == old(mirror.entries) - EvictedIds(e.d, e.cnode, old(removedNodeMap))
    {
      while |removedNodeMap| > 0
        invariant forall n :: n in removedNodeMap ==> n in e.d.nodes
        invariant mirror.entries - EvictedIds(e.d, e.cnode, removedNodeMap)
                  == old(mirror.entries) - EvictedIds(e.d, e.cnode, old(removedNodeMap))
        decreases |removedNodeMap|
      {
        var n := removedNodeMap[0];
        ghost var before := mirror.entries;
        var rest := removedNodeMap[1..];
        assert forall m :: m in rest ==> m in removedNodeMap;
        assert EvictedIds(e.d, e.cnode, removedNodeMap) == Ids(e.cnode, Subtree(e.d, n)) + EvictedIds(e.d, e.cnode, rest);
        removedNodeMap := rest;
        mirror.RemoveNodeFromMap(e.d, e.cnode, n);
        MapMinusUnion(before, Ids(e.cnode, Subtree(e.d, n)), EvictedIds(e.d, e.cnode, rest));
      }
    }

    /** The reset after an emitted payload: fresh arrays, sets and move keys. */
    method Reset()
      modifies this`texts, this`attributes, this`removes, this`movedNodeMap, this`addedNodeSet, this`movedNodeSet, this`droppedNodeSet
      ensures Valid() && fresh(addedNodeSet) && fresh(movedNodeSet) && fresh(droppedNodeSet)
      ensures Snapshot() == Cleared.(removedNodeMap := removedNodeMap)
    {
      texts := [];
      attributes := [];
      removes := [];
      addedNodeSet := new NodeSet();
      movedNodeSet := new NodeSet();
      droppedNodeSet := new NodeSet();
      movedNodeMap := {};
    }

    /**
     * `emit()`: evict the removed subtrees from the mirror, stage the moved
     * and added sets, drain the queue, then report the payload and reset
     * unless it is empty. `Crashed` when the drain throws.
     */
    method Emit(e: Env, mirror: NodesMap, captured: NodeCaptured) returns (outcome: Outcome, ghost rank: seq<real>)
      requires Valid() && Wf(e.d) && BuffersIn(e.d, Snapshot())
      modifies this`texts, this`attributes, this`removes, this`removedNodeMap, this`movedNodeMap
      modifies this`addedNodeSet, this`movedNodeSet, this`droppedNodeSet, droppedNodeSet, mirror
      ensures Valid() && BuffersIn(e.d, Snapshot())
      ensures Ranked(Staged(e, old(Snapshot()), captured).pending.list.cells, rank)
      ensures FlushResult(outcome, Snapshot(), mirror.entries) == Flushed(e, old(mirror.entries), old(Snapshot()), rank, captured)
    {
      ghost var s0 := Snapshot();
      EvictRemoved(e, mirror);
      assert Snapshot() == s0.(removedNodeMap := []);
      var list, adds;
      list, adds, rank := StageAll(e, Snapshot(), removes, movedNodeSet.elems, addedNodeSet.elems, droppedNodeSet, captured);
      StagedIsOk(e, s0, captured);
      FlushStaysIn(e, old(mirror.entries), s0, rank, captured);
      var crashed;
      crashed, adds := DrainQueue(e, list, adds, captured);
      if crashed {
        return Crashed, rank;
      }
      var data := MutationData(TextPayload(e.cnode, mirror.entries, texts), AttributePayload(e.cnode, mirror.entries, attributes),
                               removes, adds);
      if Empty(data) {
        return Suppressed, rank;
      }
      Reset();
      outcome := Emitted(data);
    }

    /** `mutations.forEach(this.processMutation)` */
    method ProcessAll(e: Env, mirror: NodesMap, records: seq<MutationRecord>)
      requires Valid() && Wf(e.d) && forall k :: 0 <= k < |records| ==> RecordOk(e, records[k])
      modifies this`texts, this`attributes, this`removes, this`removedNodeMap, this`movedNodeMap
      modifies addedNodeSet, movedNodeSet, droppedNodeSet
      ensures Valid()
      ensures Snapshot() == ProcessedAll(e, mirror.entries, old(Snapshot()), records, |records|)
    {
      for i := 0 to |records|
        invariant Valid()
        invariant Snapshot() == ProcessedAll(e, mirror.entries, old(Snapshot()), records, i)
      {
        ProcessMutation(e, mirror, records[i]);
      }
    }

    /**
     * `processMutations(mutations)`: process every record in order, then
     * emit unless frozen. `None` when frozen: the records stay buffered
     * and the mirror is untouched.
     */
    method ProcessMutations(e: Env, mirror: NodesMap, records: seq<MutationRecord>, captured: NodeCaptured)
      returns (outcome: Option<Outcome>, ghost rank: seq<real>)
      requires Valid() && Wf(e.d) && BuffersIn(e.d, Snapshot()) && forall k :: 0 <= k < |records| ==> RecordOk(e, records[k])
      modifies this`texts, this`attributes, this`removes, this`removedNodeMap, this`movedNodeMap
      modifies this`addedNodeSet, this`movedNodeSet, this`droppedNodeSet, addedNodeSet, movedNodeSet, droppedNodeSet, mirror
      ensures Valid() && BuffersIn(e.d, Snapshot())
      ensures var s := ProcessedAll(e, old(mirror.entries), old(Snapshot()), records, |records|);
              && BuffersIn(e.d, s)
              && (frozen ==> outcome.None? && Snapshot() == s && mirror.entries == old(mirror.entries))
              && (!frozen ==> && outcome.Some?
                              && Ranked(Staged(e, s, captured).pending.list.cells, rank)
                              && FlushResult(outcome.value, Snapshot(), mirror.entries) == Flushed(e, old(mirror.entries), s, rank, captured))
    {
      ProcessAll(e, mirror, records);
      ProcessedAllStaysIn(e, mirror.entries, old(Snapshot()), records, |records|);
      if frozen {
        return None, [];
      }
      var o;
      o, rank := Emit(e, mirror, captured);
      outcome := Some(o);
    }
  }
}
