/**
 * What `emit` computes, as functions of the buffer's state: the ids an add
 * entry carries (`getNextId`, `pushAdd`), the passes over the moved and the
 * added node sets, the drain of the pending-add queue, the eviction of
 * removed subtrees from the mirror and the text and attribute payloads it
 * filters. The `MutationBuffer` class in `MutationBuffers` is proved to
 * compute exactly these.
 */
module Flush {
  import opened Wrappers
  import opened Dom
  import opened Captured
  import opened RecorderUtils
  import opened LinkedList
  import opened MutationUtils
  import opened MutationRecords

  datatype TextMutation = TextMutation(id: int, value: string)

  datatype AttributeMutation = AttributeMutation(id: int, attributes: map<string, Option<string>>)

  /** An `addedNodeMutation`; `node` is whatever the serializer call returned. */
  datatype AddedNodeMutation = AddedNodeMutation(parentId: int, nextId: Option<int>, node: NodeCaptured)

  /** The `texts`, `attributes`, `removes` and `adds` of an incremental mutation event. */
  datatype MutationData = MutationData(
    texts: seq<TextMutation>,
    attributes: seq<AttributeMutation>,
    removes: seq<RemovedNodeMutation>,
    adds: seq<AddedNodeMutation>)

  /** How a flush ends: the callback gets an event, the event is empty, or a `TypeError` escapes. */
  datatype Outcome = Emitted(data: MutationData) | Suppressed | Crashed

  // ------------------------------------------------------------ pushAdd

  /**
   * `getNextId(n)`: null without a next sibling; null too when the sibling
   * has no id and is blocked; otherwise the sibling's id, -1 included.
   */
  function GetNextId(e: Env, n: NodeRef): Option<int>
    requires Wf(e.d) && n in e.d.nodes
  {
    match NextSibling(e.d, n)
    case None => None
    case Some(s) =>
      var id := GetId(e.cnode, s);
      if id == -1 && Blocked(e, s) then None else Some(id)
  }

  /**
   * `nextId` is null exactly when there is no next sibling or the sibling
   * has no id and is blocked; it is -1 exactly when the sibling has no id
   * and is not blocked; any other value is the sibling's id.
   */
  lemma NextIdCases(e: Env, n: NodeRef)
    requires Wf(e.d) && n in e.d.nodes
    ensures var r := GetNextId(e, n);
            && (r.None? <==> match NextSibling(e.d, n)
                             case None => true
                             case Some(s) => GetId(e.cnode, s) == -1 && Blocked(e, s))
            && (r == Some(-1) <==> match NextSibling(e.d, n)
                                   case None => false
                                   case Some(s) => GetId(e.cnode, s) == -1 && !Blocked(e, s))
            && (r.Some? ==> NextSibling(e.d, n).Some? && r.value == GetId(e.cnode, NextSibling(e.d, n).value))
  {
  }

  /** An add entry for `n` can be written now: its parent has an id and its `nextId` is not -1. */
  predicate Ready(e: Env, n: NodeRef)
    requires Wf(e.d) && n in e.d.nodes
  {
    e.d.nodes[n].parent.Some? && GetId(e.cnode, e.d.nodes[n].parent.value) != -1 && GetNextId(e, n) != Some(-1)
  }

  /** What `pushAdd` builds: the pending-add queue and the `adds` array. */
  datatype Pending = Pending(list: ListState, adds: seq<AddedNodeMutation>)

  /** An add entry refers to a known parent and a next sibling that is known or left out. */
  predicate Resolved(a: AddedNodeMutation) {
    a.parentId != -1 && a.nextId != Some(-1)
  }

  predicate AllResolved(adds: seq<AddedNodeMutation>) {
    forall k :: 0 <= k < |adds| ==> Resolved(adds[k])
  }

  lemma ResolvedAppend(adds: seq<AddedNodeMutation>, a: AddedNodeMutation)
    requires AllResolved(adds) && Resolved(a)
    ensures AllResolved(adds + [a])
  {
    assert forall k :: 0 <= k < |adds| ==> (adds + [a])[k] == adds[k];
  }

  /**
   * Every cell of the queue holds a node of the document that has a
   * parent, and no more nodes carry `__ln` than `length` counts.
   */
  predicate QueueOk(e: Env, l: ListState) {
    && (forall c :: 0 <= c < |l.cells| ==> l.cells[c].value in e.d.nodes && e.d.nodes[l.cells[c].value].parent.Some?)
    && |l.ln| <= l.length
  }

  /** `pushAdd(n)`: nothing without a parent; the queue when not ready; else an entry in `adds`. */
  function PushAdd(e: Env, p: Pending, n: NodeRef, captured: NodeCaptured): (r: Pending)
    requires Wf(e.d) && n in e.d.nodes && Closed(p.list)
    ensures Closed(r.list)
  {
    match e.d.nodes[n].parent
    case None => p
    case Some(parent) =>
      var parentId := GetId(e.cnode, parent);
      var nextId := GetNextId(e, n);
      if parentId == -1 || nextId == Some(-1) then
        p.(list := Added(p.list, n, PreviousSibling(e.d, n), NextSibling(e.d, n)))
      else
        p.(adds := p.adds + [AddedNodeMutation(parentId, nextId, captured)])
  }

  /** `pushAdd` does nothing for a node without a parent. */
  lemma PushAddOrphan(e: Env, p: Pending, n: NodeRef, captured: NodeCaptured)
    requires Wf(e.d) && n in e.d.nodes && Closed(p.list) && e.d.nodes[n].parent.None?
    ensures PushAdd(e, p, n, captured) == p
  {
  }

  /**
   * `pushAdd` queues a node with a parent that is not ready, writes no
   * entry, and keeps the queue well formed.
   */
  lemma PushAddQueues(e: Env, p: Pending, n: NodeRef, captured: NodeCaptured)
    requires Wf(e.d) && n in e.d.nodes && Closed(p.list) && e.d.nodes[n].parent.Some? && !Ready(e, n)
    ensures var r := PushAdd(e, p, n, captured);
            && r.adds == p.adds && r.list == Added(p.list, n, PreviousSibling(e.d, n), NextSibling(e.d, n))
            && (QueueOk(e, p.list) ==> QueueOk(e, r.list))
  {
    AddedValues(p.list, n, PreviousSibling(e.d, n), NextSibling(e.d, n));
    AddedCount(p.list, n, PreviousSibling(e.d, n), NextSibling(e.d, n));
  }

  /**
   * For a ready node `pushAdd` leaves the queue alone and appends one
   * resolved entry with its parent's id and its `nextId`.
   */
  lemma PushAddPushes(e: Env, p: Pending, n: NodeRef, captured: NodeCaptured)
    requires Wf(e.d) && n in e.d.nodes && Closed(p.list) && Ready(e, n)
    ensures var r := PushAdd(e, p, n, captured);
            && r.list == p.list
            && r.adds == p.adds + [AddedNodeMutation(GetId(e.cnode, e.d.nodes[n].parent.value), GetNextId(e, n), captured)]
            && Resolved(r.adds[|p.adds|])
  {
  }

  // ---------------------------------------------------- moved and added

  /** The moved-set pass skips a node below a removed one unless its parent is moved too. */
  predicate MovedSkipped(e: Env, removes: seq<RemovedNodeMutation>, moved: seq<NodeRef>, n: NodeRef)
    requires Wf(e.d) && n in e.d.nodes
  {
    IsParentRemoved(e.d, e.cnode, removes, n) && !(e.d.nodes[n].parent.Some? && e.d.nodes[n].parent.value in moved)
  }

  /** The first `i` nodes of the moved set passed to `pushAdd`, skipped ones left out. */
  function MovedPushed(e: Env, removes: seq<RemovedNodeMutation>, moved: seq<NodeRef>, p: Pending, captured: NodeCaptured, i: nat): (r: Pending)
    requires Wf(e.d) && Closed(p.list) && i <= |moved| && forall n :: n in moved ==> n in e.d.nodes
    ensures Closed(r.list)
  {
    if i == 0 then p
    else
      var q := MovedPushed(e, removes, moved, p, captured, i - 1);
      if MovedSkipped(e, removes, moved, moved[i - 1]) then q else PushAdd(e, q, moved[i - 1], captured)
  }

  /** One more node of the moved-set pass. */
  lemma MovedPushedStep(e: Env, removes: seq<RemovedNodeMutation>, moved: seq<NodeRef>, p: Pending, captured: NodeCaptured, i: nat)
    requires Wf(e.d) && Closed(p.list) && i < |moved| && forall n :: n in moved ==> n in e.d.nodes
    ensures var q := MovedPushed(e, removes, moved, p, captured, i);
            MovedPushed(e, removes, moved, p, captured, i + 1)
            == if MovedSkipped(e, removes, moved, moved[i]) then q else PushAdd(e, q, moved[i], captured)
  {
  }

  /** The pending adds together with the dropped set, which the added-set pass extends. */
  datatype Staging = Staging(pending: Pending, dropped: seq<NodeRef>)

  /**
   * The added-set pass over the first `i` nodes: a node goes to `pushAdd`
   * when no ancestor is dropped and none was removed, or else when an
   * ancestor is moved; otherwise it joins the dropped set, which later
   * nodes of the pass see.
   */
  function AddedPushed(e: Env, removes: seq<RemovedNodeMutation>, moved: seq<NodeRef>, added: seq<NodeRef>,
                       st: Staging, captured: NodeCaptured, i: nat): (r: Staging)
    requires Wf(e.d) && Closed(st.pending.list) && i <= |added| && forall n :: n in added ==> n in e.d.nodes
    ensures Closed(r.pending.list)
  {
    if i == 0 then st
    else
      var q := AddedPushed(e, removes, moved, added, st, captured, i - 1);
      var n := added[i - 1];
      if !IsAncestorInSet(e.d, q.dropped, n) && !IsParentRemoved(e.d, e.cnode, removes, n) then
        q.(pending := PushAdd(e, q.pending, n, captured))
      else if IsAncestorInSet(e.d, moved, n) then
        q.(pending := PushAdd(e, q.pending, n, captured))
      else
        q.(dropped := AddTo(q.dropped, n))
  }

  /** One more node of the added-set pass. */
  lemma AddedPushedStep(e: Env, removes: seq<RemovedNodeMutation>, moved: seq<NodeRef>, added: seq<NodeRef>,
                        st: Staging, captured: NodeCaptured, i: nat)
    requires Wf(e.d) && Closed(st.pending.list) && i < |added| && forall n :: n in added ==> n in e.d.nodes
    ensures var q := AddedPushed(e, removes, moved, added, st, captured, i);
            var n := added[i];
            AddedPushed(e, removes, moved, added, st, captured, i + 1)
            == if !IsAncestorInSet(e.d, q.dropped, n) && !IsParentRemoved(e.d, e.cnode, removes, n) then q.(pending := PushAdd(e, q.pending, n, captured))
               else if IsAncestorInSet(e.d, moved, n) then q.(pending := PushAdd(e, q.pending, n, captured))
               else q.(dropped := AddTo(q.dropped, n))
  {
  }

  /** Every node the buffer holds is one the document knows. */
  predicate BuffersIn(d: Dom, s: Buffers) {
    && (forall n :: n in s.added ==> n in d.nodes)
    && (forall n :: n in s.moved ==> n in d.nodes)
    && (forall n :: n in s.dropped ==> n in d.nodes)
    && (forall n :: n in s.removedNodeMap ==> n in d.nodes)
  }

  const EmptyList: ListState := ListState(0, None, [], map[])

  /** The two passes, started from an empty queue `l0`, give `Staged`. */
  lemma StagedFrom(e: Env, s: Buffers, captured: NodeCaptured, removes: seq<RemovedNodeMutation>, moved: seq<NodeRef>,
                   added: seq<NodeRef>, dropped: seq<NodeRef>, l0: ListState, p: Pending, st: Staging)
    requires Wf(e.d) && BuffersIn(e.d, s)
    requires s.removes == removes && s.moved == moved && s.added == added && s.dropped == dropped
    requires l0 == ListState(0, None, [], map[]) && Closed(l0)
    requires p == MovedPushed(e, removes, moved, Pending(l0, []), captured, |moved|)
    requires st == AddedPushed(e, removes, moved, added, Staging(p, dropped), captured, |added|)
    ensures st == Staged(e, s, captured)
  {
  }

  /** The moved-set pass and then the added-set pass, from a new empty queue and no adds. */
  function Staged(e: Env, s: Buffers, captured: NodeCaptured): (r: Staging)
    requires Wf(e.d) && BuffersIn(e.d, s)
    ensures Closed(r.pending.list)
  {
    var p := MovedPushed(e, s.removes, s.moved, Pending(EmptyList, []), captured, |s.moved|);
    AddedPushed(e, s.removes, s.moved, s.added, Staging(p, s.dropped), captured, |s.added|)
  }

  /**
   * Every node `pushAdd` queues is not ready, and the pass writes only
   * resolved entries; the queue stays well formed.
   */
  ghost predicate StagedOk(e: Env, p: Pending)
    requires Wf(e.d)
  {
    && QueueOk(e, p.list)
    && NoneReady(e, p.list)
    && AllResolved(p.adds)
  }

  lemma PushAddKeepsStagedOk(e: Env, p: Pending, n: NodeRef, captured: NodeCaptured)
    requires Wf(e.d) && n in e.d.nodes && Closed(p.list) && StagedOk(e, p)
    ensures StagedOk(e, PushAdd(e, p, n, captured))
  {
    if e.d.nodes[n].parent.None? {
      PushAddOrphan(e, p, n, captured);
    } else if Ready(e, n) {
      PushAddPushes(e, p, n, captured);
      var r := PushAdd(e, p, n, captured);
      assert forall k :: 0 <= k < |r.adds| ==> r.adds[k] == if k < |p.adds| then p.adds[k] else r.adds[|p.adds|];
    } else {
      PushAddQueues(e, p, n, captured);
      var r := Added(p.list, n, PreviousSibling(e.d, n), NextSibling(e.d, n));
      AddedValues(p.list, n, PreviousSibling(e.d, n), NextSibling(e.d, n));
      forall c | 0 <= c < |r.cells|
        ensures !Ready(e, r.cells[c].value)
      {
        if c < |p.list.cells| {
          assert r.cells[c].value == p.list.cells[c].value;
          assert !Ready(e, p.list.cells[c].value);
        } else {
          assert r.cells[c].value == n;
        }
      }
    }
  }

  lemma {:induction false} MovedPushedOk(e: Env, removes: seq<RemovedNodeMutation>, moved: seq<NodeRef>, p: Pending, captured: NodeCaptured, i: nat)
    requires Wf(e.d) && Closed(p.list) && i <= |moved| && (forall n :: n in moved ==> n in e.d.nodes) && StagedOk(e, p)
    ensures StagedOk(e, MovedPushed(e, removes, moved, p, captured, i))
  {
    if i > 0 {
      MovedPushedOk(e, removes, moved, p, captured, i - 1);
      var q := MovedPushed(e, removes, moved, p, captured, i - 1);
      if !MovedSkipped(e, removes, moved, moved[i - 1]) {
        PushAddKeepsStagedOk(e, q, moved[i - 1], captured);
      }
    }
  }

  lemma {:induction false} AddedPushedOk(e: Env, removes: seq<RemovedNodeMutation>, moved: seq<NodeRef>, added: seq<NodeRef>,
                                         st: Staging, captured: NodeCaptured, i: nat)
    requires Wf(e.d) && Closed(st.pending.list) && i <= |added| && (forall n :: n in added ==> n in e.d.nodes)
    requires StagedOk(e, st.pending)
    ensures StagedOk(e, AddedPushed(e, removes, moved, added, st, captured, i).pending)
  {
    if i > 0 {
      AddedPushedOk(e, removes, moved, added, st, captured, i - 1);
      var q := AddedPushed(e, removes, moved, added, st, captured, i - 1);
      PushAddKeepsStagedOk(e, q.pending, added[i - 1], captured);
    }
  }

  /**
   * After both passes every entry written is resolved and every queued
   * node is one that was not ready, with a parent.
   */
  lemma StagedIsOk(e: Env, s: Buffers, captured: NodeCaptured)
    requires Wf(e.d) && BuffersIn(e.d, s)
    ensures StagedOk(e, Staged(e, s, captured).pending)
  {
    var p0 := Pending(EmptyList, []);
    assert EmptyList.ln == map[];
    MovedPushedOk(e, s.removes, s.moved, p0, captured, |s.moved|);
    var p := MovedPushed(e, s.removes, s.moved, p0, captured, |s.moved|);
    AddedPushedOk(e, s.removes, s.moved, s.added, Staging(p, s.dropped), captured, |s.added|);
  }

  /** `m` is one of the first `i` added nodes, and no ancestor of it is in the moved set. */
  ghost predicate DroppedByPass(e: Env, moved: seq<NodeRef>, added: seq<NodeRef>, i: nat, m: NodeRef)
    requires Wf(e.d) && i <= |added| && forall n :: n in added ==> n in e.d.nodes
  {
    exists k :: 0 <= k < i && added[k] == m && !IsAncestorInSet(e.d, moved, added[k])
  }

  /** One step of the added-set pass either leaves the dropped set alone or drops the node it looks at. */
  lemma AddedPushedDropStep(e: Env, removes: seq<RemovedNodeMutation>, moved: seq<NodeRef>, added: seq<NodeRef>,
                            st: Staging, captured: NodeCaptured, i: nat)
    requires Wf(e.d) && Closed(st.pending.list) && 0 < i <= |added| && forall n :: n in added ==> n in e.d.nodes
    ensures var q := AddedPushed(e, removes, moved, added, st, captured, i - 1);
            var r := AddedPushed(e, removes, moved, added, st, captured, i);
            || r.dropped == q.dropped
            || (r.dropped == q.dropped + [added[i - 1]] && !IsAncestorInSet(e.d, moved, added[i - 1]))
  {
  }

  /**
   * The added-set pass only ever adds to the dropped set, and a node joins
   * it only when it is neither pushed nor under a moved node.
   */
  lemma {:induction false} AddedPushedDrops(e: Env, removes: seq<RemovedNodeMutation>, moved: seq<NodeRef>, added: seq<NodeRef>,
                                            st: Staging, captured: NodeCaptured, i: nat)
    requires Wf(e.d) && Closed(st.pending.list) && i <= |added| && forall n :: n in added ==> n in e.d.nodes
    ensures var r := AddedPushed(e, removes, moved, added, st, captured, i);
            && (forall m :: m in st.dropped ==> m in r.dropped)
            && (forall m :: m in r.dropped && m !in st.dropped ==> DroppedByPass(e, moved, added, i, m))
  {
    if i > 0 {
      AddedPushedDrops(e, removes, moved, added, st, captured, i - 1);
      AddedPushedDropStep(e, removes, moved, added, st, captured, i);
      var q := AddedPushed(e, removes, moved, added, st, captured, i - 1);
      var r := AddedPushed(e, removes, moved, added, st, captured, i);
      assert forall m :: m in st.dropped ==> m in q.dropped;
      assert forall m :: m in q.dropped && m !in st.dropped ==> DroppedByPass(e, moved, added, i - 1, m);
      assert || r.dropped == q.dropped
             || (r.dropped == q.dropped + [added[i - 1]] && !IsAncestorInSet(e.d, moved, added[i - 1]));
      DropsGrow(e, moved, added, i, st.dropped, q.dropped, r.dropped);
    }
  }

  lemma DropsGrow(e: Env, moved: seq<NodeRef>, added: seq<NodeRef>, i: nat, start: seq<NodeRef>, before: seq<NodeRef>, after: seq<NodeRef>)
    requires Wf(e.d) && 0 < i <= |added| && forall n :: n in added ==> n in e.d.nodes
    requires forall m :: m in start ==> m in before
    requires forall m :: m in before && m !in start ==> DroppedByPass(e, moved, added, i - 1, m)
    requires || after == before
             || (after == before + [added[i - 1]] && !IsAncestorInSet(e.d, moved, added[i - 1]))
    ensures forall m :: m in start ==> m in after
    ensures forall m :: m in after && m !in start ==> DroppedByPass(e, moved, added, i, m)
  {
    forall m | m in after && m !in start
      ensures DroppedByPass(e, moved, added, i, m)
    {
      if m in before {
        var k :| 0 <= k < i - 1 && added[k] == m && !IsAncestorInSet(e.d, moved, added[k]);
        assert 0 <= k < i;
      } else {
        assert m == added[i - 1];
      }
    }
  }

  // -------------------------------------------------------------- drain

  /** What the backward scan of the queue finds. */
  datatype Pick = Found(cell: nat) | NotFound | ScanCrash

  /**
   * The scan `for (index = length - 1; index >= 0; index--)` from `index`
   * down: `get(index)!.value` throws on a null cell; the first ready node
   * is taken.
   */
  function Scan(e: Env, l: ListState, index: int): (r: Pick)
    requires Wf(e.d) && Closed(l) && QueueOk(e, l) && index < l.length
    ensures r.Found? ==> r.cell < |l.cells| && Ready(e, l.cells[r.cell].value)
    decreases index + 1
  {
    if index < 0 then NotFound
    else match Walk(l.cells, l.head, index)
      case None => ScanCrash
      case Some(c) => if Ready(e, l.cells[c].value) then Found(c) else Scan(e, l, index - 1)
  }

  /** Position `k` of the queue is reached from the head and holds a node that is not ready. */
  predicate WaitingAt(e: Env, l: ListState, k: nat)
    requires Wf(e.d) && Closed(l) && QueueOk(e, l)
  {
    Walk(l.cells, l.head, k).Some? && !Ready(e, l.cells[Walk(l.cells, l.head, k).value].value)
  }

  /** A scan that finds nothing has visited only cells, all holding nodes that are not ready. */
  lemma {:induction false} ScanNotFound(e: Env, l: ListState, index: int)
    requires Wf(e.d) && Closed(l) && QueueOk(e, l) && index < l.length && Scan(e, l, index).NotFound?
    ensures forall k: nat :: k <= index ==> WaitingAt(e, l, k)
    decreases index + 1
  {
    if index >= 0 {
      assert WaitingAt(e, l, index);
      ScanNotFound(e, l, index - 1);
    }
  }

  /** No node in the queue's cells is ready. */
  predicate NoneReady(e: Env, l: ListState)
    requires Wf(e.d) && QueueOk(e, l)
  {
    forall c :: 0 <= c < |l.cells| ==> !Ready(e, l.cells[c].value)
  }

  /**
   * When no queued node is ready the scan finds nothing, and it crashes
   * exactly when its first position, `index`, cannot be reached from the
   * head (once `next` runs out every later position is null too).
   */
  lemma {:induction false} ScanNothingReady(e: Env, l: ListState, index: int)
    requires Wf(e.d) && Closed(l) && QueueOk(e, l) && index < l.length && NoneReady(e, l)
    ensures Scan(e, l, index) == if index >= 0 && Walk(l.cells, l.head, index).None? then ScanCrash else NotFound
    decreases index + 1
  {
    if index >= 0 {
      var w := Walk(l.cells, l.head, index);
      if w.Some? {
        assert !Ready(e, l.cells[w.value].value);
        ScanPast(e, l, index);
        if index > 0 {
          WalkBack(l.cells, l.head, index);
        }
        ScanNothingReady(e, l, index - 1);
      }
    }
  }

  /** The scan moves past a reachable node that is not ready. */
  lemma ScanPast(e: Env, l: ListState, index: nat)
    requires Wf(e.d) && Closed(l) && QueueOk(e, l) && index < l.length
    requires Walk(l.cells, l.head, index).Some? && !Ready(e, l.cells[Walk(l.cells, l.head, index).value].value)
    ensures Scan(e, l, index) == Scan(e, l, index - 1)
  {
  }

  /** A position reachable from the head has every earlier position reachable too. */
  lemma WalkBack(cells: seq<Cell>, from: Option<nat>, k: nat)
    requires CellsClosed(cells) && InRange(from, |cells|) && 0 < k && Walk(cells, from, k).Some?
    ensures Walk(cells, from, k - 1).Some?
  {
  }

  /** The cells whose rank is at most the candidate's: what the candidate chain can still visit. */
  ghost function Below(cells: seq<Cell>, rank: seq<real>, candidate: Option<nat>): set<nat>
    requires |rank| == |cells|
  {
    match candidate
    case None => {}
    case Some(c) => if c < |cells| then set x | 0 <= x < |cells| && rank[x] <= rank[c] else {}
  }

  /** Moving the candidate to its `previous` strictly shrinks what the chain can visit. */
  lemma BelowShrinks(cells: seq<Cell>, rank: seq<real>, c: nat)
    requires CellsClosed(cells) && Ranked(cells, rank) && c < |cells|
    ensures Below(cells, rank, cells[c].previous) < Below(cells, rank, Some(c))
  {
    assert c in Below(cells, rank, Some(c));
  }

  /**
   * One step of the drain on a ready node that does not throw: the queue
   * stays well formed and ranked, `pushAdd` appends the node's entry, and
   * either the length goes down by one or, with a null head, nothing
   * changes.
   */
  lemma DrainStep(e: Env, l: ListState, rank: seq<real>, c: nat, adds: seq<AddedNodeMutation>, captured: NodeCaptured)
    requires Wf(e.d) && Closed(l) && Ranked(l.cells, rank) && QueueOk(e, l) && c < |l.cells|
    requires Ready(e, l.cells[c].value) && !Removed(l, l.cells[c].value).0
    ensures var v := l.cells[c].value;
            var l1 := Removed(l, v).1;
            && Closed(l1) && Ranked(l1.cells, rank) && QueueOk(e, l1) && |l1.cells| == |l.cells|
            && PushAdd(e, Pending(l1, adds), v, captured) == Pending(l1, adds + [AddedNodeMutation(GetId(e.cnode, e.d.nodes[v].parent.value), GetNextId(e, v), captured)])
            && (l.head.Some? ==> 0 <= l1.length < l.length)
            && (l.head.None? ==> l1 == l)
  {
    var v := l.cells[c].value;
    RemovedRanked(l, rank, v);
    RemovedValues(l, v);
    RemovedCount(l, v);
    PushAddPushes(e, Pending(Removed(l, v).1, adds), v, captured);
  }

  /** The state the drain loop ends in: whether a `TypeError` escaped, the queue and the adds. */
  datatype Drained = Drained(crashed: bool, list: ListState, adds: seq<AddedNodeMutation>)

  /**
   * The drain loop `while (addedNodeList.length)`: take the candidate when
   * it is ready, else scan from the end; stop when nothing is ready;
   * otherwise remember the node's `previous` as the next candidate, remove
   * the node from the queue and push it. `rank` only bounds the loop.
   */
  function Drain(e: Env, l: ListState, ghost rank: seq<real>, candidate: Option<nat>,
                 adds: seq<AddedNodeMutation>, captured: NodeCaptured): (r: Drained)
    requires Wf(e.d) && Closed(l) && Ranked(l.cells, rank) && QueueOk(e, l) && InRange(candidate, |l.cells|)
    decreases l.length, Below(l.cells, rank, candidate)
  {
    if l.length == 0 then Drained(false, l, adds)
    else
      var pick :=
        if candidate.Some? && Ready(e, l.cells[candidate.value].value) then Found(candidate.value)
        else Scan(e, l, l.length - 1);
      match pick
      case ScanCrash => Drained(true, l, adds)
      case NotFound => Drained(false, l, adds)
      case Found(c) =>
        var v := l.cells[c].value;
        var removed := Removed(l, v);
        if removed.0 then Drained(true, removed.1, adds)
        else
          DrainStep(e, l, rank, c, adds, captured);
          BelowShrinks(l.cells, rank, c);
          var p := PushAdd(e, Pending(removed.1, adds), v, captured);
          Drain(e, p.list, rank, l.cells[c].previous, p.adds, captured)
  }

  /** The entry the drain appends for the ready node in cell `c`. */
  function DrainEntry(e: Env, l: ListState, c: nat, captured: NodeCaptured): (r: AddedNodeMutation)
    requires Wf(e.d) && QueueOk(e, l) && c < |l.cells| && Ready(e, l.cells[c].value)
    ensures Resolved(r)
  {
    var v := l.cells[c].value;
    AddedNodeMutation(GetId(e.cnode, e.d.nodes[v].parent.value), GetNextId(e, v), captured)
  }

  /** One round of the drain that takes the node in cell `c`: unlink it, push its entry, go on from its `previous`. */
  lemma DrainTakes(e: Env, l: ListState, rank: seq<real>, candidate: Option<nat>, c: nat,
                   adds: seq<AddedNodeMutation>, captured: NodeCaptured)
    requires Wf(e.d) && Closed(l) && Ranked(l.cells, rank) && QueueOk(e, l) && InRange(candidate, |l.cells|)
    requires l.length != 0 && c < |l.cells|
    requires (if candidate.Some? && Ready(e, l.cells[candidate.value].value) then Found(candidate.value)
              else Scan(e, l, l.length - 1)) == Found(c)
    requires !Removed(l, l.cells[c].value).0
    ensures var l1 := Removed(l, l.cells[c].value).1;
            && Ready(e, l.cells[c].value) && Closed(l1) && Ranked(l1.cells, rank) && QueueOk(e, l1)
            && InRange(l.cells[c].previous, |l1.cells|)
            && Drain(e, l, rank, candidate, adds, captured)
               == Drain(e, l1, rank, l.cells[c].previous, adds + [DrainEntry(e, l, c, captured)], captured)
            && PushAdd(e, Pending(l1, adds), l.cells[c].value, captured) == Pending(l1, adds + [DrainEntry(e, l, c, captured)])
            && (l1.length < l.length
                || (l1.length == l.length && Below(l1.cells, rank, l.cells[c].previous) < Below(l.cells, rank, candidate)))
  {
    DrainStep(e, l, rank, c, adds, captured);
    BelowShrinks(l.cells, rank, c);
  }

  /** The drain of an empty queue writes nothing. */
  lemma DrainEmpty(e: Env, l: ListState, rank: seq<real>, candidate: Option<nat>,
                   adds: seq<AddedNodeMutation>, captured: NodeCaptured)
    requires Wf(e.d) && Closed(l) && Ranked(l.cells, rank) && QueueOk(e, l) && InRange(candidate, |l.cells|)
    requires l.length == 0
    ensures Drain(e, l, rank, candidate, adds, captured) == Drained(false, l, adds)
  {
  }

  /** A round that finds no ready node ends the drain, crashed exactly when the scan hit a null cell. */
  lemma DrainIdle(e: Env, l: ListState, rank: seq<real>, candidate: Option<nat>, pick: Pick,
                  adds: seq<AddedNodeMutation>, captured: NodeCaptured)
    requires Wf(e.d) && Closed(l) && Ranked(l.cells, rank) && QueueOk(e, l) && InRange(candidate, |l.cells|)
    requires l.length != 0 && !pick.Found?
    requires pick == if candidate.Some? && Ready(e, l.cells[candidate.value].value) then Found(candidate.value)
                     else Scan(e, l, l.length - 1)
    ensures Drain(e, l, rank, candidate, adds, captured) == Drained(pick.ScanCrash?, l, adds)
  {
  }

  /** A round whose `removeNode` throws ends the drain crashed, with the queue as the throw left it. */
  lemma DrainThrows(e: Env, l: ListState, rank: seq<real>, candidate: Option<nat>, c: nat,
                    adds: seq<AddedNodeMutation>, captured: NodeCaptured)
    requires Wf(e.d) && Closed(l) && Ranked(l.cells, rank) && QueueOk(e, l) && InRange(candidate, |l.cells|)
    requires l.length != 0 && c < |l.cells|
    requires (if candidate.Some? && Ready(e, l.cells[candidate.value].value) then Found(candidate.value)
              else Scan(e, l, l.length - 1)) == Found(c)
    requires Removed(l, l.cells[c].value).0
    ensures Drain(e, l, rank, candidate, adds, captured) == Drained(true, Removed(l, l.cells[c].value).1, adds)
  {
  }

  /** The drain keeps every entry resolved and only appends to `adds`. */
  lemma {:induction false} DrainResolves(e: Env, l: ListState, rank: seq<real>, candidate: Option<nat>,
                                         adds: seq<AddedNodeMutation>, captured: NodeCaptured)
    requires Wf(e.d) && Closed(l) && Ranked(l.cells, rank) && QueueOk(e, l) && InRange(candidate, |l.cells|)
    requires AllResolved(adds)
    ensures var r := Drain(e, l, rank, candidate, adds, captured);
            AllResolved(r.adds) && adds <= r.adds
    decreases l.length, Below(l.cells, rank, candidate)
  {
    if l.length != 0 {
      var pick :=
        if candidate.Some? && Ready(e, l.cells[candidate.value].value) then Found(candidate.value)
        else Scan(e, l, l.length - 1);
      if pick.Found? {
        var c := pick.cell;
        if !Removed(l, l.cells[c].value).0 {
          DrainTakes(e, l, rank, candidate, c, adds, captured);
          DrainStep(e, l, rank, c, adds, captured);
          BelowShrinks(l.cells, rank, c);
          var adds1 := adds + [DrainEntry(e, l, c, captured)];
          ResolvedAppend(adds, DrainEntry(e, l, c, captured));
          var l1 := Removed(l, l.cells[c].value).1;
          DrainResolves(e, l1, rank, l.cells[c].previous, adds1, captured);
          var r1 := Drain(e, l1, rank, l.cells[c].previous, adds1, captured);
          assert Drain(e, l, rank, candidate, adds, captured) == r1;
          assert adds <= adds1 <= r1.adds;
        }
      }
    }
  }

  /**
   * When the drain ends without a `TypeError` the queue is empty or no
   * node it can reach from the head within `length` steps is ready, so no
   * progress is left to make.
   */
  lemma {:induction false} DrainSettles(e: Env, l: ListState, rank: seq<real>, candidate: Option<nat>,
                                        adds: seq<AddedNodeMutation>, captured: NodeCaptured)
    requires Wf(e.d) && Closed(l) && Ranked(l.cells, rank) && QueueOk(e, l) && InRange(candidate, |l.cells|)
    ensures var r := Drain(e, l, rank, candidate, adds, captured);
            && (!r.crashed ==> Closed(r.list))
            && (!r.crashed && r.list.length != 0 ==>
                  QueueOk(e, r.list) && forall k: nat :: k < r.list.length ==> WaitingAt(e, r.list, k))
    decreases l.length, Below(l.cells, rank, candidate)
  {
    if l.length != 0 {
      var pick :=
        if candidate.Some? && Ready(e, l.cells[candidate.value].value) then Found(candidate.value)
        else Scan(e, l, l.length - 1);
      if pick.NotFound? {
        ScanNotFound(e, l, l.length - 1);
      } else if pick.Found? {
        var c := pick.cell;
        var v := l.cells[c].value;
        var removed := Removed(l, v);
        if !removed.0 {
          DrainStep(e, l, rank, c, adds, captured);
          BelowShrinks(l.cells, rank, c);
          var p := PushAdd(e, Pending(removed.1, adds), v, captured);
          DrainSettles(e, p.list, rank, l.cells[c].previous, p.adds, captured);
        }
      }
    }
  }

  /**
   * A flush assigns no ids, so when no queued node is ready the drain
   * writes nothing: it ends at once, with a `TypeError` exactly when the
   * last position below `length` cannot be reached from the head.
   */
  lemma DrainWithNothingReady(e: Env, l: ListState, rank: seq<real>, adds: seq<AddedNodeMutation>, captured: NodeCaptured)
    requires Wf(e.d) && Closed(l) && Ranked(l.cells, rank) && QueueOk(e, l) && NoneReady(e, l)
    ensures var r := Drain(e, l, rank, None, adds, captured);
            && r.adds == adds && r.list == l
            && (r.crashed <==> l.length > 0 && Walk(l.cells, l.head, l.length - 1).None?)
  {
    if l.length != 0 {
      ScanNothingReady(e, l, l.length - 1);
    }
  }

  // ------------------------------------------------------------ payload

  /** The ids of every node of the subtrees of `ns`: what draining `removedNodeMap` deletes from the mirror. */
  function EvictedIds(d: Dom, cnode: map<NodeRef, NodeCaptured>, ns: seq<NodeRef>): (r: set<int>)
    requires Wf(d) && forall n :: n in ns ==> n in d.nodes
    ensures forall k :: 0 <= k < |ns| ==> Ids(cnode, Subtree(d, ns[k])) <= r
  {
    if ns == [] then {} else Ids(cnode, Subtree(d, ns[0])) + EvictedIds(d, cnode, ns[1..])
  }

  /** An evicted id is an id of some node below a drained node. */
  lemma {:induction false} EvictedIdsExact(d: Dom, cnode: map<NodeRef, NodeCaptured>, ns: seq<NodeRef>, id: int)
    requires Wf(d) && forall n :: n in ns ==> n in d.nodes
    ensures id in EvictedIds(d, cnode, ns) <==> exists k :: 0 <= k < |ns| && id in Ids(cnode, Subtree(d, ns[k]))
  {
    if ns != [] {
      EvictedIdsExact(d, cnode, ns[1..], id);
      if id in EvictedIds(d, cnode, ns[1..]) {
        var k :| 0 <= k < |ns[1..]| && id in Ids(cnode, Subtree(d, ns[1..][k]));
        assert ns[k + 1] == ns[1..][k];
      }
    }
  }

  /** `texts.map(...).filter(t => mirror.has(t.id))` */
  function TextPayload(cnode: map<NodeRef, NodeCaptured>, entries: map<int, NodeRef>, texts: seq<TextCursor>): (r: seq<TextMutation>)
    ensures |r| <= |texts|
    ensures forall k :: 0 <= k < |r| ==> r[k].id in entries
  {
    if texts == [] then []
    else
      var t := TextMutation(GetId(cnode, texts[0].node), texts[0].value);
      (if t.id in entries then [t] else []) + TextPayload(cnode, entries, texts[1..])
  }

  /**
   * A text change is reported exactly when some cursor has that value and
   * a node whose id the mirror still has; when the mirror has every
   * cursor's id none is lost.
   */
  lemma {:induction false} TextPayloadExact(cnode: map<NodeRef, NodeCaptured>, entries: map<int, NodeRef>, texts: seq<TextCursor>, t: TextMutation)
    ensures t in TextPayload(cnode, entries, texts) <==>
              t.id in entries && exists k :: 0 <= k < |texts| && GetId(cnode, texts[k].node) == t.id && texts[k].value == t.value
    ensures (forall k :: 0 <= k < |texts| ==> GetId(cnode, texts[k].node) in entries) ==> |TextPayload(cnode, entries, texts)| == |texts|
  {
    if texts != [] {
      TextPayloadExact(cnode, entries, texts[1..], t);
      if t in TextPayload(cnode, entries, texts[1..]) {
        var k :| 0 <= k < |texts[1..]| && GetId(cnode, texts[1..][k].node) == t.id && texts[1..][k].value == t.value;
        assert texts[k + 1] == texts[1..][k];
      }
      if forall k :: 0 <= k < |texts| ==> GetId(cnode, texts[k].node) in entries {
        assert forall k :: 0 <= k < |texts[1..]| ==> texts[1..][k] == texts[k + 1];
      }
    }
  }

  /** `attributes.map(...).filter(a => mirror.has(a.id))` */
  function AttributePayload(cnode: map<NodeRef, NodeCaptured>, entries: map<int, NodeRef>, cursors: seq<AttributeCursor>): (r: seq<AttributeMutation>)
    ensures |r| <= |cursors|
    ensures forall k :: 0 <= k < |r| ==> r[k].id in entries
  {
    if cursors == [] then []
    else
      var a := AttributeMutation(GetId(cnode, cursors[0].node), cursors[0].attributes);
      (if a.id in entries then [a] else []) + AttributePayload(cnode, entries, cursors[1..])
  }

  /** An attribute change is reported exactly when some cursor has those attributes and a node whose id the mirror still has. */
  lemma {:induction false} AttributePayloadExact(cnode: map<NodeRef, NodeCaptured>, entries: map<int, NodeRef>, cursors: seq<AttributeCursor>, a: AttributeMutation)
    ensures a in AttributePayload(cnode, entries, cursors) <==>
              a.id in entries && exists k :: 0 <= k < |cursors| && GetId(cnode, cursors[k].node) == a.id && cursors[k].attributes == a.attributes
  {
    if cursors != [] {
      AttributePayloadExact(cnode, entries, cursors[1..], a);
      if a in AttributePayload(cnode, entries, cursors[1..]) {
        var k :| 0 <= k < |cursors[1..]| && GetId(cnode, cursors[1..][k].node) == a.id && cursors[1..][k].attributes == a.attributes;
        assert cursors[k + 1] == cursors[1..][k];
      }
    }
  }

  /**
   * A text change on a node inside a subtree removed this cycle is not
   * reported: its id has left the mirror.
   */
  lemma EvictedTextDropped(d: Dom, cnode: map<NodeRef, NodeCaptured>, entries: map<int, NodeRef>, ns: seq<NodeRef>,
                           texts: seq<TextCursor>, k: nat, i: nat)
    requires Wf(d) && (forall n :: n in ns ==> n in d.nodes) && k < |ns| && i < |texts|
    requires texts[i].node in cnode && texts[i].node in Subtree(d, ns[k])
    ensures forall t :: t in TextPayload(cnode, entries - EvictedIds(d, cnode, ns), texts) ==> t.id != GetId(cnode, texts[i].node)
  {
    assert GetId(cnode, texts[i].node) in Ids(cnode, Subtree(d, ns[k]));
  }

  /** The payload is empty: the callback is not called. */
  predicate Empty(data: MutationData) {
    data.texts == [] && data.attributes == [] && data.removes == [] && data.adds == []
  }
  // --------------------------------------------------------------- emit

  /** What `emit` leaves behind: how it ended, the buffer's per-cycle state and the mirror's entries. */
  datatype FlushResult = FlushResult(outcome: Outcome, s: Buffers, entries: map<int, NodeRef>)

  /** The per-cycle state after a reset: fresh empty arrays, sets and move keys. */
  const Cleared: Buffers := Buffers([], [], [], [], {}, [], [], [])

  /**
   * `emit()`: the removed subtrees leave the mirror, the moved and added
   * sets are staged, the queue is drained, and the payload is reported
   * and the state reset unless it is empty. A `TypeError` in the drain
   * ends the flush with the state as the added-set pass left it.
   */
  function Flushed(e: Env, entries: map<int, NodeRef>, s: Buffers, ghost rank: seq<real>, captured: NodeCaptured): (r: FlushResult)
    requires Wf(e.d) && BuffersIn(e.d, s) && Ranked(Staged(e, s, captured).pending.list.cells, rank)
  {
    var evicted := entries - EvictedIds(e.d, e.cnode, s.removedNodeMap);
    var st := Staged(e, s, captured);
    var kept := s.(removedNodeMap := [], dropped := st.dropped);
    StagedIsOk(e, s, captured);
    var drained := Drain(e, st.pending.list, rank, None, st.pending.adds, captured);
    if drained.crashed then FlushResult(Crashed, kept, evicted)
    else
      var data := MutationData(TextPayload(e.cnode, evicted, s.texts), AttributePayload(e.cnode, evicted, s.attributes),
                               s.removes, drained.adds);
      if Empty(data) then FlushResult(Suppressed, kept, evicted) else FlushResult(Emitted(data), Cleared, evicted)
  }

  /**
   * Every flush empties `removedNodeMap` and takes out of the mirror
   * exactly the ids of the nodes in the queued subtrees; every other entry
   * keeps its node.
   */
  lemma FlushEvicts(e: Env, entries: map<int, NodeRef>, s: Buffers, rank: seq<real>, captured: NodeCaptured, id: int)
    requires Wf(e.d) && BuffersIn(e.d, s) && Ranked(Staged(e, s, captured).pending.list.cells, rank)
    ensures var r := Flushed(e, entries, s, rank, captured);
            && r.s.removedNodeMap == []
            && (id in r.entries <==>
                  id in entries && !exists k :: 0 <= k < |s.removedNodeMap| && id in Ids(e.cnode, Subtree(e.d, s.removedNodeMap[k])))
            && (id in r.entries ==> r.entries[id] == entries[id])
  {
    var evicted := EvictedIds(e.d, e.cnode, s.removedNodeMap);
    assert Flushed(e, entries, s, rank, captured).entries == entries - evicted;
    EvictedIdsExact(e.d, e.cnode, s.removedNodeMap, id);
    assert id in entries - evicted <==> id in entries && id !in evicted;
  }

  /** After a flush the buffer still holds only nodes of the document. */
  lemma FlushStaysIn(e: Env, entries: map<int, NodeRef>, s: Buffers, rank: seq<real>, captured: NodeCaptured)
    requires Wf(e.d) && BuffersIn(e.d, s) && Ranked(Staged(e, s, captured).pending.list.cells, rank)
    ensures BuffersIn(e.d, Flushed(e, entries, s, rank, captured).s)
  {
    var p := MovedPushed(e, s.removes, s.moved, Pending(EmptyList, []), captured, |s.moved|);
    AddedPushedDrops(e, s.removes, s.moved, s.added, Staging(p, s.dropped), captured, |s.added|);
    var dropped := Staged(e, s, captured).dropped;
    forall m | m in dropped
      ensures m in e.d.nodes
    {
      if m !in s.dropped {
        var k :| 0 <= k < |s.added| && s.added[k] == m && !IsAncestorInSet(e.d, s.moved, s.added[k]);
      }
    }
  }

  /**
   * The per-cycle state is reset exactly when an event is emitted, and an
   * emitted event is never empty. A suppressed or crashed flush keeps the
   * text and attribute cursors, the removals, the move keys and the added
   * and moved sets, and only adds to the dropped set.
   */
  lemma FlushResetsOnlyWhenEmitted(e: Env, entries: map<int, NodeRef>, s: Buffers, rank: seq<real>, captured: NodeCaptured)
    requires Wf(e.d) && BuffersIn(e.d, s) && Ranked(Staged(e, s, captured).pending.list.cells, rank)
    ensures var r := Flushed(e, entries, s, rank, captured);
            && (r.outcome.Emitted? ==> r.s == Cleared && !Empty(r.outcome.data))
            && (!r.outcome.Emitted? ==>
                  && r.s.texts == s.texts && r.s.attributes == s.attributes && r.s.removes == s.removes
                  && r.s.movedNodeMap == s.movedNodeMap && r.s.added == s.added && r.s.moved == s.moved
                  && forall m :: m in s.dropped ==> m in r.s.dropped)
  {
    var p := MovedPushed(e, s.removes, s.moved, Pending(EmptyList, []), captured, |s.moved|);
    AddedPushedDrops(e, s.removes, s.moved, s.added, Staging(p, s.dropped), captured, |s.added|);
  }

  /**
   * An emitted event reports only ids the mirror still has after the
   * eviction, the recorded removals as they are, and add entries that each
   * name a known parent and a next sibling that is known or left out.
   */
  lemma FlushReportsKnownIds(e: Env, entries: map<int, NodeRef>, s: Buffers, rank: seq<real>, captured: NodeCaptured)
    requires Wf(e.d) && BuffersIn(e.d, s) && Ranked(Staged(e, s, captured).pending.list.cells, rank)
    ensures var r := Flushed(e, entries, s, rank, captured);
            r.outcome.Emitted? ==>
              && (forall k :: 0 <= k < |r.outcome.data.texts| ==> r.outcome.data.texts[k].id in r.entries)
              && (forall k :: 0 <= k < |r.outcome.data.attributes| ==> r.outcome.data.attributes[k].id in r.entries)
              && r.outcome.data.removes == s.removes
              && AllResolved(r.outcome.data.adds)
  {
    var st := Staged(e, s, captured);
    StagedIsOk(e, s, captured);
    DrainResolves(e, st.pending.list, rank, None, st.pending.adds, captured);
  }

  /**
   * Ids do not change during a flush, so the staging passes leave no
   * queued node ready and the drain never writes an entry: the adds are
   * those the passes wrote, and the flush crashes exactly when the queue
   * is not empty and its last position cannot be reached from the head.
   */
  lemma FlushDrainIsIdle(e: Env, entries: map<int, NodeRef>, s: Buffers, rank: seq<real>, captured: NodeCaptured)
    requires Wf(e.d) && BuffersIn(e.d, s) && Ranked(Staged(e, s, captured).pending.list.cells, rank)
    ensures var r := Flushed(e, entries, s, rank, captured);
            var l := Staged(e, s, captured).pending.list;
            && (r.outcome.Crashed? <==> l.length > 0 && Walk(l.cells, l.head, l.length - 1).None?)
            && (r.outcome.Emitted? ==> r.outcome.data.adds == Staged(e, s, captured).pending.adds)
  {
    var st := Staged(e, s, captured);
    StagedIsOk(e, s, captured);
    DrainWithNothingReady(e, st.pending.list, rank, st.pending.adds, captured);
  }

  /**
   * A flush with nothing recorded (no cursors, removals, added or moved
   * nodes) reports nothing and resets nothing; it only empties
   * `removedNodeMap`.
   */
  lemma FlushWithNothingRecorded(e: Env, entries: map<int, NodeRef>, s: Buffers, rank: seq<real>, captured: NodeCaptured)
    requires Wf(e.d) && BuffersIn(e.d, s) && Ranked(Staged(e, s, captured).pending.list.cells, rank)
    requires s.texts == [] && s.attributes == [] && s.removes == [] && s.added == [] && s.moved == []
    ensures Flushed(e, entries, s, rank, captured).outcome == Suppressed
    ensures Flushed(e, entries, s, rank, captured).s == s.(removedNodeMap := [])
  {
    var st := Staged(e, s, captured);
    assert st == Staging(Pending(EmptyList, []), s.dropped);
    StagedIsOk(e, s, captured);
  }
}
