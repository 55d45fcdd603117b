/**
 * The queue `emit` keeps of added nodes whose parent or next sibling has
 * no id yet (`DoubleLinkedList`). Its `DoubleLinkedListNode` objects are
 * cells numbered in the order they are created; `previous`, `next` and
 * `head` hold cell numbers, and the `__ln` property a queued node gets is
 * the map `ln` from nodes to cells.
 */
module LinkedList {
  import opened Wrappers
  import opened Dom

  datatype Cell = Cell(previous: Option<nat>, next: Option<nat>, value: NodeRef)

  /** The list's fields, the cells it has created and the `__ln` properties. */
  datatype ListState = ListState(length: int, head: Option<nat>, cells: seq<Cell>, ln: map<NodeRef, nat>)

  predicate InRange(o: Option<nat>, k: nat) {
    o.None? || o.value < k
  }

  /** Every link names a cell that exists. */
  predicate CellsClosed(cells: seq<Cell>) {
    forall c :: 0 <= c < |cells| ==> InRange(cells[c].previous, |cells|) && InRange(cells[c].next, |cells|)
  }

  predicate Closed(l: ListState) {
    && CellsClosed(l.cells)
    && InRange(l.head, |l.cells|)
    && (forall v :: v in l.ln ==> l.ln[v] < |l.cells|)
  }

  /**
   * `next` leads to a higher rank and `previous` to a lower one. Every
   * operation keeps this, however the links are arranged, so following
   * `previous` always ends.
   */
  ghost predicate Ranked(cells: seq<Cell>, rank: seq<real>)
    requires CellsClosed(cells)
  {
    && |rank| == |cells|
    && (forall c :: 0 <= c < |cells| && cells[c].next.Some? ==> rank[c] < rank[cells[c].next.value])
    && (forall c :: 0 <= c < |cells| && cells[c].previous.Some? ==> rank[cells[c].previous.value] < rank[c])
  }

  /** One step of `current = current?.next || null`. */
  function Step(cells: seq<Cell>, current: Option<nat>): (r: Option<nat>)
    requires CellsClosed(cells) && InRange(current, |cells|)
    ensures InRange(r, |cells|)
  {
    match current
    case None => None
    case Some(c) => cells[c].next
  }

  /** `k` steps along `next` from `from`. */
  function Walk(cells: seq<Cell>, from: Option<nat>, k: nat): (r: Option<nat>)
    requires CellsClosed(cells) && InRange(from, |cells|)
    ensures InRange(r, |cells|)
    ensures from.None? ==> r.None?
  {
    if k == 0 then from else Step(cells, Walk(cells, from, k - 1))
  }

  /** Cell `x` replaced by `cell`, whose links name existing cells. */
  function SetCell(cells: seq<Cell>, x: nat, cell: Cell): (r: seq<Cell>)
    requires CellsClosed(cells) && x < |cells|
    requires InRange(cell.previous, |cells|) && InRange(cell.next, |cells|)
    ensures CellsClosed(r) && |r| == |cells| && r[x] == cell
  {
    cells[x := cell]
  }

  /** A cell for `n`, with no links yet, after the existing ones. */
  function NewCell(cells: seq<Cell>, n: NodeRef): (r: seq<Cell>)
    requires CellsClosed(cells)
    ensures CellsClosed(r) && |r| == |cells| + 1 && r[|cells|] == Cell(None, None, n)
    ensures forall x :: 0 <= x < |cells| ==> r[x] == cells[x]
  {
    cells + [Cell(None, None, n)]
  }

  /**
   * The new cell `c` linked right after cell `p` (the previous-sibling
   * case): `node.next = current; node.previous = p; p.next = node;
   * current.previous = node` when there is a current.
   */
  function LinkAfter(cells: seq<Cell>, c: nat, p: nat): (r: seq<Cell>)
    requires CellsClosed(cells) && c < |cells| && p < |cells|
    ensures CellsClosed(r) && |r| == |cells|
  {
    var current := cells[p].next;
    var r1 := SetCell(cells, c, cells[c].(next := current));
    var r2 := SetCell(r1, c, r1[c].(previous := Some(p)));
    var r3 := SetCell(r2, p, r2[p].(next := Some(c)));
    if current.Some? then SetCell(r3, current.value, r3[current.value].(previous := Some(c))) else r3
  }

  /** The new cell `c` linked right before cell `q` (the next-sibling case). */
  function LinkBefore(cells: seq<Cell>, c: nat, q: nat): (r: seq<Cell>)
    requires CellsClosed(cells) && c < |cells| && q < |cells|
    ensures CellsClosed(r) && |r| == |cells|
  {
    var current := cells[q].previous;
    var r1 := SetCell(cells, c, cells[c].(previous := current));
    var r2 := SetCell(r1, c, r1[c].(next := Some(q)));
    var r3 := SetCell(r2, q, r2[q].(previous := Some(c)));
    if current.Some? then SetCell(r3, current.value, r3[current.value].(next := Some(c))) else r3
  }

  /** The new cell `c` linked in front of `head`. */
  function LinkFront(cells: seq<Cell>, c: nat, head: Option<nat>): (r: seq<Cell>)
    requires CellsClosed(cells) && c < |cells| && InRange(head, |cells|)
    ensures CellsClosed(r) && |r| == |cells|
  {
    var r1 := if head.Some? then SetCell(cells, head.value, cells[head.value].(previous := Some(c))) else cells;
    SetCell(r1, c, r1[c].(next := head))
  }

  /**
   * `addNode(n)`, given the node's previous and next siblings: a new cell
   * for `n`, linked right after the previous sibling's cell when that
   * sibling has `__ln`, else right before the next sibling's cell when that
   * one has, else in front as the new head. Only the last case moves `head`.
   */
  function Added(l: ListState, n: NodeRef, prev: Option<NodeRef>, next: Option<NodeRef>): (r: ListState)
    requires Closed(l)
    ensures Closed(r)
    ensures r.length == l.length + 1 && |r.cells| == |l.cells| + 1 && r.ln == l.ln[n := |l.cells|]
    ensures r.head == if (prev.Some? && prev.value in l.ln) || (next.Some? && next.value in l.ln) then l.head else Some(|l.cells|)
  {
    var c := |l.cells|;
    var cells := NewCell(l.cells, n);
    if prev.Some? && prev.value in l.ln then
      ListState(l.length + 1, l.head, LinkAfter(cells, c, l.ln[prev.value]), l.ln[n := c])
    else if next.Some? && next.value in l.ln then
      ListState(l.length + 1, l.head, LinkBefore(cells, c, l.ln[next.value]), l.ln[n := c])
    else
      ListState(l.length + 1, Some(c), LinkFront(cells, c, l.head), l.ln[n := c])
  }

  /** Cell `cur`, which has a previous cell, taken out: `previous.next = next; next.previous = previous`. */
  function Unlink(cells: seq<Cell>, cur: nat): (r: seq<Cell>)
    requires CellsClosed(cells) && cur < |cells| && cells[cur].previous.Some?
    ensures CellsClosed(r) && |r| == |cells|
  {
    var p := cells[cur].previous.value;
    var r1 := SetCell(cells, p, cells[p].(next := cells[cur].next));
    if r1[cur].next.Some? then
      var q := r1[cur].next.value;
      SetCell(r1, q, r1[q].(previous := r1[cur].previous))
    else r1
  }

  /** The new head's `previous` cleared. */
  function Unhead(cells: seq<Cell>, head: Option<nat>): (r: seq<Cell>)
    requires CellsClosed(cells) && InRange(head, |cells|)
    ensures CellsClosed(r) && |r| == |cells|
  {
    if head.Some? then SetCell(cells, head.value, cells[head.value].(previous := None)) else cells
  }

  /**
   * `removeNode(n)`: whether it throws, and the new state. With a null head
   * nothing happens; a node without `__ln` makes it read a property of
   * `undefined`; otherwise the cell's neighbours are linked to each other,
   * `head` moves on when the cell had no previous, `__ln` is deleted and
   * the length goes down by one.
   */
  function Removed(l: ListState, n: NodeRef): (r: (bool, ListState))
    requires Closed(l)
    ensures Closed(r.1)
    ensures l.head.None? ==> r == (false, l)
    ensures l.head.Some? && n !in l.ln ==> r == (true, l)
    ensures l.head.Some? && n in l.ln ==>
              !r.0 && r.1.length == l.length - 1 && r.1.ln == l.ln - {n} && |r.1.cells| == |l.cells|
  {
    if l.head.None? then (false, l)
    else if n !in l.ln then (true, l)
    else
      var cur := l.ln[n];
      if l.cells[cur].previous.None? then
        var head := l.cells[cur].next;
        (false, ListState(l.length - 1, head, Unhead(l.cells, head), l.ln - {n}))
      else
        (false, ListState(l.length - 1, l.head, Unlink(l.cells, cur), l.ln - {n}))
  }

  /** Every cell of `order` exists. */
  predicate Within(order: seq<nat>, k: nat) {
    forall i :: 0 <= i < |order| ==> order[i] < k
  }

  predicate Distinct(order: seq<nat>) {
    forall i, j :: 0 <= i < j < |order| ==> order[i] != order[j]
  }

  /** The cell after position `i` of `order`, null after the last. */
  function NextOf(order: seq<nat>, i: nat): Option<nat>
    requires i < |order|
  {
    if i + 1 < |order| then Some(order[i + 1]) else None
  }

  /** The cell before position `i` of `order`, null before the first. */
  function PrevOf(order: seq<nat>, i: nat): Option<nat>
    requires i < |order|
  {
    if i == 0 then None else Some(order[i - 1])
  }

  /** Each cell of `order` has the following one as `next`, the last one null. */
  ghost predicate NextLinked(cells: seq<Cell>, order: seq<nat>)
    requires Within(order, |cells|)
  {
    forall i {:trigger cells[order[i]]} :: 0 <= i < |order| ==> cells[order[i]].next == NextOf(order, i)
  }

  /** Each cell of `order` has the preceding one as `previous`, the first one null. */
  ghost predicate PrevLinked(cells: seq<Cell>, order: seq<nat>)
    requires Within(order, |cells|)
  {
    forall i {:trigger cells[order[i]]} :: 0 <= i < |order| ==> cells[order[i]].previous == PrevOf(order, i)
  }

  /** The cells of `order` are distinct and linked both ways in that order. */
  ghost predicate Linked(cells: seq<Cell>, order: seq<nat>) {
    Within(order, |cells|) && Distinct(order) && NextLinked(cells, order) && PrevLinked(cells, order)
  }

  /** `__ln` maps each queued node to its cell and nothing else. */
  ghost predicate LnMatches(l: ListState, order: seq<nat>)
    requires Within(order, |l.cells|)
  {
    && (forall i {:trigger l.cells[order[i]]} :: 0 <= i < |order| ==> l.cells[order[i]].value in l.ln && l.ln[l.cells[order[i]].value] == order[i])
    && (forall v :: v in l.ln ==> l.ln[v] in order && l.cells[l.ln[v]].value == v)
  }

  /** A proper list: `head` starts the linked cells of `order` and the length counts them. */
  ghost predicate Chain(l: ListState, order: seq<nat>) {
    && Closed(l)
    && Linked(l.cells, order)
    && LnMatches(l, order)
    && l.length == |order|
    && l.head == (if |order| == 0 then None else Some(order[0]))
  }

  /** The queued nodes, in list order. */
  ghost function Values(l: ListState, order: seq<nat>): (r: seq<NodeRef>)
    requires Chain(l, order)
    ensures |r| == |order|
  {
    seq(|order|, i requires 0 <= i < |order| => l.cells[order[i]].value)
  }

  /** `order` with `c` put in at position `j`. */
  function Inserted(order: seq<nat>, j: nat, c: nat): (r: seq<nat>)
    requires j <= |order|
    ensures |r| == |order| + 1 && r[j] == c
    ensures forall i {:trigger r[i]} :: 0 <= i < j ==> r[i] == order[i]
    ensures forall i {:trigger r[i]} :: j < i <= |order| ==> r[i] == order[i - 1]
  {
    seq(|order| + 1, i requires 0 <= i <= |order| => if i < j then order[i] else if i == j then c else order[i - 1])
  }

  /** `order` without its element at position `j`. */
  function Deleted(order: seq<nat>, j: nat): (r: seq<nat>)
    requires j < |order|
    ensures |r| == |order| - 1
    ensures forall i {:trigger r[i]} :: 0 <= i < j ==> r[i] == order[i]
    ensures forall i {:trigger r[i]} :: j <= i < |r| ==> r[i] == order[i + 1]
  {
    seq(|order| - 1, i requires 0 <= i < |order| - 1 => if i < j then order[i] else order[i + 1])
  }

  lemma InsertedWithin(order: seq<nat>, j: nat, c: nat, k: nat)
    requires Within(order, k) && j <= |order| && c < k
    ensures Within(Inserted(order, j, c), k)
  {
    var o := Inserted(order, j, c);
    forall i | 0 <= i < |o|
      ensures o[i] < k
    {
      if i != j {
        assert o[i] == order[if i < j then i else i - 1];
      }
    }
  }

  lemma DeletedWithin(order: seq<nat>, j: nat, k: nat)
    requires Within(order, k) && j < |order|
    ensures Within(Deleted(order, j), k)
  {
    var o := Deleted(order, j);
    forall i | 0 <= i < |o|
      ensures o[i] < k
    {
      assert o[i] == order[if i < j then i else i + 1];
    }
  }

  /** The insertion is the splice of `c` between the first `j` elements and the rest. */
  lemma InsertedIsSplice(order: seq<nat>, j: nat, c: nat)
    requires j <= |order|
    ensures Inserted(order, j, c) == order[..j] + [c] + order[j..]
  {
  }

  /** The deletion is the first `j` elements followed by those after position `j`. */
  lemma DeletedIsSplice(order: seq<nat>, j: nat)
    requires j < |order|
    ensures Deleted(order, j) == order[..j] + order[j + 1..]
  {
  }

  /** `get(i)` in a proper list is the `i`-th cell, and one step past the last cell gives null. */
  lemma {:induction false} WalkFollowsChain(l: ListState, order: seq<nat>, i: nat)
    requires Chain(l, order) && i <= |order|
    ensures Walk(l.cells, l.head, i) == if i < |order| then Some(order[i]) else None
  {
    if i > 0 {
      WalkFollowsChain(l, order, i - 1);
    }
  }

  lemma InsertDistinct(order: seq<nat>, j: nat, c: nat)
    requires Distinct(order) && j <= |order| && c !in order
    ensures Distinct(Inserted(order, j, c))
  {
    var o := Inserted(order, j, c);
    forall a, b | 0 <= a < b < |o|
      ensures o[a] != o[b]
    {
      if a != j && b != j {
        assert o[a] == order[if a < j then a else a - 1];
      }
    }
  }

  lemma DeleteDistinct(order: seq<nat>, j: nat)
    requires Distinct(order) && j < |order|
    ensures Distinct(Deleted(order, j))
  {
    var o := Deleted(order, j);
    forall a, b | 0 <= a < b < |o|
      ensures o[a] != o[b]
    {
      assert o[a] == order[if a < j then a else a + 1];
      assert o[b] == order[if b < j then b else b + 1];
    }
  }

  /** With the cell before position `j` now pointing at `c`, and `c` at the old cell `j`, the `next` links follow the insertion. */
  lemma InsertNext(lc: seq<Cell>, rc: seq<Cell>, order: seq<nat>, j: nat, c: nat)
    requires Within(order, |lc|) && NextLinked(lc, order) && j <= |order| && |lc| <= |rc| && c < |rc|
    requires rc[c].next == (if j < |order| then Some(order[j]) else None)
    requires j > 0 ==> rc[order[j - 1]].next == Some(c)
    requires forall i {:trigger rc[order[i]]} :: 0 <= i < |order| && i != j - 1 ==> rc[order[i]].next == lc[order[i]].next
    ensures Within(Inserted(order, j, c), |rc|)
    ensures NextLinked(rc, Inserted(order, j, c))
  {
    InsertedWithin(order, j, c, |rc|);
    var o := Inserted(order, j, c);
    forall i | 0 <= i < |o|
      ensures rc[o[i]].next == NextOf(o, i)
    {
      if i < j - 1 {
        assert lc[order[i]].next == NextOf(order, i);
      } else if i > j {
        assert lc[order[i - 1]].next == NextOf(order, i - 1);
      }
    }
  }

  /** With the cell at position `j` now pointing back at `c`, and `c` at the old cell `j - 1`, the `previous` links follow the insertion. */
  lemma InsertPrev(lc: seq<Cell>, rc: seq<Cell>, order: seq<nat>, j: nat, c: nat)
    requires Within(order, |lc|) && PrevLinked(lc, order) && j <= |order| && |lc| <= |rc| && c < |rc|
    requires rc[c].previous == (if j > 0 then Some(order[j - 1]) else None)
    requires j < |order| ==> rc[order[j]].previous == Some(c)
    requires forall i {:trigger rc[order[i]]} :: 0 <= i < |order| && i != j ==> rc[order[i]].previous == lc[order[i]].previous
    ensures Within(Inserted(order, j, c), |rc|)
    ensures PrevLinked(rc, Inserted(order, j, c))
  {
    InsertedWithin(order, j, c, |rc|);
    var o := Inserted(order, j, c);
    forall i | 0 <= i < |o|
      ensures rc[o[i]].previous == PrevOf(o, i)
    {
      if i < j {
        assert lc[order[i]].previous == PrevOf(order, i);
      } else if i > j + 1 {
        assert lc[order[i - 1]].previous == PrevOf(order, i - 1);
      }
    }
  }

  /** With the cell before position `j` now pointing where cell `j` pointed, the `next` links follow the deletion. */
  lemma DeleteNext(lc: seq<Cell>, rc: seq<Cell>, order: seq<nat>, j: nat)
    requires Within(order, |lc|) && NextLinked(lc, order) && j < |order| && |lc| <= |rc|
    requires j > 0 ==> rc[order[j - 1]].next == lc[order[j]].next
    requires forall i {:trigger rc[order[i]]} :: 0 <= i < |order| && i != j - 1 && i != j ==> rc[order[i]].next == lc[order[i]].next
    ensures Within(Deleted(order, j), |rc|)
    ensures NextLinked(rc, Deleted(order, j))
  {
    DeletedWithin(order, j, |rc|);
    var o := Deleted(order, j);
    forall i | 0 <= i < |o|
      ensures rc[o[i]].next == NextOf(o, i)
    {
      if i < j - 1 {
        assert lc[order[i]].next == NextOf(order, i);
      } else if i == j - 1 {
        assert lc[order[j]].next == NextOf(order, j);
      } else {
        assert lc[order[i + 1]].next == NextOf(order, i + 1);
      }
    }
  }

  /** With the cell after position `j` now pointing back where cell `j` did, the `previous` links follow the deletion. */
  lemma DeletePrev(lc: seq<Cell>, rc: seq<Cell>, order: seq<nat>, j: nat)
    requires Within(order, |lc|) && PrevLinked(lc, order) && j < |order| && |lc| <= |rc|
    requires j + 1 < |order| ==> rc[order[j + 1]].previous == lc[order[j]].previous
    requires forall i {:trigger rc[order[i]]} :: 0 <= i < |order| && i != j && i != j + 1 ==> rc[order[i]].previous == lc[order[i]].previous
    ensures Within(Deleted(order, j), |rc|)
    ensures PrevLinked(rc, Deleted(order, j))
  {
    DeletedWithin(order, j, |rc|);
    var o := Deleted(order, j);
    forall i | 0 <= i < |o|
      ensures rc[o[i]].previous == PrevOf(o, i)
    {
      if i < j {
        assert lc[order[i]].previous == PrevOf(order, i);
      } else if i == j {
        assert lc[order[j]].previous == PrevOf(order, j);
      } else {
        assert lc[order[i + 1]].previous == PrevOf(order, i + 1);
      }
    }
  }

  /** Registering a new cell `c` for a node that had no `__ln` keeps `__ln` matching. */
  lemma InsertLn(l: ListState, r: ListState, order: seq<nat>, j: nat, c: nat, n: NodeRef)
    requires Within(order, |l.cells|) && LnMatches(l, order) && j <= |order| && n !in l.ln
    requires Within(Inserted(order, j, c), |r.cells|) && |l.cells| <= |r.cells| && c !in order
    requires r.ln == l.ln[n := c] && r.cells[c].value == n
    requires forall i {:trigger r.cells[order[i]]} :: 0 <= i < |order| ==> r.cells[order[i]].value == l.cells[order[i]].value
    ensures LnMatches(r, Inserted(order, j, c))
  {
    var o := Inserted(order, j, c);
    forall i | 0 <= i < |o|
      ensures r.cells[o[i]].value in r.ln && r.ln[r.cells[o[i]].value] == o[i]
    {
      if i != j {
        var k := if i < j then i else i - 1;
        assert o[i] == order[k];
      }
    }
    forall v | v in r.ln
      ensures r.ln[v] in o && r.cells[r.ln[v]].value == v
    {
      if v != n {
        var k :| 0 <= k < |order| && order[k] == l.ln[v];
        assert o[if k < j then k else k + 1] == l.ln[v];
      } else {
        assert o[j] == c;
      }
    }
  }

  /** Forgetting the `__ln` of the node in the cell at position `j` keeps `__ln` matching the rest. */
  lemma DeleteLn(l: ListState, r: ListState, order: seq<nat>, j: nat, n: NodeRef)
    requires Within(order, |l.cells|) && Distinct(order) && LnMatches(l, order)
    requires j < |order| && n in l.ln && l.ln[n] == order[j]
    requires Within(order, |r.cells|) && r.ln == l.ln - {n}
    requires forall i {:trigger r.cells[order[i]]} :: 0 <= i < |order| ==> r.cells[order[i]].value == l.cells[order[i]].value
    ensures Within(Deleted(order, j), |r.cells|) && LnMatches(r, Deleted(order, j))
  {
    var o := Deleted(order, j);
    forall i | 0 <= i < |o|
      ensures r.cells[o[i]].value in r.ln && r.ln[r.cells[o[i]].value] == o[i]
    {
      var k := if i < j then i else i + 1;
      assert o[i] == order[k] && k != j;
      assert l.cells[order[k]].value != n;
    }
    forall v | v in r.ln
      ensures r.ln[v] in o && r.cells[r.ln[v]].value == v
    {
      var k :| 0 <= k < |order| && order[k] == l.ln[v];
      assert k != j;
      assert o[if k < j then k else k - 1] == l.ln[v];
    }
  }

  /** The queued node's cell is in the list; `__ln` gives its position. */
  lemma LnPosition(l: ListState, order: seq<nat>, v: NodeRef) returns (k: nat)
    requires Chain(l, order) && v in l.ln
    ensures k < |order| && order[k] == l.ln[v]
  {
    k :| 0 <= k < |order| && order[k] == l.ln[v];
  }

  /** What linking `c` after `p` does to each cell. */
  lemma LinkAfterCells(cells: seq<Cell>, c: nat, p: nat)
    requires CellsClosed(cells) && c < |cells| && p < |cells| && c != p
    requires cells[p].next != Some(c) && cells[p].next != Some(p)
    ensures var r := LinkAfter(cells, c, p);
            && r[c] == Cell(Some(p), cells[p].next, cells[c].value)
            && r[p] == cells[p].(next := Some(c))
            && (cells[p].next.Some? ==> r[cells[p].next.value] == cells[cells[p].next.value].(previous := Some(c)))
            && (forall x {:trigger r[x]} :: 0 <= x < |cells| && x != c && x != p && Some(x) != cells[p].next ==> r[x] == cells[x])
  {
  }

  /** What linking `c` before `q` does to each cell. */
  lemma LinkBeforeCells(cells: seq<Cell>, c: nat, q: nat)
    requires CellsClosed(cells) && c < |cells| && q < |cells| && c != q
    requires cells[q].previous != Some(c) && cells[q].previous != Some(q)
    ensures var r := LinkBefore(cells, c, q);
            && r[c] == Cell(cells[q].previous, Some(q), cells[c].value)
            && r[q] == cells[q].(previous := Some(c))
            && (cells[q].previous.Some? ==> r[cells[q].previous.value] == cells[cells[q].previous.value].(next := Some(c)))
            && (forall x {:trigger r[x]} :: 0 <= x < |cells| && x != c && x != q && Some(x) != cells[q].previous ==> r[x] == cells[x])
  {
  }

  /** What linking `c` in front of `head` does to each cell. */
  lemma LinkFrontCells(cells: seq<Cell>, c: nat, head: Option<nat>)
    requires CellsClosed(cells) && c < |cells| && InRange(head, |cells|) && head != Some(c)
    ensures var r := LinkFront(cells, c, head);
            && r[c] == cells[c].(next := head)
            && (head.Some? ==> r[head.value] == cells[head.value].(previous := Some(c)))
            && (forall x {:trigger r[x]} :: 0 <= x < |cells| && x != c && Some(x) != head ==> r[x] == cells[x])
  {
  }

  /** What unlinking `cur` does to each cell. */
  lemma UnlinkCells(cells: seq<Cell>, cur: nat)
    requires CellsClosed(cells) && cur < |cells| && cells[cur].previous.Some?
    requires cells[cur].previous != Some(cur) && cells[cur].next != Some(cur)
    requires cells[cur].next.None? || cells[cur].next != cells[cur].previous
    ensures var r := Unlink(cells, cur);
            var p := cells[cur].previous.value;
            && r[p] == cells[p].(next := cells[cur].next)
            && (cells[cur].next.Some? ==> r[cells[cur].next.value] == cells[cells[cur].next.value].(previous := Some(p)))
            && (forall x {:trigger r[x]} :: 0 <= x < |cells| && x != p && Some(x) != cells[cur].next ==> r[x] == cells[x])
  {
  }

  /** The cells after queueing `n` behind its previous sibling's cell `p`. */
  lemma AddedAfterCells(l: ListState, n: NodeRef, prev: Option<NodeRef>, next: Option<NodeRef>)
    requires Closed(l) && prev.Some? && prev.value in l.ln
    requires l.cells[l.ln[prev.value]].next != Some(l.ln[prev.value])
    ensures var r := Added(l, n, prev, next).cells;
            var c := |l.cells|;
            var p := l.ln[prev.value];
            var cur := l.cells[p].next;
            && r[c] == Cell(Some(p), cur, n)
            && r[p] == l.cells[p].(next := Some(c))
            && (cur.Some? ==> r[cur.value] == l.cells[cur.value].(previous := Some(c)))
            && (forall x {:trigger r[x]} :: 0 <= x < |l.cells| && x != p && Some(x) != cur ==> r[x] == l.cells[x])
  {
    var cells := NewCell(l.cells, n);
    LinkAfterCells(cells, |l.cells|, l.ln[prev.value]);
  }

  /** The cells after queueing `n` before its next sibling's cell `q`. */
  lemma AddedBeforeCells(l: ListState, n: NodeRef, prev: Option<NodeRef>, next: Option<NodeRef>)
    requires Closed(l) && !(prev.Some? && prev.value in l.ln) && next.Some? && next.value in l.ln
    requires l.cells[l.ln[next.value]].previous != Some(l.ln[next.value])
    ensures var r := Added(l, n, prev, next).cells;
            var c := |l.cells|;
            var q := l.ln[next.value];
            var cur := l.cells[q].previous;
            && r[c] == Cell(cur, Some(q), n)
            && r[q] == l.cells[q].(previous := Some(c))
            && (cur.Some? ==> r[cur.value] == l.cells[cur.value].(next := Some(c)))
            && (forall x {:trigger r[x]} :: 0 <= x < |l.cells| && x != q && Some(x) != cur ==> r[x] == l.cells[x])
  {
    var cells := NewCell(l.cells, n);
    LinkBeforeCells(cells, |l.cells|, l.ln[next.value]);
  }

  /** The cells after queueing `n` in front. */
  lemma AddedFrontCells(l: ListState, n: NodeRef, prev: Option<NodeRef>, next: Option<NodeRef>)
    requires Closed(l) && !(prev.Some? && prev.value in l.ln) && !(next.Some? && next.value in l.ln)
    ensures var r := Added(l, n, prev, next).cells;
            var c := |l.cells|;
            && r[c] == Cell(None, l.head, n)
            && (l.head.Some? ==> r[l.head.value] == l.cells[l.head.value].(previous := Some(c)))
            && (forall x {:trigger r[x]} :: 0 <= x < |l.cells| && Some(x) != l.head ==> r[x] == l.cells[x])
  {
    var cells := NewCell(l.cells, n);
    LinkFrontCells(cells, |l.cells|, l.head);
  }

  /** The cells after removing `n`, whose cell `cur` has no previous: only the next cell's `previous` changes. */
  lemma RemovedHeadCells(l: ListState, n: NodeRef)
    requires Closed(l) && l.head.Some? && n in l.ln && l.cells[l.ln[n]].previous.None?
    ensures var r := Removed(l, n).1;
            var nx := l.cells[l.ln[n]].next;
            && r.head == nx && |r.cells| == |l.cells|
            && (nx.Some? ==> r.cells[nx.value] == l.cells[nx.value].(previous := None))
            && (forall x {:trigger r.cells[x]} :: 0 <= x < |l.cells| && Some(x) != nx ==> r.cells[x] == l.cells[x])
  {
  }

  /** The cells after removing `n`, whose cell `cur` has a previous cell `p`: `p` and the next cell are relinked. */
  lemma RemovedInnerCells(l: ListState, n: NodeRef)
    requires Closed(l) && l.head.Some? && n in l.ln && l.cells[l.ln[n]].previous.Some?
    requires var cur := l.ln[n];
             l.cells[cur].previous != Some(cur) && l.cells[cur].next != Some(cur)
             && (l.cells[cur].next.None? || l.cells[cur].next != l.cells[cur].previous)
    ensures var r := Removed(l, n).1;
            var cur := l.ln[n];
            var p := l.cells[cur].previous.value;
            var nx := l.cells[cur].next;
            && r.head == l.head && |r.cells| == |l.cells|
            && r.cells[p] == l.cells[p].(next := nx)
            && (nx.Some? ==> r.cells[nx.value] == l.cells[nx.value].(previous := Some(p)))
            && (forall x {:trigger r.cells[x]} :: 0 <= x < |l.cells| && x != p && Some(x) != nx ==> r.cells[x] == l.cells[x])
  {
    UnlinkCells(l.cells, l.ln[n]);
  }

  /** Queueing a node keeps every existing cell's value and gives the new cell the node. */
  lemma AddedValues(l: ListState, n: NodeRef, prev: Option<NodeRef>, next: Option<NodeRef>)
    requires Closed(l)
    ensures var r := Added(l, n, prev, next).cells;
            && r[|l.cells|].value == n
            && (forall x {:trigger r[x]} :: 0 <= x < |l.cells| ==> r[x].value == l.cells[x].value)
  {
    var cells := NewCell(l.cells, n);
    var c := |l.cells|;
    var r := Added(l, n, prev, next).cells;
    if prev.Some? && prev.value in l.ln {
      assert r == LinkAfter(cells, c, l.ln[prev.value]);
    } else if next.Some? && next.value in l.ln {
      assert r == LinkBefore(cells, c, l.ln[next.value]);
    } else {
      assert r == LinkFront(cells, c, l.head);
    }
  }

  /** Removing a node keeps every cell's value. */
  lemma RemovedValues(l: ListState, n: NodeRef)
    requires Closed(l)
    ensures var r := Removed(l, n).1.cells;
            |r| == |l.cells| && forall x {:trigger r[x]} :: 0 <= x < |l.cells| ==> r[x].value == l.cells[x].value
  {
  }

  /** Queueing a node gives at most one more node an `__ln`. */
  lemma AddedCount(l: ListState, n: NodeRef, prev: Option<NodeRef>, next: Option<NodeRef>)
    requires Closed(l)
    ensures |Added(l, n, prev, next).ln| <= |l.ln| + 1
  {
    assert Added(l, n, prev, next).ln.Keys == l.ln.Keys + {n};
  }

  /** A removal that neither throws nor finds a null head takes away one `__ln` and one from the length. */
  lemma RemovedCount(l: ListState, n: NodeRef)
    requires Closed(l)
    ensures var r := Removed(l, n);
            !r.0 && l.head.Some? ==> n in l.ln && |r.1.ln| == |l.ln| - 1 && r.1.length == l.length - 1
  {
    if l.head.Some? && n in l.ln {
      assert Removed(l, n).1.ln.Keys == l.ln.Keys - {n};
    }
  }

  /** Queueing a node that had no `__ln`, at position `j`, keeps `__ln` matching. */
  lemma AddedLn(l: ListState, order: seq<nat>, n: NodeRef, prev: Option<NodeRef>, next: Option<NodeRef>, j: nat)
    requires Closed(l) && Within(order, |l.cells|) && LnMatches(l, order) && n !in l.ln && j <= |order|
    ensures Within(Inserted(order, j, |l.cells|), |l.cells| + 1)
    ensures LnMatches(Added(l, n, prev, next), Inserted(order, j, |l.cells|))
  {
    var c := |l.cells|;
    AddedValues(l, n, prev, next);
    InsertedWithin(order, j, c, c + 1);
    InsertLn(l, Added(l, n, prev, next), order, j, c, n);
  }

  /** Queueing after the cell at position `k` keeps the cells linked, with the new cell at `k + 1`. */
  lemma AddedAfterLinked(l: ListState, order: seq<nat>, n: NodeRef, prev: Option<NodeRef>, next: Option<NodeRef>, k: nat)
    requires Closed(l) && Linked(l.cells, order) && prev.Some? && prev.value in l.ln
    requires k < |order| && order[k] == l.ln[prev.value]
    ensures Linked(Added(l, n, prev, next).cells, Inserted(order, k + 1, |l.cells|))
  {
    var c := |l.cells|;
    var r := Added(l, n, prev, next).cells;
    assert l.cells[order[k]].next == NextOf(order, k);
    AddedAfterCells(l, n, prev, next);
    forall i {:trigger r[order[i]]} | 0 <= i < |order| && i != k && i != k + 1
      ensures r[order[i]] == l.cells[order[i]]
    {
    }
    InsertNext(l.cells, r, order, k + 1, c);
    InsertPrev(l.cells, r, order, k + 1, c);
    InsertDistinct(order, k + 1, c);
  }

  /** Queueing before the cell at position `k` keeps the cells linked, with the new cell at `k`. */
  lemma AddedBeforeLinked(l: ListState, order: seq<nat>, n: NodeRef, prev: Option<NodeRef>, next: Option<NodeRef>, k: nat)
    requires Closed(l) && Linked(l.cells, order) && !(prev.Some? && prev.value in l.ln)
    requires next.Some? && next.value in l.ln && 0 < k < |order| && order[k] == l.ln[next.value]
    ensures Linked(Added(l, n, prev, next).cells, Inserted(order, k, |l.cells|))
  {
    var c := |l.cells|;
    var r := Added(l, n, prev, next).cells;
    assert l.cells[order[k]].previous == PrevOf(order, k);
    AddedBeforeCells(l, n, prev, next);
    forall i {:trigger r[order[i]]} | 0 <= i < |order| && i != k && i != k - 1
      ensures r[order[i]] == l.cells[order[i]]
    {
    }
    InsertNext(l.cells, r, order, k, c);
    InsertPrev(l.cells, r, order, k, c);
    InsertDistinct(order, k, c);
  }

  /** Queueing in front of the head cell keeps the cells linked, with the new cell first. */
  lemma AddedFrontLinked(l: ListState, order: seq<nat>, n: NodeRef, prev: Option<NodeRef>, next: Option<NodeRef>)
    requires Closed(l) && Linked(l.cells, order) && l.head == (if |order| == 0 then None else Some(order[0]))
    requires !(prev.Some? && prev.value in l.ln) && !(next.Some? && next.value in l.ln)
    ensures Linked(Added(l, n, prev, next).cells, Inserted(order, 0, |l.cells|))
  {
    var c := |l.cells|;
    var r := Added(l, n, prev, next).cells;
    AddedFrontCells(l, n, prev, next);
    forall i {:trigger r[order[i]]} | 0 < i < |order|
      ensures r[order[i]] == l.cells[order[i]]
    {
    }
    InsertNext(l.cells, r, order, 0, c);
    InsertPrev(l.cells, r, order, 0, c);
    InsertDistinct(order, 0, c);
  }

  /** The parts of a proper list put together. */
  lemma ChainOf(l: ListState, order: seq<nat>)
    requires Closed(l) && Linked(l.cells, order) && LnMatches(l, order)
    requires l.length == |order| && l.head == (if |order| == 0 then None else Some(order[0]))
    ensures Chain(l, order)
  {
  }

  /** Queueing a node whose previous sibling is queued keeps a proper list, with the new cell right after the sibling's. */
  lemma AddedAfterKeepsChain(l: ListState, order: seq<nat>, n: NodeRef, prev: Option<NodeRef>, next: Option<NodeRef>, k: nat)
    requires Chain(l, order) && n !in l.ln && prev.Some? && prev.value in l.ln
    requires k < |order| && order[k] == l.ln[prev.value]
    ensures Chain(Added(l, n, prev, next), Inserted(order, k + 1, |l.cells|))
  {
    var r := Added(l, n, prev, next);
    var o := Inserted(order, k + 1, |l.cells|);
    AddedAfterLinked(l, order, n, prev, next, k);
    AddedLn(l, order, n, prev, next, k + 1);
    assert r.head == l.head && r.length == |o|;
    assert o[0] == order[0];
    ChainOf(r, o);
  }

  /** Queueing a node before a queued next sibling that is not first keeps a proper list. */
  lemma AddedBeforeKeepsChain(l: ListState, order: seq<nat>, n: NodeRef, prev: Option<NodeRef>, next: Option<NodeRef>, k: nat)
    requires Chain(l, order) && n !in l.ln && !(prev.Some? && prev.value in l.ln)
    requires next.Some? && next.value in l.ln && 0 < k < |order| && order[k] == l.ln[next.value]
    ensures Chain(Added(l, n, prev, next), Inserted(order, k, |l.cells|))
  {
    var r := Added(l, n, prev, next);
    var o := Inserted(order, k, |l.cells|);
    AddedBeforeLinked(l, order, n, prev, next, k);
    AddedLn(l, order, n, prev, next, k);
    assert r.length == |o|;
    assert o[0] == order[0];
    ChainOf(r, o);
  }

  /** Queueing a node with no queued sibling keeps a proper list, with the new cell first. */
  lemma AddedAsHeadKeepsChain(l: ListState, order: seq<nat>, n: NodeRef, prev: Option<NodeRef>, next: Option<NodeRef>)
    requires Chain(l, order) && n !in l.ln
    requires !(prev.Some? && prev.value in l.ln) && !(next.Some? && next.value in l.ln)
    ensures Chain(Added(l, n, prev, next), Inserted(order, 0, |l.cells|))
  {
    var r := Added(l, n, prev, next);
    var o := Inserted(order, 0, |l.cells|);
    AddedFrontLinked(l, order, n, prev, next);
    AddedLn(l, order, n, prev, next, 0);
    assert r.length == |o|;
    ChainOf(r, o);
  }

  /**
   * The next-sibling case does not move `head`: a node queued before the
   * head's node is linked in front of the head but cannot be reached from
   * it, so `get(length - 1)` gives null.
   */
  lemma AddedBeforeHeadIsUnreachable(l: ListState, order: seq<nat>, n: NodeRef, prev: Option<NodeRef>, next: Option<NodeRef>)
    requires Chain(l, order) && n !in l.ln && !(prev.Some? && prev.value in l.ln)
    requires next.Some? && next.value in l.ln && l.head == Some(l.ln[next.value])
    ensures var r := Added(l, n, prev, next);
            && r.head == l.head
            && r.cells[l.head.value].previous == Some(|l.cells|)
            && r.length == |order| + 1
            && Walk(r.cells, r.head, r.length - 1) == None
  {
    var r := Added(l, n, prev, next);
    assert l.cells[order[0]].previous == PrevOf(order, 0);
    AddedBeforeCells(l, n, prev, next);
    forall i {:trigger r.cells[order[i]]} | 0 < i < |order|
      ensures r.cells[order[i]] == l.cells[order[i]]
    {
    }
    WalkUnchanged(l, r, order, |order|);
  }

  lemma {:induction false} WalkUnchanged(l: ListState, r: ListState, order: seq<nat>, i: nat)
    requires Chain(l, order) && Closed(r) && r.head == l.head && |r.cells| >= |l.cells| && i <= |order|
    requires forall j {:trigger r.cells[order[j]]} :: 0 <= j < |order| ==> r.cells[order[j]].next == l.cells[order[j]].next
    ensures Walk(r.cells, r.head, i) == if i < |order| then Some(order[i]) else None
  {
    if i > 0 {
      WalkUnchanged(l, r, order, i - 1);
    }
  }

  /** Removing a queued node from a proper list leaves a proper list without its cell. */
  lemma RemovedKeepsChain(l: ListState, order: seq<nat>, n: NodeRef, k: nat)
    requires Chain(l, order) && n in l.ln && k < |order| && order[k] == l.ln[n]
    ensures !Removed(l, n).0
    ensures Chain(Removed(l, n).1, Deleted(order, k))
  {
    RemovedLinked(l, order, n, k);
    RemovedValues(l, n);
    DeletedWithin(order, k, |l.cells|);
    DeleteLn(l, Removed(l, n).1, order, k, n);
  }

  /** Removing the node in the cell at position `k` keeps the other cells linked, and `head` on the first. */
  lemma RemovedLinked(l: ListState, order: seq<nat>, n: NodeRef, k: nat)
    requires Closed(l) && Linked(l.cells, order) && |order| > 0 && l.head == Some(order[0])
    requires n in l.ln && k < |order| && order[k] == l.ln[n]
    ensures var r := Removed(l, n).1;
            && Linked(r.cells, Deleted(order, k))
            && r.head == (if |order| == 1 then None else Some(Deleted(order, k)[0]))
  {
    var r := Removed(l, n).1;
    assert l.cells[order[k]].previous == PrevOf(order, k) && l.cells[order[k]].next == NextOf(order, k);
    if k == 0 {
      RemovedHeadCells(l, n);
    } else {
      RemovedInnerCells(l, n);
    }
    forall i {:trigger r.cells[order[i]]} | 0 <= i < |order| && i != k - 1 && i != k + 1
      ensures r.cells[order[i]] == l.cells[order[i]]
    {
    }
    DeleteNext(l.cells, r.cells, order, k);
    DeletePrev(l.cells, r.cells, order, k);
    DeleteDistinct(order, k);
  }


  class DoubleLinkedList {
    var length: int
    var head: Option<nat>
    var cells: seq<Cell>
    var ln: map<NodeRef, nat>
    ghost var rank: seq<real>

    function State(): ListState
      reads this
    {
      ListState(length, head, cells, ln)
    }

    ghost predicate Valid()
      reads this
    {
      Closed(State()) && Ranked(cells, rank)
    }

    constructor()
      ensures Valid() && State() == ListState(0, None, [], map[])
    {
      length := 0;
      head := None;
      cells := [];
      ln := map[];
      rank := [];
    }

    /** `get(position)`: throws at or past the length, else follows `next` `position` times from `head`. */
    method Get(position: int) returns (r: Result<Option<nat>>)
      requires Valid()
      ensures position >= length ==> r.Err?
      ensures position < length ==> r == Ok(Walk(cells, head, if position < 0 then 0 else position))
    {
      if position >= length {
        return Err("Position outside of list range");
      }
      var current := head;
      var index := 0;
      while index < position
        invariant 0 <= index <= (if position < 0 then 0 else position)
        invariant current == Walk(cells, head, index)
      {
        current := if current.Some? then cells[current.value].next else None;
        index := index + 1;
      }
      return Ok(current);
    }

    /** `addNode(n)`, with the node's siblings read from the document. */
    method AddNode(d: Dom, n: NodeRef)
      requires Valid() && Wf(d) && n in d.nodes
      modifies this
      ensures Valid()
      ensures State() == Added(old(State()), n, PreviousSibling(d, n), NextSibling(d, n))
    {
      ghost var l := State();
      var prev := PreviousSibling(d, n);
      var next := NextSibling(d, n);
      AddedRanked(l, rank, n, prev, next);
      rank := AddedRank(l, rank, prev, next);
      var c := |cells|;
      cells := cells + [Cell(None, None, n)];
      ln := ln[n := c];
      if prev.Some? && prev.value in ln {
        LinkAfterInPlace(c, ln[prev.value]);
      } else if next.Some? && next.value in ln {
        LinkBeforeInPlace(c, ln[next.value]);
      } else {
        LinkFrontInPlace(c);
      }
      length := length + 1;
    }

    /** The writes of the previous-sibling case: `node.next`, `node.previous`, `p.next`, `current.previous`. */
    method LinkAfterInPlace(c: nat, p: nat)
      requires CellsClosed(cells) && c < |cells| && p < |cells|
      modifies this`cells
      ensures cells == LinkAfter(old(cells), c, p)
    {
      var current := cells[p].next;
      cells := cells[c := cells[c].(next := current)];
      cells := cells[c := cells[c].(previous := Some(p))];
      cells := cells[p := cells[p].(next := Some(c))];
      if current.Some? {
        cells := cells[current.value := cells[current.value].(previous := Some(c))];
      }
    }

    /** The writes of the next-sibling case: `node.previous`, `node.next`, `q.previous`, `current.next`. */
    method LinkBeforeInPlace(c: nat, q: nat)
      requires CellsClosed(cells) && c < |cells| && q < |cells|
      modifies this`cells
      ensures cells == LinkBefore(old(cells), c, q)
    {
      var current := cells[q].previous;
      cells := cells[c := cells[c].(previous := current)];
      cells := cells[c := cells[c].(next := Some(q))];
      cells := cells[q := cells[q].(previous := Some(c))];
      if current.Some? {
        cells := cells[current.value := cells[current.value].(next := Some(c))];
      }
    }

    /** The writes of the no-sibling case: `head.previous`, `node.next`, `head`. */
    method LinkFrontInPlace(c: nat)
      requires CellsClosed(cells) && c < |cells| && InRange(head, |cells|)
      modifies this`cells, this`head
      ensures cells == LinkFront(old(cells), c, old(head)) && head == Some(c)
    {
      if head.Some? {
        cells := cells[head.value := cells[head.value].(previous := Some(c))];
      }
      cells := cells[c := cells[c].(next := head)];
      head := Some(c);
    }

    /** `removeNode(n)`; `thrown` when `n` has no `__ln` while the list has a head. */
    method RemoveNode(n: NodeRef) returns (thrown: bool)
      requires Valid()
      modifies this
      ensures Valid() && rank == old(rank)
      ensures (thrown, State()) == Removed(old(State()), n)
    {
      if head.None? {
        return false;
      }
      if n !in ln {
        return true;
      }
      ghost var l := State();
      var cur := ln[n];
      if cells[cur].previous.None? {
        head := cells[cur].next;
        if head.Some? {
          cells := cells[head.value := cells[head.value].(previous := None)];
        }
      } else {
        var p := cells[cur].previous.value;
        cells := cells[p := cells[p].(next := cells[cur].next)];
        if cells[cur].next.Some? {
          var q := cells[cur].next.value;
          cells := cells[q := cells[q].(previous := cells[cur].previous)];
        }
      }
      RemovedRanked(l, rank, n);
      ln := ln - {n};
      length := length - 1;
      return false;
    }
  }

  /** The rank of a new cell: between its two neighbours, or one beyond the neighbour it has. */
  ghost function AddedRank(l: ListState, rank: seq<real>, prev: Option<NodeRef>, next: Option<NodeRef>): (r: seq<real>)
    requires Closed(l) && Ranked(l.cells, rank)
    ensures |r| == |rank| + 1 && forall x {:trigger r[x]} :: 0 <= x < |rank| ==> r[x] == rank[x]
  {
    var top :=
      if prev.Some? && prev.value in l.ln then
        var p := l.ln[prev.value];
        (match l.cells[p].next case Some(q) => (rank[p] + rank[q]) / 2.0 case None => rank[p] + 1.0)
      else if next.Some? && next.value in l.ln then
        var q := l.ln[next.value];
        (match l.cells[q].previous case Some(p) => (rank[p] + rank[q]) / 2.0 case None => rank[q] - 1.0)
      else
        (match l.head case Some(h) => rank[h] - 1.0 case None => 0.0);
    rank + [top]
  }

  /** `addNode` keeps the cells ranked. */
  lemma AddedRanked(l: ListState, rank: seq<real>, n: NodeRef, prev: Option<NodeRef>, next: Option<NodeRef>)
    requires Closed(l) && Ranked(l.cells, rank)
    ensures Ranked(Added(l, n, prev, next).cells, AddedRank(l, rank, prev, next))
  {
    if prev.Some? && prev.value in l.ln {
      AddedAfterRanked(l, rank, n, prev, next);
    } else if next.Some? && next.value in l.ln {
      AddedBeforeRanked(l, rank, n, prev, next);
    } else {
      AddedFrontRanked(l, rank, n, prev, next);
    }
  }

  lemma AddedAfterRanked(l: ListState, rank: seq<real>, n: NodeRef, prev: Option<NodeRef>, next: Option<NodeRef>)
    requires Closed(l) && Ranked(l.cells, rank) && prev.Some? && prev.value in l.ln
    ensures Ranked(Added(l, n, prev, next).cells, AddedRank(l, rank, prev, next))
  {
    var r := Added(l, n, prev, next).cells;
    var rk := AddedRank(l, rank, prev, next);
    var p := l.ln[prev.value];
    AddedAfterCells(l, n, prev, next);
    forall x | 0 <= x < |r|
      ensures r[x].next.Some? ==> rk[x] < rk[r[x].next.value]
      ensures r[x].previous.Some? ==> rk[r[x].previous.value] < rk[x]
    {
      if x < |l.cells| && x != p && Some(x) != l.cells[p].next {
        assert r[x] == l.cells[x];
      }
    }
  }

  lemma AddedBeforeRanked(l: ListState, rank: seq<real>, n: NodeRef, prev: Option<NodeRef>, next: Option<NodeRef>)
    requires Closed(l) && Ranked(l.cells, rank) && !(prev.Some? && prev.value in l.ln)
    requires next.Some? && next.value in l.ln
    ensures Ranked(Added(l, n, prev, next).cells, AddedRank(l, rank, prev, next))
  {
    var r := Added(l, n, prev, next).cells;
    var rk := AddedRank(l, rank, prev, next);
    var q := l.ln[next.value];
    AddedBeforeCells(l, n, prev, next);
    forall x | 0 <= x < |r|
      ensures r[x].next.Some? ==> rk[x] < rk[r[x].next.value]
      ensures r[x].previous.Some? ==> rk[r[x].previous.value] < rk[x]
    {
      if x < |l.cells| && x != q && Some(x) != l.cells[q].previous {
        assert r[x] == l.cells[x];
      }
    }
  }

  lemma AddedFrontRanked(l: ListState, rank: seq<real>, n: NodeRef, prev: Option<NodeRef>, next: Option<NodeRef>)
    requires Closed(l) && Ranked(l.cells, rank)
    requires !(prev.Some? && prev.value in l.ln) && !(next.Some? && next.value in l.ln)
    ensures Ranked(Added(l, n, prev, next).cells, AddedRank(l, rank, prev, next))
  {
    var r := Added(l, n, prev, next).cells;
    var rk := AddedRank(l, rank, prev, next);
    AddedFrontCells(l, n, prev, next);
    forall x | 0 <= x < |r|
      ensures r[x].next.Some? ==> rk[x] < rk[r[x].next.value]
      ensures r[x].previous.Some? ==> rk[r[x].previous.value] < rk[x]
    {
      if x < |l.cells| && Some(x) != l.head {
        assert r[x] == l.cells[x];
      }
    }
  }

  /** `removeNode` keeps the cells ranked. */
  lemma RemovedRanked(l: ListState, rank: seq<real>, n: NodeRef)
    requires Closed(l) && Ranked(l.cells, rank)
    ensures Ranked(Removed(l, n).1.cells, rank)
  {
  }
}
