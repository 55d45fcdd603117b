/**
 * What `formatNode` does to the `_cnode` stamps, the nodes map and the id
 * counter, proved about `Format` by induction over the subtree: existing
 * ids are kept, only nodes of the subtree are stamped, fresh ids are
 * distinct values of the counter, fresh nodes are registered under their
 * id, and a consistent map stays consistent.
 */
module FormatProperties {
  import opened Wrappers
  import opened Dom
  import opened Captured
  import opened RecorderUtils
  import opened Strings
  import opened NodeCaptor

  /** Every stamped node's id lies below the counter. */
  ghost predicate IdsBelow(st: CaptorState) {
    forall m :: m in st.cnode ==> st.cnode[m].nodeId < st.currentId
  }

  /** The counter never goes down. */
  ghost predicate CounterGrows(a: CaptorState, b: CaptorState) {
    a.currentId <= b.currentId
  }

  /** A stamped node stays stamped with the same id. */
  ghost predicate IdsKept(a: CaptorState, b: CaptorState) {
    forall m :: m in a.cnode ==> m in b.cnode && b.cnode[m].nodeId == a.cnode[m].nodeId
  }

  /** Stamps of nodes outside `s` are left exactly as they were. */
  ghost predicate OnlyStamps(a: CaptorState, b: CaptorState, s: set<NodeRef>) {
    forall m :: m in b.cnode && m !in s ==> m in a.cnode && b.cnode[m] == a.cnode[m]
  }

  /** Nodes stamped for the first time take ids from the counter's range. */
  ghost predicate FreshInRange(a: CaptorState, b: CaptorState) {
    forall m :: m in b.cnode && m !in a.cnode ==> a.currentId <= b.cnode[m].nodeId < b.currentId
  }

  /** Nodes stamped for the first time have distinct ids. */
  ghost predicate FreshDistinct(a: CaptorState, b: CaptorState) {
    forall m1, m2 :: m1 in b.cnode && m1 !in a.cnode && m2 in b.cnode && m2 !in a.cnode && m1 != m2 ==>
      b.cnode[m1].nodeId != b.cnode[m2].nodeId
  }

  /** Every entry of the map is either as it was or names a node of `s` stamped with that id. */
  ghost predicate OnlyRegisters(a: CaptorState, b: CaptorState, s: set<NodeRef>) {
    && (forall id :: id in a.entries ==> id in b.entries)
    && (forall id :: id in b.entries ==>
          (id in a.entries && b.entries[id] == a.entries[id])
          || (b.entries[id] in s && b.entries[id] in b.cnode && b.cnode[b.entries[id]].nodeId == id))
  }

  /** When the ids already handed out lie below the counter, every freshly stamped node is registered. */
  ghost predicate FreshRegistered(a: CaptorState, b: CaptorState) {
    IdsBelow(a) ==>
      forall m :: m in b.cnode && m !in a.cnode ==> b.cnode[m].nodeId in b.entries && b.entries[b.cnode[m].nodeId] == m
  }

  /** `b` is what formatting the nodes of `s` may make of `a`. */
  ghost predicate Grows(a: CaptorState, b: CaptorState, s: set<NodeRef>) {
    && CounterGrows(a, b)
    && IdsKept(a, b)
    && OnlyStamps(a, b, s)
    && FreshInRange(a, b)
    && FreshDistinct(a, b)
    && OnlyRegisters(a, b, s)
    && FreshRegistered(a, b)
  }

  lemma GrowsRefl(a: CaptorState, s: set<NodeRef>)
    ensures Grows(a, a, s)
  {
  }

  lemma GrowsWeaken(a: CaptorState, b: CaptorState, s: set<NodeRef>, t: set<NodeRef>)
    requires Grows(a, b, s) && s <= t
    ensures Grows(a, b, t)
  {
  }

  lemma IdsBelowGrows(a: CaptorState, b: CaptorState, s: set<NodeRef>)
    requires Grows(a, b, s) && IdsBelow(a)
    ensures IdsBelow(b)
  {
    forall m | m in b.cnode
      ensures b.cnode[m].nodeId < b.currentId
    {
      if m in a.cnode {
        assert a.cnode[m].nodeId < a.currentId;
      }
    }
  }

  lemma FreshDistinctTrans(a: CaptorState, b: CaptorState, c: CaptorState, s1: set<NodeRef>, s2: set<NodeRef>)
    requires Grows(a, b, s1) && Grows(b, c, s2)
    ensures FreshDistinct(a, c)
  {
    forall m1, m2 | m1 in c.cnode && m1 !in a.cnode && m2 in c.cnode && m2 !in a.cnode && m1 != m2
      ensures c.cnode[m1].nodeId != c.cnode[m2].nodeId
    {
      if m1 in b.cnode && m2 in b.cnode {
        assert b.cnode[m1].nodeId != b.cnode[m2].nodeId;
      } else if m1 in b.cnode {
        assert c.cnode[m1].nodeId == b.cnode[m1].nodeId < b.currentId <= c.cnode[m2].nodeId;
      } else if m2 in b.cnode {
        assert c.cnode[m2].nodeId == b.cnode[m2].nodeId < b.currentId <= c.cnode[m1].nodeId;
      }
    }
  }

  lemma OnlyRegistersTrans(a: CaptorState, b: CaptorState, c: CaptorState, s1: set<NodeRef>, s2: set<NodeRef>)
    requires Grows(a, b, s1) && Grows(b, c, s2)
    ensures OnlyRegisters(a, c, s1 + s2)
  {
    forall id | id in c.entries
      ensures (id in a.entries && c.entries[id] == a.entries[id])
              || (c.entries[id] in s1 + s2 && c.entries[id] in c.cnode && c.cnode[c.entries[id]].nodeId == id)
    {
      if id in b.entries && c.entries[id] == b.entries[id] {
        if !(id in a.entries && b.entries[id] == a.entries[id]) {
          var m := b.entries[id];
          assert m in s1 && m in b.cnode && b.cnode[m].nodeId == id;
        }
      }
    }
  }

  lemma FreshRegisteredTrans(a: CaptorState, b: CaptorState, c: CaptorState, s1: set<NodeRef>, s2: set<NodeRef>)
    requires Grows(a, b, s1) && Grows(b, c, s2)
    ensures FreshRegistered(a, c)
  {
    if IdsBelow(a) {
      IdsBelowGrows(a, b, s1);
      forall m | m in c.cnode && m !in a.cnode
        ensures c.cnode[m].nodeId in c.entries && c.entries[c.cnode[m].nodeId] == m
      {
        if m in b.cnode {
          var id := b.cnode[m].nodeId;
          assert id in b.entries && b.entries[id] == m;
          assert a.currentId <= id;
        }
      }
    }
  }

  /** Formatting `s1` and then `s2` is formatting `s1 + s2`. */
  lemma GrowsTrans(a: CaptorState, b: CaptorState, c: CaptorState, s1: set<NodeRef>, s2: set<NodeRef>)
    requires Grows(a, b, s1) && Grows(b, c, s2)
    ensures Grows(a, c, s1 + s2)
  {
    FreshDistinctTrans(a, b, c, s1, s2);
    OnlyRegistersTrans(a, b, c, s1, s2);
    FreshRegisteredTrans(a, b, c, s1, s2);
  }

  /** Stamping and registering one node, with its old id or the counter's. */
  lemma StampGrows(st: CaptorState, n: NodeRef, c: Capture)
    ensures Grows(st, Stamp(st, n, c), {n})
  {
  }

  /** Replacing a node's stamp by one with the same id (the stamp's children filled in). */
  lemma RestampGrows(st: CaptorState, n: NodeRef, c: NodeCaptured)
    requires n in st.cnode && c.nodeId == st.cnode[n].nodeId
    ensures Grows(st, st.(cnode := st.cnode[n := c]), {n})
  {
  }

  lemma {:induction false} FormatGrows(b: Browser, d: Dom, doc: NodeRef, n: NodeRef, st: CaptorState)
    requires Wf(d) && n in d.nodes
    ensures Grows(st, Format(b, d, doc, n, st).0, Subtree(d, n))
    decreases d.height - d.nodes[n].depth, |d.nodes[n].children| + 2
  {
    var c := CapturedForm(b, d, st.cnode, doc, n);
    if c.None? {
      GrowsRefl(st, Subtree(d, n));
    } else {
      var st1 := Stamp(st, n, c.value);
      StampGrows(st, n, c.value);
      if c.value.body.ElementNode? {
        FormatElementGrows(b, d, doc, n, st, c.value);
      } else {
        assert Format(b, d, doc, n, st).0 == st1;
        GrowsWeaken(st, st1, {n}, Subtree(d, n));
      }
    }
  }

  /** The element case of `FormatGrows`: stamp, format the children, stamp again with them. */
  lemma {:induction false} FormatElementGrows(b: Browser, d: Dom, doc: NodeRef, n: NodeRef, st: CaptorState, c: Capture)
    requires Wf(d) && n in d.nodes
    requires CapturedForm(b, d, st.cnode, doc, n) == Some(c) && c.body.ElementNode?
    ensures Grows(st, Format(b, d, doc, n, st).0, Subtree(d, n))
    decreases d.height - d.nodes[n].depth, |d.nodes[n].children| + 1
  {
    var st1 := Stamp(st, n, c);
    var k := |d.nodes[n].children|;
    var st2 := FormatChildren(b, d, doc, n, k, st1).0;
    var kids := FormatChildren(b, d, doc, n, k, st1).1;
    var final := NodeCaptured(st1.cnode[n].nodeId, c.originId, c.body.(childNodes := kids));
    var st3 := st2.(cnode := st2.cnode[n := final]);
    assert Format(b, d, doc, n, st).0 == st3;
    StampGrows(st, n, c);
    FormatChildrenGrows(b, d, doc, n, k, st1);
    GrowsTrans(st, st1, st2, {n}, Forest(d, n, k));
    RestampGrows(st2, n, final);
    GrowsTrans(st, st2, st3, {n} + Forest(d, n, k), {n});
    GrowsWeaken(st, st3, {n} + Forest(d, n, k) + {n}, Subtree(d, n));
  }

  /** The state after the first `i` children is the state after formatting child `i - 1` last. */
  lemma {:induction false} FormatChildrenLast(b: Browser, d: Dom, doc: NodeRef, n: NodeRef, i: nat, st: CaptorState)
    requires Wf(d) && n in d.nodes && 0 < i <= |d.nodes[n].children|
    ensures d.nodes[n].children[i - 1] in d.nodes
    ensures FormatChildren(b, d, doc, n, i, st).0
            == Format(b, d, doc, d.nodes[n].children[i - 1], FormatChildren(b, d, doc, n, i - 1, st).0).0
  {
    ChildAt(d, n, i - 1);
  }

  lemma {:induction false} FormatChildrenGrows(b: Browser, d: Dom, doc: NodeRef, n: NodeRef, i: nat, st: CaptorState)
    requires Wf(d) && n in d.nodes && i <= |d.nodes[n].children|
    ensures Grows(st, FormatChildren(b, d, doc, n, i, st).0, Forest(d, n, i))
    decreases d.height - d.nodes[n].depth, i
  {
    if i == 0 {
      GrowsRefl(st, {});
    } else {
      var st1 := FormatChildren(b, d, doc, n, i - 1, st).0;
      ChildAt(d, n, i - 1);
      var c := d.nodes[n].children[i - 1];
      var st2 := Format(b, d, doc, c, st1).0;
      assert Grows(st, st2, Forest(d, n, i - 1) + Subtree(d, c)) by {
        FormatChildrenGrows(b, d, doc, n, i - 1, st);
        FormatGrows(b, d, doc, c, st1);
        GrowsTrans(st, st1, st2, Forest(d, n, i - 1), Subtree(d, c));
      }
      FormatChildrenLast(b, d, doc, n, i, st);
      ForestLast(d, n, i);
    }
  }

  /**
   * `formatNode(n)` keeps the id of every node that already had a
   * `_cnode`, stamps no node outside the subtree of `n`, gives the nodes it
   * stamps for the first time distinct ids from the counter's range, and
   * never lowers the counter.
   */
  lemma FormatStampsSubtree(b: Browser, d: Dom, doc: NodeRef, n: NodeRef, st: CaptorState)
    requires Wf(d) && n in d.nodes
    ensures var r := Format(b, d, doc, n, st).0;
            && st.currentId <= r.currentId
            && (forall m :: m in st.cnode ==> m in r.cnode && r.cnode[m].nodeId == st.cnode[m].nodeId)
            && (forall m :: m in r.cnode && m !in Subtree(d, n) ==> m in st.cnode && r.cnode[m] == st.cnode[m])
            && (forall m :: m in r.cnode && m !in st.cnode ==> st.currentId <= r.cnode[m].nodeId < r.currentId)
            && (forall m1, m2 :: m1 in r.cnode && m1 !in st.cnode && m2 in r.cnode && m2 !in st.cnode && m1 != m2 ==>
                  r.cnode[m1].nodeId != r.cnode[m2].nodeId)
  {
    FormatGrows(b, d, doc, n, st);
  }

  /**
   * The nodes map only gains entries; each new or changed entry names a
   * node of the subtree carrying that id. When every id handed out so far
   * lies below the counter, every node stamped for the first time is found
   * in the map under its id, and that stays so for the next call.
   */
  lemma FormatRegisters(b: Browser, d: Dom, doc: NodeRef, n: NodeRef, st: CaptorState)
    requires Wf(d) && n in d.nodes
    ensures var r := Format(b, d, doc, n, st).0;
            && (forall id :: id in st.entries ==> id in r.entries)
            && (forall id :: id in r.entries && !(id in st.entries && r.entries[id] == st.entries[id]) ==>
                  r.entries[id] in Subtree(d, n) && r.entries[id] in r.cnode && r.cnode[r.entries[id]].nodeId == id)
            && (IdsBelow(st) ==> IdsBelow(r))
            && (IdsBelow(st) ==> forall m :: m in r.cnode && m !in st.cnode ==>
                  r.cnode[m].nodeId in r.entries && r.entries[r.cnode[m].nodeId] == m)
  {
    FormatGrows(b, d, doc, n, st);
    if IdsBelow(st) {
      IdsBelowGrows(st, Format(b, d, doc, n, st).0, Subtree(d, n));
    }
  }

  /** A map in which every id names a node stamped with that id stays so after `formatNode`. */
  lemma FormatKeepsConsistent(b: Browser, d: Dom, doc: NodeRef, n: NodeRef, st: CaptorState)
    requires Wf(d) && n in d.nodes && Consistent(st.cnode, st.entries)
    ensures var r := Format(b, d, doc, n, st).0;
            Consistent(r.cnode, r.entries)
  {
    FormatGrows(b, d, doc, n, st);
    var r := Format(b, d, doc, n, st).0;
    forall id | id in r.entries
      ensures r.entries[id] in r.cnode && r.cnode[r.entries[id]].nodeId == id
    {
      if id in st.entries && r.entries[id] == st.entries[id] {
        assert st.entries[id] in st.cnode;
      }
    }
  }

  /**
   * The counter of a new captor starts at 0 whatever ids the nodes already
   * carry: formatting an unstamped doctype node with a fresh captor gives
   * it the id 0 that another node already holds, and the map entry for 0
   * is overwritten.
   */
  lemma FreshCaptorReusesIds(b: Browser)
    ensures var s := ElementState([], "", None, None, false, false, false, 0, 0, "", "");
            var d := Dom(map[7 := DomNode(DocumentTypeKind("html", "", ""), "", {}, None, [], "", s, 0)], 1);
            var st := CaptorState(map[5 := NodeCaptured(0, None, TextNode("y", false))], map[0 := 5], 0);
            Wf(d) && 7 in d.nodes &&
            var r := Format(b, d, 9, 7, st).0;
            && 5 in r.cnode && 7 in r.cnode
            && r.cnode[5].nodeId == 0 && r.cnode[7].nodeId == 0
            && r.entries[0] == 7
  {
  }

  /**
   * A fresh captor hands out 0 to the first node it stamps, whatever the
   * other nodes' `_cnode`s already hold: an unstamped node that
   * `captureNode` accepts takes the id 0, is registered under 0, and every
   * node already holding 0 keeps it.
   */
  lemma FreshCaptorStartsAtZero(b: Browser, d: Dom, doc: NodeRef, n: NodeRef, st: CaptorState)
    requires Wf(d) && n in d.nodes && n !in st.cnode && st.currentId == 0
    requires CapturedForm(b, d, st.cnode, doc, n).Some?
    ensures var r := Format(b, d, doc, n, st).0;
            && n in r.cnode && r.cnode[n].nodeId == 0
            && (forall m :: m in st.cnode && st.cnode[m].nodeId == 0 ==> m in r.cnode && r.cnode[m].nodeId == 0)
  {
    FormatGrows(b, d, doc, n, st);
  }

  // ---------------------------------------------------------------------
  // The serializer's output

  /** The Some values of `rs`, in order. */
  function Somes(rs: seq<Option<NodeCaptured>>): (r: seq<NodeCaptured>)
    ensures |r| <= |rs|
    ensures forall x :: x in r <==> Some(x) in rs
  {
    if rs == [] then []
    else
      var init := rs[..|rs| - 1];
      assert rs == init + [rs[|rs| - 1]];
      Somes(init) + (if rs[|rs| - 1].Some? then [rs[|rs| - 1].value] else [])
  }

  lemma SomesSnoc(rs: seq<Option<NodeCaptured>>, r: Option<NodeCaptured>)
    ensures Somes(rs + [r]) == Somes(rs) + (if r.Some? then [r.value] else [])
  {
    assert (rs + [r])[..|rs|] == rs;
  }

  /**
   * The states the loop over the children of `n` passes through: `st`
   * before the first child, and after each child the state `formatNode`
   * of that child leaves when it starts from the state before it.
   */
  function Threaded(b: Browser, d: Dom, doc: NodeRef, n: NodeRef, i: nat, st: CaptorState): (ts: seq<CaptorState>)
    requires Wf(d) && n in d.nodes && i <= |d.nodes[n].children|
    ensures |ts| == i + 1 && ts[0] == st
    decreases i
  {
    if i == 0 then [st]
    else
      var ts := Threaded(b, d, doc, n, i - 1, st);
      ChildAt(d, n, i - 1);
      ts + [Format(b, d, doc, d.nodes[n].children[i - 1], ts[i - 1]).0]
  }

  /** What `formatNode` returns for each of the first `i` children, each from its threaded state. */
  function ChildResults(b: Browser, d: Dom, doc: NodeRef, n: NodeRef, i: nat, st: CaptorState): (rs: seq<Option<NodeCaptured>>)
    requires Wf(d) && n in d.nodes && i <= |d.nodes[n].children|
    ensures |rs| == i
    decreases i
  {
    if i == 0 then []
    else
      ChildAt(d, n, i - 1);
      ChildResults(b, d, doc, n, i - 1, st) + [Format(b, d, doc, d.nodes[n].children[i - 1], Threaded(b, d, doc, n, i - 1, st)[i - 1]).1]
  }

  /**
   * The loop over the first `i` children of `n` ends in the threaded state
   * after child `i`, and its list holds exactly the captured children, in
   * document order, each formatted in the state the previous one left.
   */
  lemma {:induction false} FormatChildrenInOrder(b: Browser, d: Dom, doc: NodeRef, n: NodeRef, i: nat, st: CaptorState)
    requires Wf(d) && n in d.nodes && i <= |d.nodes[n].children|
    ensures FormatChildren(b, d, doc, n, i, st) == (Threaded(b, d, doc, n, i, st)[i], Somes(ChildResults(b, d, doc, n, i, st)))
    decreases i
  {
    if i > 0 {
      FormatChildrenInOrder(b, d, doc, n, i - 1, st);
      ChildAt(d, n, i - 1);
      var child := d.nodes[n].children[i - 1];
      var ts := Threaded(b, d, doc, n, i - 1, st);
      var prev := ChildResults(b, d, doc, n, i - 1, st);
      var f := Format(b, d, doc, child, ts[i - 1]);
      assert Threaded(b, d, doc, n, i, st) == ts + [f.0];
      assert ChildResults(b, d, doc, n, i, st) == prev + [f.1];
      SomesSnoc(prev, f.1);
      var kids := FormatChildren(b, d, doc, n, i - 1, st).1;
      assert FormatChildren(b, d, doc, n, i, st) == (f.0, if f.1.Some? then kids + [f.1.value] else kids);
      assert Threaded(b, d, doc, n, i, st)[i] == f.0;
      assert Somes(ChildResults(b, d, doc, n, i, st)) == if f.1.Some? then kids + [f.1.value] else kids;
    }
  }

  /**
   * The serialized node `formatNode(n)` returns: the id of the `_cnode` it
   * already had or else the counter, the origin and body `captureNode`
   * produced, and for an element the captured children in document order,
   * the first formatted right after `n` is stamped.
   */
  lemma FormatOutput(b: Browser, d: Dom, doc: NodeRef, n: NodeRef, st: CaptorState, c: Capture)
    requires Wf(d) && n in d.nodes && CapturedForm(b, d, st.cnode, doc, n) == Some(c)
    ensures var id := if n in st.cnode then st.cnode[n].nodeId else st.currentId;
            var k := |d.nodes[n].children|;
            Format(b, d, doc, n, st).1 ==
              Some(NodeCaptured(id, c.originId,
                if c.body.ElementNode? then c.body.(childNodes := Somes(ChildResults(b, d, doc, n, k, Stamp(st, n, c))))
                else c.body))
  {
    FormatChildrenInOrder(b, d, doc, n, |d.nodes[n].children|, Stamp(st, n, c));
  }

  /**
   * After `formatNode(n)`, `isIframeNodeFormated(n)` holds exactly when the
   * node it returned is an element named 'iframe'; when it returned null the
   * answer is the one before; and for every node outside the subtree of `n`
   * the answer is unchanged.
   */
  lemma FormatIframeNodes(b: Browser, d: Dom, doc: NodeRef, n: NodeRef, st: CaptorState)
    requires Wf(d) && n in d.nodes
    ensures var (r, out) := Format(b, d, doc, n, st);
            && (out.Some? ==> (IsIframeNodeFormated(r.cnode, n) <==>
                                 out.value.body.ElementNode? && out.value.body.elementName == "iframe"))
            && (out.None? ==> (IsIframeNodeFormated(r.cnode, n) <==> IsIframeNodeFormated(st.cnode, n)))
            && forall m :: m !in Subtree(d, n) ==>
                 (IsIframeNodeFormated(r.cnode, m) <==> IsIframeNodeFormated(st.cnode, m))
  {
    FormatGrows(b, d, doc, n, st);
  }
}
