/**
 * The browser environment the recorder reads: a forest of DOM nodes with
 * parents, ordered children and siblings, the CSS object model of style
 * sheets, and the few browser services whose results the recorder copies
 * without inspecting them (URL resolution, layout sizes, canvas pixels).
 */
module Dom {
  import opened Wrappers

  /** Identity of a DOM node (object identity in the browser). */
  type NodeRef = nat

  datatype NodeKind =
    | DocumentKind
    | DocumentTypeKind(name: string, publicId: string, systemId: string)
    | ElementKind
    | TextKind
    | OtherKind   // comments, processing instructions, CDATA sections, fragments

  /**
   * A CSS rule: an `@import` rule (which exposes a `styleSheet`, possibly
   * null) or any other rule, which contributes its `cssText`.
   */
  datatype CssRule = PlainRule(cssText: string) | ImportRule(styleSheet: Option<StyleSheet>)

  /** What reading `rules || cssRules` gives: an exception (cross-origin sheet), nothing, or a rule list. */
  datatype RuleList = Unreadable | NoRules | Rules(rules: seq<CssRule>)

  datatype StyleSheet = StyleSheet(href: Option<string>, cssRules: RuleList)

  /** The element properties the serializer and the input watcher read. */
  datatype ElementState = ElementState(
    attributes: seq<(string, string)>,  // name and value, in document order
    href: string,                       // the resolved `href` property of a link
    sheet: Option<StyleSheet>,          // the `sheet` of a style element
    value: Option<string>,              // the `value` property, absent on elements without one
    checked: bool,
    selected: bool,
    paused: bool,
    scrollLeft: int,
    scrollTop: int,
    inputType: string,                  // the `type` property
    name: string)                       // the `name` property

  datatype DomNode = DomNode(
    kind: NodeKind,
    tagName: string,        // upper-case for HTML elements; unused for other kinds
    classes: set<string>,   // the element's class list
    parent: Option<NodeRef>,
    children: seq<NodeRef>,
    text: string,           // `textContent`
    state: ElementState,
    depth: nat)             // distance from the root of its tree

  /** All nodes the browser currently knows, connected or detached. */
  datatype Dom = Dom(nodes: map<NodeRef, DomNode>, height: nat)

  /**
   * Parent and child links agree, children lists have no repeats and depths
   * grow by one from parent to child, so every walk up or down ends.
   */
  predicate Wf(d: Dom) {
    && (forall n :: n in d.nodes ==> d.nodes[n].depth < d.height)
    && (forall n {:trigger d.nodes[n].parent} :: n in d.nodes && d.nodes[n].parent.Some? ==>
          var p := d.nodes[n].parent.value;
          p in d.nodes && n in d.nodes[p].children && d.nodes[n].depth == d.nodes[p].depth + 1)
    && (forall n, c :: n in d.nodes && c in d.nodes[n].children ==>
          c in d.nodes && d.nodes[c].parent == Some(n))
    && (forall n, i, j :: n in d.nodes && 0 <= i < j < |d.nodes[n].children| ==>
          d.nodes[n].children[i] != d.nodes[n].children[j])
  }

  /** The `i`-th child of a node is a node one level deeper. */
  lemma ChildAt(d: Dom, n: NodeRef, i: nat)
    requires Wf(d) && n in d.nodes && i < |d.nodes[n].children|
    ensures var c := d.nodes[n].children[i];
            c in d.nodes && d.nodes[c].parent == Some(n) && d.nodes[c].depth == d.nodes[n].depth + 1
  {
  }

  predicate IsElement(d: Dom, n: NodeRef) {
    n in d.nodes && d.nodes[n].kind.ElementKind?
  }

  predicate IsDocument(d: Dom, n: NodeRef) {
    n in d.nodes && d.nodes[n].kind.DocumentKind?
  }

  /** `tagName`: defined on elements only. */
  function TagName(d: Dom, n: NodeRef): (r: Option<string>)
    requires n in d.nodes
    ensures r.Some? <==> IsElement(d, n)
  {
    if d.nodes[n].kind.ElementKind? then Some(d.nodes[n].tagName) else None
  }

  /** `getAttribute(name)`: the first attribute with that name, or null. */
  function GetAttribute(attributes: seq<(string, string)>, name: string): (r: Option<string>)
    ensures r.None? <==> (forall k :: 0 <= k < |attributes| ==> attributes[k].0 != name)
    ensures r.Some? ==> exists k :: 0 <= k < |attributes| && attributes[k] == (name, r.value)
  {
    if attributes == [] then None
    else if attributes[0].0 == name then Some(attributes[0].1)
    else
      var r := GetAttribute(attributes[1..], name);
      assert forall k :: 0 <= k < |attributes| - 1 ==> attributes[1..][k] == attributes[k + 1];
      r
  }

  function IndexOf(s: seq<NodeRef>, x: NodeRef): (i: nat)
    requires x in s
    ensures i < |s| && s[i] == x && x !in s[..i]
  {
    if s[0] == x then 0 else 1 + IndexOf(s[1..], x)
  }

  /** `previousSibling` */
  function PreviousSibling(d: Dom, n: NodeRef): (r: Option<NodeRef>)
    requires Wf(d) && n in d.nodes
    ensures r.Some? ==> r.value in d.nodes && r.value != n && d.nodes[r.value].parent == d.nodes[n].parent
  {
    match d.nodes[n].parent
    case None => None
    case Some(p) =>
      var cs := d.nodes[p].children;
      var i := IndexOf(cs, n);
      if i == 0 then None else Some(cs[i - 1])
  }

  /** `nextSibling` */
  function NextSibling(d: Dom, n: NodeRef): (r: Option<NodeRef>)
    requires Wf(d) && n in d.nodes
    ensures r.Some? ==> r.value in d.nodes && r.value != n && d.nodes[r.value].parent == d.nodes[n].parent
  {
    match d.nodes[n].parent
    case None => None
    case Some(p) =>
      var cs := d.nodes[p].children;
      var i := IndexOf(cs, n);
      if i == |cs| - 1 then None else Some(cs[i + 1])
  }

  /** Following `parentNode` `k` times from `n`. */
  function AncestorAt(d: Dom, n: NodeRef, k: nat): (r: Option<NodeRef>)
    requires Wf(d) && n in d.nodes
    ensures r.Some? ==> r.value in d.nodes
    decreases k
  {
    if k == 0 then Some(n)
    else match d.nodes[n].parent
      case None => None
      case Some(p) => AncestorAt(d, p, k - 1)
  }

  /** `n` and all its descendants. */
  function Subtree(d: Dom, n: NodeRef): (r: set<NodeRef>)
    requires Wf(d) && n in d.nodes
    ensures n in r
    ensures forall m :: m in r ==> m in d.nodes && d.nodes[n].depth <= d.nodes[m].depth
    ensures forall m :: m in r && m != n ==> d.nodes[n].depth < d.nodes[m].depth
    decreases d.height - d.nodes[n].depth, |d.nodes[n].children| + 1
  {
    {n} + Forest(d, n, |d.nodes[n].children|)
  }

  /** The subtrees of the first `i` children of `n`. */
  function Forest(d: Dom, n: NodeRef, i: nat): (r: set<NodeRef>)
    requires Wf(d) && n in d.nodes && i <= |d.nodes[n].children|
    ensures forall m :: m in r ==> m in d.nodes && d.nodes[n].depth < d.nodes[m].depth
    ensures forall k :: 0 <= k < i ==> d.nodes[n].children[k] in r
    decreases d.height - d.nodes[n].depth, i
  {
    if i == 0 then {}
    else
      var c := d.nodes[n].children[i - 1];
      Forest(d, n, i - 1) + Subtree(d, c)
  }

  /** The forest of the first `i` children is that of the first `i - 1` and the subtree of child `i - 1`. */
  lemma {:induction false} ForestLast(d: Dom, n: NodeRef, i: nat)
    requires Wf(d) && n in d.nodes && 0 < i <= |d.nodes[n].children|
    ensures d.nodes[n].children[i - 1] in d.nodes
    ensures Forest(d, n, i) == Forest(d, n, i - 1) + Subtree(d, d.nodes[n].children[i - 1])
  {
    var c := d.nodes[n].children[i - 1];
    ChildAt(d, n, i - 1);
    assert Forest(d, n, i) == Forest(d, n, i - 1) + Subtree(d, c);
  }

  /** Every node of a subtree has the subtree's root among its ancestors. */
  lemma {:induction false} SubtreeHasAncestor(d: Dom, n: NodeRef, m: NodeRef)
    requires Wf(d) && n in d.nodes && m in Subtree(d, n)
    ensures exists k :: AncestorAt(d, m, k) == Some(n)
    decreases d.height - d.nodes[n].depth, |d.nodes[n].children| + 1
  {
    if m == n {
      assert AncestorAt(d, m, 0) == Some(n);
    } else {
      ForestHasAncestor(d, n, |d.nodes[n].children|, m);
      var k :| AncestorAt(d, m, k) == Some(n);
    }
  }

  /** Every node of a forest of `n` has `n` among its ancestors. */
  lemma {:induction false} ForestHasAncestor(d: Dom, n: NodeRef, i: nat, m: NodeRef)
    requires Wf(d) && n in d.nodes && i <= |d.nodes[n].children|
    requires m in Forest(d, n, i)
    ensures exists k :: AncestorAt(d, m, k) == Some(n)
    decreases d.height - d.nodes[n].depth, i
  {
    var c := d.nodes[n].children[i - 1];
    if m in Subtree(d, c) {
      SubtreeHasAncestor(d, c, m);
      var k :| AncestorAt(d, m, k) == Some(c);
      AncestorAtStep(d, m, k);
    } else {
      ForestHasAncestor(d, n, i - 1, m);
    }
  }

  /** One more step up from an ancestor reaches that ancestor's parent. */
  lemma {:induction false} AncestorAtStep(d: Dom, m: NodeRef, k: nat)
    requires Wf(d) && m in d.nodes && AncestorAt(d, m, k).Some?
    ensures AncestorAt(d, m, k + 1) == d.nodes[AncestorAt(d, m, k).value].parent
    decreases k
  {
    if k > 0 {
      var p := d.nodes[m].parent.value;
      assert AncestorAt(d, m, k) == AncestorAt(d, p, k - 1);
      AncestorAtStep(d, p, k - 1);
      assert AncestorAt(d, m, k + 1) == AncestorAt(d, p, k);
    }
  }

  /**
   * The services of the browser whose answers the recorder copies: URL
   * resolution against a document (`a.href = v; a.href`), a document's
   * style sheets, layout sizes rendered as the template string does and
   * canvas data URLs.
   */
  datatype Browser = Browser(
    resolveUrl: (NodeRef, string) -> string,
    styleSheets: NodeRef -> seq<StyleSheet>,
    renderedWidth: NodeRef -> string,
    renderedHeight: NodeRef -> string,
    dataUrl: NodeRef -> string)
}
