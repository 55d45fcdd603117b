/**
 * The serializer (`NodeCaptor`). `captureNode` turns one DOM node into its
 * captured form; the attribute helpers fill an element's `attributes`
 * dictionary in place; `formatNode` walks a subtree, gives every captured
 * node an id (its existing one, or the next value of the captor's counter),
 * stamps it with `_cnode`, registers it in a nodes map and collects the
 * captured children of elements in document order.
 *
 * Each imperative member is proved against a function of the same name
 * without the `Get` prefix (or `CapturedForm` and `Format`); the properties
 * of `Format` are proved in the `FormatProperties` module.
 */
module NodeCaptor {
  import opened Wrappers
  import opened Strings
  import opened Dom
  import opened Captured
  import opened CaptorUtils
  import opened RecorderUtils

  /** An `attributes` dictionary that the helpers fill in place. */
  class AttributeDict {
    var entries: Attributes

    constructor()
      ensures entries == map[]
    {
      entries := map[];
    }
  }

  // ---------------------------------------------------------------------
  // getGlobalAttribute

  /** The value of the last attribute called `name`, if any. */
  function LastValue(attrs: seq<(string, string)>, name: string): (r: Option<string>)
    ensures r.None? <==> forall i :: 0 <= i < |attrs| ==> attrs[i].0 != name
  {
    if attrs == [] then None
    else if attrs[|attrs| - 1].0 == name then Some(attrs[|attrs| - 1].1)
    else
      var r := LastValue(attrs[..|attrs| - 1], name);
      assert forall i :: 0 <= i < |attrs| - 1 ==> attrs[..|attrs| - 1][i] == attrs[i];
      r
  }

  /** A value found is that of an attribute with the name, and no later attribute has the name. */
  lemma {:induction false} LastValueFound(attrs: seq<(string, string)>, name: string)
    requires LastValue(attrs, name).Some?
    ensures exists i :: 0 <= i < |attrs| && attrs[i] == (name, LastValue(attrs, name).value)
                        && forall j :: i < j < |attrs| ==> attrs[j].0 != name
  {
    var last := |attrs| - 1;
    if attrs[last].0 == name {
      assert attrs[last] == (name, LastValue(attrs, name).value);
    } else {
      var p := attrs[..last];
      LastValueFound(p, name);
      var i :| 0 <= i < |p| && p[i] == (name, LastValue(p, name).value)
               && forall j :: i < j < |p| ==> p[j].0 != name;
      assert attrs[i] == p[i];
      assert forall j :: i < j < |attrs| ==> attrs[j].0 != name by {
        forall j | i < j < |attrs|
          ensures attrs[j].0 != name
        {
          if j < last {
            assert attrs[j] == p[j];
          }
        }
      }
    }
  }

  /** `attributes[name] = transformAttribute(doc, name, value)` for every attribute, in order. */
  function TransformedAttributes(b: Browser, doc: NodeRef, attrs: seq<(string, string)>, acc: Attributes): Attributes
  {
    if attrs == [] then acc
    else
      var last := attrs[|attrs| - 1];
      TransformedAttributes(b, doc, attrs[..|attrs| - 1], acc)[last.0 := Str(TransformAttribute(b, doc, last.0, last.1))]
  }

  /**
   * After the loop, an attribute name maps to the transformed value of the
   * last attribute with that name; a name no attribute has keeps its entry.
   */
  lemma {:induction false} TransformedAttributesLookup(b: Browser, doc: NodeRef, attrs: seq<(string, string)>,
                                                       acc: Attributes, name: string)
    ensures var r := TransformedAttributes(b, doc, attrs, acc);
            match LastValue(attrs, name)
            case Some(v) => name in r && r[name] == Str(TransformAttribute(b, doc, name, v))
            case None => (name in r <==> name in acc) && (name in acc ==> r[name] == acc[name])
  {
    if attrs != [] {
      TransformedAttributesLookup(b, doc, attrs[..|attrs| - 1], acc, name);
    }
  }

  /** `getGlobalAttribute` without the geometry, whose strings come from the browser. */
  function GlobalAttributes(b: Browser, doc: NodeRef, n: NodeRef, s: ElementState, acc: Attributes): (r: Attributes)
    ensures s.scrollLeft != 0 ==> "_scrollLeft" in r && r["_scrollLeft"] == Num(s.scrollLeft)
    ensures s.scrollTop != 0 ==> "_scrollTop" in r && r["_scrollTop"] == Num(s.scrollTop)
    ensures "_width" in r && r["_width"] == Str(b.renderedWidth(n))
    ensures "_height" in r && r["_height"] == Str(b.renderedHeight(n))
    ensures var t := TransformedAttributes(b, doc, s.attributes, acc);
            && (s.scrollLeft == 0 ==> ("_scrollLeft" in r <==> "_scrollLeft" in t)
                                      && ("_scrollLeft" in t ==> r["_scrollLeft"] == t["_scrollLeft"]))
            && (s.scrollTop == 0 ==> ("_scrollTop" in r <==> "_scrollTop" in t)
                                     && ("_scrollTop" in t ==> r["_scrollTop"] == t["_scrollTop"]))
            && forall k :: k != "_width" && k != "_height" && k != "_scrollLeft" && k != "_scrollTop" ==>
                 (k in r <==> k in t) && (k in t ==> r[k] == t[k])
  {
    var a := TransformedAttributes(b, doc, s.attributes, acc);
    var a1 := if s.scrollLeft != 0 then a["_scrollLeft" := Num(s.scrollLeft)] else a;
    var a2 := if s.scrollTop != 0 then a1["_scrollTop" := Num(s.scrollTop)] else a1;
    a2["_width" := Str(b.renderedWidth(n))]["_height" := Str(b.renderedHeight(n))]
  }

  method GetGlobalAttribute(b: Browser, d: Dom, doc: NodeRef, n: NodeRef, attrs: AttributeDict)
    requires n in d.nodes
    modifies attrs
    ensures attrs.entries == GlobalAttributes(b, doc, n, d.nodes[n].state, old(attrs.entries))
  {
    var s := d.nodes[n].state;
    var nodeAttr := s.attributes;
    for i := 0 to |nodeAttr|
      invariant attrs.entries == TransformedAttributes(b, doc, nodeAttr[..i], old(attrs.entries))
    {
      var name, value := nodeAttr[i].0, nodeAttr[i].1;
      attrs.entries := attrs.entries[name := Str(TransformAttribute(b, doc, name, value))];
      assert nodeAttr[..i + 1][..i] == nodeAttr[..i];
    }
    assert nodeAttr[..|nodeAttr|] == nodeAttr;
    if s.scrollLeft != 0 {
      attrs.entries := attrs.entries["_scrollLeft" := Num(s.scrollLeft)];
    }
    if s.scrollTop != 0 {
      attrs.entries := attrs.entries["_scrollTop" := Num(s.scrollTop)];
    }
    attrs.entries := attrs.entries["_width" := Str(b.renderedWidth(n))];
    attrs.entries := attrs.entries["_height" := Str(b.renderedHeight(n))];
  }

  // ---------------------------------------------------------------------
  // getExternalCssAttribute and getInternalCssAttribute

  /** The rules of a sheet as text, when that text is non-empty (`if (cssText)`). */
  function InlinedCss(sheet: Option<StyleSheet>): (r: Option<string>)
    ensures r.Some? <==> CssRulesString(sheet).Some? && CssRulesString(sheet).value != ""
    ensures r.Some? ==> r.value == CssRulesString(sheet).value
  {
    var css := CssRulesString(sheet);
    if css.Some? && css.value != "" then css else None
  }

  /**
   * A link whose style sheet yields non-empty text loses `rel` and `href`
   * and gains `cssText`; every other entry stays.
   */
  function ExternalCssAttributes(b: Browser, doc: NodeRef, href: string, acc: Attributes): (r: Attributes)
    ensures var css := InlinedCss(GetStylesheet(b.styleSheets(doc), href));
            && (css.Some? ==> "rel" !in r && "href" !in r && "cssText" in r && r["cssText"] == Str(css.value))
            && (css.None? ==> r == acc)
  {
    match InlinedCss(GetStylesheet(b.styleSheets(doc), href))
    case Some(css) => (acc - {"rel", "href"})["cssText" := Str(css)]
    case None => acc
  }

  /** Besides `rel`, `href` and `cssText`, the link helper leaves every entry as it was. */
  lemma ExternalCssFrame(b: Browser, doc: NodeRef, href: string, acc: Attributes, k: string)
    requires k != "rel" && k != "href" && k != "cssText"
    ensures var r := ExternalCssAttributes(b, doc, href, acc);
            (k in r <==> k in acc) && (k in acc ==> r[k] == acc[k])
  {
  }

  method GetExternalCssAttribute(b: Browser, d: Dom, doc: NodeRef, n: NodeRef, attrs: AttributeDict)
    requires n in d.nodes
    modifies attrs
    ensures attrs.entries == ExternalCssAttributes(b, doc, d.nodes[n].state.href, old(attrs.entries))
  {
    var stylesheet := GetStylesheet(b.styleSheets(doc), d.nodes[n].state.href);
    var cssText := CssRulesString(stylesheet);
    if cssText.Some? && cssText.value != "" {
      attrs.entries := attrs.entries - {"rel"};
      attrs.entries := attrs.entries - {"href"};
      attrs.entries := attrs.entries["cssText" := Str(cssText.value)];
    }
  }

  /** A style element whose sheet yields non-empty text gains `cssText`. */
  function InternalCssAttributes(sheet: Option<StyleSheet>, acc: Attributes): (r: Attributes)
    ensures InlinedCss(sheet).Some? ==> "cssText" in r && r["cssText"] == Str(InlinedCss(sheet).value)
    ensures InlinedCss(sheet).None? ==> r == acc
  {
    match InlinedCss(sheet)
    case Some(css) => acc["cssText" := Str(css)]
    case None => acc
  }

  method GetInternalCssAttribute(d: Dom, n: NodeRef, attrs: AttributeDict)
    requires n in d.nodes
    modifies attrs
    ensures attrs.entries == InternalCssAttributes(d.nodes[n].state.sheet, old(attrs.entries))
  {
    var cssText := CssRulesString(d.nodes[n].state.sheet);
    if cssText.Some? && cssText.value != "" {
      attrs.entries := attrs.entries["cssText" := Str(cssText.value)];
    }
  }

  // ---------------------------------------------------------------------
  // getFormFieldAttributes

  predicate IsValueField(name: string) {
    name == "input" || name == "textarea" || name == "select"
  }

  /** `attributes.type !== 'radio' && attributes.type !== 'checkbox' && value` */
  predicate RecordsValue(s: ElementState, acc: Attributes) {
    && !("type" in acc && acc["type"] == Str("radio"))
    && !("type" in acc && acc["type"] == Str("checkbox"))
    && s.value.Some? && s.value.value != ""
  }

  /** `attributes.value === parentElement.value`, an absent entry matching an absent value. */
  predicate OptionMatches(acc: Attributes, parentValue: Option<string>) {
    if "value" in acc then parentValue.Some? && acc["value"] == Str(parentValue.value)
    else parentValue.None?
  }

  /**
   * Value fields record a non-empty `value` unless the `type` attribute is
   * radio or checkbox, and otherwise `checked` when it is set; an option
   * records `selected` when its `value` attribute is its parent's value.
   * Nothing else changes.
   */
  function FormFieldAttributes(name: string, s: ElementState, parentValue: Option<string>, acc: Attributes): (r: Attributes)
    ensures IsValueField(name) && RecordsValue(s, acc) ==> r == acc["value" := Str(s.value.value)]
    ensures IsValueField(name) && !RecordsValue(s, acc) ==> r == if s.checked then acc["checked" := Bool(true)] else acc
    ensures name == "option" ==> r == if OptionMatches(acc, parentValue) then acc["selected" := Bool(s.selected)] else acc
    ensures !IsValueField(name) && name != "option" ==> r == acc
  {
    if IsValueField(name) then
      if RecordsValue(s, acc) then acc["value" := Str(s.value.value)]
      else if s.checked then acc["checked" := Bool(true)]
      else acc
    else if name == "option" && OptionMatches(acc, parentValue) then acc["selected" := Bool(s.selected)]
    else acc
  }

  /** A value field records at most one of `value` and `checked`, and `checked` only as true. */
  lemma FormFieldRecordsOne(name: string, s: ElementState, parentValue: Option<string>, acc: Attributes)
    requires IsValueField(name) && "value" !in acc && "checked" !in acc
    ensures var r := FormFieldAttributes(name, s, parentValue, acc);
            && !("value" in r && "checked" in r)
            && ("checked" in r ==> r["checked"] == Bool(true) && s.checked)
            && ("value" in r <==> RecordsValue(s, acc))
  {
  }

  /** `parentElement.value`: absent when there is no parent element or it has no `value`. */
  function ParentValue(d: Dom, n: NodeRef): (r: Option<string>)
    requires n in d.nodes
    ensures r.Some? ==> d.nodes[n].parent.Some? && IsElement(d, d.nodes[n].parent.value)
  {
    match d.nodes[n].parent
    case Some(p) => if IsElement(d, p) then d.nodes[p].state.value else None
    case None => None
  }

  method GetFormFieldAttributes(d: Dom, n: NodeRef, elementName: string, attrs: AttributeDict)
    requires n in d.nodes
    modifies attrs
    ensures attrs.entries == FormFieldAttributes(elementName, d.nodes[n].state, ParentValue(d, n), old(attrs.entries))
  {
    var s := d.nodes[n].state;
    if elementName == "input" || elementName == "textarea" || elementName == "select" {
      var value := s.value;
      var isRadio := "type" in attrs.entries && attrs.entries["type"] == Str("radio");
      var isCheckbox := "type" in attrs.entries && attrs.entries["type"] == Str("checkbox");
      if !isRadio && !isCheckbox && value.Some? && value.value != "" {
        attrs.entries := attrs.entries["value" := Str(value.value)];
      } else if s.checked {
        attrs.entries := attrs.entries["checked" := Bool(true)];
      }
    }
    if elementName == "option" {
      var selectValue := ParentValue(d, n);
      if OptionMatches(attrs.entries, selectValue) {
        attrs.entries := attrs.entries["selected" := Bool(s.selected)];
      }
    }
  }

  // ---------------------------------------------------------------------
  // getCanvasAttributes and getMediaAttributes

  function CanvasAttributes(b: Browser, n: NodeRef, acc: Attributes): (r: Attributes)
    ensures "_dataURL" in r && r["_dataURL"] == Str(b.dataUrl(n))
  {
    acc["_dataURL" := Str(b.dataUrl(n))]
  }

  method GetCanvasAttributes(b: Browser, n: NodeRef, attrs: AttributeDict)
    modifies attrs
    ensures attrs.entries == CanvasAttributes(b, n, old(attrs.entries))
  {
    attrs.entries := attrs.entries["_dataURL" := Str(b.dataUrl(n))];
  }

  /** `_mediaState` is 'paused' exactly when the media is paused, and 'played' otherwise. */
  function MediaAttributes(paused: bool, acc: Attributes): (r: Attributes)
    ensures "_mediaState" in r
    ensures r["_mediaState"] == Str("paused") <==> paused
    ensures r["_mediaState"] == Str("played") <==> !paused
  {
    acc["_mediaState" := Str(if paused then "paused" else "played")]
  }

  method GetMediaAttributes(d: Dom, n: NodeRef, attrs: AttributeDict)
    requires n in d.nodes
    modifies attrs
    ensures attrs.entries == MediaAttributes(d.nodes[n].state.paused, old(attrs.entries))
  {
    attrs.entries := attrs.entries["_mediaState" := Str(if d.nodes[n].state.paused then "paused" else "played")];
  }

  // ---------------------------------------------------------------------
  // captureNode

  /** The attribute dictionary of a captured element, helper by helper. */
  function ElementAttributes(b: Browser, d: Dom, doc: NodeRef, n: NodeRef, name: string): Attributes
    requires n in d.nodes
  {
    var s := d.nodes[n].state;
    var a0 := GlobalAttributes(b, doc, n, s, map[]);
    var a1 := if name == "link" then ExternalCssAttributes(b, doc, s.href, a0) else a0;
    var a2 := if name == "style" then InternalCssAttributes(s.sheet, a1) else a1;
    var a3 := if IsValueField(name) || name == "option" then FormFieldAttributes(name, s, ParentValue(d, n), a2) else a2;
    var a4 := if name == "canvas" then CanvasAttributes(b, n, a3) else a3;
    if name == "audio" || name == "video" then MediaAttributes(s.paused, a4) else a4
  }

  /** The element branch of `captureNode`: the lower-cased tag name and the filled dictionary. */
  function CapturedElement(b: Browser, d: Dom, doc: NodeRef, n: NodeRef, originId: Option<int>): (r: Capture)
    requires n in d.nodes
    ensures r.originId == originId && r.body.ElementNode?
    ensures r.body.elementName == ToLower(d.nodes[n].tagName) && r.body.childNodes == []
  {
    var name := ToLower(d.nodes[n].tagName);
    Capture(originId, ElementNode(name, ElementAttributes(b, d, doc, n, name), []))
  }

  /** `originId`: the id of the document's `_cnode`, unless it has none or that id is 1. */
  function OriginId(cnode: map<NodeRef, NodeCaptured>, doc: NodeRef): (r: Option<int>)
    ensures r.Some? <==> doc in cnode && cnode[doc].nodeId != 1
    ensures r.Some? ==> r.value == cnode[doc].nodeId
  {
    if doc in cnode && cnode[doc].nodeId != 1 then Some(cnode[doc].nodeId) else None
  }

  /** `n.parentNode && n.parentNode.tagName`: absent unless the parent is an element. */
  function ParentTagName(d: Dom, n: NodeRef): Option<string>
    requires n in d.nodes
  {
    match d.nodes[n].parent
    case Some(p) => if p in d.nodes then TagName(d, p) else None
    case None => None
  }

  /** What `captureNode` returns, `None` standing for `false`. */
  function CapturedForm(b: Browser, d: Dom, cnode: map<NodeRef, NodeCaptured>, doc: NodeRef, n: NodeRef): (r: Option<Capture>)
    requires n in d.nodes
    ensures r.Some? ==> r.value.originId == OriginId(cnode, doc)
    ensures r.Some? && r.value.body.ElementNode? ==>
              d.nodes[n].kind.ElementKind? && r.value.body.elementName == ToLower(d.nodes[n].tagName)
              && r.value.body.childNodes == []
    ensures r.Some? && r.value.body.TextNode? ==>
              d.nodes[n].kind.TextKind? && r.value.body.textContent == Trim(d.nodes[n].text)
              && r.value.body.textContent != "" && !r.value.body.isCSSRules
  {
    var originId := OriginId(cnode, doc);
    match d.nodes[n].kind
    case DocumentKind => Some(Capture(originId, DocumentNode([])))
    case DocumentTypeKind(name, publicId, systemId) => Some(Capture(originId, DocumentTypeNode(name, publicId, systemId)))
    case ElementKind =>
      if "norecord" in d.nodes[n].classes then None
      else Some(CapturedElement(b, d, doc, n, originId))
    case TextKind =>
      var parentElementName := ParentTagName(d, n);
      if parentElementName == Some("SCRIPT") then None
      else
        var textContent := Trim(d.nodes[n].text);
        var isCSSRules := parentElementName == Some("STYLE");
        if textContent != "" && !isCSSRules then Some(Capture(originId, TextNode(textContent, isCSSRules)))
        else None
    case OtherKind => None
  }

  /**
   * `captureNode` declines exactly: other node kinds, elements with class
   * 'norecord', and text that is under a SCRIPT or STYLE element or is
   * whitespace only.
   */
  lemma CapturedFormDeclines(b: Browser, d: Dom, cnode: map<NodeRef, NodeCaptured>, doc: NodeRef, n: NodeRef)
    requires n in d.nodes
    ensures CapturedForm(b, d, cnode, doc, n).None? <==>
              || d.nodes[n].kind.OtherKind?
              || (d.nodes[n].kind.ElementKind? && "norecord" in d.nodes[n].classes)
              || (d.nodes[n].kind.TextKind? &&
                  (ParentTagName(d, n) == Some("SCRIPT") || ParentTagName(d, n) == Some("STYLE")
                   || AllWhitespace(d.nodes[n].text)))
  {
    match d.nodes[n].kind
    case TextKind => CapturedTextDeclines(b, d, cnode, doc, n);
    case ElementKind =>
      if "norecord" in d.nodes[n].classes {
        assert CapturedForm(b, d, cnode, doc, n) == None;
      } else {
        assert CapturedForm(b, d, cnode, doc, n) == Some(CapturedElement(b, d, doc, n, OriginId(cnode, doc)));
      }
    case OtherKind =>
    case DocumentKind =>
    case DocumentTypeKind(_, _, _) =>
  }

  /** Text is declined under SCRIPT or STYLE and when it is whitespace only. */
  lemma CapturedTextDeclines(b: Browser, d: Dom, cnode: map<NodeRef, NodeCaptured>, doc: NodeRef, n: NodeRef)
    requires n in d.nodes && d.nodes[n].kind.TextKind?
    ensures CapturedForm(b, d, cnode, doc, n).None? <==>
              (ParentTagName(d, n) == Some("SCRIPT") || ParentTagName(d, n) == Some("STYLE") || AllWhitespace(d.nodes[n].text))
  {
    var parentElementName := ParentTagName(d, n);
    if parentElementName == Some("SCRIPT") {
      assert CapturedForm(b, d, cnode, doc, n) == None;
    } else if parentElementName == Some("STYLE") {
      assert CapturedForm(b, d, cnode, doc, n) == None;
    } else {
      BlankIffAllWhitespace(d.nodes[n].text);
      if Trim(d.nodes[n].text) == "" {
        assert CapturedForm(b, d, cnode, doc, n) == None;
      } else {
        assert CapturedForm(b, d, cnode, doc, n).Some?;
      }
    }
  }

  // ---------------------------------------------------------------------
  // formatNode

  /** What `formatNode` reads and writes: the `_cnode` stamps, the nodes map and the id counter. */
  datatype CaptorState = CaptorState(cnode: map<NodeRef, NodeCaptured>, entries: map<int, NodeRef>, currentId: int)

  /**
   * `formatNode(n)`: the new state and the captured node, `None` when
   * `captureNode` declines. A captured node keeps the id of its `_cnode`
   * or takes the counter, is stamped and registered, and, when it is an
   * element, collects its captured children; its `_cnode` is the object
   * whose `childNodes` grow, so the final stamp holds the children.
   */
  function Format(b: Browser, d: Dom, doc: NodeRef, n: NodeRef, st: CaptorState): (res: (CaptorState, Option<NodeCaptured>))
    requires Wf(d) && n in d.nodes
    ensures res.1.None? <==> CapturedForm(b, d, st.cnode, doc, n).None?
    ensures res.1.None? ==> res.0 == st
    ensures res.1.Some? ==> n in res.0.cnode && res.0.cnode[n] == res.1.value
    decreases d.height - d.nodes[n].depth, |d.nodes[n].children| + 1
  {
    match CapturedForm(b, d, st.cnode, doc, n)
    case None => (st, None)
    case Some(c) =>
      var st1 := Stamp(st, n, c);
      if c.body.ElementNode? then
        var (st2, kids) := FormatChildren(b, d, doc, n, |d.nodes[n].children|, st1);
        var final := NodeCaptured(st1.cnode[n].nodeId, c.originId, c.body.(childNodes := kids));
        (st2.(cnode := st2.cnode[n := final]), Some(final))
      else
        (st1, Some(st1.cnode[n]))
  }

  /**
   * Stamping `n` with a captured form: the id of its `_cnode` when it has
   * one, otherwise the counter, which then moves on; the map registers `n`
   * under that id.
   */
  function Stamp(st: CaptorState, n: NodeRef, c: Capture): (r: CaptorState)
    ensures n in r.cnode && r.cnode[n].originId == c.originId && r.cnode[n].body == c.body
    ensures n in st.cnode ==> r.cnode[n].nodeId == st.cnode[n].nodeId && r.currentId == st.currentId
    ensures n !in st.cnode ==> r.cnode[n].nodeId == st.currentId && r.currentId == st.currentId + 1
    ensures r.entries == st.entries[r.cnode[n].nodeId := n]
    ensures forall m :: m in r.cnode && m != n ==> m in st.cnode && r.cnode[m] == st.cnode[m]
  {
    var id := if n in st.cnode then st.cnode[n].nodeId else st.currentId;
    var next := if n in st.cnode then st.currentId else st.currentId + 1;
    CaptorState(st.cnode[n := NodeCaptured(id, c.originId, c.body)], st.entries[id := n], next)
  }

  /** The loop over the first `i` children of `n`, keeping the captured ones. */
  function FormatChildren(b: Browser, d: Dom, doc: NodeRef, n: NodeRef, i: nat, st: CaptorState)
    : (res: (CaptorState, seq<NodeCaptured>))
    requires Wf(d) && n in d.nodes && i <= |d.nodes[n].children|
    ensures |res.1| <= i
    decreases d.height - d.nodes[n].depth, i
  {
    if i == 0 then (st, [])
    else
      var (st1, kids) := FormatChildren(b, d, doc, n, i - 1, st);
      ChildAt(d, n, i - 1);
      var (st2, r) := Format(b, d, doc, d.nodes[n].children[i - 1], st1);
      (st2, if r.Some? then kids + [r.value] else kids)
  }

  class NodeCaptor {
    var currentId: int

    constructor()
      ensures currentId == 0
    {
      currentId := 0;
    }

    /** `captureNode(doc, n)` */
    method CaptureNode(b: Browser, d: Dom, stamps: Stamps, doc: NodeRef, n: NodeRef) returns (r: Option<Capture>)
      requires n in d.nodes
      ensures r == CapturedForm(b, d, stamps.cnode, doc, n)
    {
      var originId: Option<int> := None;
      if doc in stamps.cnode {
        var docId := stamps.cnode[doc].nodeId;
        originId := if docId == 1 then None else Some(docId);
      }
      match d.nodes[n].kind {
        case DocumentKind =>
          return Some(Capture(originId, DocumentNode([])));
        case DocumentTypeKind(name, publicId, systemId) =>
          return Some(Capture(originId, DocumentTypeNode(name, publicId, systemId)));
        case ElementKind =>
          if "norecord" in d.nodes[n].classes {
            return None;
          }
          var elementName := ToLower(d.nodes[n].tagName);
          var attributes := new AttributeDict();
          GetGlobalAttribute(b, d, doc, n, attributes);
          if elementName == "link" {
            GetExternalCssAttribute(b, d, doc, n, attributes);
          }
          if elementName == "style" {
            GetInternalCssAttribute(d, n, attributes);
          }
          if elementName == "input" || elementName == "textarea" || elementName == "select" || elementName == "option" {
            GetFormFieldAttributes(d, n, elementName, attributes);
          }
          if elementName == "canvas" {
            GetCanvasAttributes(b, n, attributes);
          }
          if elementName == "audio" || elementName == "video" {
            GetMediaAttributes(d, n, attributes);
          }
          return Some(Capture(originId, ElementNode(elementName, attributes.entries, [])));
        case TextKind =>
          var parentElementName := ParentTagName(d, n);
          if parentElementName == Some("SCRIPT") {
            return None;
          }
          var textContent := Trim(d.nodes[n].text);
          var isCSSRules := parentElementName == Some("STYLE");
          if textContent != "" && !isCSSRules {
            return Some(Capture(originId, TextNode(textContent, isCSSRules)));
          } else {
            return None;
          }
        case OtherKind =>
          return None;
      }
    }

    /** `formatNode(currentNode, map, doc)`, `None` standing for a null node. */
    method FormatNode(b: Browser, d: Dom, doc: NodeRef, currentNode: Option<NodeRef>, stamps: Stamps, nodesMap: NodesMap)
      returns (r: Option<NodeCaptured>)
      requires Wf(d) && (currentNode.Some? ==> currentNode.value in d.nodes)
      modifies this, stamps, nodesMap
      ensures currentNode.None? ==> r.None? && stamps.cnode == old(stamps.cnode)
                                    && nodesMap.entries == old(nodesMap.entries) && currentId == old(currentId)
      ensures currentNode.Some? ==>
                (CaptorState(stamps.cnode, nodesMap.entries, currentId), r)
                == Format(b, d, doc, currentNode.value, old(CaptorState(stamps.cnode, nodesMap.entries, currentId)))
      decreases if currentNode.Some? then d.height - d.nodes[currentNode.value].depth else 0
    {
      if currentNode.None? {
        return None;
      }
      var n := currentNode.value;
      var captured := CaptureNode(b, d, stamps, doc, n);
      if captured.None? {
        return None;
      }
      var c := captured.value;
      var nodeId := 1;
      if n in stamps.cnode {
        nodeId := stamps.cnode[n].nodeId;
      } else {
        nodeId := currentId;
        currentId := currentId + 1;
      }
      var capturedNode := NodeCaptured(nodeId, c.originId, c.body);
      stamps.cnode := stamps.cnode[n := capturedNode];
      nodesMap.entries := nodesMap.entries[nodeId := n];
      if capturedNode.body.ElementNode? {
        ghost var st1 := CaptorState(stamps.cnode, nodesMap.entries, currentId);
        var childNodes := d.nodes[n].children;
        var kids: seq<NodeCaptured> := [];
        for i := 0 to |childNodes|
          invariant (CaptorState(stamps.cnode, nodesMap.entries, currentId), kids) == FormatChildren(b, d, doc, n, i, st1)
        {
          ChildAt(d, n, i);
          var capturedChildNode := FormatNode(b, d, doc, Some(childNodes[i]), stamps, nodesMap);
          if capturedChildNode.Some? {
            kids := kids + [capturedChildNode.value];
          }
        }
        capturedNode := capturedNode.(body := capturedNode.body.(childNodes := kids));
        stamps.cnode := stamps.cnode[n := capturedNode];
      }
      return Some(capturedNode);
    }
  }
}
