/**
 * The serialized form of DOM nodes (`NodeCaptured`) and the `_cnode`
 * property the serializer attaches to every node it has captured.
 */
module Captured {
  import opened Wrappers
  import opened Dom

  /** An attribute value: `string | number | boolean`. */
  datatype AttrValue = Str(s: string) | Num(n: int) | Bool(b: bool)

  type Attributes = map<string, AttrValue>

  datatype NodeBody =
    | DocumentNode(childNodes: seq<NodeCaptured>)
    | DocumentTypeNode(name: string, publicId: string, systemId: string)
    | ElementNode(elementName: string, attributes: Attributes, childNodes: seq<NodeCaptured>)
    | TextNode(textContent: string, isCSSRules: bool)

  /** What `captureNode` returns: a body and the optional `originId`, before an id is attached. */
  datatype Capture = Capture(originId: Option<int>, body: NodeBody)

  datatype NodeCaptured = NodeCaptured(nodeId: int, originId: Option<int>, body: NodeBody)

  /** The `_cnode` property of every node that carries one. */
  class Stamps {
    var cnode: map<NodeRef, NodeCaptured>
  }
}
