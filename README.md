# A model of the DOM recorder's id and mutation engine

This project models the engine of a browser session recorder. The engine
gives DOM nodes integer ids, serializes them, and turns batches of
`MutationObserver` records into one incremental mutation event. It also
models the deduplicating cache of the recorder's input watcher. The
project states properties of each part and proves them in Dafny.

The DOM is an immutable forest (`Dom.Dom`). Every node has a kind, a tag
name, a class set, a parent, an ordered list of children and the element
properties the recorder reads. The node's depth bounds every walk up or
down the tree. Anything the recorder only copies from the browser stays
uninterpreted, in `Dom.Browser`: URL resolution against a document, a
document's style sheets, rendered sizes and canvas data URLs.

The parts:

- **Mirror** (`RecorderUtils`, in `mirror.dfy`). The mirror is the map from
  ids to nodes, with `getId` (-1 for a node without `_cnode`), `getNode`,
  `has` and the recursive `removeNodeFromMap`. Beside it are the tree
  walks `isBlocked` (string block class), `isAncestorRemoved` and
  `isIframeNodeFormated`.
- **Serializer** (`NodeCaptor`, `FormatProperties`). `captureNode` is a
  function of the node. The attribute helpers fill an `AttributeDict` in
  place. `formatNode` is a method over the `_cnode` stamps, the nodes map
  and the `currentId` counter. It is proved equal to the recursive function
  `Format`. `FormatProperties` proves what `Format` does to ids and
  what node it returns, children in document order.
- **String helpers** (`CaptorUtils`, `Strings`). These cover
  `getCssRulesString` as a fold over rules and imported sheets,
  `extractOrigin`, `getAbsoluteSrcsetString`, `absoluteToDoc` (only its
  blank guard; resolution itself is abstract), `transformAttribute` and
  `getStylesheet`. `Strings` models the JavaScript `trim`, `split`, `join`
  and `toLowerCase` they rely on.
- **Pending-add queue** (`LinkedList`). `DoubleLinkedList` is an arena of
  cells. `previous`, `next` and `head` are cell numbers, and each queued
  node's `__ln` property is a map from nodes to cells. `get`, `addNode`
  and `removeNode` are methods proved equal to the functions `Walk`,
  `Added` and `Removed`. Those functions are proved to keep a proper
  doubly-linked chain. A ghost rank on the cells proves that following
  `previous` always ends.
- **Classification** (`MutationRecords`, `MutationUtils`). `processMutation`
  and `handleAddedNode` are functions from the buffer's per-cycle state
  (`Buffers`) to the new state. The `MutationBuffer` class methods are
  proved to make exactly those changes to the class's fields and
  `NodeSet` objects. `moveKey`, `deepDelete`, `isParentRemoved` and
  `isAncestorInSet` are modelled too.
- **Flush** (`Flush`, `MutationBuffers`). `emit` runs in this order:
  1. it evicts the queued removed subtrees from the mirror;
  2. it makes the pass over the moved set and then the pass over the added
     set, which call `pushAdd`;
  3. it drains the queue;
  4. it filters the text and attribute payloads against the mirror;
  5. it either suppresses an empty event or resets the state.

  The function `Flushed` states all of this. The method
  `MutationBuffer.Emit` is proved to produce the outcome, the new state and
  the new mirror that `Flushed` gives.
- **Input watcher** (`InputWatcher`). `capture` and `cbWithDedup` work over
  the `lastInputValueMap` cache, including the fan-out to the other radios
  of a named group.

Quirks of the source are modelled as written:

- In `addNode`, the next-sibling branch never moves `head`
  (`LinkedList.AddedBeforeHeadIsUnreachable`).
- The buffer's "already serialized" test reads `_fnode`, which the
  serializer never writes. Here it is the `fnode` map of `Env`, separate
  from the `_cnode` stamps.
- A move key is recorded only for a truthy target id.
- A new captor's counter starts at 0 whatever ids nodes already carry
  (`FormatProperties.FreshCaptorStartsAtZero`,
  `FormatProperties.FreshCaptorReusesIds`).
- The state is reset only after a non-empty emit.
- Text under STYLE is never captured.
- Text cursors are appended per record rather than merged per node.

Within one flush no node gets a new id. `pushAdd` builds its entry from
`new NodeCaptor(document).capture()`. That `capture` reads `childNodes`
of a `documentRoot` field the constructor never sets, so in the browser
every `pushAdd` that reaches the push into `adds` throws a `TypeError`.
The model does not throw there. It appends an entry whose node is an
opaque parameter (see `Flush.PushAdd` under "## Left out"). No node is
stamped during a flush, so no queued node can become ready during the
drain, and `Flush.FlushDrainIsIdle` proves that the drain writes nothing.
The drain ends with a `TypeError` (`Outcome.Crashed`) exactly when its
backward scan meets a null cell.

## Model

| member | source | states |
|---|---|---|
| RecorderUtils.NodesMap.GetNode | src/Recorder/utils.ts:18 | `getNode(id)` gives a node exactly when `has(id)`, and that node is the one stored under `id` |
| RecorderUtils.NodesMap.GetNodeThenGetId | src/Recorder/utils.ts:13-18 | in a consistent map, `getId(getNode(id))` is `id` again |
| RecorderUtils.NodesMap.RemoveNodeFromMap | src/Recorder/utils.ts:20-28 | the new map is the old one minus the ids of the node and all its descendants; every other entry is unchanged |
| RecorderUtils.IdsUnion | src/Recorder/utils.ts:20-28 | the ids of a union of node sets are the union of their ids, which is how the recursion over children adds up |
| RecorderUtils.BlockedIffMarkedAncestor | src/Recorder/utils.ts:84-102 | `isBlocked` holds exactly when the node or some ancestor is an element carrying the block class; non-elements defer to their parent |
| RecorderUtils.BlockedSubtree | src/Recorder/utils.ts:84-102 | blocking is inherited: every node of a blocked node's subtree is blocked |
| RecorderUtils.AncestorRemovedIffNoMappedChain | src/Recorder/utils.ts:104-120 | `isAncestorRemoved` is false exactly when every node from the target up to a child of a document has its id in the map |
| RecorderUtils.RemovedSubtreeIsAncestorRemoved | src/Recorder/utils.ts:104-120 | once a subtree's ids leave a map of non-negative ids, every node of that subtree counts as removed |
| Strings.TrimStart | src/NodeCaptor/utils.ts:88 | `trimLeft` gives the suffix that drops only leading whitespace and starts with a non-whitespace character |
| Strings.TrimEnd | src/NodeCaptor/utils.ts:88 | `trimRight` gives the prefix that drops only trailing whitespace and ends with a non-whitespace character |
| Strings.TrimIsMiddle | src/NodeCaptor/NodeCaptor.ts:106 | `trim` keeps a contiguous middle part, strips only whitespace around it, and does not begin or end with whitespace |
| Strings.BlankIffAllWhitespace | src/NodeCaptor/utils.ts:78 | `s.trim() === ''` holds exactly when every character is whitespace |
| Strings.Split | src/NodeCaptor/utils.ts:82 | `split` with a one-character separator gives at least one piece, and no piece contains the separator |
| Strings.JoinSplit | src/NodeCaptor/utils.ts:82-100 | joining the pieces of a split with the same separator gives back the string |
| Strings.SplitCount | src/NodeCaptor/utils.ts:89-91 | a split has one more piece than the string has separators |
| Strings.FirstPiece | src/NodeCaptor/utils.ts:30-32 | the first piece of a split is the text before the first separator, or the whole string |
| Strings.ToLower | src/NodeCaptor/NodeCaptor.ts:60 | `toLowerCase` keeps the length and lowers each ASCII letter in place |
| Strings.NatToString | src/MutationBuffer/MutationBuffer.ts:107 | the decimal rendering is non-empty, all digits, and one digit long exactly below 10 |
| Strings.IntToStringInjective | src/MutationBuffer/MutationBuffer.ts:107 | distinct integers render as distinct strings, which is what makes move keys unambiguous |
| Strings.IntToString | src/MutationBuffer/MutationBuffer.ts:107 | the rendering of an integer is non-empty and never contains the `@` that separates the two ids of a move key |
| CaptorUtils.CssRulesString | src/NodeCaptor/utils.ts:3-13 | `getCssRulesString` is null exactly when there is no sheet or its rules are missing or unreadable |
| CaptorUtils.ReduceIsConcat | src/NodeCaptor/utils.ts:4-8 | the `reduce` from an accumulator gives the accumulator followed by the rule strings in order |
| CaptorUtils.CssRulesStringIsConcatenation | src/NodeCaptor/utils.ts:3-19 | a readable sheet gives the in-order concatenation of its rule strings; an import rule contributes its nested sheet's text or '' |
| Strings.JoinSplitUpTo | src/NodeCaptor/utils.ts:28 | joining the first `k` pieces of a split with the separator gives the string up to its `k`-th separator, or all of it when it has fewer |
| CaptorUtils.ExtractOriginValue | src/NodeCaptor/utils.ts:25-34 | the origin is the URL up to its first '?' or its third '/' (its first '/' when it has no '//'), whichever comes first, or the whole URL when it has neither |
| CaptorUtils.AbsoluteToDoc | src/NodeCaptor/utils.ts:105-112 | blank values come back unchanged; any other value is resolved against the document |
| CaptorUtils.AbsoluteSrcsetString | src/NodeCaptor/utils.ts:77-103 | a blank srcset comes back unchanged |
| CaptorUtils.SplitOneSeparator | src/NodeCaptor/utils.ts:89 | a string with one separator splits into the parts before and after it |
| CaptorUtils.UrlAndSizeBySpaces | src/NodeCaptor/utils.ts:85-99 | a trimmed srcset item with no space becomes its resolved url; with one space, the resolved url, a space and the size; with more spaces, '' |
| CaptorUtils.TransformAttribute | src/NodeCaptor/utils.ts:114-127 | 'src' is always resolved, 'href' and 'srcset' only when non-empty, and every other attribute and every blank value pass through unchanged |
| CaptorUtils.GetStylesheet | src/NodeCaptor/utils.ts:129-133 | gives the first sheet whose href equals the link's href, or nothing when no sheet has it |
| NodeCaptor.LastValue | src/NodeCaptor/NodeCaptor.ts:223-226 | an attribute name has a last value exactly when some attribute has that name |
| NodeCaptor.LastValueFound | src/NodeCaptor/NodeCaptor.ts:223-226 | the value found is that of an attribute with the name, and no later attribute has the name |
| NodeCaptor.TransformedAttributesLookup | src/NodeCaptor/NodeCaptor.ts:223-226 | after the loop, a name maps to the transformed value of its last attribute, and a name no attribute has keeps its entry |
| NodeCaptor.GlobalAttributes | src/NodeCaptor/NodeCaptor.ts:222-241 | a non-zero scroll offset is recorded; a zero one leaves that key as the attribute loop left it; `_width`/`_height` hold the rendered sizes; every other key is as the attribute loop left it |
| NodeCaptor.GetGlobalAttribute | src/NodeCaptor/NodeCaptor.ts:222-241 | the dictionary after the in-place loop and writes is `GlobalAttributes` of the old one |
| NodeCaptor.InlinedCss | src/NodeCaptor/NodeCaptor.ts:249 | CSS is inlined exactly when the sheet's rules string exists and is non-empty |
| NodeCaptor.ExternalCssAttributes | src/NodeCaptor/NodeCaptor.ts:243-254 | a link whose sheet gives non-empty text loses `rel` and `href` and gains `cssText`; otherwise nothing changes |
| NodeCaptor.ExternalCssFrame | src/NodeCaptor/NodeCaptor.ts:243-254 | the link helper leaves every entry other than `rel`, `href` and `cssText` as it was |
| NodeCaptor.GetExternalCssAttribute | src/NodeCaptor/NodeCaptor.ts:243-254 | the in-place deletes and write give `ExternalCssAttributes` of the old dictionary |
| NodeCaptor.InternalCssAttributes | src/NodeCaptor/NodeCaptor.ts:256-261 | a style element gains `cssText` exactly when its sheet gives non-empty text |
| NodeCaptor.GetInternalCssAttribute | src/NodeCaptor/NodeCaptor.ts:256-261 | the in-place write gives `InternalCssAttributes` of the old dictionary |
| NodeCaptor.FormFieldAttributes | src/NodeCaptor/NodeCaptor.ts:263-291 | `value` is recorded when the type is not radio or checkbox and the value is non-empty, else `checked` only when true; an option records `selected` only when its value attribute equals the parent's value; other elements are untouched |
| NodeCaptor.FormFieldRecordsOne | src/NodeCaptor/NodeCaptor.ts:263-280 | a value field records at most one of `value` and `checked`, and `checked` only as true |
| NodeCaptor.ParentValue | src/NodeCaptor/NodeCaptor.ts:283-286 | the parent's value exists only when the parent is an element |
| NodeCaptor.GetFormFieldAttributes | src/NodeCaptor/NodeCaptor.ts:263-291 | the in-place writes give `FormFieldAttributes` of the old dictionary |
| NodeCaptor.CanvasAttributes | src/NodeCaptor/NodeCaptor.ts:293-295 | `_dataURL` holds the canvas data URL |
| NodeCaptor.GetCanvasAttributes | src/NodeCaptor/NodeCaptor.ts:293-295 | the in-place write gives `CanvasAttributes` of the old dictionary |
| NodeCaptor.MediaAttributes | src/NodeCaptor/NodeCaptor.ts:297-301 | `_mediaState` is 'paused' exactly when the media is paused and 'played' exactly when it is not |
| NodeCaptor.GetMediaAttributes | src/NodeCaptor/NodeCaptor.ts:297-301 | the in-place write gives `MediaAttributes` of the old dictionary |
| NodeCaptor.CapturedElement | src/NodeCaptor/NodeCaptor.ts:55-95 | an element's captured form has the lower-cased tag name, no children and the given origin id |
| NodeCaptor.OriginId | src/NodeCaptor/NodeCaptor.ts:34-38 | `originId` is present exactly when the document has a `_cnode` whose id is not 1, and then it is that id |
| NodeCaptor.CapturedForm | src/NodeCaptor/NodeCaptor.ts:33-124 | a captured element has its lower-cased tag name; captured text is the trimmed, non-empty text with `isCSSRules` false; both carry the document's origin id |
| NodeCaptor.CapturedFormDeclines | src/NodeCaptor/NodeCaptor.ts:40-122 | `captureNode` gives false exactly for other node kinds, 'norecord' elements, and text under SCRIPT or STYLE or made only of whitespace |
| NodeCaptor.CapturedTextDeclines | src/NodeCaptor/NodeCaptor.ts:96-119 | a text node is declined exactly when its parent is SCRIPT or STYLE or its text is whitespace only |
| NodeCaptor.NodeCaptor.CaptureNode | src/NodeCaptor/NodeCaptor.ts:33-124 | the switch gives `CapturedForm`, reading the document's `_cnode` from the stamps |
| NodeCaptor.Format | src/NodeCaptor/NodeCaptor.ts:131-170 | `formatNode` gives null exactly when `captureNode` declines, and then changes nothing; otherwise the node's final `_cnode` is the result |
| NodeCaptor.Stamp | src/NodeCaptor/NodeCaptor.ts:144-156 | a stamped node keeps the id of its old `_cnode` or takes the counter, which then moves on by one; the map gains that id for the node; no other stamp changes |
| NodeCaptor.NodeCaptor.constructor | src/NodeCaptor/NodeCaptor.ts:22-24 | a new captor's counter is 0 |
| NodeCaptor.NodeCaptor.FormatNode | src/NodeCaptor/NodeCaptor.ts:131-197 | for a null node nothing changes; otherwise the stamps, map, counter and result are those `Format` gives |
| NodeCaptor.FormatChildren | src/NodeCaptor/NodeCaptor.ts:163-170 | the loop over the first `i` children keeps at most one captured child per child visited |
| FormatProperties.FormatGrows | src/NodeCaptor/NodeCaptor.ts:131-170 | formatting a node's subtree changes the stamps, map and counter only in ways allowed for that subtree |
| FormatProperties.FormatChildrenGrows | src/NodeCaptor/NodeCaptor.ts:163-170 | the loop over the first `i` children changes the state only in ways allowed for their subtrees |
| FormatProperties.FormatStampsSubtree | src/NodeCaptor/NodeCaptor.ts:144-170 | existing ids are kept; only nodes of the subtree are stamped; fresh ids are distinct and lie between the old and new counter; the counter never goes down |
| FormatProperties.FormatRegisters | src/NodeCaptor/NodeCaptor.ts:153-170 | the map only gains entries, each new or changed one names a subtree node stamped with that id, and freshly stamped nodes are found under their id |
| FormatProperties.FormatKeepsConsistent | src/NodeCaptor/NodeCaptor.ts:144-170 | a map in which every id names a node stamped with that id stays so |
| FormatProperties.FreshCaptorReusesIds | src/NodeCaptor/NodeCaptor.ts:144-156 | a new captor hands out id 0 even when another node already holds 0, and the map entry for 0 is overwritten |
| FormatProperties.FreshCaptorStartsAtZero | src/NodeCaptor/NodeCaptor.ts:22-24 | with the counter at 0, an unstamped node that `captureNode` accepts takes id 0, and every node already holding 0 keeps it |
| FormatProperties.FormatOutput | src/NodeCaptor/NodeCaptor.ts:138-170 | the returned node carries the `_cnode` id or else the counter, the captured origin and body, and for an element the captured children in document order |
| FormatProperties.FormatChildrenInOrder | src/NodeCaptor/NodeCaptor.ts:163-170 | the children loop ends in the state threaded through every child and keeps exactly the non-null results, in order |
| FormatProperties.FormatIframeNodes | src/Recorder/utils.ts:143-149 | after `formatNode(n)`, `isIframeNodeFormated(n)` holds exactly when the returned node is an element named 'iframe'; for nodes outside the subtree the answer is unchanged |
| LinkedList.DoubleLinkedList.constructor | src/MutationBuffer/MutationBuffer.ts:34-36 | a new list has length 0, no head and no cells |
| LinkedList.Walk | src/MutationBuffer/MutationBuffer.ts:43-47 | walking `next` stays on existing cells and stays null once null |
| LinkedList.DoubleLinkedList.Get | src/MutationBuffer/MutationBuffer.ts:38-48 | `get` throws at or past the length, else follows `next` `position` times from `head` |
| LinkedList.WalkFollowsChain | src/MutationBuffer/MutationBuffer.ts:38-48 | in a proper list, `get(i)` is the `i`-th queued cell, and one past the last gives null |
| LinkedList.Added | src/MutationBuffer/MutationBuffer.ts:50-81 | `addNode` adds one cell, raises the length by one, gives the node its `__ln`, and moves `head` only when neither sibling is queued |
| LinkedList.DoubleLinkedList.AddNode | src/MutationBuffer/MutationBuffer.ts:50-81 | the in-place writes to the cells, `head`, `length` and `__ln` give `Added` of the old state |
| LinkedList.DoubleLinkedList.LinkAfterInPlace | src/MutationBuffer/MutationBuffer.ts:57-64 | the four writes of the previous-sibling case give `LinkAfter` |
| LinkedList.DoubleLinkedList.LinkBeforeInPlace | src/MutationBuffer/MutationBuffer.ts:65-72 | the four writes of the next-sibling case give `LinkBefore` |
| LinkedList.DoubleLinkedList.LinkFrontInPlace | src/MutationBuffer/MutationBuffer.ts:73-79 | the writes of the no-sibling case give `LinkFront` and make the new cell the head |
| LinkedList.LinkAfterCells | src/MutationBuffer/MutationBuffer.ts:57-64 | linking after `p` sets the new cell's links to `p` and `p`'s old next, points both of those at it, and leaves every other cell alone |
| LinkedList.LinkBeforeCells | src/MutationBuffer/MutationBuffer.ts:65-72 | linking before `q` sets the new cell's links to `q`'s old previous and `q`, points both at it, and leaves every other cell alone |
| LinkedList.LinkFrontCells | src/MutationBuffer/MutationBuffer.ts:73-79 | linking in front points the new cell at the old head and the old head back at it; nothing else changes |
| LinkedList.AddedAfterCells | src/MutationBuffer/MutationBuffer.ts:57-64 | the previous-sibling case, cell by cell |
| LinkedList.AddedBeforeCells | src/MutationBuffer/MutationBuffer.ts:65-72 | the next-sibling case, cell by cell |
| LinkedList.AddedFrontCells | src/MutationBuffer/MutationBuffer.ts:73-79 | the no-sibling case, cell by cell |
| LinkedList.AddedValues | src/MutationBuffer/MutationBuffer.ts:50-56 | queueing keeps every cell's node and puts the new node in the new cell |
| LinkedList.AddedCount | src/MutationBuffer/MutationBuffer.ts:56 | queueing gives at most one more node an `__ln` |
| LinkedList.AddedLn | src/MutationBuffer/MutationBuffer.ts:56 | queueing a node without `__ln` keeps `__ln` mapping each queued node to its cell |
| LinkedList.AddedAfterLinked | src/MutationBuffer/MutationBuffer.ts:57-64 | queueing after the previous sibling's cell keeps the cells linked both ways, with the new cell right after it |
| LinkedList.AddedBeforeLinked | src/MutationBuffer/MutationBuffer.ts:65-72 | queueing before a non-first next sibling's cell keeps the cells linked both ways, with the new cell right before it |
| LinkedList.AddedFrontLinked | src/MutationBuffer/MutationBuffer.ts:73-79 | queueing in front keeps the cells linked, with the new cell first |
| LinkedList.AddedAfterKeepsChain | src/MutationBuffer/MutationBuffer.ts:57-64 | the previous-sibling case keeps a proper list (head, links, `__ln`, length) with the new node right after its sibling |
| LinkedList.AddedBeforeKeepsChain | src/MutationBuffer/MutationBuffer.ts:65-72 | the next-sibling case keeps a proper list when the sibling is not at the head |
| LinkedList.AddedAsHeadKeepsChain | src/MutationBuffer/MutationBuffer.ts:73-79 | the no-sibling case keeps a proper list with the new node first |
| LinkedList.AddedBeforeHeadIsUnreachable | src/MutationBuffer/MutationBuffer.ts:65-72 | a node queued before the head's node is linked in front of the head, but `head` does not move, so `get(length - 1)` gives null |
| LinkedList.Removed | src/MutationBuffer/MutationBuffer.ts:83-104 | with a null head nothing changes; a node without `__ln` throws; otherwise the length drops by one and the node loses `__ln` |
| LinkedList.DoubleLinkedList.RemoveNode | src/MutationBuffer/MutationBuffer.ts:83-104 | the in-place writes give `Removed` of the old state, including the throw |
| LinkedList.UnlinkCells | src/MutationBuffer/MutationBuffer.ts:94-99 | unlinking points the previous cell at the next one and back, and leaves the rest alone |
| LinkedList.RemovedHeadCells | src/MutationBuffer/MutationBuffer.ts:89-93 | removing a cell with no previous moves `head` to its next and clears that cell's `previous` |
| LinkedList.RemovedInnerCells | src/MutationBuffer/MutationBuffer.ts:94-99 | removing a cell with a previous relinks its neighbours and keeps `head` |
| LinkedList.RemovedValues | src/MutationBuffer/MutationBuffer.ts:83-104 | removal keeps every cell's node |
| LinkedList.RemovedCount | src/MutationBuffer/MutationBuffer.ts:100-103 | a removal that neither throws nor meets a null head takes one `__ln` away and lowers the length by one |
| LinkedList.RemovedLinked | src/MutationBuffer/MutationBuffer.ts:83-99 | removal keeps the other cells linked both ways and `head` on the first of them |
| LinkedList.RemovedKeepsChain | src/MutationBuffer/MutationBuffer.ts:83-104 | removing a queued node from a proper list never throws and leaves a proper list without its cell |
| LinkedList.AddedRanked | src/MutationBuffer/MutationBuffer.ts:50-81 | `addNode` keeps `next` leading up and `previous` leading down in rank |
| LinkedList.RemovedRanked | src/MutationBuffer/MutationBuffer.ts:83-104 | `removeNode` keeps the ranking |
| MutationUtils.MoveKeyInjective | src/MutationBuffer/MutationBuffer.ts:107 | distinct `(id, parentId)` pairs give distinct move keys |
| MutationUtils.NodeSet.Add | src/MutationBuffer/MutationBuffer.ts:142-144 | `Set.add` appends a node unless it is already there |
| MutationUtils.NodeSet.Delete | src/MutationBuffer/MutationBuffer.ts:418 | `Set.delete` takes the node out and keeps the order of the rest |
| MutationUtils.NodeSet.constructor | src/MutationBuffer/MutationBuffer.ts:142-144 | `new Set()` is empty |
| MutationUtils.WithoutMembers | src/MutationBuffer/MutationBuffer.ts:431-434 | deleting a set of nodes keeps exactly the nodes outside it and adds no repeats |
| MutationUtils.DeepDelete | src/MutationBuffer/MutationBuffer.ts:431-434 | `deepDelete` takes the node and all its descendants out of the set; the rest keep their order |
| MutationUtils.ParentRemovedIff | src/MutationBuffer/MutationBuffer.ts:436-446 | `isParentRemoved` holds exactly when some proper ancestor's id is the id of a recorded removal |
| MutationUtils.AncestorInSetIff | src/MutationBuffer/MutationBuffer.ts:448-457 | `isAncestorInSet` holds exactly when some proper ancestor is in the set |
| MutationRecords.TextCursorAppended | src/MutationBuffer/MutationBuffer.ts:320-329 | a text record appends one cursor with the current text exactly when the target is not blocked and the text differs from `oldValue`, even if the node already has one; nothing else changes |
| MutationRecords.CursorOf | src/MutationBuffer/MutationBuffer.ts:335-337 | `find` gives the position of a cursor for the node, or nothing when none has it |
| MutationRecords.AttributeOverwrites | src/MutationBuffer/MutationBuffer.ts:330-352 | ignored when blocked or unchanged; otherwise the node's single cursor, made at the end if missing, gets the transformed value under the name, and every other cursor and attribute stays |
| MutationRecords.ProcessedKeepsOneCursor | src/MutationBuffer/MutationBuffer.ts:318-401 | classifying any record keeps one attribute cursor per node |
| MutationRecords.HandledAddedCovers | src/MutationBuffer/MutationBuffer.ts:403-421 | every unblocked node of an added subtree ends up in the moved set when serialized, else in the added set and out of the dropped set; nothing outside it joins a set |
| MutationRecords.HandledChildrenCover | src/MutationBuffer/MutationBuffer.ts:420 | the recursion over the first `i` children covers their subtrees the same way |
| MutationRecords.RemovedHandled | src/MutationBuffer/MutationBuffer.ts:355-395 | a removed node never touches the text or attribute cursors |
| MutationRecords.RemovedNodeDisposition | src/MutationBuffer/MutationBuffer.ts:355-395 | blocked: nothing changes; otherwise queued for eviction once. A pending added node leaves the added set with its subtree and joins the dropped set with no removal. A removal `{parentId, id}` is recorded exactly when no earlier case applies |
| MutationRecords.AddedNodesKeepAttributes | src/MutationBuffer/MutationBuffer.ts:354 | handling added nodes leaves the attribute cursors alone |
| MutationRecords.RemovedNodesKeepAttributes | src/MutationBuffer/MutationBuffer.ts:355-395 | handling removed nodes leaves the attribute cursors alone |
| MutationBuffers.HandledAddedStaysIn | src/MutationBuffer/MutationBuffer.ts:403-421 | handling an added node puts only document nodes into the sets |
| MutationBuffers.RemovedStaysIn | src/MutationBuffer/MutationBuffer.ts:355-395 | handling a removed node keeps every set within the document |
| MutationBuffers.ProcessedStaysIn | src/MutationBuffer/MutationBuffer.ts:318-401 | classifying a record keeps every buffered node within the document |
| MutationBuffers.ProcessedAllStaysIn | src/MutationBuffer/MutationBuffer.ts:162-163 | classifying a batch keeps every buffered node within the document |
| MutationBuffers.MutationBuffer.constructor | src/MutationBuffer/MutationBuffer.ts:116-144 | a new buffer is not frozen and has empty arrays, sets and move keys |
| MutationBuffers.MutationBuffer.Freeze | src/MutationBuffer/MutationBuffer.ts:150-152 | `freeze` sets the flag and changes nothing else |
| MutationBuffers.MutationBuffer.Unfreeze | src/MutationBuffer/MutationBuffer.ts:154-156 | `unfreeze` clears the flag and changes nothing else |
| MutationBuffers.MutationBuffer.IsFrozen | src/MutationBuffer/MutationBuffer.ts:158-160 | `isFrozen` reports the flag |
| MutationBuffers.MutationBuffer.MarkAdded | src/MutationBuffer/MutationBuffer.ts:407-419 | the node itself joins the moved set (with a move key for a truthy target id) or the added set and leaves the dropped set |
| MutationBuffers.MutationBuffer.HandleAddedNode | src/MutationBuffer/MutationBuffer.ts:403-421 | the recursive method makes exactly the change `HandledAdded` gives |
| MutationBuffers.MutationBuffer.DropPending | src/MutationBuffer/MutationBuffer.ts:365-367 | the subtree leaves the added set and the node joins the dropped set |
| MutationBuffers.MutationBuffer.UndoMove | src/MutationBuffer/MutationBuffer.ts:383-387 | the subtree leaves the moved set |
| MutationBuffers.MutationBuffer.Dispose | src/MutationBuffer/MutationBuffer.ts:364-393 | the `if`-chain makes exactly the change `RemovedHandled` gives, before the eviction queue |
| MutationBuffers.MutationBuffer.HandleRemovedNode | src/MutationBuffer/MutationBuffer.ts:355-395 | one removed node makes exactly the change `RemovedHandled` gives |
| MutationBuffers.MutationBuffer.RecordText | src/MutationBuffer/MutationBuffer.ts:320-329 | the `characterData` case makes exactly the change `TextRecorded` gives |
| MutationBuffers.MutationBuffer.RecordAttribute | src/MutationBuffer/MutationBuffer.ts:330-352 | the `attributes` case makes exactly the change `AttributeRecorded` gives |
| MutationBuffers.MutationBuffer.HandleAddedNodes | src/MutationBuffer/MutationBuffer.ts:354 | the `forEach` loop over added nodes makes the change `AddedNodesHandled` gives |
| MutationBuffers.MutationBuffer.HandleRemovedNodes | src/MutationBuffer/MutationBuffer.ts:355-395 | the `forEach` loop over removed nodes makes the change `RemovedNodesHandled` gives |
| MutationBuffers.MutationBuffer.RecordChildList | src/MutationBuffer/MutationBuffer.ts:353-397 | the `childList` case handles the added nodes and then the removed ones |
| MutationBuffers.MutationBuffer.ProcessMutation | src/MutationBuffer/MutationBuffer.ts:318-401 | `processMutation` makes exactly the change `Processed` gives |
| MutationBuffers.MutationBuffer.ProcessAll | src/MutationBuffer/MutationBuffer.ts:163 | the loop over the records makes the change `ProcessedAll` gives |
| MutationBuffers.MutationBuffer.ProcessMutations | src/MutationBuffer/MutationBuffer.ts:162-167 | every record is classified; when frozen, nothing is emitted and the mirror is untouched; otherwise the flush is exactly `Flushed` of the classified state |
| Flush.NextIdCases | src/MutationBuffer/MutationBuffer.ts:179-186 | `nextId` is null exactly when there is no next sibling or it has no id and is blocked; -1 exactly when it has no id and is not blocked; otherwise the sibling's id |
| Flush.PushAdd | src/MutationBuffer/MutationBuffer.ts:188-202 | `pushAdd` keeps the queue well formed |
| Flush.PushAddOrphan | src/MutationBuffer/MutationBuffer.ts:189-191 | a node without a parent changes nothing |
| Flush.PushAddQueues | src/MutationBuffer/MutationBuffer.ts:192-196 | a node whose parent id or `nextId` is -1 is queued with `addNode` and writes no entry |
| Flush.PushAddPushes | src/MutationBuffer/MutationBuffer.ts:197-201 | a ready node leaves the queue alone and appends one entry with its parent's id and its `nextId` |
| Flush.PushAddKeepsStagedOk | src/MutationBuffer/MutationBuffer.ts:188-202 | a `pushAdd` call never writes an unresolved entry and never queues a ready node |
| MutationBuffers.PushAddTo | src/MutationBuffer/MutationBuffer.ts:188-202 | `pushAdd` on the local queue object and `adds` gives `PushAdd` |
| Flush.MovedPushed | src/MutationBuffer/MutationBuffer.ts:208-215 | the moved-set pass keeps the queue well formed |
| Flush.MovedPushedOk | src/MutationBuffer/MutationBuffer.ts:208-215 | the moved-set pass queues only nodes that are not ready and writes only resolved entries |
| MutationBuffers.StageMoved | src/MutationBuffer/MutationBuffer.ts:208-215 | the loop over the moved set gives `MovedPushed` from an empty `adds` |
| Flush.AddedPushed | src/MutationBuffer/MutationBuffer.ts:217-228 | the added-set pass keeps the queue well formed |
| Flush.AddedPushedOk | src/MutationBuffer/MutationBuffer.ts:217-228 | the added-set pass queues only nodes that are not ready and writes only resolved entries |
| Flush.AddedPushedDrops | src/MutationBuffer/MutationBuffer.ts:217-228 | the dropped set only grows, and a node joins it only when it is one of the added nodes and has no moved ancestor |
| MutationBuffers.StageAddedNode | src/MutationBuffer/MutationBuffer.ts:218-227 | one node of the added-set pass, on the queue object and the dropped set, gives one step of `AddedPushed` |
| MutationBuffers.StageAdded | src/MutationBuffer/MutationBuffer.ts:217-228 | the loop over the added set gives `AddedPushed` |
| Flush.Staged | src/MutationBuffer/MutationBuffer.ts:208-228 | both passes from an empty queue keep the queue well formed |
| Flush.StagedIsOk | src/MutationBuffer/MutationBuffer.ts:188-228 | after both passes every entry written is resolved and every queued node has a parent and is not ready |
| MutationBuffers.StageAll | src/MutationBuffer/MutationBuffer.ts:178-228 | a fresh queue, the moved-set pass and the added-set pass give `Staged` of the buffer state |
| Flush.Scan | src/MutationBuffer/MutationBuffer.ts:243-254 | a cell the backward scan finds holds a ready node |
| Flush.ScanNotFound | src/MutationBuffer/MutationBuffer.ts:243-254 | a scan that finds nothing has met only reachable cells holding nodes that are not ready |
| Flush.ScanNothingReady | src/MutationBuffer/MutationBuffer.ts:243-254 | with no ready node the scan finds nothing, and it throws exactly when its first position cannot be reached from the head |
| MutationBuffers.ScanQueue | src/MutationBuffer/MutationBuffer.ts:243-254 | the `for` loop calling `get` gives `Scan` from `length - 1` |
| MutationBuffers.PickNext | src/MutationBuffer/MutationBuffer.ts:232-254 | the candidate when it is ready, else the scan |
| Flush.BelowShrinks | src/MutationBuffer/MutationBuffer.ts:263 | moving the candidate to its `previous` strictly shrinks the cells it can still visit, which bounds the drain |
| Flush.DrainStep | src/MutationBuffer/MutationBuffer.ts:263-265 | taking a ready node keeps the queue well formed and ranked, pushes its entry, and lowers the length by one (or, with a null head, changes nothing) |
| Flush.DrainEntry | src/MutationBuffer/MutationBuffer.ts:197-201 | an entry the drain writes is resolved |
| Flush.DrainTakes | src/MutationBuffer/MutationBuffer.ts:255-265 | a round that takes a node equals the drain continuing from its `previous` with the entry appended, with the length or the candidate's reach smaller |
| Flush.DrainEmpty | src/MutationBuffer/MutationBuffer.ts:231 | an empty queue ends the drain at once without a crash |
| Flush.DrainIdle | src/MutationBuffer/MutationBuffer.ts:255-262 | a round that finds no ready node ends the drain, crashed exactly when the scan hit a null cell |
| Flush.DrainThrows | src/MutationBuffer/MutationBuffer.ts:264 | a `removeNode` that throws ends the drain crashed |
| MutationBuffers.TakeCell | src/MutationBuffer/MutationBuffer.ts:263-265 | one take on the queue object either ends the drain crashed or leaves a state whose drain is the old one |
| MutationBuffers.DrainRound | src/MutationBuffer/MutationBuffer.ts:231-266 | one round either ends the drain as `Drain` says or leaves a state whose drain is the old one, with a smaller measure |
| MutationBuffers.DrainQueue | src/MutationBuffer/MutationBuffer.ts:230-266 | the `while (addedNodeList.length)` loop ends and gives `Drain` of the staged queue |
| Flush.DrainResolves | src/MutationBuffer/MutationBuffer.ts:230-266 | the drain only appends to `adds`, and every entry stays resolved |
| Flush.DrainSettles | src/MutationBuffer/MutationBuffer.ts:230-266 | a drain that ends without a crash leaves an empty queue or one whose reachable nodes are all not ready |
| Flush.DrainWithNothingReady | src/MutationBuffer/MutationBuffer.ts:230-266 | with no ready node the drain writes nothing and keeps the queue, crashing exactly when the last position cannot be reached from the head |
| Flush.EvictedIds | src/MutationBuffer/MutationBuffer.ts:204-206 | every id of every queued subtree is evicted |
| Flush.EvictedIdsExact | src/MutationBuffer/MutationBuffer.ts:204-206 | an id is evicted exactly when it belongs to a node below some queued node |
| MutationBuffers.MutationBuffer.EvictRemoved | src/MutationBuffer/MutationBuffer.ts:204-206 | the `shift` loop empties `removedNodeMap` and removes exactly `EvictedIds` from the mirror |
| Flush.TextPayload | src/MutationBuffer/MutationBuffer.ts:269-275 | reported text changes are no more than the cursors and carry only ids the mirror has |
| Flush.TextPayloadExact | src/MutationBuffer/MutationBuffer.ts:269-275 | a text change is reported exactly when a cursor with that value has a node whose id the mirror has; none is lost when the mirror has them all |
| Flush.AttributePayload | src/MutationBuffer/MutationBuffer.ts:276-282 | reported attribute changes are no more than the cursors and carry only ids the mirror has |
| Flush.AttributePayloadExact | src/MutationBuffer/MutationBuffer.ts:276-282 | an attribute change is reported exactly when a cursor with those attributes has a node whose id the mirror has |
| Flush.EvictedTextDropped | src/MutationBuffer/MutationBuffer.ts:274-275 | a text change inside a subtree removed in this cycle is not reported |
| MutationBuffers.MutationBuffer.Reset | src/MutationBuffer/MutationBuffer.ts:306-313 | fresh empty arrays, sets and move keys |
| MutationBuffers.MutationBuffer.Emit | src/MutationBuffer/MutationBuffer.ts:169-316 | the outcome, the new buffer state and the new mirror are exactly `Flushed` of the old ones |
| Flush.FlushEvicts | src/MutationBuffer/MutationBuffer.ts:204-206 | every flush empties `removedNodeMap` and takes exactly the ids of the queued subtrees out of the mirror; other entries keep their node |
| Flush.FlushStaysIn | src/MutationBuffer/MutationBuffer.ts:169-316 | after a flush the buffer still holds only document nodes |
| Flush.FlushResetsOnlyWhenEmitted | src/MutationBuffer/MutationBuffer.ts:296-313 | the state is reset exactly when an event is emitted, and an emitted event is never empty; otherwise cursors, removals, move keys and the added and moved sets stay, and the dropped set only grows |
| Flush.FlushReportsKnownIds | src/MutationBuffer/MutationBuffer.ts:268-285 | an emitted event has only ids the mirror still has, the recorded removals as they are, and only resolved add entries |
| Flush.FlushDrainIsIdle | src/MutationBuffer/MutationBuffer.ts:230-266 | the drain writes nothing: emitted adds are those of the passes, and the flush crashes exactly when the staged queue's last position cannot be reached from the head |
| Flush.FlushWithNothingRecorded | src/MutationBuffer/MutationBuffer.ts:296-304 | with nothing recorded the flush is suppressed and only empties `removedNodeMap` |
| InputWatcher.ValueOf | src/Watchers/InputWatcher.ts:49-57 | `text` is the element's value; `isChecked` can be true only for radios and checkboxes |
| InputWatcher.Record | src/Watchers/InputWatcher.ts:76-95 | `cbWithDedup` caches the value and reports nothing exactly when the cache already held that value; a report is one Input event with the target's mirror id (-1 if never captured) |
| InputWatcher.RecordTwiceReportsOnce | src/Watchers/InputWatcher.ts:76-83 | the same value twice in a row for the same target is reported once |
| InputWatcher.Captures | src/Watchers/InputWatcher.ts:42-48 | a missing target, a target without a tag name, or a tag other than INPUT, TEXTAREA or SELECT produces nothing and leaves the cache alone |
| InputWatcher.FanOutCache | src/Watchers/InputWatcher.ts:61-73 | the fan-out caches every other group member as unchecked with its own value, leaves the target's and all other entries alone, and reports only unchecked values, at most one per radio |
| InputWatcher.FanOutQuiet | src/Watchers/InputWatcher.ts:61-73 | when the cache already holds the group as unchecked, the fan-out reports and changes nothing |
| InputWatcher.CaptureCachesTarget | src/Watchers/InputWatcher.ts:59-73 | after a capture the target's cache entry is its own new value, even when the group query lists the target |
| InputWatcher.CaptureTwiceReportsOnce | src/Watchers/InputWatcher.ts:39-95 | capturing the same event twice reports nothing the second time and leaves the cache unchanged |
| InputWatcher.CaptureReportsTargetFirst | src/Watchers/InputWatcher.ts:59-91 | a changed target value is reported first with the target's id (-1 when never captured); without the fan-out at most one event is reported |
| InputWatcher.InputWatcher.CbWithDedup | src/Watchers/InputWatcher.ts:76-95 | the cache update and the events reported are `Record` |
| InputWatcher.InputWatcher.Capture | src/Watchers/InputWatcher.ts:39-74 | the guard, the target's report and the `forEach` over the group give `Captures` |
| InputWatcher.InputWatcher.constructor | src/Watchers/InputWatcher.ts:11 | the cache of last values starts empty |

## Left out

- The browser itself is a parameter. The DOM does not change during any
  call (`Env` is fixed per call). URL resolution, style-sheet lookup,
  rendered sizes and `toDataURL` are uninterpreted functions of
  `Dom.Browser`. `getBoundingClientRect` floats appear only as the strings
  the template produces.
- `onSerialize`, the iframe branch of `formatNode` and `onceIframeLoaded`
  are left out. They depend on callbacks, timers and load events.
- `NodeCaptor.capture` reads a `documentRoot` field that is never
  assigned. It is not modelled. The add entry that `pushAdd` builds from it
  is an opaque `NodeCaptured` parameter, so only its `parentId` and
  `nextId` are stated.
- `Flush.PushAdd`: in the source, a call that reaches the push into
  `adds` throws a `TypeError`, because `capture()` reads `childNodes` of
  the unset `documentRoot` (src/NodeCaptor/NodeCaptor.ts:208,
  src/MutationBuffer/MutationBuffer.ts:197-201). The model appends the
  entry and the flush goes on. An `Emitted` outcome with a non-empty
  `adds` is therefore one the browser does not reach; there the flush ends
  in an uncaught `TypeError`.
- `NodeCaptor.ParentValue`: for an `option` whose `parentElement` is null
  (no parent, or a parent that is not an element), the source reads
  `.value` of null and throws a `TypeError`
  (src/NodeCaptor/NodeCaptor.ts:283-286). The model gives `None` and
  records no `selected`. `formatNode` reaches children only through an
  element, so the two differ only for an option formatted as a root.
- `NodeCaptor.GlobalAttributes`: `scrollLeft` and `scrollTop` are
  doubles in the browser and integers here. Fractional scroll offsets are
  not modelled.
- `isBlocked` with a `RegExp` block class is not modelled; only the string
  class is.
- `throttle`, `getWindowWidth`, `getWindowHeight`, `getBaseDimension`,
  `isTouchEvent` and `polyfill` read timers and window state.
- The event wrapper is not modelled: `timestamp`, `Date.now`, the event
  type and the emission callback. An emitted event is
  `Outcome.Emitted(data)`.
- The input watcher's `watch`/`stop` listener registration is not
  modelled.
- The `__ln` property lives in the queue value of one flush. In the
  browser it stays on nodes that are still queued when a flush ends. Its
  effect on the next flush's `addNode` is not modelled.
- `Set<Node>` is an insertion-ordered sequence. The `NodeSet` class does
  not carry a no-repeat invariant; `Add` keeps it where it held.
- The radio group comes from `querySelectorAll` and is a parameter in
  document order. Escaping of the name inside the selector is not
  modelled.
- The `WeakMap` cache is a `map`. Garbage collection of its keys is not
  modelled.
- `ToLower` lowers ASCII letters only. Tag names outside ASCII are not
  modelled.
- `CaptorUtils.AbsoluteSrcsetString`: its own contract states only the
  blank case. The per-item cases are stated by
  `CaptorUtils.UrlAndSizeBySpaces`, and the splitting and joining by
  `Strings.JoinSplit`.
- `InputWatcher.Captures`: its own contract states only the guard. The
  rest is stated by `InputWatcher.CaptureCachesTarget`,
  `InputWatcher.CaptureTwiceReportsOnce`,
  `InputWatcher.CaptureReportsTargetFirst` and the fan-out lemmas.
- `Flush.Staged`, `Flush.MovedPushed`, `Flush.AddedPushed` and
  `Flush.PushAdd`: their own contracts state only that the queue stays well
  formed. What they write is stated by `Flush.PushAddQueues`,
  `Flush.PushAddPushes`, `Flush.StagedIsOk` and `Flush.AddedPushedDrops`.
