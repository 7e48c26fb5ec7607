/** Runs of the engine through several handlers in a row, and what they show about
    its design: one write per node however often it is re-installed, and echo
    suppression that keeps the pane's own writes from resetting its maps. */
module Scenarios {
  import opened Options
  import opened Text
  import opened ClassMaps
  import opened ClassesPane

  /** Re-reading the pane's own write would lose its unchecked classes: the map
      rebuilt from the written value holds exactly the enabled classes. This is what
      the echo suppression of `_onDOMMutated` protects the cached map from. */
  lemma ReparseDropsDisabled(classes: ClassMap)
    requires KeysAreClassNames(classes)
    ensures ParsedClasses(ClassAttributeValue(ActiveSet(classes, ""))) == map c | c in EnabledKeys(classes) :: true
  {
    ActiveSetEmptyPrompt(classes);
    RebuildAfterWrite(EnabledKeys(classes));
  }

  /** A second `_installNodeClasses` with no edit in between changes nothing: the
      cache and the pending buffer end as after the first. */
  method InstallTwice(w: ClassesPaneWidget, node: Node, attribute: Option<string>)
    requires w.Valid()
    modifies w`classCache, w`pendingNodeClasses, w`flushScheduled
    ensures w.Valid()
    ensures w.classCache == old(w.classCache)[node := CachedOrParsed(old(w.classCache), node, attribute)]
    ensures w.pendingNodeClasses == old(w.pendingNodeClasses)[node := ClassAttributeValue(ActiveSet(w.classCache[node], w.promptText))]
    ensures w.flushScheduled
  {
    w.InstallNodeClasses(node, attribute);
    ghost var cache := w.classCache;
    ghost var pending := w.pendingNodeClasses;
    w.InstallNodeClasses(node, attribute);
    UpdateSame(cache, node);
    UpdateSame(pending, node);
  }

  /** An install replaces any earlier pending value for the node, so the next flush
      writes the node once, with the value of the latest install. */
  method InstallThenFlush(w: ClassesPaneWidget, node: Node, attribute: Option<string>)
    requires w.Valid() && w.inFlight == {}
    modifies w`classCache, w`pendingNodeClasses, w`flushScheduled, w`mutatingNodes, w`inFlight, w`issuedWrites
    ensures w.Valid()
    ensures node in w.classCache && |w.issuedWrites| >= |old(w.issuedWrites)|
    ensures var batch := w.issuedWrites[|old(w.issuedWrites)|..];
      var value := ClassAttributeValue(ActiveSet(w.classCache[node], w.promptText));
      && Write(node, value) in batch
      && forall k :: 0 <= k < |batch| && batch[k].node == node ==> batch[k].value == value
    ensures w.inFlight == old(w.pendingNodeClasses).Keys + {node}
  {
    w.InstallNodeClasses(node, attribute);
    ghost var pending := w.pendingNodeClasses;
    w.FireThrottler();
    FlushWritesOnce(w.issuedWrites[|old(w.issuedWrites)|..], pending, node);
  }

  /** The mutation notification that echoes a flushed write leaves the node's map in
      place. */
  method EchoIsIgnored(w: ClassesPaneWidget, node: Node)
    requires w.Valid() && w.inFlight == {} && w.flushScheduled && node in w.pendingNodeClasses
    modifies w`classCache, w`pendingNodeClasses, w`flushScheduled, w`mutatingNodes, w`inFlight, w`issuedWrites
    ensures w.Valid()
    ensures w.classCache == old(w.classCache)
    ensures node in w.mutatingNodes
  {
    w.FireThrottler();
    w.OnDOMMutated(node);
  }

  /** Once the node's write has completed, a mutation of the node drops its map, and
      the next read rebuilds it from the node's `class` attribute. */
  method MutationAfterCompletion(w: ClassesPaneWidget, node: Node, attribute: Option<string>)
    returns (classes: ClassMap)
    requires w.Valid() && node in w.inFlight
    modifies w`classCache, w`mutatingNodes, w`inFlight
    ensures w.Valid()
    ensures node !in w.mutatingNodes
    ensures classes == ParsedClasses(AttributeText(attribute))
    ensures w.classCache == (old(w.classCache) - {node})[node := classes]
  {
    w.OnWriteComplete(node);
    w.OnDOMMutated(node);
    classes := w.NodeClasses(node, attribute);
  }

  /** Typing previews the text on the selected node; moving the selection away then
      clears the prompt and re-installs the node without the text. The typed classes
      are not committed: the node keeps the map it had, and its pending value lists
      only its enabled classes. */
  method PreviewDroppedOnNavigation(w: ClassesPaneWidget, node: Node, text: string,
                                    next: Option<Node>, attribute: Option<string>)
    requires w.Valid() && w.previousTarget == Some(node) && text != ""
    modifies w`promptText, w`classCache, w`pendingNodeClasses, w`flushScheduled, w`previousTarget
    ensures w.Valid()
    ensures w.previousTarget == next && w.promptText == ""
    ensures w.classCache == old(w.classCache)[node := CachedOrParsed(old(w.classCache), node, attribute)]
    ensures w.pendingNodeClasses == old(w.pendingNodeClasses)[node := ClassAttributeValue(EnabledKeys(w.classCache[node]))]
  {
    w.OnTextChanged(text, Some(node), attribute);
    ghost var cache := w.classCache;
    w.OnSelectedNodeChanged(next, attribute);
    UpdateSame(cache, node);
  }
}
