/** The class-state synchronisation engine of the Elements panel's class pane: a
    per-node class map kept in step with each node's `class` attribute, a buffer of
    pending attribute writes, a throttled flush, and the echo suppression that keeps
    the pane's own writes from invalidating its maps. */
module ClassesPane {
  import opened Options
  import opened Text
  import opened ClassMaps

  /** A document node, by identity. */
  type Node = nat

  /** One `node.setAttributeValuePromise('class', value)` request. */
  datatype Write = Write(node: Node, value: string)

  /** The keys `_onKeyDown` tells apart. */
  datatype Key = Enter | Escape | OtherKey

  /** What `_update` shows: whether the prompt is disabled, and one checkbox per
      class name, checked when the class is enabled. */
  datatype View = View(disabled: bool, labels: ClassMap)

  /** The map `_nodeClasses(node)` returns: the one attached to the node, or else one
      parsed from the node's `class` attribute. */
  function CachedOrParsed(cache: map<Node, ClassMap>, node: Node, attribute: Option<string>): ClassMap {
    if node in cache then cache[node] else ParsedClasses(AttributeText(attribute))
  }

  /** Storing a key's own value again leaves a map as it was. */
  lemma UpdateSame<K, V>(m: map<K, V>, k: K)
    requires k in m
    ensures m[k := m[k]] == m
  {
  }

  /** `classes` with the names of `names` enabled one after another. */
  function EnableAll(classes: ClassMap, names: seq<string>): ClassMap
    decreases |names|
  {
    if names == [] then classes
    else EnableAll(classes, names[..|names| - 1])[names[|names| - 1] := true]
  }

  /** Enabling names makes each of them a key set to enabled, and keeps every other
      key and its flag. */
  lemma {:induction false} EnableAllMeaning(classes: ClassMap, names: seq<string>)
    ensures EnableAll(classes, names).Keys == classes.Keys + set c | c in names
    ensures forall c :: c in EnableAll(classes, names) ==> EnableAll(classes, names)[c] == (c in names || classes[c])
    decreases |names|
  {
    if names != [] {
      var init := names[..|names| - 1];
      EnableAllMeaning(classes, init);
      assert names == init + [names[|names| - 1]];
    }
  }

  /** The cache after `_toggleClass(node, c, true)` for each `c` of `names` in turn. */
  function Committed(cache: map<Node, ClassMap>, node: Node, attribute: Option<string>, names: seq<string>): map<Node, ClassMap>
    decreases |names|
  {
    if names == [] then cache
    else
      var before := Committed(cache, node, attribute, names[..|names| - 1]);
      before[node := CachedOrParsed(before, node, attribute)[names[|names| - 1] := true]]
  }

  /** Enabling a non-empty list of names one at a time attaches to the node its map
      with every one of those names enabled; every other node keeps its map. */
  lemma {:induction false} CommittedEnablesAll(cache: map<Node, ClassMap>, node: Node, attribute: Option<string>, names: seq<string>)
    ensures names == [] ==> Committed(cache, node, attribute, names) == cache
    ensures names != [] ==>
      Committed(cache, node, attribute, names) == cache[node := EnableAll(CachedOrParsed(cache, node, attribute), names)]
    decreases |names|
  {
    if names != [] {
      var init := names[..|names| - 1];
      var x := names[|names| - 1];
      var base := CachedOrParsed(cache, node, attribute);
      CommittedEnablesAll(cache, node, attribute, init);
      if init != [] {
        var before := cache[node := EnableAll(base, init)];
        assert before[node := EnableAll(base, names)] == cache[node := EnableAll(base, names)];
      }
    }
  }

  /** `writes` writes each node of `done` once, with its value in `pending`, and
      writes no other node. */
  ghost predicate WritesExactly(writes: seq<Write>, pending: map<Node, string>, done: set<Node>) {
    && (forall i, j :: 0 <= i < j < |writes| ==> writes[i].node != writes[j].node)
    && (forall i :: 0 <= i < |writes| ==>
          writes[i].node in done && writes[i].node in pending && writes[i].value == pending[writes[i].node])
    && (forall n :: n in done ==> n in pending && Write(n, pending[n]) in writes)
  }

  /** `writes` is one flush of `pending`: one write per pending node, carrying that
      node's pending value, and no other write. */
  ghost predicate IsFlushOf(writes: seq<Write>, pending: map<Node, string>) {
    WritesExactly(writes, pending, pending.Keys)
  }

  /** Writing one more pending node, not written yet, extends the writes by that node. */
  lemma WritesOneMore(writes: seq<Write>, pending: map<Node, string>, done: set<Node>, node: Node)
    requires WritesExactly(writes, pending, done) && node in pending && node !in done
    ensures WritesExactly(writes + [Write(node, pending[node])], pending, done + {node})
  {
    var more := writes + [Write(node, pending[node])];
    forall i, j | 0 <= i < j < |more| ensures more[i].node != more[j].node {
      if j == |writes| {
        assert more[i] == writes[i];
      }
    }
  }

  /** A flush writes each pending node exactly once, with its pending value. */
  lemma FlushWritesOnce(writes: seq<Write>, pending: map<Node, string>, node: Node)
    requires IsFlushOf(writes, pending) && node in pending
    ensures Write(node, pending[node]) in writes
    ensures forall k :: 0 <= k < |writes| && writes[k].node == node ==> writes[k].value == pending[node]
  {
  }

  lemma SeparatorTokensAreClassNames(s: string)
    ensures forall c :: c in ClassTokens(ClassSeparators, s) ==> IsClassName(Whitespace, c)
  {
    ClassTokensMembers(ClassSeparators, s);
    forall c | c in ClassTokens(ClassSeparators, s) ensures IsClassName(Whitespace, c) {
      var tokens := ClassTokens(ClassSeparators, s);
      var i :| 0 <= i < |tokens| && tokens[i] == c;
      assert IsClassName(ClassSeparators, tokens[i]);
    }
  }

  /** With an empty prompt, the active classes are the enabled ones. */
  lemma ActiveSetEmptyPrompt(classes: ClassMap)
    ensures ActiveSet(classes, "") == EnabledKeys(classes)
  {
    EmptyHasNoTokens(ClassSeparators);
  }

  class ClassesPaneWidget {
    /** The class map attached to each node (`node[_classesSymbol]`), as a side table. */
    var classCache: map<Node, ClassMap>
    /** `_mutatingNodes`: nodes whose mutation notifications echo the pane's own writes. */
    var mutatingNodes: set<Node>
    /** `_pendingNodeClasses`: the next value to write, per node. */
    var pendingNodeClasses: map<Node, string>
    /** The flush throttler holds a scheduled flush. */
    var flushScheduled: bool
    /** Nodes whose write from the running flush has not completed yet: what the
        throttler's outstanding `Promise.all` of the last flush still waits for. */
    ghost var inFlight: set<Node>
    /** Every attribute write issued, in order. */
    var issuedWrites: seq<Write>
    /** `_previousTarget`: the node of the last selection change. */
    var previousTarget: Option<Node>
    /** The prompt's text, including its current suggestion. */
    var promptText: string

    /** Every cached class name is a non-empty whitespace-free token, a node is
        suppressed exactly while a write to it is in flight, and a buffered value
        always has a flush scheduled to write it. */
    ghost predicate Valid()
      reads this`classCache, this`mutatingNodes, this`inFlight, this`pendingNodeClasses, this`flushScheduled
    {
      && (forall n :: n in classCache ==> KeysAreClassNames(classCache[n]))
      && mutatingNodes == inFlight
      && (pendingNodeClasses != map[] ==> flushScheduled)
    }

    constructor ()
      ensures Valid()
      ensures classCache == map[] && mutatingNodes == {} && pendingNodeClasses == map[]
      ensures !flushScheduled && inFlight == {} && issuedWrites == []
      ensures previousTarget == None && promptText == ""
    {
      classCache := map[];
      mutatingNodes := {};
      pendingNodeClasses := map[];
      flushScheduled := false;
      inFlight := {};
      issuedWrites := [];
      previousTarget := None;
      promptText := "";
    }

    /** `_nodeClasses(node)`: the node's cached map, built from `attribute` (the node's
        `class` attribute) and attached on first use; a cached map is returned as is. */
    method NodeClasses(node: Node, attribute: Option<string>) returns (classes: ClassMap)
      requires Valid()
      modifies this`classCache
      ensures Valid()
      ensures classes == CachedOrParsed(old(classCache), node, attribute)
      ensures classCache == old(classCache)[node := classes]
      ensures node in old(classCache) ==> classCache == old(classCache)
    {
      if node in classCache {
        classes := classCache[node];
        assert classCache[node := classes] == classCache;
      } else {
        classes := BuildClassMap(AttributeText(attribute));
        classCache := classCache[node := classes];
      }
    }

    /** `_toggleClass(node, className, enabled)`: sets or inserts one flag of the node's
        map; every other flag and every other node's map stays as it was. */
    method ToggleClass(node: Node, className: string, enabled: bool, attribute: Option<string>)
      requires Valid() && IsClassName(Whitespace, className)
      modifies this`classCache
      ensures Valid()
      ensures classCache == old(classCache)[node := CachedOrParsed(old(classCache), node, attribute)[className := enabled]]
    {
      var classes := NodeClasses(node, attribute);
      classCache := classCache[node := classes[className := enabled]];
    }

    /** `_installNodeClasses(node)`: stores in the pending buffer the value to write for
        the node (its enabled classes and the prompt's class tokens, sorted, each once,
        space-joined), replacing any earlier pending value for it, and schedules a flush. */
    method InstallNodeClasses(node: Node, attribute: Option<string>)
      requires Valid()
      modifies this`classCache, this`pendingNodeClasses, this`flushScheduled
      ensures Valid()
      ensures classCache == old(classCache)[node := CachedOrParsed(old(classCache), node, attribute)]
      ensures pendingNodeClasses == old(pendingNodeClasses)[node := ClassAttributeValue(ActiveSet(classCache[node], promptText))]
      ensures flushScheduled
    {
      var classes := NodeClasses(node, attribute);
      var value := SerializeClasses(classes, promptText);
      pendingNodeClasses := pendingNodeClasses[node := value];
      flushScheduled := true;
    }

    /** `_flushPendingClasses`: marks every pending node as mutating, issues one write
        per pending node with its pending value, and empties the buffer. It runs only
        once the writes of the previous flush have all completed. */
    method Flush()
      requires Valid() && inFlight == {}
      modifies this`mutatingNodes, this`inFlight, this`issuedWrites, this`pendingNodeClasses
      ensures Valid()
      ensures mutatingNodes == old(mutatingNodes) + old(pendingNodeClasses).Keys
      ensures inFlight == old(pendingNodeClasses).Keys
      ensures pendingNodeClasses == map[]
      ensures |issuedWrites| >= |old(issuedWrites)| && issuedWrites[..|old(issuedWrites)|] == old(issuedWrites)
      ensures IsFlushOf(issuedWrites[|old(issuedWrites)|..], old(pendingNodeClasses))
    {
      var nodes := pendingNodeClasses.Keys;
      while nodes != {}
        invariant nodes <= pendingNodeClasses.Keys
        invariant pendingNodeClasses == old(pendingNodeClasses)
        invariant mutatingNodes == old(mutatingNodes) + (pendingNodeClasses.Keys - nodes)
        invariant inFlight == pendingNodeClasses.Keys - nodes
        invariant |issuedWrites| >= |old(issuedWrites)| && issuedWrites[..|old(issuedWrites)|] == old(issuedWrites)
        invariant WritesExactly(issuedWrites[|old(issuedWrites)|..], pendingNodeClasses, pendingNodeClasses.Keys - nodes)
        decreases nodes
      {
        var node :| node in nodes;
        ghost var batch := issuedWrites[|old(issuedWrites)|..];
        WritesOneMore(batch, pendingNodeClasses, pendingNodeClasses.Keys - nodes, node);
        assert (pendingNodeClasses.Keys - nodes) + {node} == pendingNodeClasses.Keys - (nodes - {node});
        mutatingNodes := mutatingNodes + {node};
        inFlight := inFlight + {node};
        issuedWrites := issuedWrites + [Write(node, pendingNodeClasses[node])];
        assert issuedWrites[|old(issuedWrites)|..] == batch + [Write(node, pendingNodeClasses[node])];
        nodes := nodes - {node};
      }
      pendingNodeClasses := map[];
    }

    /** The throttler's timer: a scheduled flush runs once no write of the previous
        flush is outstanding. */
    method FireThrottler()
      requires Valid() && flushScheduled && inFlight == {}
      modifies this`flushScheduled, this`mutatingNodes, this`inFlight, this`issuedWrites, this`pendingNodeClasses
      ensures Valid()
      ensures !flushScheduled
      ensures mutatingNodes == old(mutatingNodes) + old(pendingNodeClasses).Keys
      ensures inFlight == old(pendingNodeClasses).Keys
      ensures pendingNodeClasses == map[]
      ensures |issuedWrites| >= |old(issuedWrites)| && issuedWrites[..|old(issuedWrites)|] == old(issuedWrites)
      ensures IsFlushOf(issuedWrites[|old(issuedWrites)|..], old(pendingNodeClasses))
    {
      Flush();
      flushScheduled := false;
    }

    /** `onClassValueUpdated(node)`: the write to `node` has fulfilled; the node is no
        longer suppressed. */
    method OnWriteComplete(node: Node)
      requires Valid() && node in inFlight
      modifies this`mutatingNodes, this`inFlight
      ensures Valid()
      ensures mutatingNodes == old(mutatingNodes) - {node}
      ensures inFlight == old(inFlight) - {node}
    {
      mutatingNodes := mutatingNodes - {node};
      inFlight := inFlight - {node};
    }

    /** `_onDOMMutated(node)`: an echo of the pane's own write is ignored; any other
        mutation drops that node's map, and only that one. */
    method OnDOMMutated(node: Node)
      requires Valid()
      modifies this`classCache
      ensures Valid()
      ensures node in mutatingNodes ==> classCache == old(classCache)
      ensures node !in mutatingNodes ==> classCache == old(classCache) - {node}
    {
      if node in mutatingNodes {
        return;
      }
      classCache := classCache - {node};
    }

    /** `_onSelectedNodeChanged(target)`: if the previous target has text in the prompt,
        the prompt is cleared and the previous target's value re-installed without that
        text; then `target` becomes the previous target. `attribute` is the previous
        target's `class` attribute. */
    method OnSelectedNodeChanged(target: Option<Node>, attribute: Option<string>)
      requires Valid()
      modifies this`promptText, this`classCache, this`pendingNodeClasses, this`flushScheduled, this`previousTarget
      ensures Valid()
      ensures previousTarget == target
      ensures old(previousTarget).Some? && old(promptText) != "" ==>
        var node := old(previousTarget).value;
        && promptText == ""
        && classCache == old(classCache)[node := CachedOrParsed(old(classCache), node, attribute)]
        && pendingNodeClasses == old(pendingNodeClasses)[node := ClassAttributeValue(EnabledKeys(classCache[node]))]
        && flushScheduled
      ensures old(previousTarget).None? || old(promptText) == "" ==>
        && promptText == old(promptText)
        && classCache == old(classCache)
        && pendingNodeClasses == old(pendingNodeClasses)
        && flushScheduled == old(flushScheduled)
    {
      if previousTarget.Some? && promptText != "" {
        promptText := "";
        InstallNodeClasses(previousTarget.value, attribute);
        ActiveSetEmptyPrompt(classCache[previousTarget.value]);
      }
      previousTarget := target;
    }

    /** `_onTextChanged`: the prompt's text changed to `text`; the selected node's value
        is re-installed with it, as a live preview. */
    method OnTextChanged(text: string, selected: Option<Node>, attribute: Option<string>)
      requires Valid()
      modifies this`promptText, this`classCache, this`pendingNodeClasses, this`flushScheduled
      ensures Valid()
      ensures promptText == text
      ensures selected.None? ==>
        && classCache == old(classCache)
        && pendingNodeClasses == old(pendingNodeClasses)
        && flushScheduled == old(flushScheduled)
      ensures selected.Some? ==>
        var node := selected.value;
        && classCache == old(classCache)[node := CachedOrParsed(old(classCache), node, attribute)]
        && pendingNodeClasses == old(pendingNodeClasses)[node := ClassAttributeValue(ActiveSet(classCache[node], text))]
        && flushScheduled
    {
      promptText := text;
      if selected.None? {
        return;
      }
      InstallNodeClasses(selected.value, attribute);
    }

    /** `_onClick(className)`: the checkbox of `className` was set to `checked`. The
        class name is the label of a rendered checkbox, so a key of a class map. */
    method OnClick(className: string, checked: bool, selected: Option<Node>, attribute: Option<string>)
      requires Valid() && IsClassName(Whitespace, className)
      modifies this`classCache, this`pendingNodeClasses, this`flushScheduled
      ensures Valid()
      ensures selected.None? ==>
        && classCache == old(classCache)
        && pendingNodeClasses == old(pendingNodeClasses)
        && flushScheduled == old(flushScheduled)
      ensures selected.Some? ==>
        var node := selected.value;
        && classCache == old(classCache)[node := CachedOrParsed(old(classCache), node, attribute)[className := checked]]
        && pendingNodeClasses == old(pendingNodeClasses)[node := ClassAttributeValue(ActiveSet(classCache[node], promptText))]
        && flushScheduled
    {
      if selected.None? {
        return;
      }
      ToggleClass(selected.value, className, checked, attribute);
      InstallNodeClasses(selected.value, attribute);
    }

    /** The key handling of `_onKeyDown`. Enter commits the prompt's class tokens as
        enabled classes (unless it accepted an autocompletion instead); Escape discards
        the prompt's text. Either way the prompt is cleared and the selected node's
        value re-installed. Returns whether the event is consumed. */
    method OnKeyDown(key: Key, autocompleteAccepted: bool, selected: Option<Node>, attribute: Option<string>)
      returns (consumed: bool)
      requires Valid()
      modifies this`promptText, this`classCache, this`pendingNodeClasses, this`flushScheduled
      ensures Valid()
      ensures consumed <==> key == Enter || (key == Escape && !IsBlank(old(promptText)))
      ensures key == OtherKey || (key == Enter && autocompleteAccepted) ==>
        && promptText == old(promptText)
        && classCache == old(classCache)
        && pendingNodeClasses == old(pendingNodeClasses)
        && flushScheduled == old(flushScheduled)
      ensures (key == Escape || (key == Enter && !autocompleteAccepted)) ==> promptText == ""
      ensures (key == Escape || (key == Enter && !autocompleteAccepted)) && selected.None? ==>
        && classCache == old(classCache)
        && pendingNodeClasses == old(pendingNodeClasses)
        && flushScheduled == old(flushScheduled)
      ensures (key == Escape || (key == Enter && !autocompleteAccepted)) && selected.Some? ==>
        var node := selected.value;
        var committed := if key == Enter then ClassTokens(ClassSeparators, old(promptText)) else [];
        && classCache == old(classCache)[node := EnableAll(CachedOrParsed(old(classCache), node, attribute), committed)]
        && pendingNodeClasses == old(pendingNodeClasses)[node := ClassAttributeValue(EnabledKeys(classCache[node]))]
        && flushScheduled
    {
      if key == OtherKey {
        return false;
      }
      consumed := false;
      if key == Enter {
        consumed := true;
        if autocompleteAccepted {
          return;
        }
      }
      var text := promptText;
      if key == Escape {
        if !IsBlank(text) {
          consumed := true;
        }
        text := "";
      }
      promptText := "";
      if selected.None? {
        return;
      }
      var node := selected.value;
      var classNames := SplitIntoClasses(ClassSeparators, text);
      SeparatorTokensAreClassNames(text);
      if key == Escape {
        EmptyHasNoTokens(ClassSeparators);
      }
      CommitClasses(node, classNames, attribute);
      CommittedEnablesAll(old(classCache), node, attribute, classNames);
      if classNames != [] {
        UpdateSame(classCache, node);
      }
      InstallNodeClasses(node, attribute);
      ActiveSetEmptyPrompt(classCache[node]);
    }

    /** The `_toggleClass(node, className, true)` loop of `_onKeyDown`: the names are
        enabled one after another in the node's map. */
    method CommitClasses(node: Node, classNames: seq<string>, attribute: Option<string>)
      requires Valid()
      requires forall c :: c in classNames ==> IsClassName(Whitespace, c)
      modifies this`classCache
      ensures Valid()
      ensures classCache == Committed(old(classCache), node, attribute, classNames)
    {
      for i := 0 to |classNames|
        invariant Valid()
        invariant classCache == Committed(old(classCache), node, attribute, classNames[..i])
      {
        assert classNames[i] in classNames;
        assert classNames[..i + 1][..i] == classNames[..i];
        ToggleClass(node, classNames[i], true, attribute);
      }
      assert classNames[..|classNames|] == classNames;
    }

    /** `_update`, without the rendering: when the pane is showing, it reads the map of
        `element` (the enclosing element of the selection, `None` without a selection)
        and shows its classes, or disables the prompt when there is no element. */
    method Update(showing: bool, element: Option<Node>, attribute: Option<string>) returns (view: Option<View>)
      requires Valid()
      modifies this`classCache
      ensures Valid()
      ensures !showing ==> view == None && classCache == old(classCache)
      ensures showing && element.None? ==> view == Some(View(true, map[])) && classCache == old(classCache)
      ensures showing && element.Some? ==>
        var node := element.value;
        && classCache == old(classCache)[node := CachedOrParsed(old(classCache), node, attribute)]
        && view == Some(View(false, classCache[node]))
    {
      if !showing {
        return None;
      }
      if element.None? {
        return Some(View(true, map[]));
      }
      var classes := NodeClasses(element.value, attribute);
      view := Some(View(false, classes));
    }
  }
}
