/** The class-name autocompletion of the pane's prompt: which requests get no
    suggestions, when the fetched class names are reused, and how the names are turned
    into suggestions for a prefix. */
module Completions {
  import opened Options
  import opened Text

  /** `value.startsWith(prefix)`. */
  predicate StartsWith(value: string, prefix: string) {
    |prefix| <= |value| && value[..|prefix|] == prefix
  }

  /** `prefix[0] === '.'`; an empty prefix has no first character. */
  predicate DotPrefix(prefix: string) {
    |prefix| > 0 && prefix[0] == '.'
  }

  /** The early-empty rule: no suggestions without a selected node, nor for a request
      that has an empty prefix, is not forced, and whose expression trims to nothing. */
  predicate SuggestsNothing(hasNode: bool, expression: string, prefix: string, force: bool) {
    !hasNode || (prefix == "" && !force && Trim(expression) == "")
  }

  /** The early-empty rule in terms of the expression itself: trimming leaves nothing
      exactly when the expression is all whitespace. */
  lemma SuggestsNothingIs(hasNode: bool, expression: string, prefix: string, force: bool)
    ensures SuggestsNothing(hasNode, expression, prefix, force) <==>
      !hasNode || (prefix == "" && !force && IsBlank(expression))
  {
    TrimShape(expression);
  }

  /** `completions.map(value => '.' + value)`. */
  function AddDot(names: seq<string>): (r: seq<string>)
    ensures |r| == |names|
    ensures forall i :: 0 <= i < |names| ==> r[i] == "." + names[i]
  {
    if names == [] then [] else ["." + names[0]] + AddDot(names[1..])
  }

  /** `r` is `values` with some elements left out: the others keep their order and
      their repetitions. */
  predicate IsSubsequence(r: seq<string>, values: seq<string>)
    decreases |values|
  {
    if r == [] then true
    else if values == [] then false
    else (r[0] == values[0] && IsSubsequence(r[1..], values[1..])) || IsSubsequence(r, values[1..])
  }

  /** `values.filter(value => value.startsWith(prefix))`: the values that start with
      the prefix, in their original order and with their repetitions. */
  function FilterByPrefix(values: seq<string>, prefix: string): (r: seq<string>)
    ensures IsSubsequence(r, values)
    ensures |r| <= |values| && multiset(r) <= multiset(values)
    ensures forall s :: s in r <==> s in values && StartsWith(s, prefix)
  {
    if values == [] then []
    else
      var rest := FilterByPrefix(values[1..], prefix);
      assert values == [values[0]] + values[1..];
      if StartsWith(values[0], prefix) then [values[0]] + rest else rest
  }

  /** The suggestions offered for `prefix` from the fetched class names: each starts
      with the prefix, there are no more of them than names, and for a prefix without
      a leading `.` they are exactly the names that start with it. */
  function Suggestions(names: seq<string>, prefix: string): (r: seq<string>)
    ensures forall s :: s in r ==> StartsWith(s, prefix)
    ensures |r| <= |names|
    ensures !DotPrefix(prefix) ==> IsSubsequence(r, names)
    ensures !DotPrefix(prefix) ==> forall s :: s in r <==> s in names && StartsWith(s, prefix)
  {
    FilterByPrefix(if DotPrefix(prefix) then AddDot(names) else names, prefix)
  }

  /** For a prefix that starts with `.`, the class `n` is suggested, as `.n`, exactly
      when the rest of the prefix starts it; nothing without a leading `.` is. */
  lemma DottedSuggestions(names: seq<string>, prefix: string)
    requires DotPrefix(prefix)
    ensures forall n :: "." + n in Suggestions(names, prefix) <==> n in names && StartsWith(n, prefix[1..])
    ensures forall s :: s in Suggestions(names, prefix) ==> s != [] && s[0] == '.'
  {
    var dotted := AddDot(names);
    forall n ensures "." + n in dotted <==> n in names {
      if "." + n in dotted {
        var i :| 0 <= i < |dotted| && dotted[i] == "." + n;
        assert ("." + n)[1..] == n && ("." + names[i])[1..] == names[i];
      }
      if n in names {
        var i :| 0 <= i < |names| && names[i] == n;
        assert dotted[i] == "." + n;
      }
    }
    forall n ensures StartsWith("." + n, prefix) <==> StartsWith(n, prefix[1..]) {
      var s := "." + n;
      if StartsWith(s, prefix) {
        assert s[..|prefix|][1..] == n[..|prefix| - 1];
        assert prefix == [prefix[0]] + prefix[1..];
      }
      if StartsWith(n, prefix[1..]) {
        assert prefix == [prefix[0]] + prefix[1..];
        assert s[..|prefix|] == "." + n[..|prefix| - 1];
      }
    }
  }

  /** `ClassNamePrompt`: the prompt keeps the class names fetched for one frame and
      reuses them while the prefix is being extended. */
  class ClassNamePrompt {
    /** `_selectedFrameId`: the frame the names were fetched for. */
    var selectedFrameId: string
    /** `_classNamesPromise`, as its resolved value: `None` when nothing is fetched. */
    var classNames: Option<seq<string>>

    constructor ()
      ensures selectedFrameId == "" && classNames == None
    {
      selectedFrameId := "";
      classNames := None;
    }

    /** `_buildClassNameCompletions(expression, prefix, force)`. `selectedFrame` is the
        frame of the selected node (`None` without one), and `fetched` the names
        `_getClassNames` gives for that node. An empty prefix or a forced request
        drops the kept names; otherwise they are reused while the frame is the same. */
    method BuildClassNameCompletions(expression: string, prefix: string, force: bool,
                                     selectedFrame: Option<string>, fetched: seq<string>)
      returns (suggestions: seq<string>)
      modifies this
      ensures SuggestsNothing(selectedFrame.Some?, expression, prefix, force) ==>
        && suggestions == []
        && selectedFrameId == old(selectedFrameId)
        && classNames == (if prefix == "" || force then None else old(classNames))
      ensures !SuggestsNothing(selectedFrame.Some?, expression, prefix, force) ==>
        var reused := prefix != "" && !force && old(classNames).Some? && old(selectedFrameId) == selectedFrame.value;
        var names := if reused then old(classNames).value else fetched;
        && selectedFrameId == selectedFrame.value
        && classNames == Some(names)
        && suggestions == Suggestions(names, prefix)
    {
      if prefix == "" || force {
        classNames := None;
      }
      if selectedFrame.None? || (prefix == "" && !force && Trim(expression) == "") {
        return [];
      }
      if classNames.None? || selectedFrameId != selectedFrame.value {
        selectedFrameId := selectedFrame.value;
        classNames := Some(fetched);
      }
      var completions := classNames.value;
      if DotPrefix(prefix) {
        completions := AddDot(completions);
      }
      suggestions := FilterByPrefix(completions, prefix);
    }
  }
}
