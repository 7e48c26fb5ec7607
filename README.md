# Class pane of the Elements panel, modelled in Dafny

This project models the class-state synchronisation engine of the DevTools class pane
(`Elements.ClassesPaneWidget` with its `ClassNamePrompt`). It proves properties about
the model.

The pane keeps one map per DOM node, from class name to an *enabled* flag. The map is
parsed from the node's `class` attribute on first use, and it keeps unchecked classes
that the attribute no longer holds. Every edit stores the node's new attribute value in a
pending buffer:

- a checkbox click;
- a typed preview;
- Enter, which commits the typed class names;
- Escape, which discards them.

The value is the enabled classes plus the prompt's class tokens, sorted, each listed
once, and joined with single spaces. A throttled flush issues one write per pending node
and empties the buffer. While the write to a node is in flight, mutation notifications
for that node are treated as echoes of the pane's own write and ignored. Any other
mutation drops the node's map, so it is rebuilt from the attribute.

The model is organised in modules:

- `Text`:
  - the character classes of `\s` and `String.prototype.trim`;
  - single-character splitting, trimming, filtering and joining;
  - the `_splitTextIntoClasses` pipeline.
- `Ordering`:
  - the order of `Array.prototype.sort()` on strings;
  - an insertion sort;
  - the canonical sorted listing of a set.
- `ClassMaps`:
  - the per-node map and its parse from the attribute;
  - the active set and the serialised value;
  - the round trip from the written value back to the parsed map.
- `ClassesPane`: the engine as a class.
  - Its fields are the map cache, the suppression set, the pending buffer, the
    throttler state, the issued writes, the previous target and the prompt text.
  - Its methods are the pane's handlers.
- `Completions`: the prompt's autocompletion, as a class that keeps the fetched names
  of one frame.
- `Scenarios`: runs through several handlers in a row.

Inputs from the environment become parameters of the methods that need them:

- the selected node (`UI.context.flavor`);
- the enclosing element of the selection;
- the node's `class` attribute;
- whether the pane is showing;
- whether Enter accepted an autocompletion;
- the frame of the selected node;
- the class names fetched for it.

The completion of a write is the `OnWriteComplete` event. The throttler's timer is the
`FireThrottler` event.

On a selection change the code clears the input before it re-installs the previous
target (`front_end/elements/ClassesPaneWidget.js:103-106`), so text typed but not
committed with Enter is dropped, not merged into the map.
`Scenarios.PreviewDroppedOnNavigation` states the consequence.

## Model

| member | source | states |
|---|---|---|
| Text.Split | front_end/elements/ClassesPaneWidget.js:42 | the definition of `split` at a one-character separator, for both the prompt split and the attribute split at line 165; it always has at least one piece |
| Text.Trim | front_end/elements/ClassesPaneWidget.js:43 | the definition of `trim`, also used at line 168: whitespace dropped at both ends |
| Text.Join | front_end/elements/ClassesPaneWidget.js:206 | the definition of `join(' ')` |
| Text.SplitWeave | front_end/elements/ClassesPaneWidget.js:42 | a split has one more piece than the string has delimiters, and weaving the pieces back with those delimiters gives the string |
| Text.SplitPiecesFree | front_end/elements/ClassesPaneWidget.js:42 | no piece of a split contains a delimiter character |
| Text.SplitPrefix | front_end/elements/ClassesPaneWidget.js:42 | a delimiter-free prefix joins the first piece of the split of the rest |
| Text.TrimShape | front_end/elements/ClassesPaneWidget.js:43 | a string trims to empty exactly when it is all whitespace; otherwise the result has no whitespace at either end |
| Text.NonEmptyMembers | front_end/elements/ClassesPaneWidget.js:44 | the length filter keeps exactly the non-empty strings |
| Text.SplitIntoClasses | front_end/elements/ClassesPaneWidget.js:41-45 | split, trim and filter yield exactly the non-empty pieces of the split: trimming has nothing to remove |
| Text.ClassTokensMembers | front_end/elements/ClassesPaneWidget.js:41-45 | a string is a token exactly when it is a non-empty piece of the split, and every token is a delimiter-free class name |
| Text.EmptyHasNoTokens | front_end/elements/ClassesPaneWidget.js:64 | the cleared text of Escape yields no class names |
| Text.SplitJoin | front_end/elements/ClassesPaneWidget.js:165 | splitting at whitespace undoes a space-join of whitespace-free strings |
| Text.AttributeRoundTrip | front_end/elements/ClassesPaneWidget.js:164-172 | the attribute parse of a space-joined list of class names gives back exactly that list |
| Ordering.LessTotal | front_end/elements/ClassesPaneWidget.js:204 | two different strings are always ordered one way round (with LessIrreflexive, LessTransitive and LessAsymmetric: a strict total order) |
| Ordering.Sort | front_end/elements/ClassesPaneWidget.js:204 | the sorted array is non-decreasing and a permutation of the input |
| Ordering.SortedElementsShape | front_end/elements/ClassesPaneWidget.js:203-204 | the canonical listing of a set is sorted and holds each element exactly once |
| Ordering.SortedUnique | front_end/elements/ClassesPaneWidget.js:203-204 | two sorted permutations of each other are equal, so the sorted value does not depend on the set's iteration order |
| ClassMaps.AttributeText | front_end/elements/ClassesPaneWidget.js:164 | an absent `class` attribute reads as the empty string |
| ClassMaps.ActiveSet | front_end/elements/ClassesPaneWidget.js:193-201 | the definition of the active classes: the enabled keys together with the prompt's class tokens |
| ClassMaps.ClassAttributeValue | front_end/elements/ClassesPaneWidget.js:203-206 | the definition of the written value: the canonical sorted listing of the active classes, space-joined |
| ClassMaps.ParsedClasses | front_end/elements/ClassesPaneWidget.js:164-172 | every key of a parsed map is a non-empty, whitespace-free class name |
| ClassMaps.ParsedClassesMembers | front_end/elements/ClassesPaneWidget.js:164-172 | the parsed map's keys are exactly the non-empty pieces of the attribute's whitespace split, each enabled |
| ClassMaps.BuildClassMap | front_end/elements/ClassesPaneWidget.js:165-172 | the loop that fills the fresh map builds exactly the parsed map |
| ClassMaps.ActiveClasses | front_end/elements/ClassesPaneWidget.js:193-201 | a class is active exactly when it is enabled in the map or is one of the additional tokens |
| ClassMaps.ValuesArray | front_end/elements/ClassesPaneWidget.js:203 | the array lists each element of the set exactly once |
| ClassMaps.ClassAttributeValueOfListing | front_end/elements/ClassesPaneWidget.js:203-206 | every sorted listing of the active set joins to the same canonical value |
| ClassMaps.SerializeClasses | front_end/elements/ClassesPaneWidget.js:192-206 | the computed value is the canonical value of the enabled classes together with the prompt's class tokens |
| ClassMaps.ClassAttributeValueRoundTrip | front_end/elements/ClassesPaneWidget.js:203-206 | the parse of the written value gives the active classes: strictly increasing, one token per class, nothing else; re-joined, they give the value again |
| ClassMaps.RebuildAfterWrite | front_end/elements/ClassesPaneWidget.js:161-176 | a map rebuilt from the written value has every active class, enabled, and no other key |
| ClassesPane.CachedOrParsed | front_end/elements/ClassesPaneWidget.js:162-163 | the definition of the map `_nodeClasses` yields: the attached one, or else the one parsed from the attribute |
| ClassesPane.EnableAllMeaning | front_end/elements/ClassesPaneWidget.js:75-76 | enabling a list of names adds each name as an enabled key and keeps every other key and its flag |
| ClassesPane.CommittedEnablesAll | front_end/elements/ClassesPaneWidget.js:74-76 | toggling the names on one at a time attaches to the node, once, its map with all those names enabled; other nodes are untouched |
| ClassesPane.WritesOneMore | front_end/elements/ClassesPaneWidget.js:215-218 | issuing the write of one more pending node extends a partial flush by exactly that node |
| ClassesPane.FlushWritesOnce | front_end/elements/ClassesPaneWidget.js:213-220 | a flush writes each pending node, and every write to it carries the node's pending value |
| ClassesPane.SeparatorTokensAreClassNames | front_end/elements/ClassesPaneWidget.js:74 | the typed tokens, cut at `.`, `,` and whitespace, are valid keys of a class map |
| ClassesPane.ActiveSetEmptyPrompt | front_end/elements/ClassesPaneWidget.js:199 | with the prompt cleared, the active classes are the enabled ones |
| ClassesPane.ClassesPaneWidget.constructor | front_end/elements/ClassesPaneWidget.js:26-34 | the engine starts with no maps, no suppressed nodes, an empty buffer, no scheduled flush and no previous target |
| ClassesPane.ClassesPaneWidget.NodeClasses | front_end/elements/ClassesPaneWidget.js:161-176 | a cached map is returned unchanged; otherwise the map parsed from the attribute is attached and returned |
| ClassesPane.ClassesPaneWidget.ToggleClass | front_end/elements/ClassesPaneWidget.js:183-186 | one flag of the node's map is set or inserted; every other flag and every other node's map is kept |
| ClassesPane.ClassesPaneWidget.InstallNodeClasses | front_end/elements/ClassesPaneWidget.js:191-208 | the node's pending value becomes the canonical value of its active classes and replaces any earlier one; a flush is scheduled |
| ClassesPane.ClassesPaneWidget.Flush | front_end/elements/ClassesPaneWidget.js:213-221 | exactly one write per pending node, with that node's pending value and no other write; every pending node is suppressed; the buffer is emptied |
| ClassesPane.ClassesPaneWidget.FireThrottler | front_end/elements/ClassesPaneWidget.js:207 | the scheduled flush runs once the previous flush's writes have all settled |
| ClassesPane.ClassesPaneWidget.OnWriteComplete | front_end/elements/ClassesPaneWidget.js:227-229 | a settled write lifts the suppression of its node and of no other node |
| ClassesPane.ClassesPaneWidget.OnDOMMutated | front_end/elements/ClassesPaneWidget.js:91-97 | a suppressed node's mutation leaves every map in place; any other mutation drops that node's map and only that one |
| ClassesPane.ClassesPaneWidget.OnSelectedNodeChanged | front_end/elements/ClassesPaneWidget.js:102-109 | with text in the prompt, the prompt is cleared and the previous target re-installed with its enabled classes only; the new target is remembered |
| ClassesPane.ClassesPaneWidget.OnTextChanged | front_end/elements/ClassesPaneWidget.js:81-86 | the selected node's pending value is recomputed with the new text; without a selection nothing else changes |
| ClassesPane.ClassesPaneWidget.OnClick | front_end/elements/ClassesPaneWidget.js:148-155 | the clicked class takes the checkbox's state in the selected node's map, and the node's pending value is recomputed |
| ClassesPane.ClassesPaneWidget.OnKeyDown | front_end/elements/ClassesPaneWidget.js:50-79 | Enter is always consumed and Escape only for non-blank text. An accepted autocompletion or another key changes nothing. Otherwise the prompt is cleared; on Enter the typed tokens are enabled in the node's map, and the node is re-installed with its enabled classes |
| ClassesPane.ClassesPaneWidget.CommitClasses | front_end/elements/ClassesPaneWidget.js:74-76 | the toggle loop leaves the cache as enabling the names one after another |
| ClassesPane.ClassesPaneWidget.Update | front_end/elements/ClassesPaneWidget.js:118-142 | a hidden pane does nothing; without an element the prompt is disabled and no classes are shown; otherwise the element's map is shown and the prompt is enabled |
| Completions.SuggestsNothing | front_end/elements/ClassesPaneWidget.js:309 | the definition of the early-empty rule: no selected node, or an empty prefix, no force and an expression that trims to nothing |
| Completions.SuggestsNothingIs | front_end/elements/ClassesPaneWidget.js:309 | no suggestions without a selected node, or for an unforced request with an empty prefix and an all-whitespace expression |
| Completions.AddDot | front_end/elements/ClassesPaneWidget.js:317 | each name is prefixed with `.`, in order |
| Completions.FilterByPrefix | front_end/elements/ClassesPaneWidget.js:318 | a value is kept exactly when it starts with the prefix; the result is a subsequence of the values, in their order and with their repetitions |
| Completions.Suggestions | front_end/elements/ClassesPaneWidget.js:315-319 | every suggestion starts with the prefix, there are no more than names, and for a prefix without a leading `.` they are exactly the matching names, in the names' order |
| Completions.DottedSuggestions | front_end/elements/ClassesPaneWidget.js:316-318 | for a prefix starting with `.`, `.n` is suggested exactly when `n` is a name that the rest of the prefix starts |
| Completions.ClassNamePrompt.constructor | front_end/elements/ClassesPaneWidget.js:265-271 | no frame and no fetched names at start |
| Completions.ClassNamePrompt.BuildClassNameCompletions | front_end/elements/ClassesPaneWidget.js:304-320 | an empty prefix or a forced request drops the kept names. The early-empty case gives nothing. Otherwise the kept names are reused for the same frame, or else the fetched names are kept for the new frame, and the suggestions are those of the names for the prefix |
| Scenarios.ReparseDropsDisabled | front_end/elements/ClassesPaneWidget.js:91-97 | re-parsing the pane's own write would keep only the enabled classes, which is why an echo must not drop the map |
| Scenarios.InstallTwice | front_end/elements/ClassesPaneWidget.js:191-207 | a second install with no edit in between leaves the cache and the buffer as the first did |
| Scenarios.InstallThenFlush | front_end/elements/ClassesPaneWidget.js:206-220 | after an install and a flush, the node is written with the installed value and with no other value |
| Scenarios.EchoIsIgnored | front_end/elements/ClassesPaneWidget.js:91-94 | the mutation that echoes a flushed write leaves the node's map in place |
| Scenarios.MutationAfterCompletion | front_end/elements/ClassesPaneWidget.js:227-229 | once the write has settled, a mutation drops the map and the next read re-parses the attribute |
| Scenarios.PreviewDroppedOnNavigation | front_end/elements/ClassesPaneWidget.js:102-106 | text typed as a preview and then left by a selection change is not committed: the node keeps its map, and its pending value lists its enabled classes only |

## Left out

- Rendering is not modelled: the checkbox labels, the CSS, the placeholder, the focus and the `disabled` styling. `Update` returns the map that would be rendered, not the labels in their case-insensitive order (`String.caseInsensetiveComparator`).
- The trailing `_update()` call of `_onKeyDown` (`front_end/elements/ClassesPaneWidget.js:78`), `_onDOMMutated` (:96) and `_onSelectedNodeChanged` (:108) is not part of those handlers: the host calls `Update` after them, with the enclosing element of the selection. `_onClick` and `_onTextChanged` do not re-render, and no `Update` follows them.
- `wasShown` is a call to `Update` and has no member of its own.
- `ButtonProvider` (the toolbar toggle that shows the pane) is UI wiring and is not modelled.
- `_getClassNames` is not modelled. It fetches class names from the frame's stylesheets and the owner document over the protocol. Its result is the `fetched` parameter of `BuildClassNameCompletions`, and its frame is `selectedFrame`.
- Promises and asynchrony are not modelled as such. `_classNamesPromise` is its resolved value. The completion of a write is an explicit `OnWriteComplete` event.
- OnWriteComplete: the model assumes every write promise fulfils, failed writes included. `onClassValueUpdated` is attached with a one-argument `.then` (`front_end/elements/ClassesPaneWidget.js:217`), so a rejected write would leave its node suppressed for good, and the rejected `Promise.all` would let the throttler start the next flush while other writes are outstanding. That case is not modelled.
- `FireThrottler` models the throttler's promise chain in one flag: `Common.Throttler` runs the scheduled flush only after the previous flush's `Promise.all` has settled. Several `schedule` calls before a run coalesce into one, as setting the flag again does; only the throttler's delay is not modelled.
- The prompt's text is one field, `promptText`. It stands for the key handler's `event.target.textContent`, for the install's `textWithCurrentSuggestion()` and for `this._prompt.text()`, the text without its suggestion, that `OnSelectedNodeChanged` tests (`front_end/elements/ClassesPaneWidget.js:103`). The difference between typed text and a displayed suggestion is not modelled, and neither is `clearAutocomplete`.
- Keyboard events are reduced to the `Key` datatype. `event.consume` is the returned `consumed` flag.
- The map cache is a side table from node identity: attaching a map to a node by symbol is not modelled as an object property.
- Flush: the order of the writes within one flush is left open (`IsFlushOf` fixes which writes are issued, not their order); the source issues them in the buffer's insertion order (`front_end/elements/ClassesPaneWidget.js:215`), the order of each node's first install since the last flush. Every other loop over a JavaScript `Map` or `Set` picks its elements in any order, and its result is proved independent of that order.
- Strings are sequences of Unicode scalar values. JavaScript compares and splits UTF-16 code units, so the sort order of characters outside the Basic Multilingual Plane is not modelled.
- `Ordering.Sort` models `newClasses.sort()` on a value, not in place on the local array. No other code shares that array.
