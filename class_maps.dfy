/** The per-node class map (class name to enabled flag), how it is parsed from a
    `class` attribute, and the attribute value the pane writes back for it. */
module ClassMaps {
  import opened Options
  import opened Text
  import opened Ordering

  type ClassMap = map<string, bool>

  /** Every key of the map is a non-empty, whitespace-free class name. */
  predicate KeysAreClassNames(classes: ClassMap) {
    forall c :: c in classes ==> IsClassName(Whitespace, c)
  }

  /** `node.getAttribute('class') || ''`: an absent attribute reads as empty. */
  function AttributeText(attribute: Option<string>): (s: string)
    ensures attribute.None? ==> s == ""
    ensures attribute.Some? ==> s == attribute.value
  {
    attribute.GetOr("")
  }

  /** The map `_nodeClasses` builds from attribute text `a`: its keys are exactly the
      non-empty whitespace-separated tokens of `a`, each enabled. */
  function ParsedClasses(a: string): (m: ClassMap)
    ensures KeysAreClassNames(m)
  {
    ClassTokensMembers(Whitespace, a);
    map c | c in ClassTokens(Whitespace, a) :: true
  }

  /** The parsed map holds exactly the non-empty pieces of the attribute's whitespace
      split, each enabled. */
  lemma ParsedClassesMembers(a: string)
    ensures forall c :: c in ParsedClasses(a) <==> c != "" && c in Split(Whitespace, a)
    ensures forall c :: c in ParsedClasses(a) ==> ParsedClasses(a)[c]
  {
    ClassTokensMembers(Whitespace, a);
  }

  /** The loop of `_nodeClasses` that fills a fresh map from the attribute text. */
  method BuildClassMap(classAttribute: string) returns (result: ClassMap)
    ensures result == ParsedClasses(classAttribute)
  {
    var classes := Split(Whitespace, classAttribute);
    result := map[];
    for i := 0 to |classes|
      invariant result.Keys == TrimmedNames(classes[..i])
      invariant forall c :: c in result ==> result[c]
    {
      var className := Trim(classes[i]);
      TrimmedNamesSnoc(classes[..i], classes[i]);
      assert classes[..i + 1] == classes[..i] + [classes[i]];
      if |className| == 0 {
        continue;
      }
      result := result[className := true];
    }
    assert classes[..|classes|] == classes;
    assert SplitIntoClasses(Whitespace, classAttribute) == ClassTokens(Whitespace, classAttribute);
    assert result.Keys == ParsedClasses(classAttribute).Keys;
  }

  /** The non-empty trimmed strings of `xs`. */
  function TrimmedNames(xs: seq<string>): set<string> {
    set t | t in NonEmpty(TrimAll(xs))
  }

  lemma TrimmedNamesSnoc(xs: seq<string>, x: string)
    ensures TrimmedNames(xs + [x]) == TrimmedNames(xs) + (if Trim(x) == "" then {} else {Trim(x)})
  {
    TrimAllAppend(xs, x);
    NonEmptyMembers(TrimAll(xs + [x]));
    NonEmptyMembers(TrimAll(xs));
  }

  lemma {:induction false} TrimAllAppend(xs: seq<string>, x: string)
    ensures TrimAll(xs + [x]) == TrimAll(xs) + [Trim(x)]
  {
    if xs != [] {
      assert (xs + [x])[1..] == xs[1..] + [x];
      TrimAllAppend(xs[1..], x);
    }
  }

  /** The enabled class names of a map. */
  function EnabledKeys(classes: ClassMap): set<string> {
    set c | c in classes && classes[c]
  }

  /** The classes `_installNodeClasses` makes active: the enabled keys of the node's map
      together with the class tokens of the prompt's text. */
  function ActiveSet(classes: ClassMap, promptText: string): set<string> {
    EnabledKeys(classes) + set t | t in ClassTokens(ClassSeparators, promptText)
  }

  lemma ActiveSetIs(classes: ClassMap, promptText: string, active: set<string>)
    requires forall c :: c in active <==>
      (c in classes && classes[c]) || c in ClassTokens(ClassSeparators, promptText)
    ensures active == ActiveSet(classes, promptText)
  {
  }

  /** The `activeClasses` set `_installNodeClasses` builds in its two loops. */
  method ActiveClasses(classes: ClassMap, additional: seq<string>) returns (active: set<string>)
    ensures forall c :: c in active <==> (c in classes && classes[c]) || c in additional
  {
    active := {};
    var keys := classes.Keys;
    while keys != {}
      invariant keys <= classes.Keys
      invariant forall c :: c in active <==> c in classes && c !in keys && classes[c]
      decreases keys
    {
      var className :| className in keys;
      if classes[className] {
        active := active + {className};
      }
      keys := keys - {className};
    }
    for i := 0 to |additional|
      invariant forall c :: c in active <==> (c in classes && classes[c]) || c in additional[..i]
    {
      assert additional[..i + 1] == additional[..i] + [additional[i]];
      active := active + {additional[i]};
    }
    assert additional[..|additional|] == additional;
  }

  /** `set.valuesArray()`: the elements of a set, each once, in some order. */
  method ValuesArray(s: set<string>) returns (values: seq<string>)
    ensures multiset(values) == multiset(s)
  {
    values := [];
    var rest := s;
    while rest != {}
      invariant rest <= s
      invariant multiset(values) + multiset(rest) == multiset(s)
      decreases rest
    {
      var x :| x in rest;
      assert multiset(rest - {x}) + multiset{x} == multiset(rest);
      values := values + [x];
      rest := rest - {x};
    }
  }

  /** The attribute value the pane writes for a set of active classes: the classes in
      increasing order, each once, joined with single spaces. */
  ghost function ClassAttributeValue(active: set<string>): string {
    Join(SortedElements(active), ' ')
  }

  /** Any sorted listing of the active classes joins to the same value. */
  lemma ClassAttributeValueOfListing(active: set<string>, listing: seq<string>)
    requires Sorted(listing) && multiset(listing) == multiset(active)
    ensures Join(listing, ' ') == ClassAttributeValue(active)
  {
    SortedElementsShape(active);
    SortedUnique(listing, SortedElements(active));
  }

  /** The value computation of `_installNodeClasses`: the active classes of the map and
      of the prompt text, sorted and joined. */
  method SerializeClasses(classes: ClassMap, promptText: string) returns (value: string)
    ensures value == ClassAttributeValue(ActiveSet(classes, promptText))
  {
    var additional := SplitIntoClasses(ClassSeparators, promptText);
    var active := ActiveClasses(classes, additional);
    ActiveSetIs(classes, promptText, active);
    var newClasses := ValuesArray(active);
    var sorted := Sort(newClasses);
    value := Join(sorted, ' ');
    ClassAttributeValueOfListing(active, sorted);
  }

  /** The written value lists each active class once, in increasing order, and the
      attribute parse of it gives back exactly that listing. */
  lemma ClassAttributeValueRoundTrip(active: set<string>)
    requires forall c :: c in active ==> IsClassName(Whitespace, c)
    ensures var tokens := ClassTokens(Whitespace, ClassAttributeValue(active));
      && StrictlySorted(tokens)
      && |tokens| == |active|
      && (forall c :: c in tokens <==> c in active)
      && Join(tokens, ' ') == ClassAttributeValue(active)
  {
    var listing := SortedElements(active);
    SortedElementsShape(active);
    SortedSetIsStrict(listing, active);
    forall i | 0 <= i < |listing| ensures IsClassName(Whitespace, listing[i]) {
      assert listing[i] in multiset(active);
    }
    AttributeRoundTrip(listing);
    forall c ensures c in listing <==> c in active {
      assert c in listing <==> c in multiset(listing);
    }
  }

  /** Once the written value is the node's attribute, rebuilding the node's map from it
      gives every active class, enabled, and nothing else. */
  lemma RebuildAfterWrite(active: set<string>)
    requires forall c :: c in active ==> IsClassName(Whitespace, c)
    ensures ParsedClasses(ClassAttributeValue(active)) == map c | c in active :: true
  {
    ClassAttributeValueRoundTrip(active);
    ParsedClassesMembers(ClassAttributeValue(active));
    var m := ParsedClasses(ClassAttributeValue(active));
    assert m.Keys == active;
  }
}
