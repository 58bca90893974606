/** Entity-type detection: which entity type, if any, an XML element or tag name stands for. */
module Detect {
  import opened Wrappers
  import opened Objects
  import opened Schema
  import opened XPath

  /** The tag name compared against `parentTag`: the string itself, or the element's node name. */
  function TagOf(input: TagInput): string {
    match input
    case TagName(name) => name
    case Element(node) => node.nodeName
  }

  /** A parent tag matches a tag name when it is that name, or a list that contains it;
      an absent parent tag matches nothing. */
  predicate ParentMatches(parentTag: ParentTag, tag: string) {
    match parentTag
    case NoParentTag => false
    case Tag(name) => name == tag
    case TagList(names) => tag in names
  }

  /** An entry is decided by XPath alone when it has a selector and the input is an element. */
  predicate ByXPath(entry: EntityEntry, input: TagInput) {
    entry.xpathSelector.Some? && input.Element?
  }

  /** The entry's selector finds something from the element. */
  predicate XPathHit(entry: EntityEntry, input: TagInput, nsPrefix: Option<string>, eval: XPathEvaluator) {
    ByXPath(entry, input) && XPathResult(input.node, entry.xpathSelector.value, nsPrefix, eval).Some?
  }

  /** The entry is compared by parent tag, and its parent tag matches. */
  predicate TagHit(entry: EntityEntry, input: TagInput) {
    !ByXPath(entry, input) && ParentMatches(entry.parentTag, TagOf(input))
  }

  /** Index of the first entry whose selector hits. */
  ghost function FirstXPathHit(entities: Object<EntityEntry>, input: TagInput, nsPrefix: Option<string>, eval: XPathEvaluator): (r: Option<nat>)
    ensures r.Some? ==> r.value < |entities| && XPathHit(entities[r.value].1, input, nsPrefix, eval)
    ensures r.Some? ==> forall j :: 0 <= j < r.value ==> !XPathHit(entities[j].1, input, nsPrefix, eval)
    ensures r.None? ==> forall j :: 0 <= j < |entities| ==> !XPathHit(entities[j].1, input, nsPrefix, eval)
  {
    if |entities| == 0 then None
    else if XPathHit(entities[0].1, input, nsPrefix, eval) then Some(0)
    else match FirstXPathHit(entities[1..], input, nsPrefix, eval)
      case None => None
      case Some(i) => Some(i + 1)
  }

  /** Index of the last entry matched by parent tag. */
  ghost function LastTagHit(entities: Object<EntityEntry>, input: TagInput): (r: Option<nat>)
    ensures r.Some? ==> r.value < |entities| && TagHit(entities[r.value].1, input)
    ensures r.Some? ==> forall j :: r.value < j < |entities| ==> !TagHit(entities[j].1, input)
    ensures r.None? ==> forall j :: 0 <= j < |entities| ==> !TagHit(entities[j].1, input)
  {
    if |entities| == 0 then None
    else if TagHit(entities[|entities| - 1].1, input) then Some(|entities| - 1)
    else
      var init := entities[..|entities| - 1];
      assert forall j :: 0 <= j < |init| ==> init[j] == entities[j];
      LastTagHit(init, input)
  }

  /** The detection rule stated declaratively: the first XPath hit wins outright;
      without one, the last parent-tag match wins; otherwise there is no type. */
  ghost function DetectedType(entities: Object<EntityEntry>, input: TagInput, nsPrefix: Option<string>, eval: XPathEvaluator): Option<string> {
    match FirstXPathHit(entities, input, nsPrefix, eval)
    case Some(i) => Some(entities[i].0)
    case None =>
      match LastTagHit(entities, input)
      case Some(j) => Some(entities[j].0)
      case None => None
  }

  /** A selector hit with none before it decides the type. */
  lemma DetectedByXPath(entities: Object<EntityEntry>, input: TagInput, nsPrefix: Option<string>, eval: XPathEvaluator, i: nat)
    requires i < |entities| && XPathHit(entities[i].1, input, nsPrefix, eval)
    requires forall j :: 0 <= j < i ==> !XPathHit(entities[j].1, input, nsPrefix, eval)
    ensures DetectedType(entities, input, nsPrefix, eval) == Some(entities[i].0)
  {
    var first := FirstXPathHit(entities, input, nsPrefix, eval);
    assert first == Some(i);
  }

  /** Without any selector hit, the last parent-tag hit decides the type, if any. */
  lemma DetectedByTag(entities: Object<EntityEntry>, input: TagInput, nsPrefix: Option<string>, eval: XPathEvaluator, last: int)
    requires -1 <= last < |entities|
    requires forall j :: 0 <= j < |entities| ==> !XPathHit(entities[j].1, input, nsPrefix, eval)
    requires last >= 0 ==> TagHit(entities[last].1, input)
    requires forall j :: last < j < |entities| ==> !TagHit(entities[j].1, input)
    ensures DetectedType(entities, input, nsPrefix, eval) == (if last >= 0 then Some(entities[last].0) else None)
  {
    assert FirstXPathHit(entities, input, nsPrefix, eval).None?;
    var tagHit := LastTagHit(entities, input);
    assert last >= 0 ==> tagHit == Some(last);
    assert last < 0 ==> tagHit.None?;
  }

  /** The scan of `getEntityTypeForTag` over a dialect's entity types, in order. */
  method EntityTypeForTag(entities: Object<EntityEntry>, input: TagInput, nsPrefix: Option<string>, eval: XPathEvaluator)
    returns (r: Option<string>)
    ensures r == DetectedType(entities, input, nsPrefix, eval)
  {
    r := None;
    ghost var last := -1;
    var i := 0;
    while i < |entities|
      invariant 0 <= i <= |entities|
      invariant forall j :: 0 <= j < i ==> !XPathHit(entities[j].1, input, nsPrefix, eval)
      invariant -1 <= last < i
      invariant last == -1 ==> r.None?
      invariant last >= 0 ==> r == Some(entities[last].0) && TagHit(entities[last].1, input)
      invariant forall j :: last < j < i ==> !TagHit(entities[j].1, input)
    {
      var entry := entities[i].1;
      if entry.xpathSelector.Some? && input.Element? {
        var result := XPathResult(input.node, entry.xpathSelector.value, nsPrefix, eval);
        if result.Some? {
          r := Some(entities[i].0);
          DetectedByXPath(entities, input, nsPrefix, eval, i);
          return;
        }
      } else if ParentMatches(entry.parentTag, TagOf(input)) {
        r := Some(entities[i].0);
        last := i;
      }
      i := i + 1;
    }
    DetectedByTag(entities, input, nsPrefix, eval, last);
  }

  /** For a tag name no selector is ever evaluated: the last entry whose parent tag
      (single or in a list) equals the name is the answer. */
  lemma TagNameLastMatchWins(entities: Object<EntityEntry>, name: string, nsPrefix: Option<string>, eval: XPathEvaluator, j: nat)
    requires j < |entities| && ParentMatches(entities[j].1.parentTag, name)
    requires forall k :: j < k < |entities| ==> !ParentMatches(entities[k].1.parentTag, name)
    ensures DetectedType(entities, TagName(name), nsPrefix, eval) == Some(entities[j].0)
  {
    var input := TagName(name);
    assert TagHit(entities[j].1, input);
    assert forall k :: j < k < |entities| ==> !TagHit(entities[k].1, input);
    assert FirstXPathHit(entities, input, nsPrefix, eval).None?;
    var last := LastTagHit(entities, input);
    assert last == Some(j);
  }

  /** Nothing matches, so the answer is null. */
  lemma NoMatchNoType(entities: Object<EntityEntry>, input: TagInput, nsPrefix: Option<string>, eval: XPathEvaluator)
    requires forall k :: 0 <= k < |entities| ==> !XPathHit(entities[k].1, input, nsPrefix, eval) && !TagHit(entities[k].1, input)
    ensures DetectedType(entities, input, nsPrefix, eval).None?
  {
  }

  /** An entry with a selector, given an element its selector misses, is never the
      answer, whatever its parent tag says. */
  lemma SelectorMissNeverChosen(entities: Object<EntityEntry>, node: XmlNode, nsPrefix: Option<string>, eval: XPathEvaluator, i: nat)
    requires DistinctKeys(entities) && i < |entities|
    requires entities[i].1.xpathSelector.Some?
    requires XPathResult(node, entities[i].1.xpathSelector.value, nsPrefix, eval).None?
    ensures DetectedType(entities, Element(node), nsPrefix, eval) != Some(entities[i].0)
  {
    var input := Element(node);
    assert !XPathHit(entities[i].1, input, nsPrefix, eval) && !TagHit(entities[i].1, input);
  }

  /** The first selector hit wins even over parent-tag matches found earlier in the scan. */
  lemma FirstSelectorHitWins(entities: Object<EntityEntry>, node: XmlNode, nsPrefix: Option<string>, eval: XPathEvaluator, i: nat)
    requires i < |entities| && XPathHit(entities[i].1, Element(node), nsPrefix, eval)
    requires forall k :: 0 <= k < i ==> !XPathHit(entities[k].1, Element(node), nsPrefix, eval)
    ensures DetectedType(entities, Element(node), nsPrefix, eval) == Some(entities[i].0)
  {
    var first := FirstXPathHit(entities, Element(node), nsPrefix, eval);
    assert first == Some(i);
  }
}
