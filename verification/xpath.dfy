/** The XPath/namespace resolver and the coercion of XPath results by node kind. */
module XPath {
  import opened Wrappers
  import opened Text
  import opened Schema

  /** `nsPrefix || ''`: an undefined prefix counts as the empty one. */
  function NamespacePrefix(nsPrefix: Option<string>): string {
    nsPrefix.GetOr("")
  }

  /** The expression `getXpathResult` hands to the XPath engine. When the context
      node has no namespace and the prefix is not empty, every `prefix:` is removed
      (the prefix is taken literally, not as a regular expression). */
  function XPathExpression(context: XmlNode, expr: string, nsPrefix: Option<string>): (r: string)
    ensures context.namespaceUri.Some? || NamespacePrefix(nsPrefix) == "" ==> r == expr
    ensures context.namespaceUri.None? && NamespacePrefix(nsPrefix) != "" ==>
      var qualifier := NamespacePrefix(nsPrefix) + ":";
      && r == Join(Split(expr, qualifier), "")
      && (r == expr <==> !Contains(expr, qualifier))
  {
    var prefix := NamespacePrefix(nsPrefix);
    if context.namespaceUri.None? && prefix != "" then
      RemoveAllIsSplitJoin(expr, prefix + ":");
      RemoveAll(expr, prefix + ":")
    else expr
  }

  /** `Mapper.getXpathResult`: the first match of the (possibly stripped) expression. */
  function XPathResult(context: XmlNode, expr: string, nsPrefix: Option<string>, eval: XPathEvaluator): Option<XPathValue> {
    eval(context, XPathExpression(context, expr, nsPrefix), NamespacePrefix(nsPrefix))
  }

  /** The `switch (result.nodeType)` of `getValueFromXpath`: an element is serialised,
      a text node gives its text, an attribute its value, a result without a node type
      is taken as it is; no result, or a node of any other kind, leaves the value undefined. */
  function NodeValue(result: Option<XPathValue>, serialize: Serializer): (v: Option<string>)
    ensures v.None? <==> result.None? || result.value.OtherNode?
    ensures result.Some? && result.value.ElementNode? ==> v == Some(serialize(result.value.node))
    ensures result.Some? && result.value.TextNode? ==> v == Some(result.value.text)
    ensures result.Some? && result.value.AttributeNode? ==> v == Some(result.value.attribute.value)
    ensures result.Some? && result.value.Primitive? ==> v == Some(result.value.value)
  {
    match result
    case None => None
    case Some(ElementNode(node)) => Some(serialize(node))
    case Some(TextNode(text)) => Some(text)
    case Some(AttributeNode(attribute)) => Some(attribute.value)
    case Some(Primitive(value)) => Some(value)
    case Some(OtherNode) => None
  }

  /** `getValueFromXpath` inside `getDefaultReverseMapping`. */
  function ValueFromXPath(xml: XmlNode, expr: string, nsPrefix: Option<string>, eval: XPathEvaluator, serialize: Serializer): Option<string> {
    NodeValue(XPathResult(xml, expr, nsPrefix, eval), serialize)
  }

  lemma NameLacksTei()
    ensures !Contains("name", "tei:")
  {
    assert "name"[0..4][0] == 'n';
    assert !OccursAt("name", "tei:", 0);
  }

  lemma TeiNameStartsWithTei()
    ensures Find("tei:name", "tei:") == Some(0)
    ensures "tei:name"[4..] == "name"
  {
    assert "tei:name"[..4] == "tei:";
  }

  /** In a document without namespaces, a `tei:` qualifier is dropped before evaluation. */
  lemma PrefixStrippingExample()
    ensures XPathExpression(XmlNode("persName", None, []), "tei:name", Some("tei")) == "name"
  {
    assert NamespacePrefix(Some("tei")) + ":" == "tei:";
    assert RemoveAll("tei:name", "tei:") == "name" by {
      NameLacksTei();
      TeiNameStartsWithTei();
      assert RemoveAll("tei:name", "tei:") == "" + RemoveAll("name", "tei:");
    }
  }
}
