/** The data the mapper works on: the editor's entities, the XML nodes it reads,
    and the read-only dialect definitions (one per schema) it maps between. */
module Schema {
  import opened Wrappers
  import opened Objects

  /** Stands for the user's text selection inside a generated fragment (mapper.js line 22). */
  const TEXT_SELECTION: string := "[[[editorText]]]"

  /** An entity attribute; `None` is a value left `undefined`. */
  datatype Attribute = Attribute(key: string, value: Option<string>)

  datatype Range = Range(annotationId: Option<string>, offsetId: Option<string>)

  /** The editor's annotation entity, as far as the mapper reads it. */
  datatype Entity = Entity(
    id: string,
    entityType: string,
    tag: string,
    range: Range,
    attributes: seq<Attribute>,
    noteContent: string)

  datatype XmlAttribute = XmlAttribute(name: string, value: string)

  /** An XML node: its name, its namespace URI (`None` for null) and its attributes in document order. */
  datatype XmlNode = XmlNode(nodeName: string, namespaceUri: Option<string>, attributes: seq<XmlAttribute>)

  /** The first item an XPath evaluation yields, by node kind; `Primitive` is a
      result without a `nodeType` (a string, number or boolean), `OtherNode` a
      node of any other kind (comment, document, ...). */
  datatype XPathValue =
    | ElementNode(node: XmlNode)
    | TextNode(text: string)
    | AttributeNode(attribute: XmlAttribute)
    | Primitive(value: string)
    | OtherNode

  /** The XPath engine: context node, expression and namespace prefix to the
      first match, `None` when nothing matches. */
  type XPathEvaluator = (XmlNode, string, string) -> Option<XPathValue>

  /** The platform's XML serialiser. */
  type Serializer = XmlNode -> string

  /** The platform's XML parser applied to non-empty text; `None` when parsing throws. */
  type XmlParser = string -> Option<XmlNode>

  /** A value of a reverse-mapping result: a top-level string field (possibly
      undefined) or a nested group of resolved strings. */
  datatype Field = Scalar(value: Option<string>) | Group(entries: Object<string>)

  /** A value of a dialect's field-to-XPath table: an XPath string, a nested table
      (any JavaScript object), or anything else, which is ignored. */
  datatype FieldSpec = XPathField(expr: string) | GroupSpec(fields: Object<string>) | IgnoredField

  /** Note content is handed back as a string, as a parsed document, or as `null`:
      jQuery's `parseXML` returns `null` for empty input instead of parsing it. */
  datatype NoteContent = NoteText(text: string) | NoteTree(document: XmlNode) | NoteNull

  /** `parentTag` of a dialect entry: absent, a single tag name or an array of them. */
  datatype ParentTag = NoParentTag | Tag(name: string) | TagList(names: seq<string>)

  /** The argument of `getEntityTypeForTag`: a tag name or an element. */
  datatype TagInput = TagName(name: string) | Element(node: XmlNode)

  /** A dialect's description of one entity type; every field is optional. */
  datatype EntityEntry = EntityEntry(
    mapping: Option<Entity -> string>,
    reverseMapping: Option<XmlNode -> Object<Field>>,
    parentTag: ParentTag,
    textTag: Option<string>,
    xpathSelector: Option<string>,
    isNote: Option<bool>,
    getNoteContent: Option<(Entity, bool) -> NoteContent>)

  /** An event-bus subscription: event name and handler name. */
  type Subscription = (string, string)

  /** One schema dialect (tei, orlando, cwrcEntry, empty). Fields the dialect
      leaves out are `None`. */
  datatype MappingDefinition = MappingDefinition(
    header: Option<string>,
    id: Option<string>,
    blockElements: Option<seq<string>>,
    urlAttributes: Option<seq<string>>,
    popupAttributes: Option<seq<string>>,
    popupElements: Option<seq<string>>,
    entities: Object<EntityEntry>,
    listeners: Option<Object<string>>)
}
