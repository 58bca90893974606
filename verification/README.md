# CWRC-Writer schema mapper, modelled in Dafny

This project models the schema mapper of CWRC-Writer (`src/js/schema/mapper.js`).
The mapper translates between the editor's annotation entities and the XML markup of the active schema dialect (TEI, Orlando, CWRC entry, or the empty dialect). It covers five parts:

- **Forward mapping.** `getAttributeString`, `getRangeString`, `getTagAndDefaultAttributes` and `getDefaultMapping` serialise an entity. `getMapping` cuts the generated fragment at the text-selection marker `[[[editorText]]]`.
- **Reverse mapping.** `getAttributesFromXml` drops the reserved attributes `annotationId`, `offsetId` and `cwrcStructId`. `getDefaultReverseMapping` resolves a dialect's field-to-XPath table and coerces each result by node kind.
- **XPath resolver.** `getXpathResult` strips `prefix:` qualifiers when the context node has no namespace.
- **Entity-type detection.** In `getEntityTypeForTag`, the first XPath selector hit wins outright. Otherwise the last parent-tag match wins.
- **Orchestrator.** `loadMappings`, `clearMappings` and `getMappings` swap the active dialect and its event-bus subscriptions. The configuration accessors apply their fixed defaults.

Modules, one per component:

| file | module | contents |
|---|---|---|
| wrappers.dfy | `Wrappers` | `Option` (a value that may be `undefined`), `Result` (a call that may throw) |
| text.dfy | `Text` | `indexOf`, `split` and a global literal `replace` on strings |
| objects.dfy | `Objects` | plain JavaScript objects as insertion-ordered maps with assignment semantics |
| schema.dfy | `Schema` | entities, XML nodes, XPath results, dialect entries and definitions |
| forward.dfy | `Forward` | forward serialisation, the marker split, and an attribute reader used as its inverse |
| xpath.dfy | `XPath` | prefix stripping and node-kind coercion |
| reverse.dfy | `Reverse` | `getAttributesFromXml`, `getDefaultReverseMapping` |
| detect.dfy | `Detect` | the detection scan and its declarative rule |
| mapper.dfy | `SchemaMapper` | the `Mapper` state, listener lifecycle, delegations, accessors |

Several platform pieces become function-typed parameters. Beyond their types, nothing is assumed about them:

- the XPath engine (`XPathEvaluator`: node, expression and prefix to the first match, or `None`). Being a total function, it cannot throw; see "## Left out";
- the XML serialiser (`Serializer`);
- the XML parser (`XmlParser`, applied only to non-empty text, giving `None` when parsing throws). Empty text gives `null` without the parser being consulted, as jQuery's `parseXML` returns `null` for empty input;
- a dialect's own `mapping`, `reverseMapping` and `getNoteContent` functions.

The host event bus is a set of (event, handler) pairs. The schema-manager lookup that supplies the XPath prefix in `getEntityTypeForTag` is a parameter.

Where the mapper's JavaScript throws, the model returns `Failure`:

- `getMappings()` gives `undefined` for an unregistered id, and the next property access fails;
- `entities[type]` is `undefined` for a type the dialect does not list.

`LoadMappings` returns a `Step`: the state left behind plus the error, if any. This is needed because `loadMappings` with an unregistered id changes the state before it throws.

Behaviour of `mapper.js` worth knowing, all of it modelled as written:

- A type missing from the dialect's `entities` makes `getMapping` (and every per-type lookup) throw. `['','']` is returned only for an entry that exists but has no `mapping`.
- `getHeaderTag`, `getIdAttributeName` and `getBlockLevelElements` have no default. They return whatever the dialect holds, possibly `undefined`. Only the URL and popup lists default to `[]`.
- `getDefaultReverseMapping` writes every top-level string field, even one whose XPath resolved to nothing (its value is then `undefined`). Only sub-keys of nested groups are omitted when unresolved.
- `getMapping` returns the whole `split` result. A fragment holding the marker twice gives three parts, not a pair.
- `loadMappings` with an unregistered id does not fail fast. It first unsubscribes the old listeners and sets the id, and only then throws.
- `getNoteContentForEntity` parses unless `returnString` is exactly `true`. Empty note text then yields `null`, and text that fails to parse is returned unchanged.

## Model

| member | source | states |
|---|---|---|
| Text.Find | src/js/schema/mapper.js:219 | `indexOf`: the first position where the marker occurs, with no occurrence before it; none exactly when the string does not contain it |
| Text.Split | src/js/schema/mapper.js:222 | `split`: joining the parts with the separator gives back the string, and no part contains the separator; one part when the separator is absent, at least two when it occurs |
| Text.SplitCutsLeftmost | src/js/schema/mapper.js:222 | each cut is made at the leftmost occurrence of the separator in what remains, so for an overlapping separator the split is the one `split` gives (`'aaa'` on `'aa'` is `['', 'a']`) |
| Text.SplitSingle | src/js/schema/mapper.js:219-223 | the split is `[s]` exactly when `s` lacks the separator, and has two or more parts exactly when it holds one |
| Text.RemoveAll | src/js/schema/mapper.js:148-149 | the global replace never lengthens the expression, leaves it unchanged when the pattern is absent, and removes at least one full pattern when it occurs |
| Text.RemoveAllIsSplitJoin | src/js/schema/mapper.js:148-149 | removing every `prefix:` left to right without overlap equals splitting on it and joining with nothing |
| Text.SplitAround | src/js/schema/mapper.js:222 | `p + sep + q` with `sep` in neither side, and `p` ending in a character foreign to `sep`, splits into exactly `[p, q]` |
| Objects.Put | src/js/schema/mapper.js:138 | object assignment: the key then maps to the new value and every other key is unchanged; an existing key keeps its position, a new key is appended last; distinct keys stay distinct |
| Forward.AttributeStringIsSegments | src/js/schema/mapper.js:24-33 | `getAttributeString` is one ` key="value"` segment per attribute whose value is defined and non-empty, in order, and `''` when none is kept |
| Forward.AttributeStringAppend | src/js/schema/mapper.js:24-33 | serialising two attribute lists one after the other equals serialising their concatenation: each key contributes independently and in order |
| Forward.AttributeStringRoundTrip | src/js/schema/mapper.js:24-33 | reading the output back yields exactly the attributes with defined, non-empty values, with their values, in their original order |
| Forward.RangeStringRoundTrip | src/js/schema/mapper.js:40-52 | the range string reads back as `annotationId` first (the range's id, or the entity id when that is undefined or empty), then `offsetId` exactly when the range defines one |
| Forward.TagAndDefaultAttributesRoundTrip | src/js/schema/mapper.js:77-83 | the open tag is `<` and the tag name followed by attributes that read back as the reserved range attributes and then every kept domain attribute, so both reserved attributes precede every domain attribute |
| Forward.MappingSplit | src/js/schema/mapper.js:213-224 | no mapping function gives `['','']`; a fragment without the marker gives `['', fragment]`; otherwise at least two marker-free parts that rejoin with the marker into the fragment |
| Forward.DefaultMappingSplit | src/js/schema/mapper.js:90-95 | when no piece of the entity holds the marker, the default mapping splits into exactly `getTagAndDefaultAttributes(e) + '>'` and `'</' + tag + '>'` |
| Forward.PersonEntityExample | src/js/schema/mapper.js:90-95 | a `persName` entity with annotation id `ann1` and `ref="#p1"` maps to `<persName annotationId="ann1" ref="#p1">` and `</persName>` |
| XPath.XPathExpression | src/js/schema/mapper.js:143-150 | the expression passes through unchanged unless the context has a null namespace and the prefix (undefined counting as `''`) is non-empty; then it is the split on `prefix:` joined with nothing, and it changes exactly when `prefix:` occurs |
| XPath.PrefixStrippingExample | src/js/schema/mapper.js:143-150 | against a namespace-less node with prefix `tei`, `tei:name` is evaluated as `name` |
| XPath.NodeValue | src/js/schema/mapper.js:98-117 | an element result is serialised, text gives its text, an attribute its value, a result without node type passes through; the value is undefined exactly when there is no result or a node of another kind |
| Reverse.AttributesFromXml | src/js/schema/mapper.js:59-69 | the result holds no reserved name, every entry is an attribute of the node with its value, and every non-reserved attribute of the node is present with its original value |
| Reverse.AttributesFromXmlOne | src/js/schema/mapper.js:61-66 | one attribute gives itself as a single entry when its name is not reserved, and nothing when it is |
| Reverse.AttributesFromXmlAppend | src/js/schema/mapper.js:61-66 | the attributes are taken in document order, each on its own: the result for a concatenation is the concatenation of the results, so with the single-attribute case each kept attribute appears exactly once, in document order |
| Reverse.ResolveGroup | src/js/schema/mapper.js:122-130 | a nested group holds a sub-key exactly when its XPath resolved to a defined value, with that value, and no key outside the table |
| Reverse.DefaultReverseMapping | src/js/schema/mapper.js:97-141 | `attributes` always holds the node's non-reserved attributes and overrides a custom field of that name; string fields are present even when undefined; groups hold only resolved sub-keys; other fields and unknown keys are absent; the custom fields appear in table order, and `attributes` comes last unless the table already had that key |
| Detect.FirstXPathHit | src/js/schema/mapper.js:258-265 | the index of the first entry whose selector finds something from the element, with no hit before it |
| Detect.LastTagHit | src/js/schema/mapper.js:266-271 | the index of the last entry compared by parent tag whose single tag equals the name or whose tag list contains it |
| Detect.EntityTypeForTag | src/js/schema/mapper.js:246-274 | the scan returns the first selector hit's type if there is one, otherwise the last parent-tag match's type, otherwise null |
| Detect.TagNameLastMatchWins | src/js/schema/mapper.js:266-271 | for a tag name, the last entry whose parent tag matches it is the answer, even when earlier entries match too |
| Detect.NoMatchNoType | src/js/schema/mapper.js:257-273 | with no selector hit and no parent-tag match the answer is null |
| Detect.SelectorMissNeverChosen | src/js/schema/mapper.js:259-265 | an entry with a selector, given an element its selector misses, is never the answer, whatever its parent tag |
| Detect.FirstSelectorHitWins | src/js/schema/mapper.js:260-265 | the first selector hit is the answer even when earlier entries matched by parent tag |
| SchemaMapper.GetMappings | src/js/schema/mapper.js:205-211 | the active dialect, or the `empty` one when no id is set; undefined for an unregistered id |
| SchemaMapper.EntryFor | src/js/schema/mapper.js:214 | `entities[type]` throws exactly when the active dialect is undefined or does not list the type, and otherwise is that type's entry |
| SchemaMapper.Subscribe | src/js/schema/mapper.js:189-193 | subscribing a listener table adds exactly its (event, handler) pairs to the bus |
| SchemaMapper.Unsubscribe | src/js/schema/mapper.js:198-202 | unsubscribing a listener table removes exactly its pairs from the bus |
| SchemaMapper.ClearMappings | src/js/schema/mapper.js:196-203 | removes the active dialect's listeners and keeps the active id; throws, changing nothing, when the active dialect is undefined |
| SchemaMapper.LoadMappings | src/js/schema/mapper.js:183-194 | succeeds exactly when the current and the new dialect are registered, leaving bus = (bus minus old listeners) plus new listeners and the new id; an unregistered new id is still set and the old listeners are gone when it throws |
| SchemaMapper.SwitchLeavesNoStaleListener | src/js/schema/mapper.js:183-203 | after loading one dialect and then another, a listener of the first stays subscribed only if the second registers it, all of the second's are subscribed, and unrelated subscriptions are untouched |
| SchemaMapper.ReloadIsIdempotent | src/js/schema/mapper.js:183-194 | loading the same dialect a second time leaves the state as the first load did |
| SchemaMapper.GetMapping | src/js/schema/mapper.js:213-224 | throws exactly when the entity's type has no entry; otherwise the entry's mapping split at the marker as `MappingSplit` states |
| SchemaMapper.GetReverseMapping | src/js/schema/mapper.js:232-239 | throws exactly when the type has no entry; otherwise it delegates to the entry's reverse mapping applied to the node, and an entry without one gives `{}` |
| SchemaMapper.ReverseMappingFollowsForward | src/js/schema/mapper.js:213-239 | `getReverseMapping` throws for a type exactly when `getMapping` does for an entity of that type, and for a known type without a reverse mapping it gives `{}` |
| SchemaMapper.GetEntityTypeForTag | src/js/schema/mapper.js:246-274 | throws exactly when the active dialect is undefined; otherwise the detection rule over its entity types |
| SchemaMapper.IsEntityTypeNote | src/js/schema/mapper.js:281-288 | true exactly when the entry's `isNote` is true; an undefined flag counts as false |
| SchemaMapper.GetNoteContentForEntity | src/js/schema/mapper.js:296-318 | `''` for a type not flagged as a note; for a note with an extractor, the extractor's result for the entity and `returnString`; without one, `null` exactly when a tree was asked for and the text is empty, the parser's own tree exactly when a tree was asked for and parsing succeeded, otherwise the raw note text |
| SchemaMapper.NoteContentFollowsNoteFlag | src/js/schema/mapper.js:281-318 | note content and the note flag throw together, and a type whose flag is false has `''` as content |
| SchemaMapper.GetParentTag | src/js/schema/mapper.js:325-334 | `''` when the entry has no parent tag, the tag itself when it is a single tag, the first element of a non-empty tag array, and undefined exactly for an empty array; a non-empty answer is always matched by the entry's parent tag |
| SchemaMapper.GetTextTag | src/js/schema/mapper.js:341-347 | the entry's text tag, `''` when absent |
| SchemaMapper.GetHeaderTag | src/js/schema/mapper.js:353-355 | the dialect's header tag as given, with no default |
| SchemaMapper.GetIdAttributeName | src/js/schema/mapper.js:361-363 | the dialect's id attribute name as given, with no default |
| SchemaMapper.GetBlockLevelElements | src/js/schema/mapper.js:369-371 | the dialect's block elements as given, with no default |
| SchemaMapper.GetUrlAttributes | src/js/schema/mapper.js:377-379 | the dialect's URL attributes, `[]` when absent |
| SchemaMapper.GetPopupAttributes | src/js/schema/mapper.js:385-387 | the dialect's popup attributes, `[]` when absent |
| SchemaMapper.GetPopupElements | src/js/schema/mapper.js:393-395 | the dialect's popup elements, `[]` when absent |
| SchemaMapper.FreshMapperUsesEmptyDialect | src/js/schema/mapper.js:205-211 | before any load, `getMappings` and `getUrlAttributes` answer from the `empty` dialect |
| SchemaMapper.LoadedDialectAnswers | src/js/schema/mapper.js:183-194 | after a successful load, `getMappings` and the header, URL and popup accessors answer from the loaded dialect with their defaults |
| SchemaMapper.UnmappedDialectGivesEmptyPair | src/js/schema/mapper.js:213-217 | in a dialect whose entries have no mapping function, every entity of a listed type maps to `['','']` |
| SchemaMapper.ParentTagIsDetected | src/js/schema/mapper.js:325-334 | the parent tag a type reports, used as a tag name, is detected as some entity type |
| SchemaMapper.DefaultMappingEntryGivesTagPair | src/js/schema/mapper.js:213-224 | for an entry using the default mapping, `getMapping` gives the closed start tag and the end tag |

## Left out

- `src/js/dialogManager.js` is a jQuery-UI dialog and popup registry. It has no mapping logic and is not part of this model.
- The concrete dialect tables (`empty_mappings.js`, `tei/mappings.js`, `orlando/mappings.js`, `cwrcEntry/mappings.js`) and `entity.js` are not part of this model. The registry is a parameter of `SchemaMapper.NewMapper`.
- XPath evaluation, XML serialisation (`xmlToString`, with its `ActiveXObject` branch and the `alert` on failure) and XML parsing (`$.parseXML`, and the `console.warn` on failure) are parameters with no assumed behaviour.
- Exceptions from the XPath engine are not modelled. `getXpathResult` has no `try` (mapper.js:156), so a malformed expression would throw out of `getDefaultReverseMapping` and `getEntityTypeForTag`. The total `XPathEvaluator` type cannot say that: the model takes every expression as evaluating to a match or to none.
- The namespace resolver that maps the prefix to the context's namespace URI is not modelled separately. The evaluator receives the context node, which carries that URI, and the prefix.
- XPath.XPathExpression: treats `nsPrefix` as a literal string, not as a regular expression, so prefixes holding regular-expression metacharacters are not modelled.
- XPath.NodeValue: takes jQuery's `.text()` and `.val()` as the node's text and the attribute's value, without jQuery's own normalisation (such as dropping carriage returns).
- Attribute values and XPath primitives are strings. Numbers, booleans and `null` as values are not modelled.
- JavaScript objects visit integer-like keys first. The model keeps plain insertion order. It thereby assumes that no key of an object it iterates is integer-like: not an attribute name, an entity type, an event name or a field name.
- Lookups see only an object's own keys. In JavaScript, `entities[type]` and `this.mappings[id]` also find names inherited from `Object.prototype` (`toString`, `constructor`, ...). For such a type, `getMapping` reads an undefined `mapping` and returns `['','']`, and `loadMappings('toString')` completes. The model reports `EntityTypeUndefined` and `MappingsUndefined` there instead. It assumes that dialect ids and entity types never coincide with inherited property names.
- `loadMappings(undefined)` (which returns the mapper to the `empty` dialect) is not modelled. `SchemaMapper.LoadMappings` takes the id as a string.
- Forward.AttributeStringRoundTrip: holds only for keys without `=` and values without `"`, because the mapper escapes nothing.
- Forward.RangeStringRoundTrip: holds only for ids without `"`, for the same reason.
- Forward.TagAndDefaultAttributesRoundTrip: holds only under the same two restrictions.
- Forward.DefaultMappingSplit: holds only when the tag, ids, keys and values do not contain the marker. Otherwise the split has more parts.
- Reverse.AttributesFromXml: is a filter, because a DOM node never has two attributes of the same name. It does not model repeated assignment to one key.
- Reverse.ResolveGroup: does not state the order of sub-keys inside a nested group, only which keys are present and their values.
- Reverse.DefaultReverseMapping: requires the field table, and each nested table, to have distinct keys, as every JavaScript object does. A `null` field (`typeof null === 'object'`) is modelled as an empty nested table.
- The event bus is a set, so subscribing the same handler to the same event twice is not distinguished from subscribing it once.
- A dialect definition is assumed to have an `entities` object. A dialect's `mapping` function is assumed to return a string.
