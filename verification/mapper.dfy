/** The mapping orchestrator: the registry of dialects, the active dialect, its
    event-bus subscriptions, and the per-dialect lookups the editor calls. */
module SchemaMapper {
  import opened Wrappers
  import opened Objects
  import opened Schema
  import opened Forward
  import opened Detect

  /** What the source's unchecked property accesses throw: `getMappings()` gave
      undefined (an unregistered id), or `entities[type]` is undefined. */
  datatype MapperError = MappingsUndefined | EntityTypeUndefined(entityType: string)

  /** The mapper's state: the registry built at construction, the active id
      (`None` until a dialect is loaded) and the host event bus's subscriptions. */
  datatype Mapper = Mapper(registry: map<string, MappingDefinition>, currentId: Option<string>, bus: set<Subscription>)

  /** The outcome of a state change that may throw part-way: the state it leaves and the error, if any. */
  datatype Step = Step(state: Mapper, error: Option<MapperError>)

  /** The constructor: no dialect selected yet. */
  function NewMapper(registry: map<string, MappingDefinition>, bus: set<Subscription>): Mapper {
    Mapper(registry, None, bus)
  }

  /** `getMappings`: the active dialect, or the `empty` one when none is selected. */
  function GetMappings(m: Mapper): (r: Option<MappingDefinition>)
    ensures m.currentId.None? ==> (r.Some? <==> "empty" in m.registry)
    ensures m.currentId.Some? ==> (r.Some? <==> m.currentId.value in m.registry)
    ensures r.Some? ==> r.value == m.registry[m.currentId.GetOr("empty")]
  {
    var id := if m.currentId.Some? then m.currentId.value else "empty";
    if id in m.registry then Some(m.registry[id]) else None
  }

  /** `getMappings().entities[type]`, throwing when either lookup gives undefined. */
  function EntryFor(m: Mapper, entityType: string): (r: Result<EntityEntry, MapperError>)
    ensures r.Failure? <==> GetMappings(m).None? || !HasKey(GetMappings(m).value.entities, entityType)
    ensures r.Success? ==> Get(GetMappings(m).value.entities, entityType) == Some(r.value)
  {
    match GetMappings(m)
    case None => Failure(MappingsUndefined)
    case Some(definition) =>
      match Get(definition.entities, entityType)
      case None => Failure(EntityTypeUndefined(entityType))
      case Some(entry) => Success(entry)
  }

  // ---------------------------------------------------------------------------
  // Listener lifecycle

  /** `mappings.listeners`, an absent table standing for no listeners. */
  function Listeners(definition: MappingDefinition): Object<string> {
    definition.listeners.GetOr([])
  }

  /** The (event, handler) pairs of a listener table. */
  function ListenerSet(listeners: Object<string>): set<Subscription> {
    set i | 0 <= i < |listeners| :: listeners[i]
  }

  /** Subscribes each handler of a listener table to its event on the bus, in table order. */
  function Subscribe(bus: set<Subscription>, listeners: Object<string>): (r: set<Subscription>)
    ensures r == bus + ListenerSet(listeners)
    decreases |listeners|
  {
    if |listeners| == 0 then bus
    else
      assert ListenerSet(listeners) == {listeners[0]} + ListenerSet(listeners[1..]) by {
        assert forall i :: 1 <= i < |listeners| ==> listeners[i] == listeners[1..][i - 1];
      }
      Subscribe(bus + {listeners[0]}, listeners[1..])
  }

  /** Unsubscribes each handler of a listener table from its event on the bus, in table order. */
  function Unsubscribe(bus: set<Subscription>, listeners: Object<string>): (r: set<Subscription>)
    ensures r == bus - ListenerSet(listeners)
    decreases |listeners|
  {
    if |listeners| == 0 then bus
    else
      assert ListenerSet(listeners) == {listeners[0]} + ListenerSet(listeners[1..]) by {
        assert forall i :: 1 <= i < |listeners| ==> listeners[i] == listeners[1..][i - 1];
      }
      Unsubscribe(bus - {listeners[0]}, listeners[1..])
  }

  /** `clearMappings`: drops the active dialect's subscriptions, keeping the active id. */
  function ClearMappings(m: Mapper): (r: Step)
    ensures r.error.Some? <==> GetMappings(m).None?
    ensures r.state.registry == m.registry && r.state.currentId == m.currentId
    ensures GetMappings(m).None? ==> r.state.bus == m.bus
    ensures GetMappings(m).Some? ==> r.state.bus == m.bus - ListenerSet(Listeners(GetMappings(m).value))
  {
    match GetMappings(m)
    case None => Step(m, Some(MappingsUndefined))
    case Some(definition) => Step(m.(bus := Unsubscribe(m.bus, Listeners(definition))), None)
  }

  /** `loadMappings(id)`: tear down the old dialect's subscriptions, switch the id,
      subscribe the new dialect's listeners. An unregistered id still becomes the
      active id, and the call then throws. */
  function LoadMappings(m: Mapper, id: string): (r: Step)
    ensures r.state.registry == m.registry
    ensures r.error.None? <==> GetMappings(m).Some? && id in m.registry
    ensures GetMappings(m).None? ==> r.state.currentId == m.currentId && r.state.bus == m.bus
    ensures GetMappings(m).Some? ==> r.state.currentId == Some(id)
    ensures GetMappings(m).Some? && id !in m.registry ==>
      r.state.bus == m.bus - ListenerSet(Listeners(GetMappings(m).value))
    ensures GetMappings(m).Some? && id in m.registry ==>
      r.state.bus == (m.bus - ListenerSet(Listeners(GetMappings(m).value))) + ListenerSet(Listeners(m.registry[id]))
  {
    var cleared := ClearMappings(m);
    if cleared.error.Some? then cleared
    else
      var switched := cleared.state.(currentId := Some(id));
      match GetMappings(switched)
      case None => Step(switched, Some(MappingsUndefined))
      case Some(definition) => Step(switched.(bus := Subscribe(switched.bus, Listeners(definition))), None)
  }

  /** After switching from one dialect to another, none of the first dialect's
      listeners stays subscribed unless the second dialect registers it too, and
      subscriptions that belong to neither dialect nor the one before are untouched. */
  lemma SwitchLeavesNoStaleListener(m: Mapper, first: string, second: string)
    requires LoadMappings(m, first).error.None?
    requires LoadMappings(LoadMappings(m, first).state, second).error.None?
    ensures var bus := LoadMappings(LoadMappings(m, first).state, second).state.bus;
      var before := ListenerSet(Listeners(m.registry[first]));
      var after := ListenerSet(Listeners(m.registry[second]));
      && (forall s :: s in before ==> (s in bus <==> s in after))
      && after <= bus
      && forall s :: s !in ListenerSet(Listeners(GetMappings(m).value)) && s !in before && s !in after ==> (s in bus <==> s in m.bus)
  {
    var m1 := LoadMappings(m, first).state;
    assert GetMappings(m1) == Some(m.registry[first]);
  }

  /** Loading the same dialect twice leaves the subscriptions as loading it once. */
  lemma ReloadIsIdempotent(m: Mapper, id: string)
    requires LoadMappings(m, id).error.None?
    ensures LoadMappings(LoadMappings(m, id).state, id).error.None?
    ensures LoadMappings(LoadMappings(m, id).state, id).state == LoadMappings(m, id).state
  {
    var m1 := LoadMappings(m, id).state;
    assert GetMappings(m1) == Some(m.registry[id]);
  }

  // ---------------------------------------------------------------------------
  // Delegations to the active dialect

  /** `getMapping`: the entity's fragment cut at the selection marker. */
  function GetMapping(m: Mapper, e: Entity): (r: Result<seq<string>, MapperError>)
    ensures r.Failure? <==> EntryFor(m, e.entityType).Failure?
    ensures r.Success? ==> r.value == MappingSplit(EntryFor(m, e.entityType).value.mapping, e)
  {
    var entry :- EntryFor(m, e.entityType);
    Success(MappingSplit(entry.mapping, e))
  }

  /** `getReverseMapping`: the dialect's reverse mapping, or `{}` when it has none. */
  function GetReverseMapping(m: Mapper, xml: XmlNode, entityType: string): (r: Result<Object<Field>, MapperError>)
    ensures r.Failure? <==> EntryFor(m, entityType).Failure?
    ensures r.Success? && EntryFor(m, entityType).value.reverseMapping.None? ==> r.value == []
    ensures r.Success? && EntryFor(m, entityType).value.reverseMapping.Some? ==>
      r.value == EntryFor(m, entityType).value.reverseMapping.value(xml)
  {
    var entry :- EntryFor(m, entityType);
    match entry.reverseMapping
    case Some(reverse) => Success(reverse(xml))
    case None => Success([])
  }

  /** The forward and the reverse mapping of a type throw together: both need the
      type's entry, and a dialect entry without a reverse mapping still maps forward. */
  lemma ReverseMappingFollowsForward(m: Mapper, e: Entity, xml: XmlNode)
    ensures GetReverseMapping(m, xml, e.entityType).Failure? <==> GetMapping(m, e).Failure?
    ensures GetMapping(m, e).Success? && EntryFor(m, e.entityType).value.reverseMapping.None? ==>
      GetReverseMapping(m, xml, e.entityType) == Success([])
  {
  }

  /** `getEntityTypeForTag`, the XPath prefix being the current schema's mappings id. */
  method GetEntityTypeForTag(m: Mapper, input: TagInput, schemaMappingsId: Option<string>, eval: XPathEvaluator)
    returns (r: Result<Option<string>, MapperError>)
    ensures r.Failure? <==> GetMappings(m).None?
    ensures r.Success? ==> r.value == DetectedType(GetMappings(m).value.entities, input, schemaMappingsId, eval)
  {
    match GetMappings(m)
    case None =>
      r := Failure(MappingsUndefined);
    case Some(definition) =>
      var found := EntityTypeForTag(definition.entities, input, schemaMappingsId, eval);
      r := Success(found);
  }

  /** `isEntityTypeNote`: an undefined flag counts as false. */
  function IsEntityTypeNote(m: Mapper, entityType: string): (r: Result<bool, MapperError>)
    ensures r.Failure? <==> EntryFor(m, entityType).Failure?
    ensures r.Success? ==> (r.value <==> EntryFor(m, entityType).value.isNote == Some(true))
  {
    var entry :- EntryFor(m, entityType);
    Success(entry.isNote.GetOr(false))
  }

  /** `getNoteContentForEntity`: '' for a type that is not a note; otherwise the
      dialect's own extractor, or the entity's raw note text, parsed unless a string
      was asked for (empty text parsing to `null`), and left as text when parsing fails. */
  function GetNoteContentForEntity(m: Mapper, e: Entity, returnString: bool, parse: XmlParser): (r: Result<NoteContent, MapperError>)
    ensures r.Failure? <==> EntryFor(m, e.entityType).Failure?
    ensures r.Success? && EntryFor(m, e.entityType).value.isNote != Some(true) ==> r.value == NoteText("")
    ensures r.Success? && EntryFor(m, e.entityType).value.isNote == Some(true) && EntryFor(m, e.entityType).value.getNoteContent.None? ==>
      && (r.value.NoteNull? <==> !returnString && e.noteContent == "")
      && (r.value.NoteTree? <==> !returnString && e.noteContent != "" && parse(e.noteContent).Some?)
      && (r.value.NoteTree? ==> parse(e.noteContent) == Some(r.value.document))
      && (r.value.NoteText? ==> r.value.text == e.noteContent)
    ensures r.Success? && EntryFor(m, e.entityType).value.isNote == Some(true) && EntryFor(m, e.entityType).value.getNoteContent.Some? ==>
      r.value == EntryFor(m, e.entityType).value.getNoteContent.value(e, returnString)
  {
    var entry :- EntryFor(m, e.entityType);
    if entry.isNote == Some(true) then
      match entry.getNoteContent
      case Some(extract) => Success(extract(e, returnString))
      case None =>
        if returnString then Success(NoteText(e.noteContent))
        else if e.noteContent == "" then Success(NoteNull)
        else match parse(e.noteContent)
          case Some(document) => Success(NoteTree(document))
          case None => Success(NoteText(e.noteContent))
    else Success(NoteText(""))
  }

  /** Note content and the note flag agree: both throw together, and a type the
      dialect does not flag as a note has the empty string as content. */
  lemma NoteContentFollowsNoteFlag(m: Mapper, e: Entity, returnString: bool, parse: XmlParser)
    ensures GetNoteContentForEntity(m, e, returnString, parse).Failure? <==> IsEntityTypeNote(m, e.entityType).Failure?
    ensures IsEntityTypeNote(m, e.entityType) == Success(false) ==>
      GetNoteContentForEntity(m, e, returnString, parse) == Success(NoteText(""))
  {
  }

  // ---------------------------------------------------------------------------
  // Configuration accessors

  /** `getParentTag`: '' when absent, the first element of an array (undefined for an empty one). */
  function GetParentTag(m: Mapper, entityType: string): (r: Result<Option<string>, MapperError>)
    ensures r.Failure? <==> EntryFor(m, entityType).Failure?
    ensures r.Success? ==> (r.value.None? <==> EntryFor(m, entityType).value.parentTag == TagList([]))
    ensures r.Success? && r.value.Some? && r.value.value != "" ==>
      ParentMatches(EntryFor(m, entityType).value.parentTag, r.value.value)
    ensures r.Success? && EntryFor(m, entityType).value.parentTag.NoParentTag? ==> r.value == Some("")
    ensures r.Success? && EntryFor(m, entityType).value.parentTag.Tag? ==>
      r.value == Some(EntryFor(m, entityType).value.parentTag.name)
    ensures r.Success? && EntryFor(m, entityType).value.parentTag.TagList? && |EntryFor(m, entityType).value.parentTag.names| > 0 ==>
      r.value == Some(EntryFor(m, entityType).value.parentTag.names[0])
  {
    var entry :- EntryFor(m, entityType);
    match entry.parentTag
    case NoParentTag => Success(Some(""))
    case Tag(name) => Success(Some(name))
    case TagList(names) => if |names| == 0 then Success(None) else Success(Some(names[0]))
  }

  /** `getTextTag`: '' when absent. */
  function GetTextTag(m: Mapper, entityType: string): (r: Result<string, MapperError>)
    ensures r.Failure? <==> EntryFor(m, entityType).Failure?
    ensures r.Success? ==> r.value == EntryFor(m, entityType).value.textTag.GetOr("")
  {
    var entry :- EntryFor(m, entityType);
    Success(entry.textTag.GetOr(""))
  }

  /** `getHeaderTag`, with no default. */
  function GetHeaderTag(m: Mapper): (r: Result<Option<string>, MapperError>)
    ensures r.Failure? <==> GetMappings(m).None?
    ensures r.Success? ==> r.value == GetMappings(m).value.header
  {
    match GetMappings(m)
    case None => Failure(MappingsUndefined)
    case Some(definition) => Success(definition.header)
  }

  /** `getIdAttributeName`, with no default. */
  function GetIdAttributeName(m: Mapper): (r: Result<Option<string>, MapperError>)
    ensures r.Failure? <==> GetMappings(m).None?
    ensures r.Success? ==> r.value == GetMappings(m).value.id
  {
    match GetMappings(m)
    case None => Failure(MappingsUndefined)
    case Some(definition) => Success(definition.id)
  }

  /** `getBlockLevelElements`, with no default. */
  function GetBlockLevelElements(m: Mapper): (r: Result<Option<seq<string>>, MapperError>)
    ensures r.Failure? <==> GetMappings(m).None?
    ensures r.Success? ==> r.value == GetMappings(m).value.blockElements
  {
    match GetMappings(m)
    case None => Failure(MappingsUndefined)
    case Some(definition) => Success(definition.blockElements)
  }

  /** `getUrlAttributes`: `urlAttributes || []`. */
  function GetUrlAttributes(m: Mapper): (r: Result<seq<string>, MapperError>)
    ensures r.Failure? <==> GetMappings(m).None?
    ensures r.Success? ==> r.value == GetMappings(m).value.urlAttributes.GetOr([])
  {
    match GetMappings(m)
    case None => Failure(MappingsUndefined)
    case Some(definition) => Success(definition.urlAttributes.GetOr([]))
  }

  /** `getPopupAttributes`: `popupAttributes || []`. */
  function GetPopupAttributes(m: Mapper): (r: Result<seq<string>, MapperError>)
    ensures r.Failure? <==> GetMappings(m).None?
    ensures r.Success? ==> r.value == GetMappings(m).value.popupAttributes.GetOr([])
  {
    match GetMappings(m)
    case None => Failure(MappingsUndefined)
    case Some(definition) => Success(definition.popupAttributes.GetOr([]))
  }

  /** `getPopupElements`: `popupElements || []`. */
  function GetPopupElements(m: Mapper): (r: Result<seq<string>, MapperError>)
    ensures r.Failure? <==> GetMappings(m).None?
    ensures r.Success? ==> r.value == GetMappings(m).value.popupElements.GetOr([])
  {
    match GetMappings(m)
    case None => Failure(MappingsUndefined)
    case Some(definition) => Success(definition.popupElements.GetOr([]))
  }

  // ---------------------------------------------------------------------------
  // Properties across operations

  /** A fresh mapper answers from the `empty` dialect. */
  lemma FreshMapperUsesEmptyDialect(registry: map<string, MappingDefinition>, bus: set<Subscription>)
    requires "empty" in registry
    ensures GetMappings(NewMapper(registry, bus)) == Some(registry["empty"])
    ensures GetUrlAttributes(NewMapper(registry, bus)) == Success(registry["empty"].urlAttributes.GetOr([]))
  {
  }

  /** After a successful load every lookup answers from the loaded dialect, with
      the fixed defaults for the list-typed settings. */
  lemma LoadedDialectAnswers(m: Mapper, id: string)
    requires LoadMappings(m, id).error.None?
    ensures var m' := LoadMappings(m, id).state;
      var d := m.registry[id];
      && GetMappings(m') == Some(d)
      && GetHeaderTag(m') == Success(d.header)
      && GetUrlAttributes(m') == Success(d.urlAttributes.GetOr([]))
      && GetPopupAttributes(m') == Success(d.popupAttributes.GetOr([]))
      && GetPopupElements(m') == Success(d.popupElements.GetOr([]))
  {
  }

  /** A dialect whose entries carry no mapping function maps every entity of a
      known type to the empty pair. */
  lemma UnmappedDialectGivesEmptyPair(m: Mapper, e: Entity)
    requires GetMappings(m).Some?
    requires var entities := GetMappings(m).value.entities;
      forall i :: 0 <= i < |entities| ==> entities[i].1.mapping.None?
    requires HasKey(GetMappings(m).value.entities, e.entityType)
    ensures GetMapping(m, e) == Success(["", ""])
  {
    var entities := GetMappings(m).value.entities;
    var i := KeyIndex(entities, e.entityType).value;
    assert EntryFor(m, e.entityType).value == entities[i].1;
  }

  /** The parent tag a type reports leads back to a type: detection by that tag name finds one. */
  lemma ParentTagIsDetected(m: Mapper, entityType: string, nsPrefix: Option<string>, eval: XPathEvaluator)
    requires GetParentTag(m, entityType).Success?
    requires GetParentTag(m, entityType).value.Some?
    requires EntryFor(m, entityType).value.parentTag != NoParentTag
    ensures var tag := GetParentTag(m, entityType).value.value;
      DetectedType(GetMappings(m).value.entities, TagName(tag), nsPrefix, eval).Some?
  {
    var entities := GetMappings(m).value.entities;
    var tag := GetParentTag(m, entityType).value.value;
    var i := KeyIndex(entities, entityType).value;
    assert entities[i].1 == EntryFor(m, entityType).value;
    assert TagHit(entities[i].1, TagName(tag));
  }

  /** With a dialect whose entry for a type has the default mapping, `getMapping`
      gives the closed start tag and the end tag. */
  lemma DefaultMappingEntryGivesTagPair(m: Mapper, e: Entity)
    requires EntryFor(m, e.entityType).Success?
    requires EntryFor(m, e.entityType).value.mapping == Some(DefaultMapping)
    requires EntityMarkerFree(e)
    ensures GetMapping(m, e) == Success([TagAndDefaultAttributes(e) + ">", "</" + e.tag + ">"])
  {
    DefaultMappingSplit(e);
  }
}
