/** Forward mapping: an entity to the XML fragment that represents it. */
module Forward {
  import opened Wrappers
  import opened Text
  import opened Schema

  /** ` key="value"`: the one form every serialised attribute takes. */
  function Segment(key: string, value: string): string {
    " " + key + "=\"" + value + "\""
  }

  function Segments(pairs: seq<(string, string)>): string {
    if |pairs| == 0 then "" else Segment(pairs[0].0, pairs[0].1) + Segments(pairs[1..])
  }

  /** `getAttributeString` writes an attribute only if its value is neither undefined nor ''. */
  predicate Emitted(a: Attribute) {
    a.value.Some? && a.value.value != ""
  }

  /** The attributes `getAttributeString` keeps, in their order, as key/value pairs. */
  function KeptPairs(attrs: seq<Attribute>): (pairs: seq<(string, string)>)
    ensures |pairs| <= |attrs|
    ensures forall i :: 0 <= i < |pairs| ==> pairs[i].1 != ""
  {
    if |attrs| == 0 then []
    else (if Emitted(attrs[0]) then [(attrs[0].key, attrs[0].value.value)] else []) + KeptPairs(attrs[1..])
  }

  /** `Mapper.getAttributeString`. */
  function AttributeString(attrs: seq<Attribute>): string {
    if |attrs| == 0 then ""
    else (if Emitted(attrs[0]) then Segment(attrs[0].key, attrs[0].value.value) else "") + AttributeString(attrs[1..])
  }

  /** The annotation id written for an entity: `range.annotationId || entity.getId()`,
      so an empty range id falls back to the entity id as well. */
  function AnnotationId(e: Entity): string {
    if e.range.annotationId.Some? && e.range.annotationId.value != "" then e.range.annotationId.value else e.id
  }

  /** `Mapper.getRangeString`. */
  function RangeString(e: Entity): string {
    " annotationId=\"" + AnnotationId(e) + "\""
      + (if e.range.offsetId.Some? then " offsetId=\"" + e.range.offsetId.value + "\"" else "")
  }

  /** The reserved attributes the range string is meant to carry, in order. */
  function RangePairs(e: Entity): seq<(string, string)> {
    [("annotationId", AnnotationId(e))] + (if e.range.offsetId.Some? then [("offsetId", e.range.offsetId.value)] else [])
  }

  /** `Mapper.getTagAndDefaultAttributes`: an open start tag. */
  function TagAndDefaultAttributes(e: Entity): string {
    "<" + e.tag + RangeString(e) + AttributeString(e.attributes)
  }

  /** `Mapper.getDefaultMapping`: the start tag closed, the selection marker, the end tag. */
  function DefaultMapping(e: Entity): string {
    TagAndDefaultAttributes(e) + ">" + TEXT_SELECTION + "</" + e.tag + ">"
  }

  /** The pure part of `getMapping`: the fragment an entry's mapping function
      produces, cut at the selection marker. */
  function MappingSplit(mapping: Option<Entity -> string>, e: Entity): (parts: seq<string>)
    ensures mapping.None? ==> parts == ["", ""]
    ensures mapping.Some? && !Contains(mapping.value(e), TEXT_SELECTION) ==> parts == ["", mapping.value(e)]
    ensures mapping.Some? && Contains(mapping.value(e), TEXT_SELECTION) ==>
      && |parts| >= 2
      && Join(parts, TEXT_SELECTION) == mapping.value(e)
      && forall k :: 0 <= k < |parts| ==> !Contains(parts[k], TEXT_SELECTION)
  {
    match mapping
    case None => ["", ""]
    case Some(f) =>
      var s := f(e);
      if Find(s, TEXT_SELECTION).None? then ["", s] else Split(s, TEXT_SELECTION)
  }

  // ---------------------------------------------------------------------------
  // Reading serialised attributes back

  /** Position of the first `c` in `s`, or `|s|` when there is none. */
  function IndexOfChar(s: string, c: char): (r: nat)
    ensures r <= |s|
    ensures forall j :: 0 <= j < r ==> s[j] != c
    ensures r < |s| ==> s[r] == c
  {
    if |s| == 0 then 0
    else if s[0] == c then 0
    else 1 + IndexOfChar(s[1..], c)
  }

  /** Reads a run of ` key="value"` segments back into key/value pairs; the
      independent inverse against which the serialisers are checked. */
  function ParseAttributes(s: string): Option<seq<(string, string)>>
    decreases |s|
  {
    if |s| == 0 then Some([])
    else if s[0] != ' ' then None
    else
      var body := s[1..];
      var eq := IndexOfChar(body, '=');
      if eq + 1 >= |body| || body[eq + 1] != '"' then None
      else
        var rest := body[eq + 2..];
        var close := IndexOfChar(rest, '"');
        if close == |rest| then None
        else match ParseAttributes(rest[close + 1..])
          case None => None
          case Some(tail) => Some([(body[..eq], rest[..close])] + tail)
  }

  /** A pair that serialises unambiguously: the key holds no `=` and the value no `"`
      (the mapper escapes neither). */
  predicate Readable(p: (string, string)) {
    '=' !in p.0 && '"' !in p.1
  }

  lemma IndexOfCharAt(a: string, c: char, b: string)
    requires c !in a
    ensures IndexOfChar(a + [c] + b, c) == |a|
  {
    var s := a + [c] + b;
    assert s[|a|] == c;
    assert forall j :: 0 <= j < |a| ==> s[j] == a[j];
  }

  /** One step of `ParseAttributes` on a string whose first segment has its `=`
      at `eq` and its closing quote at `close`. */
  lemma ParseStep(s: string, eq: nat, close: nat)
    requires |s| > 0 && s[0] == ' '
    requires IndexOfChar(s[1..], '=') == eq && eq + 1 < |s[1..]| && s[1..][eq + 1] == '"'
    requires IndexOfChar(s[1..][eq + 2..], '"') == close && close < |s[1..][eq + 2..]|
    requires ParseAttributes(s[1..][eq + 2..][close + 1..]).Some?
    ensures ParseAttributes(s) ==
      Some([(s[1..][..eq], s[1..][eq + 2..][..close])] + ParseAttributes(s[1..][eq + 2..][close + 1..]).value)
  {
  }

  /** A segment followed by more text, regrouped around the characters the reader looks for. */
  lemma SegmentShape(key: string, value: string, t: string)
    ensures Segment(key, value) + t == [' '] + (key + ['='] + (['"'] + (value + ['"'] + t)))
  {
    assert Segment(key, value) + t == [' '] + (key + "=\"" + value + "\"" + t);
    assert key + "=\"" + value + "\"" + t == key + ['='] + (['"'] + (value + ['"'] + t));
  }

  lemma ParseSegment(key: string, value: string, t: string)
    requires Readable((key, value))
    requires ParseAttributes(t).Some?
    ensures ParseAttributes(Segment(key, value) + t) == Some([(key, value)] + ParseAttributes(t).value)
  {
    var s := Segment(key, value) + t;
    var rest := value + ['"'] + t;
    var after := ['"'] + rest;
    var body := key + ['='] + after;
    assert s[0] == ' ' && s[1..] == body by {
      SegmentShape(key, value, t);
    }
    assert IndexOfChar(body, '=') == |key| by {
      IndexOfCharAt(key, '=', after);
    }
    assert |key| + 1 < |body| && body[|key| + 1] == '"' && body[|key| + 2..] == rest && body[..|key|] == key;
    assert IndexOfChar(rest, '"') == |value| && rest[|value| + 1..] == t && rest[..|value|] == value by {
      IndexOfCharAt(value, '"', t);
    }
    ParseStep(s, |key|, |value|);
  }

  /** Serialising pairs and reading them back gives the same pairs. */
  lemma {:induction false} SegmentsRoundTrip(pairs: seq<(string, string)>)
    requires forall i :: 0 <= i < |pairs| ==> Readable(pairs[i])
    ensures ParseAttributes(Segments(pairs)) == Some(pairs)
  {
    if |pairs| > 0 {
      var tail := pairs[1..];
      var rest := Segments(tail);
      assert ParseAttributes(rest) == Some(tail) by {
        assert forall i :: 0 <= i < |tail| ==> tail[i] == pairs[i + 1];
        SegmentsRoundTrip(tail);
      }
      assert Segments(pairs) == Segment(pairs[0].0, pairs[0].1) + rest;
      ParseSegment(pairs[0].0, pairs[0].1, rest);
      assert [(pairs[0].0, pairs[0].1)] + tail == pairs;
    }
  }

  lemma {:induction false} SegmentsAppend(a: seq<(string, string)>, b: seq<(string, string)>)
    ensures Segments(a + b) == Segments(a) + Segments(b)
  {
    if |a| > 0 {
      assert (a + b)[1..] == a[1..] + b;
      SegmentsAppend(a[1..], b);
    } else {
      assert a + b == b;
    }
  }

  /** `getAttributeString` writes exactly one segment per kept attribute, in order. */
  lemma {:induction false} AttributeStringIsSegments(attrs: seq<Attribute>)
    ensures AttributeString(attrs) == Segments(KeptPairs(attrs))
  {
    if |attrs| > 0 {
      AttributeStringIsSegments(attrs[1..]);
      if Emitted(attrs[0]) {
        var p := (attrs[0].key, attrs[0].value.value);
        assert KeptPairs(attrs) == [p] + KeptPairs(attrs[1..]);
        assert ([p] + KeptPairs(attrs[1..]))[1..] == KeptPairs(attrs[1..]);
      } else {
        assert KeptPairs(attrs) == KeptPairs(attrs[1..]);
      }
    }
  }

  /** Serialising two attribute lists one after the other is serialising their concatenation. */
  lemma {:induction false} AttributeStringAppend(a: seq<Attribute>, b: seq<Attribute>)
    ensures AttributeString(a + b) == AttributeString(a) + AttributeString(b)
  {
    if |a| > 0 {
      assert (a + b)[0] == a[0];
      assert (a + b)[1..] == a[1..] + b;
      AttributeStringAppend(a[1..], b);
    } else {
      assert a + b == b;
    }
  }

  /** Every attribute readable from its serialised form. */
  ghost predicate ReadableAttributes(attrs: seq<Attribute>) {
    forall i :: 0 <= i < |attrs| ==> '=' !in attrs[i].key && (attrs[i].value.Some? ==> '"' !in attrs[i].value.value)
  }

  lemma {:induction false} KeptReadable(attrs: seq<Attribute>)
    requires ReadableAttributes(attrs)
    ensures forall i :: 0 <= i < |KeptPairs(attrs)| ==> Readable(KeptPairs(attrs)[i])
  {
    if |attrs| > 0 {
      KeptReadable(attrs[1..]);
    }
  }

  /** Reading back `getAttributeString`'s output yields exactly the attributes whose
      value is defined and non-empty, with their values, in their original order. */
  lemma AttributeStringRoundTrip(attrs: seq<Attribute>)
    requires ReadableAttributes(attrs)
    ensures ParseAttributes(AttributeString(attrs)) == Some(KeptPairs(attrs))
  {
    AttributeStringIsSegments(attrs);
    KeptReadable(attrs);
    SegmentsRoundTrip(KeptPairs(attrs));
  }

  /** The range ids and the entity id are readable. */
  predicate ReadableRange(e: Entity) {
    && '"' !in AnnotationId(e)
    && (e.range.offsetId.Some? ==> '"' !in e.range.offsetId.value)
  }

  lemma RangeStringIsSegments(e: Entity)
    ensures RangeString(e) == Segments(RangePairs(e))
  {
    var pairs := RangePairs(e);
    if e.range.offsetId.Some? {
      assert pairs[1..][1..] == [];
      assert Segments(pairs[1..]) == Segment("offsetId", e.range.offsetId.value);
    } else {
      assert pairs[1..] == [];
    }
  }

  /** Read back, the range string holds `annotationId` first (the range's id, or the
      entity id when that is undefined or empty) and then `offsetId` exactly when
      the range defines one. */
  lemma RangeStringRoundTrip(e: Entity)
    requires ReadableRange(e)
    ensures ParseAttributes(RangeString(e)) == Some(RangePairs(e))
    ensures RangePairs(e)[0] == ("annotationId", AnnotationId(e))
    ensures |RangePairs(e)| == 2 <==> e.range.offsetId.Some?
    ensures e.range.offsetId.Some? ==> RangePairs(e)[1] == ("offsetId", e.range.offsetId.value)
  {
    RangeStringIsSegments(e);
    SegmentsRoundTrip(RangePairs(e));
  }

  /** The open start tag is `<` and the tag name followed by attributes which read
      back as the reserved range attributes and then every kept domain attribute:
      both reserved attributes precede every domain attribute. */
  lemma TagAndDefaultAttributesRoundTrip(e: Entity)
    requires ReadableRange(e) && ReadableAttributes(e.attributes)
    ensures TagAndDefaultAttributes(e)[..|e.tag| + 1] == "<" + e.tag
    ensures ParseAttributes(TagAndDefaultAttributes(e)[|e.tag| + 1..]) == Some(RangePairs(e) + KeptPairs(e.attributes))
  {
    var t := TagAndDefaultAttributes(e);
    assert t == ("<" + e.tag) + (RangeString(e) + AttributeString(e.attributes));
    assert t[|e.tag| + 1..] == RangeString(e) + AttributeString(e.attributes);
    RangeStringIsSegments(e);
    AttributeStringIsSegments(e.attributes);
    SegmentsAppend(RangePairs(e), KeptPairs(e.attributes));
    KeptReadable(e.attributes);
    var all := RangePairs(e) + KeptPairs(e.attributes);
    assert forall i :: 0 <= i < |all| ==> Readable(all[i]);
    SegmentsRoundTrip(all);
  }

  // ---------------------------------------------------------------------------
  // Where the selection marker can appear

  ghost predicate MarkerFree(s: string) {
    !Contains(s, TEXT_SELECTION)
  }

  /** No piece of the entity the default mapping writes out holds the marker. */
  ghost predicate EntityMarkerFree(e: Entity) {
    && MarkerFree(e.tag)
    && MarkerFree(AnnotationId(e))
    && (e.range.offsetId.Some? ==> MarkerFree(e.range.offsetId.value))
    && forall i :: 0 <= i < |e.attributes| ==>
         MarkerFree(e.attributes[i].key) && (e.attributes[i].value.Some? ==> MarkerFree(e.attributes[i].value.value))
  }

  /** The punctuation the serialisers add never occurs in the marker. */
  lemma PunctuationOutsideMarker()
    ensures ' ' !in TEXT_SELECTION && '=' !in TEXT_SELECTION && '"' !in TEXT_SELECTION
    ensures '<' !in TEXT_SELECTION && '>' !in TEXT_SELECTION && '/' !in TEXT_SELECTION
  {
  }

  lemma SegmentMarkerFree(key: string, value: string)
    requires MarkerFree(key) && MarkerFree(value)
    ensures MarkerFree(Segment(key, value))
  {
    PunctuationOutsideMarker();
    ShortFree(" ", TEXT_SELECTION);
    ShortFree("=\"", TEXT_SELECTION);
    ShortFree("\"", TEXT_SELECTION);
    ConcatFree(" ", key, TEXT_SELECTION);
    ConcatFree(" " + key, "=\"", TEXT_SELECTION);
    ConcatFree(" " + key + "=\"", value, TEXT_SELECTION);
    ConcatFree(" " + key + "=\"" + value, "\"", TEXT_SELECTION);
  }

  lemma {:induction false} SegmentsMarkerFree(pairs: seq<(string, string)>)
    requires forall i :: 0 <= i < |pairs| ==> MarkerFree(pairs[i].0) && MarkerFree(pairs[i].1)
    ensures MarkerFree(Segments(pairs))
  {
    if |pairs| == 0 {
      ShortFree("", TEXT_SELECTION);
    } else {
      SegmentsMarkerFree(pairs[1..]);
      var seg := Segment(pairs[0].0, pairs[0].1);
      SegmentMarkerFree(pairs[0].0, pairs[0].1);
      PunctuationOutsideMarker();
      assert seg[|seg| - 1] == '"';
      ConcatFree(seg, Segments(pairs[1..]), TEXT_SELECTION);
    }
  }

  lemma {:induction false} KeptMarkerFree(attrs: seq<Attribute>)
    requires forall i :: 0 <= i < |attrs| ==>
      MarkerFree(attrs[i].key) && (attrs[i].value.Some? ==> MarkerFree(attrs[i].value.value))
    ensures forall i :: 0 <= i < |KeptPairs(attrs)| ==> MarkerFree(KeptPairs(attrs)[i].0) && MarkerFree(KeptPairs(attrs)[i].1)
  {
    if |attrs| > 0 {
      KeptMarkerFree(attrs[1..]);
    }
  }

  lemma OpenTagMarkerFree(e: Entity)
    requires EntityMarkerFree(e)
    ensures MarkerFree(TagAndDefaultAttributes(e) + ">")
  {
    PunctuationOutsideMarker();
    ShortFree("<", TEXT_SELECTION);
    ShortFree(">", TEXT_SELECTION);
    RangeStringIsSegments(e);
    SegmentsMarkerFree(RangePairs(e));
    AttributeStringIsSegments(e.attributes);
    KeptMarkerFree(e.attributes);
    SegmentsMarkerFree(KeptPairs(e.attributes));
    var range := RangeString(e);
    var attrs := AttributeString(e.attributes);
    ConcatFree("<", e.tag, TEXT_SELECTION);
    assert range[0] == ' ';
    ConcatFree("<" + e.tag, range, TEXT_SELECTION);
    assert range[|range| - 1] == '"';
    assert ("<" + e.tag + range)[|"<" + e.tag + range| - 1] == '"';
    ConcatFree("<" + e.tag + range, attrs, TEXT_SELECTION);
    ConcatFree("<" + e.tag + range + attrs, ">", TEXT_SELECTION);
  }

  lemma CloseTagMarkerFree(tag: string)
    requires MarkerFree(tag)
    ensures MarkerFree("</" + tag + ">")
  {
    PunctuationOutsideMarker();
    ShortFree("</", TEXT_SELECTION);
    ShortFree(">", TEXT_SELECTION);
    ConcatFree("</", tag, TEXT_SELECTION);
    ConcatFree("</" + tag, ">", TEXT_SELECTION);
  }

  /** When no piece of the entity holds the marker, the default mapping splits at
      the marker into exactly the closed start tag and the end tag. */
  lemma DefaultMappingSplit(e: Entity)
    requires EntityMarkerFree(e)
    ensures MappingSplit(Some(DefaultMapping), e) == [TagAndDefaultAttributes(e) + ">", "</" + e.tag + ">"]
  {
    var open := TagAndDefaultAttributes(e) + ">";
    var close := "</" + e.tag + ">";
    OpenTagMarkerFree(e);
    CloseTagMarkerFree(e.tag);
    PunctuationOutsideMarker();
    assert DefaultMapping(e) == open + TEXT_SELECTION + close;
    SplitAround(open, TEXT_SELECTION, close);
    assert OccursAt(DefaultMapping(e), TEXT_SELECTION, |open|) by {
      assert DefaultMapping(e)[|open|..|open| + |TEXT_SELECTION|] == TEXT_SELECTION;
    }
  }

  function PersonEntity(): Entity {
    Entity("e1", "person", "persName", Range(Some("ann1"), None), [Attribute("ref", Some("#p1"))], "")
  }

  lemma PersonRangeString()
    ensures RangeString(PersonEntity()) == " annotationId=\"ann1\""
  {
    assert AnnotationId(PersonEntity()) == "ann1";
  }

  lemma PersonAttributeString()
    ensures AttributeString(PersonEntity().attributes) == " ref=\"#p1\""
  {
    var attrs := PersonEntity().attributes;
    assert AttributeString(attrs[1..]) == "";
    assert Segment("ref", "#p1") == " ref=\"#p1\"";
  }

  lemma PersonOpenTagLiteral()
    ensures "<" + "persName" + " annotationId=\"ann1\"" + " ref=\"#p1\"" + ">" == "<persName annotationId=\"ann1\" ref=\"#p1\">"
  {
  }

  lemma PersonEntityText()
    ensures TagAndDefaultAttributes(PersonEntity()) + ">" == "<persName annotationId=\"ann1\" ref=\"#p1\">"
    ensures "</" + PersonEntity().tag + ">" == "</persName>"
  {
    assert TagAndDefaultAttributes(PersonEntity()) == "<" + "persName" + " annotationId=\"ann1\"" + " ref=\"#p1\"" by {
      PersonRangeString();
      PersonAttributeString();
    }
    PersonOpenTagLiteral();
  }

  lemma PersonEntityMarkerFree()
    ensures EntityMarkerFree(PersonEntity())
  {
    ShortFree("persName", TEXT_SELECTION);
    ShortFree("ann1", TEXT_SELECTION);
    ShortFree("ref", TEXT_SELECTION);
    ShortFree("#p1", TEXT_SELECTION);
  }

  /** A person entity with annotation id `ann1` and one `ref` attribute, mapped by the
      default mapping to `persName`, gives the expected start and end tags. */
  lemma PersonEntityExample()
    ensures MappingSplit(Some(DefaultMapping), PersonEntity()) == ["<persName annotationId=\"ann1\" ref=\"#p1\">", "</persName>"]
  {
    var e := PersonEntity();
    PersonEntityText();
    PersonEntityMarkerFree();
    DefaultMappingSplit(e);
  }
}
