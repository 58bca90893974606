/** Reverse mapping: an XML node back to the attribute object of an entity. */
module Reverse {
  import opened Wrappers
  import opened Objects
  import opened Schema
  import opened XPath

  /** Attribute names reserved at the persistence boundary. */
  predicate Reserved(name: string) {
    name == "annotationId" || name == "offsetId" || name == "cwrcStructId"
  }

  /** `Mapper.getAttributesFromXml`: the node's attributes minus the reserved ones,
      in document order. A node never carries two attributes of the same name, so
      the object assignment `attrs[att.name] = att.value` only ever appends. */
  function AttributesFromXml(attrs: seq<XmlAttribute>): (r: Object<string>)
    ensures forall i :: 0 <= i < |r| ==> !Reserved(r[i].0)
    ensures forall i :: 0 <= i < |r| ==> XmlAttribute(r[i].0, r[i].1) in attrs
    ensures forall a :: a in attrs && !Reserved(a.name) ==> (a.name, a.value) in r
  {
    if |attrs| == 0 then []
    else
      var tail := AttributesFromXml(attrs[1..]);
      assert forall a :: a in attrs ==> a == attrs[0] || a in attrs[1..];
      if Reserved(attrs[0].name) then tail
      else [(attrs[0].name, attrs[0].value)] + tail
  }

  /** A single attribute is kept, as itself, exactly when its name is not reserved. */
  lemma AttributesFromXmlOne(a: XmlAttribute)
    ensures AttributesFromXml([a]) == if Reserved(a.name) then [] else [(a.name, a.value)]
  {
    assert [a][1..] == [];
  }

  /** The attributes are visited in document order, each contributing on its own:
      with the one-attribute case this fixes order and multiplicity of the result. */
  lemma {:induction false} AttributesFromXmlAppend(a: seq<XmlAttribute>, b: seq<XmlAttribute>)
    ensures AttributesFromXml(a + b) == AttributesFromXml(a) + AttributesFromXml(b)
  {
    if |a| == 0 {
      assert a + b == b;
    } else {
      assert (a + b)[0] == a[0];
      assert (a + b)[1..] == a[1..] + b;
      AttributesFromXmlAppend(a[1..], b);
    }
  }

  /** The inner loop of `getDefaultReverseMapping` for one nested table: a sub-key is
      present exactly when its XPath resolved to a defined value. */
  function ResolveGroup(xml: XmlNode, fields: Object<string>, nsPrefix: Option<string>,
                        eval: XPathEvaluator, serialize: Serializer): (g: Object<string>)
    requires DistinctKeys(fields)
    ensures DistinctKeys(g)
    ensures forall j :: 0 <= j < |fields| ==> Get(g, fields[j].0) == ValueFromXPath(xml, fields[j].1, nsPrefix, eval, serialize)
    ensures forall k :: HasKey(g, k) ==> HasKey(fields, k)
    decreases |fields|
  {
    if |fields| == 0 then []
    else
      var init := fields[..|fields| - 1];
      var g := ResolveGroup(xml, init, nsPrefix, eval, serialize);
      var key := fields[|fields| - 1].0;
      assert forall j :: 0 <= j < |init| ==> init[j] == fields[j];
      assert !HasKey(init, key);
      match ValueFromXPath(xml, fields[|fields| - 1].1, nsPrefix, eval, serialize)
      case None => g
      case Some(v) =>
        PutKeys(g, key, v);
        Put(g, key, v)
  }

  /** A dialect's field table as a JavaScript object: distinct keys at both levels. */
  ghost predicate WellFormedTable(table: Object<FieldSpec>) {
    && DistinctKeys(table)
    && forall i :: 0 <= i < |table| ==> (table[i].1.GroupSpec? ==> DistinctKeys(table[i].1.fields))
  }

  /** Among the first `n` table entries, the keys other than `attributes` that made it
      into `obj` sit there in table order. */
  ghost predicate InTableOrder<V>(obj: Object<V>, table: Object<FieldSpec>, n: nat)
    requires n <= |table|
  {
    forall j1, j2 ::
      (0 <= j1 < j2 < n && table[j1].0 != "attributes" && table[j2].0 != "attributes"
       && HasKey(obj, table[j1].0) && HasKey(obj, table[j2].0)) ==>
      KeyIndex(obj, table[j1].0).value < KeyIndex(obj, table[j2].0).value
  }

  /** Assignment never moves a key other than the one assigned. */
  lemma PutKeepsOtherPositions<V>(o: Object<V>, k: string, v: V)
    ensures forall k' :: k' != k ==> KeyIndex(Put(o, k, v), k') == KeyIndex(o, k')
  {
    if HasKey(o, k) {
      SameKeys(o, Put(o, k, v));
    } else {
      AppendNewKey(o, k, v);
    }
  }

  /** Assigning the next table key, new to `obj`, extends table order by one entry. */
  lemma PutNextInOrder<V>(obj: Object<V>, table: Object<FieldSpec>, i: nat, v: V)
    requires i < |table| && DistinctKeys(table)
    requires !HasKey(obj, table[i].0)
    requires InTableOrder(obj, table, i)
    ensures InTableOrder(Put(obj, table[i].0, v), table, i + 1)
  {
    var key := table[i].0;
    var r := Put(obj, key, v);
    AppendNewKey(obj, key, v);
    forall j1, j2 | 0 <= j1 < j2 < i + 1 && table[j1].0 != "attributes" && table[j2].0 != "attributes"
      && HasKey(r, table[j1].0) && HasKey(r, table[j2].0)
      ensures KeyIndex(r, table[j1].0).value < KeyIndex(r, table[j2].0).value
    {
      assert table[j1].0 != key;
      assert KeyIndex(r, table[j1].0) == KeyIndex(obj, table[j1].0);
      if j2 < i {
        assert table[j2].0 != key;
        assert KeyIndex(r, table[j2].0) == KeyIndex(obj, table[j2].0);
      }
    }
  }

  /** What a table entry contributes: a string field always (its value possibly
      undefined), a nested table its resolved group, anything else nothing. */
  function FieldFor(xml: XmlNode, spec: FieldSpec, nsPrefix: Option<string>,
                    eval: XPathEvaluator, serialize: Serializer): Option<Field>
    requires spec.GroupSpec? ==> DistinctKeys(spec.fields)
  {
    match spec
    case XPathField(expr) => Some(Scalar(ValueFromXPath(xml, expr, nsPrefix, eval, serialize)))
    case GroupSpec(fields) => Some(Group(ResolveGroup(xml, fields, nsPrefix, eval, serialize)))
    case IgnoredField => None
  }

  /** One pass of the outer loop of `getDefaultReverseMapping`: a string or an object
      entry assigns its field, anything else leaves the result as it is. */
  function Assign(obj: Object<Field>, key: string, spec: FieldSpec, xml: XmlNode, nsPrefix: Option<string>,
                  eval: XPathEvaluator, serialize: Serializer): Object<Field>
    requires spec.GroupSpec? ==> DistinctKeys(spec.fields)
  {
    match FieldFor(xml, spec, nsPrefix, eval, serialize)
    case None => obj
    case Some(field) => Put(obj, key, field)
  }

  /** What the outer loop has built after the first `i` table entries. */
  ghost predicate Built(obj: Object<Field>, table: Object<FieldSpec>, i: nat, xml: XmlNode, nsPrefix: Option<string>,
                        eval: XPathEvaluator, serialize: Serializer)
    requires WellFormedTable(table) && i <= |table|
  {
    && DistinctKeys(obj)
    && (forall j :: 0 <= j < i ==> Get(obj, table[j].0) == FieldFor(xml, table[j].1, nsPrefix, eval, serialize))
    && (forall k :: HasKey(obj, k) ==> exists j :: 0 <= j < i && table[j].0 == k)
    && InTableOrder(obj, table, i)
  }

  lemma AssignStep(obj: Object<Field>, table: Object<FieldSpec>, i: nat, xml: XmlNode, nsPrefix: Option<string>,
                   eval: XPathEvaluator, serialize: Serializer)
    requires WellFormedTable(table) && i < |table|
    requires Built(obj, table, i, xml, nsPrefix, eval, serialize)
    ensures Built(Assign(obj, table[i].0, table[i].1, xml, nsPrefix, eval, serialize), table, i + 1, xml, nsPrefix, eval, serialize)
  {
    var key := table[i].0;
    assert !HasKey(obj, key);
    match FieldFor(xml, table[i].1, nsPrefix, eval, serialize)
    case None =>
      assert Get(obj, key).None?;
    case Some(field) =>
      PutKeys(obj, key, field);
      PutNextInOrder(obj, table, i, field);
      assert forall j :: 0 <= j < i ==> table[j].0 != key;
  }

  /** What `getDefaultReverseMapping` promises of its result: `attributes` holds the
      node's non-reserved attributes (overriding a custom field of that name); every
      other table key holds what its entry contributes, and only table keys occur; the
      fields keep table order, and `attributes` is last unless the table named it. */
  ghost predicate IsReverseMapping(obj: Object<Field>, xml: XmlNode, custom: Option<Object<FieldSpec>>, nsPrefix: Option<string>,
                                   eval: XPathEvaluator, serialize: Serializer)
    requires custom.Some? ==> WellFormedTable(custom.value)
  {
    && DistinctKeys(obj)
    && Get(obj, "attributes") == Some(Group(AttributesFromXml(xml.attributes)))
    && (custom.Some? ==> forall j :: 0 <= j < |custom.value| && custom.value[j].0 != "attributes" ==>
          Get(obj, custom.value[j].0) == FieldFor(xml, custom.value[j].1, nsPrefix, eval, serialize))
    && (forall k :: HasKey(obj, k) ==> k == "attributes" || (custom.Some? && HasKey(custom.value, k)))
    && (custom.None? || !HasKey(custom.value, "attributes") ==> obj[|obj| - 1].0 == "attributes")
    && (custom.Some? ==> InTableOrder(obj, custom.value, |custom.value|))
  }

  /** The closing `obj.attributes = ...` turns what the loop built into the promised result. */
  lemma AssignAttributes(obj: Object<Field>, xml: XmlNode, custom: Option<Object<FieldSpec>>, nsPrefix: Option<string>,
                         eval: XPathEvaluator, serialize: Serializer)
    requires custom.Some? ==> WellFormedTable(custom.value) && Built(obj, custom.value, |custom.value|, xml, nsPrefix, eval, serialize)
    requires custom.None? ==> obj == []
    ensures IsReverseMapping(Put(obj, "attributes", Group(AttributesFromXml(xml.attributes))), xml, custom, nsPrefix, eval, serialize)
  {
    var attributes := Group(AttributesFromXml(xml.attributes));
    PutKeys(obj, "attributes", attributes);
    PutKeepsOtherPositions(obj, "attributes", attributes);
    if custom.Some? {
      var table := custom.value;
      forall k | HasKey(obj, k)
        ensures HasKey(table, k)
      {
        var j :| 0 <= j < |table| && table[j].0 == k;
      }
    }
  }

  /** `Mapper.getDefaultReverseMapping`. */
  method DefaultReverseMapping(xml: XmlNode, custom: Option<Object<FieldSpec>>, nsPrefix: Option<string>,
                               eval: XPathEvaluator, serialize: Serializer)
    returns (obj: Object<Field>)
    requires custom.Some? ==> WellFormedTable(custom.value)
    ensures IsReverseMapping(obj, xml, custom, nsPrefix, eval, serialize)
  {
    obj := [];
    if custom.Some? {
      var table := custom.value;
      var i := 0;
      while i < |table|
        invariant 0 <= i <= |table|
        invariant Built(obj, table, i, xml, nsPrefix, eval, serialize)
      {
        AssignStep(obj, table, i, xml, nsPrefix, eval, serialize);
        obj := Assign(obj, table[i].0, table[i].1, xml, nsPrefix, eval, serialize);
        i := i + 1;
      }
    }
    AssignAttributes(obj, xml, custom, nsPrefix, eval, serialize);
    obj := Put(obj, "attributes", Group(AttributesFromXml(xml.attributes)));
  }
}
