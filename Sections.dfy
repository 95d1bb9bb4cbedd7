/** The page-shaping half of utils.ts: the content-type tables, the section
    descriptors `generateSections` builds (utils.ts:76-109) and the page
    query `mapContentfulEntry` returns (utils.ts:111-132). */
module Sections {
  import opened Json
  import DeepTransform

  /** `contentModels` (utils.ts:5-9): the content types rendered as pages. */
  const CustomStaticPage := "customStaticPage"
  const CityPage := "2od8TlD24wIUuaS02qE6q4"
  const SeoPage := "52n1Q7s5yEk46Ie0mI0ew4"
  const ContentModels: seq<string> := [CustomStaticPage, CityPage, SeoPage]

  /** `customSections` (utils.ts:11-13): content-type ids whose section name
      differs from the id. */
  const CustomSections: map<string, string> := map["spHeadingComponent" := "Heading"]

  /** Members every object inherits from `Object.prototype`; indexing the
      alias table with one of them finds the inherited member instead of
      `undefined`. */
  const PrototypeKeys: set<string> := {
    "constructor", "hasOwnProperty", "isPrototypeOf", "propertyIsEnumerable",
    "toLocaleString", "toString", "valueOf", "__proto__", "__defineGetter__",
    "__defineSetter__", "__lookupGetter__", "__lookupSetter__"
  }

  /** The fields copied into a Heading descriptor, in order (utils.ts:94-98). */
  const HeadingFields: seq<string> := ["title", "formatted", "isFrame", "subtitle", "withSubheadline"]

  /** Keys a descriptor for any other section adds to the section's fields. */
  const AddedKeys: set<string> := {"anchorElementId", "name", "sectionName"}

  /** `section.sys.contentType.sys.id`. */
  function ContentTypeId(section: Value): Value {
    Get(Get(Get(Get(section, "sys"), "contentType"), "sys"), "id")
  }

  /** The reads of `section.sys.contentType.sys` reach an object at every step
      (a read from `null` or `undefined` throws). */
  predicate HasContentTypePath(section: Value) {
    !Nullish(Get(section, "sys"))
    && !Nullish(Get(Get(section, "sys"), "contentType"))
    && !Nullish(Get(Get(Get(section, "sys"), "contentType"), "sys"))
  }

  /** An id the alias table can be indexed with as the model reads it: not an
      inherited member's name, and not an array (whose string form could name
      a table entry). */
  predicate SectionIdOk(id: Value) {
    !id.Arr? && !(id.Str? && id.s in PrototypeKeys)
  }

  /** `customSections[id] ?? id` (utils.ts:86-89). */
  function SectionName(id: Value): (r: Value)
    requires SectionIdOk(id)
    ensures r == Str("Heading") <==> id == Str("spHeadingComponent") || id == Str("Heading")
    ensures id != Str("spHeadingComponent") ==> r == id
  {
    if id.Str? && id.s in CustomSections then Str(CustomSections[id.s]) else id
  }

  /** What `generateSections` reads of one section without throwing: the
      section itself, and, when it has fields, the content-type path and an
      object of fields (the declared type of `fields`). */
  predicate SectionOk(section: Value) {
    && !Nullish(section)
    && (Truthy(Get(section, "fields")) ==>
          Get(section, "fields").Obj? && HasContentTypePath(section) && SectionIdOk(ContentTypeId(section)))
  }

  /** The descriptor of a Heading section (utils.ts:91-100). */
  function HeadingDescriptor(name: Value, fields: Value): (r: Value)
    ensures r.Obj?
  {
    Obj([("sectionName", name),
         ("title", Get(fields, "title")),
         ("formatted", Get(fields, "formatted")),
         ("isFrame", Get(fields, "isFrame")),
         ("subtitle", Get(fields, "subtitle")),
         ("withSubheadline", Get(fields, "withSubheadline"))])
  }

  /** The descriptor of any other section, `{...fields, anchorElementId,
      name, sectionName}` (utils.ts:102-107). */
  function MergedDescriptor(name: Value, fields: Value): (r: Value)
    requires fields.Obj?
    ensures r.Obj?
  {
    var withAnchor := Put(fields.props, "anchorElementId", Get(fields, "anchorElementId"));
    var withName := Put(withAnchor, "name", Get(fields, "name"));
    Obj(Put(withName, "sectionName", name))
  }

  /** The callback of `sections.map` (utils.ts:81-108). */
  function Descriptor(section: Value): (r: Value)
    requires SectionOk(section)
    ensures r == Null <==> !Truthy(Get(section, "fields"))
    ensures r != Null ==> r.Obj?
  {
    var fields := Get(section, "fields");
    if !Truthy(fields) then Null
    else
      var name := SectionName(ContentTypeId(section));
      if name == Str("Heading") then HeadingDescriptor(name, fields) else MergedDescriptor(name, fields)
  }

  /** A Heading descriptor has exactly the section name and the five heading
      fields as keys, in that order. */
  lemma HeadingDescriptorKeys(name: Value, fields: Value)
    ensures Keys(HeadingDescriptor(name, fields).props) == ["sectionName"] + HeadingFields
  {
  }

  lemma HeadingDescriptorDistinct(name: Value, fields: Value)
    ensures DistinctKeys(HeadingDescriptor(name, fields).props)
  {
    var r := HeadingDescriptor(name, fields).props;
    assert |r[0].0| == 11 && |r[1].0| == 5 && |r[2].0| == 9;
    assert |r[3].0| == 7 && |r[4].0| == 8 && |r[5].0| == 15;
  }

  /** ... and each heading field is copied from the section's fields. */
  lemma HeadingDescriptorLookup(name: Value, fields: Value)
    ensures Lookup(HeadingDescriptor(name, fields).props, "sectionName") == Some(name)
    ensures forall i :: 0 <= i < |HeadingFields| ==>
      Lookup(HeadingDescriptor(name, fields).props, HeadingFields[i]) == Some(Get(fields, HeadingFields[i]))
  {
    var r := HeadingDescriptor(name, fields).props;
    HeadingDescriptorDistinct(name, fields);
    LookupAt(r, 0);
    forall i | 0 <= i < |HeadingFields|
      ensures Lookup(r, HeadingFields[i]) == Some(Get(fields, HeadingFields[i]))
    {
      assert r[i + 1] == (HeadingFields[i], Get(fields, HeadingFields[i]));
      LookupAt(r, i + 1);
    }
  }

  /** Whichever of the three added keys `keys` lacks, in the order the
      object literal names them. */
  function Missing(keys: seq<string>): seq<string> {
    NewKey(keys, "anchorElementId") + NewKey(keys, "name") + NewKey(keys, "sectionName")
  }

  /** Any other descriptor keeps the section's field keys in their order,
      followed by whichever of `anchorElementId`, `name` and `sectionName`
      they lack, and has no other key. */
  lemma MergedDescriptorKeys(name: Value, fields: Value)
    requires fields.Obj?
    ensures Keys(MergedDescriptor(name, fields).props) == Keys(fields.props) + Missing(Keys(fields.props))
  {
    AddedKeysOrder(fields.props, Get(fields, "anchorElementId"), Get(fields, "name"), name);
  }

  /** Assigning `anchorElementId`, `name` and `sectionName`, in that order,
      appends the ones missing. */
  lemma AddedKeysOrder(props: seq<(string, Value)>, anchor: Value, nm: Value, name: Value)
    ensures Keys(Put(Put(Put(props, "anchorElementId", anchor), "name", nm), "sectionName", name))
            == Keys(props) + NewKey(Keys(props), "anchorElementId") + NewKey(Keys(props), "name")
               + NewKey(Keys(props), "sectionName")
  {
    var keys := Keys(props);
    AppendKey(keys, "anchorElementId", "name");
    AppendKey(keys + NewKey(keys, "anchorElementId"), "name", "sectionName");
    AppendKey(keys, "anchorElementId", "sectionName");
  }

  /** Assigning key `k` leaves another key `k'` as present or absent as it
      was. */
  lemma AppendKey(keys: seq<string>, k: string, k': string)
    requires k != k'
    ensures k' in keys + NewKey(keys, k) <==> k' in keys
  {
  }

  /** ... the three added keys hold the section's anchor id and name and the
      computed section name, which overrides a field of that name; every
      other field is copied unchanged. */
  lemma MergedDescriptorLookup(name: Value, fields: Value)
    requires fields.Obj?
    ensures var r := MergedDescriptor(name, fields).props;
            && Lookup(r, "sectionName") == Some(name)
            && Lookup(r, "anchorElementId") == Some(Get(fields, "anchorElementId"))
            && Lookup(r, "name") == Some(Get(fields, "name"))
            && forall k :: k !in AddedKeys ==> Lookup(r, k) == Lookup(fields.props, k)
  {
    var withAnchor := Put(fields.props, "anchorElementId", Get(fields, "anchorElementId"));
    var withName := Put(withAnchor, "name", Get(fields, "name"));
    PutLookup(fields.props, "anchorElementId", Get(fields, "anchorElementId"));
    PutLookup(withAnchor, "name", Get(fields, "name"));
    PutLookup(withName, "sectionName", name);
  }

  lemma DescriptorWF(section: Value)
    requires SectionOk(section) && WF(section)
    ensures WF(Descriptor(section))
  {
    var fields := Get(section, "fields");
    GetWF(section, "fields");
    if Truthy(fields) {
      var sys := Get(section, "sys");
      GetWF(section, "sys");
      GetWF(sys, "contentType");
      GetWF(Get(sys, "contentType"), "sys");
      GetWF(Get(Get(sys, "contentType"), "sys"), "id");
      var name := SectionName(ContentTypeId(section));
      if name == Str("Heading") {
        HeadingDescriptorWF(name, fields);
      } else {
        MergedDescriptorWF(name, fields);
      }
    }
  }

  lemma HeadingDescriptorWF(name: Value, fields: Value)
    requires WF(name) && WF(fields)
    ensures WF(HeadingDescriptor(name, fields))
  {
    HeadingDescriptorDistinct(name, fields);
    var r := HeadingDescriptor(name, fields).props;
    forall i | 1 <= i < |r|
      ensures WF(r[i].1)
    {
      GetWF(fields, r[i].0);
    }
  }

  lemma MergedDescriptorWF(name: Value, fields: Value)
    requires fields.Obj? && WF(name) && WF(fields)
    ensures WF(MergedDescriptor(name, fields))
  {
    GetWF(fields, "anchorElementId");
    GetWF(fields, "name");
    var withAnchor := Put(fields.props, "anchorElementId", Get(fields, "anchorElementId"));
    PutWF(fields.props, "anchorElementId", Get(fields, "anchorElementId"));
    PutWF(withAnchor, "name", Get(fields, "name"));
    PutWF(Put(withAnchor, "name", Get(fields, "name")), "sectionName", name);
  }

  /** A list `generateSections` maps without throwing: absent, or an array of
      sections it can read. */
  predicate SectionsOk(sections: Value) {
    Truthy(sections) ==> sections.Arr? && forall i :: 0 <= i < |sections.items| ==> SectionOk(sections.items[i])
  }

  /** `generateSections` (utils.ts:76-109): `null` for an absent list,
      otherwise one slot per section, in order, `null` where the section has
      no fields. */
  function GenerateSections(sections: Value): (r: Option<seq<Value>>)
    requires SectionsOk(sections)
    ensures r.None? <==> !Truthy(sections)
    ensures r.Some? ==> |r.value| == |sections.items|
  {
    if !Truthy(sections) then None
    else Some(seq(|sections.items|, i requires 0 <= i < |sections.items| => Descriptor(sections.items[i])))
  }

  /** ... and `null` exactly where the section has no fields. */
  lemma GenerateSectionsNulls(sections: Value, i: nat)
    requires SectionsOk(sections) && Truthy(sections) && i < |sections.items|
    ensures GenerateSections(sections).value[i] == Null <==> !Truthy(Get(sections.items[i], "fields"))
  {
  }

  /** The sections a list stands for; an absent list stands for none. */
  function SectionsOf(sections: Value): seq<Value>
    requires SectionsOk(sections)
  {
    if Truthy(sections) then sections.items else []
  }

  /** What the query holds for one section: its descriptor with undefined
      values stripped, or `null` (kept, since `null` is not `undefined`). */
  function Shaped(section: Value): (r: Value)
    requires SectionOk(section)
    ensures r == Null <==> !Truthy(Get(section, "fields"))
  {
    var d := Descriptor(section);
    if d == Null then Null else DeepTransform.Strip(d)
  }

  /** `entry.fields.urlPath` names a page `mapContentfulEntry` builds. */
  predicate Publishes(urlPath: Value) {
    Truthy(urlPath) && urlPath != Str("/home")
  }

  /** What `mapContentfulEntry` reads without throwing: the entry's fields, and
      for a published path both section lists. */
  predicate EntryOk(entry: Value) {
    && !Nullish(Get(entry, "fields"))
    && (Publishes(Get(Get(entry, "fields"), "urlPath")) ==>
          SectionsOk(Get(Get(entry, "fields"), "sections")) && SectionsOk(Get(Get(entry, "fields"), "bottomSections")))
  }

  /** `x ?? []` for a generated list. */
  function OrEmpty(generated: Option<seq<Value>>): seq<Value> {
    match generated
    case None => []
    case Some(list) => list
  }

  /** `query.sections` before the strip: the primary list, then the bottom
      list, an absent one read as empty (utils.ts:118-126). */
  function Slots(entry: Value): seq<Value>
    requires EntryOk(entry) && Publishes(Get(Get(entry, "fields"), "urlPath"))
  {
    var fields := Get(entry, "fields");
    var primary := OrEmpty(GenerateSections(Get(fields, "sections")));
    var bottom := if Truthy(Get(fields, "bottomSections")) then OrEmpty(GenerateSections(Get(fields, "bottomSections"))) else [];
    primary + bottom
  }

  /** `mapContentfulEntry` (utils.ts:111-132): `null` for a missing or empty
      path and for the home page; otherwise the query
      `{ sections: [...primary, ...bottom] }` with undefined values stripped. */
  function MapContentfulEntry(entry: Value): (r: Option<Value>)
    requires EntryOk(entry)
    ensures r.None? <==> !Publishes(Get(Get(entry, "fields"), "urlPath"))
    ensures r.Some? ==> r.value.Obj?
  {
    if !Publishes(Get(Get(entry, "fields"), "urlPath")) then None
    else Some(DeepTransform.Strip(Obj([("sections", Arr(Slots(entry)))])))
  }

  /** A generated list, an absent one read as empty, has one slot per
      section: that section's descriptor. */
  lemma GeneratedSlots(sections: Value)
    requires SectionsOk(sections)
    ensures |OrEmpty(GenerateSections(sections))| == |SectionsOf(sections)|
    ensures forall i :: 0 <= i < |SectionsOf(sections)| ==>
              OrEmpty(GenerateSections(sections))[i] == Descriptor(SectionsOf(sections)[i])
  {
  }

  /** The raw sections of a page: the primary list, then the bottom list,
      an absent one read as empty. */
  function PageSections(entry: Value): seq<Value>
    requires EntryOk(entry) && Publishes(Get(Get(entry, "fields"), "urlPath"))
  {
    SectionsOf(Get(Get(entry, "fields"), "sections")) + SectionsOf(Get(Get(entry, "fields"), "bottomSections"))
  }

  /** Slot `i` is the descriptor of page section `i`; none is `undefined`,
      and in a well-formed entry each is well-formed. */
  lemma SlotsShape(entry: Value)
    requires EntryOk(entry) && WF(entry) && Publishes(Get(Get(entry, "fields"), "urlPath"))
    ensures |Slots(entry)| == |PageSections(entry)|
    ensures forall i :: 0 <= i < |Slots(entry)| ==>
              Slots(entry)[i] == Descriptor(PageSections(entry)[i]) && Slots(entry)[i] != Undef && WF(Slots(entry)[i])
  {
    var fields := Get(entry, "fields");
    var ps, bs := Get(fields, "sections"), Get(fields, "bottomSections");
    GetWF(entry, "fields");
    GetWF(fields, "sections");
    GetWF(fields, "bottomSections");
    var pl := OrEmpty(GenerateSections(ps));
    var bl := if Truthy(bs) then OrEmpty(GenerateSections(bs)) else [];
    GeneratedSlots(ps);
    GeneratedSlots(bs);
    var sections := PageSections(entry);
    var slots := Slots(entry);
    assert slots == pl + bl;
    assert |slots| == |sections|;
    forall i | 0 <= i < |slots|
      ensures slots[i] == Descriptor(sections[i]) && slots[i] != Undef && WF(slots[i])
    {
      var section := sections[i];
      assert SectionOk(section) && WF(section);
      DescriptorWF(section);
    }
  }

  /** The query holds the single key `sections`: one slot per page section,
      primary before bottom, each the shaped section of the same position, so
      `null` slots survive the strip. */
  lemma MapContentfulEntrySections(entry: Value)
    requires EntryOk(entry) && WF(entry) && Publishes(Get(Get(entry, "fields"), "urlPath"))
    ensures var query := MapContentfulEntry(entry).value;
            && Keys(query.props) == ["sections"]
            && Get(query, "sections").Arr?
            && |Get(query, "sections").items| == |PageSections(entry)|
            && forall i :: 0 <= i < |PageSections(entry)| ==> Get(query, "sections").items[i] == Shaped(PageSections(entry)[i])
  {
    var slots := Slots(entry);
    SlotsShape(entry);
    DeepTransform.StripArrayWithoutHoles(slots);
    DeepTransform.StripSingleton("sections", Arr(slots));
    var list := DeepTransform.StripEach(slots);
    var query := Obj([("sections", Arr(list))]);
    assert MapContentfulEntry(entry).value == query;
    assert Keys(query.props) == ["sections"];
    assert Get(query, "sections") == Arr(list);
  }

  /** The page sections are the primary list followed by the bottom list. */
  lemma PageSectionsOrder(entry: Value)
    requires EntryOk(entry) && Publishes(Get(Get(entry, "fields"), "urlPath"))
    ensures var primary := SectionsOf(Get(Get(entry, "fields"), "sections"));
            var bottom := SectionsOf(Get(Get(entry, "fields"), "bottomSections"));
            && |PageSections(entry)| == |primary| + |bottom|
            && PageSections(entry)[..|primary|] == primary
            && PageSections(entry)[|primary|..] == bottom
  {
  }
}
