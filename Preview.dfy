/** The reconciliation `useEntryPreview` performs in pages/preview.tsx:55-118
    and the dispatch of `PreviewableComponent` (pages/preview.tsx:126-157).
    The live-update hook is outside the model: its result is the `live`
    list handed in, whose first element is the live copy of the root. */
module Preview {
  import opened Json
  import Sections
  import Entries

  /** `Locales` (utils.ts:178-185). */
  datatype Locale = EN | DE | FR | ZH | ES | JA

  function Code(locale: Locale): string {
    match locale
    case EN => "en-US"
    case DE => "de-DE"
    case FR => "fr"
    case ZH => "zh"
    case ES => "es-ES"
    case JA => "ja-JP"
  }

  /** `list?.[locale]`: nothing for an absent list. */
  function AtLocale(list: Value, locale: Locale): Value {
    if Nullish(list) then Undef else Get(list, Code(locale))
  }

  /** `x ?? []`. */
  function OrEmptyList(x: Value): Value {
    if Nullish(x) then Arr([]) else x
  }

  /** The list `useContentfulLiveUpdates` is asked to watch
      (pages/preview.tsx:60-63): the root, then the entries it holds. */
  function WatchList(entry: Value): (r: seq<Value>)
    requires !Nullish(entry) && Entries.NoNullItems(entry)
    ensures |r| >= 1 && r[0] == entry
    ensures forall i :: 1 <= i < |r| ==> Entries.IsEntry(r[i])
  {
    Entries.ExtractedAreEntries(entry);
    [entry] + Entries.ExtractEntries(entry)
  }

  // ----- the locale fallback (pages/preview.tsx:69-83) -----

  /** The all-locales copy holds a list for `locale` under `key`. */
  predicate Overridden(shadowFields: Value, key: string, locale: Locale) {
    Truthy(AtLocale(Get(shadowFields, key), locale))
  }

  /** The first assignment (pages/preview.tsx:74-77). */
  function WithSections(fields: seq<(string, Value)>, shadowFields: Value, locale: Locale): seq<(string, Value)> {
    if Overridden(shadowFields, "localizedSections", locale)
    then Put(fields, "sections", OrEmptyList(Get(Obj(fields), "localizedSections")))
    else fields
  }

  /** The second assignment (pages/preview.tsx:79-82). */
  function WithBottomSections(fields: seq<(string, Value)>, shadowFields: Value, locale: Locale): seq<(string, Value)> {
    if Overridden(shadowFields, "localizedBottomSections", locale)
    then Put(fields, "bottomSections", Get(Obj(fields), "localizedBottomSections"))
    else fields
  }

  /** The two assignments on the live root's fields, in order. */
  function FallbackFields(fields: seq<(string, Value)>, shadowFields: Value, locale: Locale): seq<(string, Value)> {
    WithBottomSections(WithSections(fields, shadowFields, locale), shadowFields, locale)
  }

  /** The block applies to a static page whose all-locales copy arrived. */
  predicate Applies(root: Value, shadow: Value)
    requires Sections.HasContentTypePath(root)
  {
    Entries.IsStaticPageEntry(root) && Truthy(shadow)
  }

  /** The block applies and at least one of its assignments runs. */
  predicate Rewrites(root: Value, shadow: Value, locale: Locale)
    requires Sections.HasContentTypePath(root)
  {
    && Applies(root, shadow)
    && (|| Overridden(Get(shadow, "fields"), "localizedSections", locale)
        || Overridden(Get(shadow, "fields"), "localizedBottomSections", locale))
  }

  /** What the block reads without throwing: the live root's content-type
      path; when the block applies, the all-locales copy's fields; and when
      an assignment runs, an object of fields on the live root to assign
      into. */
  predicate FallbackOk(root: Value, shadow: Value, locale: Locale) {
    && Sections.HasContentTypePath(root)
    && (Applies(root, shadow) ==> !Nullish(Get(shadow, "fields")))
    && (Rewrites(root, shadow, locale) ==> Get(root, "fields").Obj?)
  }

  /** The live root after the block. */
  function FallbackRoot(root: Value, shadow: Value, locale: Locale): (r: Value)
    requires FallbackOk(root, shadow, locale)
  {
    if Rewrites(root, shadow, locale)
    then Obj(Put(root.props, "fields", Obj(FallbackFields(Get(root, "fields").props, Get(shadow, "fields"), locale))))
    else root
  }

  /** The live list after the block: only its first element changes. */
  function Fallback(live: seq<Value>, shadow: Value, locale: Locale): seq<Value>
    requires |live| >= 1 && FallbackOk(live[0], shadow, locale)
  {
    live[0 := FallbackRoot(live[0], shadow, locale)]
  }

  /** The block as the page runs it, assigning into the live root. */
  method ApplyLocaleFallback(live: array<Value>, shadow: Value, locale: Locale)
    requires live.Length >= 1 && FallbackOk(live[0], shadow, locale)
    modifies live
    ensures live[..] == Fallback(old(live[..]), shadow, locale)
  {
    var root := live[0];
    if Rewrites(root, shadow, locale) {
      var fields := AssignLocalized(Get(root, "fields").props, Get(shadow, "fields"), locale);
      root := Obj(Put(root.props, "fields", Obj(fields)));
    }
    live[0] := root;
  }

  /** The two assignments into the live root's fields, one after the
      other. */
  method AssignLocalized(fields: seq<(string, Value)>, shadowFields: Value, locale: Locale) returns (r: seq<(string, Value)>)
    ensures r == FallbackFields(fields, shadowFields, locale)
  {
    r := fields;
    if Overridden(shadowFields, "localizedSections", locale) {
      r := Put(r, "sections", OrEmptyList(Get(Obj(r), "localizedSections")));
    }
    if Overridden(shadowFields, "localizedBottomSections", locale) {
      r := Put(r, "bottomSections", Get(Obj(r), "localizedBottomSections"));
    }
  }

  lemma WithSectionsLookup(fields: seq<(string, Value)>, shadowFields: Value, locale: Locale)
    ensures Lookup(WithSections(fields, shadowFields, locale), "sections") ==
      if Overridden(shadowFields, "localizedSections", locale)
      then Some(OrEmptyList(Get(Obj(fields), "localizedSections")))
      else Lookup(fields, "sections")
    ensures forall k :: k != "sections" ==> Lookup(WithSections(fields, shadowFields, locale), k) == Lookup(fields, k)
  {
    PutLookup(fields, "sections", OrEmptyList(Get(Obj(fields), "localizedSections")));
  }

  lemma WithBottomSectionsLookup(fields: seq<(string, Value)>, shadowFields: Value, locale: Locale)
    ensures Lookup(WithBottomSections(fields, shadowFields, locale), "bottomSections") ==
      if Overridden(shadowFields, "localizedBottomSections", locale)
      then Some(Get(Obj(fields), "localizedBottomSections"))
      else Lookup(fields, "bottomSections")
    ensures forall k :: k != "bottomSections" ==> Lookup(WithBottomSections(fields, shadowFields, locale), k) == Lookup(fields, k)
  {
    PutLookup(fields, "bottomSections", Get(Obj(fields), "localizedBottomSections"));
  }

  /** `sections` becomes `localizedSections ?? []` exactly when the
      all-locales copy has a `localizedSections` list for the locale. */
  lemma FallbackSections(fields: seq<(string, Value)>, shadowFields: Value, locale: Locale)
    ensures Lookup(FallbackFields(fields, shadowFields, locale), "sections") ==
      if Overridden(shadowFields, "localizedSections", locale)
      then Some(OrEmptyList(Get(Obj(fields), "localizedSections")))
      else Lookup(fields, "sections")
  {
    var w := WithSections(fields, shadowFields, locale);
    WithSectionsLookup(fields, shadowFields, locale);
    WithBottomSectionsLookup(w, shadowFields, locale);
    assert |"sections"| != |"bottomSections"|;
  }

  /** `bottomSections` becomes `localizedBottomSections`, read before any
      assignment, exactly when the all-locales copy has a
      `localizedBottomSections` list for the locale. */
  lemma FallbackBottomSections(fields: seq<(string, Value)>, shadowFields: Value, locale: Locale)
    ensures Lookup(FallbackFields(fields, shadowFields, locale), "bottomSections") ==
      if Overridden(shadowFields, "localizedBottomSections", locale)
      then Some(Get(Obj(fields), "localizedBottomSections"))
      else Lookup(fields, "bottomSections")
  {
    var w := WithSections(fields, shadowFields, locale);
    WithSectionsLookup(fields, shadowFields, locale);
    WithBottomSectionsLookup(w, shadowFields, locale);
    assert |"sections"| != |"localizedBottomSections"| && |"sections"| != |"bottomSections"|;
    assert Lookup(w, "localizedBottomSections") == Lookup(fields, "localizedBottomSections");
  }

  /** Every other field is as it was. */
  lemma FallbackOtherFields(fields: seq<(string, Value)>, shadowFields: Value, locale: Locale)
    ensures forall k :: k != "sections" && k != "bottomSections" ==>
      Lookup(FallbackFields(fields, shadowFields, locale), k) == Lookup(fields, k)
  {
    WithSectionsLookup(fields, shadowFields, locale);
    WithBottomSectionsLookup(WithSections(fields, shadowFields, locale), shadowFields, locale);
  }

  /** The block replaces the root's fields object in place: the root keeps
      its keys, and its `fields` become the fallback fields. */
  lemma FallbackRootFields(root: Value, shadow: Value, locale: Locale)
    requires FallbackOk(root, shadow, locale) && Rewrites(root, shadow, locale)
    ensures FallbackRoot(root, shadow, locale).Obj?
    ensures Keys(FallbackRoot(root, shadow, locale).props) == Keys(root.props)
    ensures Get(FallbackRoot(root, shadow, locale), "fields") ==
      Obj(FallbackFields(Get(root, "fields").props, Get(shadow, "fields"), locale))
  {
    var fields := Obj(FallbackFields(Get(root, "fields").props, Get(shadow, "fields"), locale));
    var props := Put(root.props, "fields", fields);
    PutLookup(root.props, "fields", fields);
    assert "fields" in Keys(root.props);
    assert Keys(props) == Keys(root.props) + [];
  }

  /** Every property of the root but `fields` (so its identity and content
      type) is as it was, and without an assignment the root is untouched. */
  lemma FallbackRootOthers(root: Value, shadow: Value, locale: Locale)
    requires FallbackOk(root, shadow, locale)
    ensures !Rewrites(root, shadow, locale) ==> FallbackRoot(root, shadow, locale) == root
    ensures forall k :: k != "fields" ==> Get(FallbackRoot(root, shadow, locale), k) == Get(root, k)
  {
    if Rewrites(root, shadow, locale) {
      PutLookup(root.props, "fields", Obj(FallbackFields(Get(root, "fields").props, Get(shadow, "fields"), locale)));
    }
  }

  // ----- the live index (pages/preview.tsx:86-88) -----

  /** `entry.sys.id`. */
  function EntryId(e: Value): Value {
    Get(Get(e, "sys"), "id")
  }

  /** An entry the index can key: its id is a string. */
  predicate Identified(e: Value) {
    EntryId(e).Str?
  }

  /** `live.map(e => [e.sys.id, e])`. */
  function IdPairs(live: seq<Value>): seq<(string, Value)>
    requires forall i :: 0 <= i < |live| ==> Identified(live[i])
  {
    seq(|live|, i requires 0 <= i < |live| && Identified(live[i]) => (EntryId(live[i]).s, live[i]))
  }

  /** `liveEntryMap`: the live entries keyed by id. */
  function LiveIndex(live: seq<Value>): map<string, Value>
    requires forall i :: 0 <= i < |live| ==> Identified(live[i])
  {
    FromEntries(IdPairs(live))
  }

  /** The index has a key for exactly the ids in the list, and under each
      key one of the entries with that id. */
  lemma LiveIndexKeys(live: seq<Value>, id: string)
    requires forall i :: 0 <= i < |live| ==> Identified(live[i])
    ensures id in LiveIndex(live) <==> exists i :: 0 <= i < |live| && EntryId(live[i]) == Str(id)
    ensures id in LiveIndex(live) ==> exists i :: 0 <= i < |live| && EntryId(live[i]) == Str(id) && LiveIndex(live)[id] == live[i]
  {
    var pairs := IdPairs(live);
    FromEntriesKeys(pairs);
    if id in LiveIndex(live) {
      var i := FromEntriesFound(pairs, id);
      assert pairs[i] == (EntryId(live[i]).s, live[i]);
      assert EntryId(live[i]) == Str(id) && LiveIndex(live)[id] == live[i];
    }
    if exists i :: 0 <= i < |live| && EntryId(live[i]) == Str(id) {
      var i :| 0 <= i < |live| && EntryId(live[i]) == Str(id);
      assert pairs[i] == (EntryId(live[i]).s, live[i]);
      assert Keys(pairs)[i] == id;
    }
  }

  /** Under each id the index holds the last entry with that id. */
  lemma LiveIndexLastWins(live: seq<Value>, i: nat)
    requires forall j :: 0 <= j < |live| ==> Identified(live[j])
    requires i < |live|
    requires forall j :: i < j < |live| ==> EntryId(live[j]) != EntryId(live[i])
    ensures Identified(live[i]) && EntryId(live[i]).s in LiveIndex(live) && LiveIndex(live)[EntryId(live[i]).s] == live[i]
  {
    var pairs := IdPairs(live);
    assert forall j :: i < j < |live| ==> pairs[j].0 != pairs[i].0;
    FromEntriesLast(pairs, i);
  }

  // ----- reconstructEntry (pages/preview.tsx:90-114) -----

  /** What `reconstructEntry` reads without throwing or spreading a
      non-object: an object whose fields, when present, are an object, and
      whose entries, held directly or in a list field, are rebuildable in
      turn. */
  predicate Rebuildable(e: Value)
    decreases Size(e), 0
  {
    && e.Obj?
    && var fields := Get(e, "fields");
       Truthy(fields) ==>
         && fields.Obj?
         && (GetSmaller(e, "fields"); FieldsRebuildable(fields.props))
  }

  predicate FieldsRebuildable(props: seq<(string, Value)>)
    decreases PropsSize(props), 2
  {
    forall i :: 0 <= i < |props| ==> ValueRebuildable(props[i].1)
  }

  predicate ValueRebuildable(x: Value)
    decreases Size(x), 1
  {
    if Entries.IsEntry(x) then Rebuildable(x)
    else if x.Arr? then forall j :: 0 <= j < |x.items| ==> Entries.IsEntry(x.items[j]) ==> Rebuildable(x.items[j])
    else true
  }

  /** `reconstructEntry(e)`: a copy of `e` whose fields, when present, are
      copied with every value rebuilt. */
  function Reconstruct(e: Value): Value
    requires Rebuildable(e)
    decreases Size(e), 0
  {
    var fields := Get(e, "fields");
    if !Truthy(fields) then e
    else
      GetSmaller(e, "fields");
      Obj(Put(e.props, "fields", Obj(RebuildFields(fields.props))))
  }

  /** `{...fields, ...Object.fromEntries(Object.entries(fields).map(f))}`:
      the same keys in the same order, each value rebuilt. */
  function RebuildFields(props: seq<(string, Value)>): seq<(string, Value)>
    requires FieldsRebuildable(props)
    decreases PropsSize(props), 2
  {
    if props == [] then []
    else
      var n := |props| - 1;
      assert forall i :: 0 <= i < n ==> props[..n][i] == props[i];
      RebuildFields(props[..n]) + [(props[n].0, RebuildValue(props[n].1))]
  }

  /** The callback of pages/preview.tsx:101-107: an entry is rebuilt, a
      list has its entries rebuilt, anything else is kept. */
  function RebuildValue(x: Value): Value
    requires ValueRebuildable(x)
    decreases Size(x), 1
  {
    if Entries.IsEntry(x) then Reconstruct(x)
    else if x.Arr? then Arr(RebuildEach(x.items))
    else x
  }

  /** The list case, with the element callback corrected to rebuild only
      entries (see `ReconstructListItem` for the callback as written). */
  function RebuildEach(items: seq<Value>): seq<Value>
    requires forall j :: 0 <= j < |items| ==> Entries.IsEntry(items[j]) ==> Rebuildable(items[j])
    decreases ItemsSize(items), 2
  {
    if items == [] then []
    else
      var n := |items| - 1;
      assert forall j :: 0 <= j < n ==> items[..n][j] == items[j];
      RebuildEach(items[..n]) + [RebuildItem(items[n])]
  }

  /** One list element: an entry is rebuilt, anything else kept. */
  function RebuildItem(x: Value): Value
    requires Entries.IsEntry(x) ==> Rebuildable(x)
    decreases Size(x), 1
  {
    if Entries.IsEntry(x) then Reconstruct(x) else x
  }

  /** The rebuild is a structural copy: the result equals the input, so
      entry keys, field keys and order, scalars and list lengths are all
      kept. */
  lemma {:induction false} ReconstructIdentity(e: Value)
    requires Rebuildable(e)
    ensures Reconstruct(e) == e
    decreases Size(e), 0
  {
    var fields := Get(e, "fields");
    if Truthy(fields) {
      GetSmaller(e, "fields");
      RebuildFieldsIdentity(fields.props);
      PutSame(e.props, "fields");
    }
  }

  lemma {:induction false} RebuildFieldsIdentity(props: seq<(string, Value)>)
    requires FieldsRebuildable(props)
    ensures RebuildFields(props) == props
    decreases PropsSize(props), 2
  {
    if props != [] {
      var n := |props| - 1;
      var prefix, last := props[..n], props[n];
      SplitLast(props);
      SplitLastValue(props);
      SplitLastSize(props);
      assert RebuildFields(props) == RebuildFields(prefix) + [(last.0, RebuildValue(last.1))];
      RebuildFieldsIdentity(prefix);
      RebuildValueIdentity(last.1);
      assert (last.0, RebuildValue(last.1)) == last;
      PrefixLast(props);
    }
  }

  /** A non-empty run of fields is its prefix and its last field, both
      rebuildable. */
  lemma SplitLast(props: seq<(string, Value)>)
    requires props != [] && FieldsRebuildable(props)
    ensures FieldsRebuildable(props[..|props| - 1])
  {
    var n := |props| - 1;
    assert forall i :: 0 <= i < n ==> props[..n][i] == props[i];
  }

  lemma SplitLastValue(props: seq<(string, Value)>)
    requires props != [] && FieldsRebuildable(props)
    ensures ValueRebuildable(props[|props| - 1].1)
  {
  }

  lemma PrefixLast<T>(s: seq<T>)
    requires s != []
    ensures s[..|s| - 1] + [s[|s| - 1]] == s
  {
  }

  lemma SplitLastSize(props: seq<(string, Value)>)
    requires props != []
    ensures PropsSize(props[..|props| - 1]) < PropsSize(props) && Size(props[|props| - 1].1) <= PropsSize(props)
  {
    assert PropSize(props[|props| - 1]) <= PropsSize(props);
  }

  lemma {:induction false} RebuildValueIdentity(x: Value)
    requires ValueRebuildable(x)
    ensures RebuildValue(x) == x
    decreases Size(x), 1
  {
    if Entries.IsEntry(x) {
      ReconstructIdentity(x);
    } else if x.Arr? {
      RebuildEachIdentity(x.items);
    }
  }

  /** With the corrected element callback a list comes back unchanged. */
  lemma {:induction false} RebuildEachIdentity(items: seq<Value>)
    requires forall j :: 0 <= j < |items| ==> Entries.IsEntry(items[j]) ==> Rebuildable(items[j])
    ensures RebuildEach(items) == items
    decreases ItemsSize(items), 2
  {
    if items != [] {
      var n := |items| - 1;
      var last := items[n];
      assert forall j :: 0 <= j < n ==> items[..n][j] == items[j];
      assert RebuildEach(items) == RebuildEach(items[..n]) + [RebuildItem(last)];
      RebuildEachIdentity(items[..n]);
      if Entries.IsEntry(last) {
        ReconstructIdentity(last);
      }
      PrefixLast(items);
    }
  }

  // ----- the list callback as written (pages/preview.tsx:103-104) -----

  /** The decimal form of an array index, as a property key. */
  function IndexKey(i: nat): string {
    if i < 10 then ["0123456789"[i]] else IndexKey(i / 10) + ["0123456789"[i % 10]]
  }

  /** The own enumerable properties of a list: its indices, in order. */
  function Indexed(vs: seq<Value>): seq<(string, Value)> {
    seq(|vs|, i requires 0 <= i < |vs| => (IndexKey(i), vs[i]))
  }

  /** The one-character strings of a string. */
  function Chars(s: string): (r: seq<Value>)
    ensures |r| == |s|
  {
    if s == [] then [] else [Str([s[0]])] + Chars(s[1..])
  }

  /** `{...x}` for a value that is not an object: a string spreads into
      its characters, a list into its elements, a number or a boolean into
      nothing. */
  function Spread(x: Value): (r: Value)
    requires !Nullish(x) && !x.Obj?
    ensures r.Obj? && |r.props| == match x case Str(s) => |s| case Arr(items) => |items| case _ => 0
  {
    match x
    case Str(s) => Obj(Indexed(Chars(s)))
    case Arr(items) => Obj(Indexed(items))
    case _ => Obj([])
  }

  /** What `reconstructEntry` as written reads without throwing: as for
      `Rebuildable`, but every element of a list field is handed to
      `reconstructEntry` too, so none may be `null` or `undefined`, and an
      object element must be readable in turn. */
  predicate WrittenOk(e: Value)
    decreases Size(e), 0
  {
    && e.Obj?
    && var fields := Get(e, "fields");
       Truthy(fields) ==>
         && fields.Obj?
         && (GetSmaller(e, "fields"); WrittenFieldsOk(fields.props))
  }

  predicate WrittenFieldsOk(props: seq<(string, Value)>)
    decreases PropsSize(props), 2
  {
    forall i :: 0 <= i < |props| ==> WrittenValueOk(props[i].1)
  }

  predicate WrittenValueOk(x: Value)
    decreases Size(x), 1
  {
    if Entries.IsEntry(x) then WrittenOk(x)
    else if x.Arr? then forall j :: 0 <= j < |x.items| ==> WrittenItemOk(x.items[j])
    else true
  }

  predicate WrittenItemOk(x: Value)
    decreases Size(x), 1
  {
    !Nullish(x) && (x.Obj? ==> WrittenOk(x))
  }

  /** `reconstructEntry(e)` as written, at every depth. */
  function ReconstructAsWritten(e: Value): Value
    requires WrittenOk(e)
    decreases Size(e), 0
  {
    var fields := Get(e, "fields");
    if !Truthy(fields) then e
    else
      GetSmaller(e, "fields");
      Obj(Put(e.props, "fields", Obj(RebuildFieldsAsWritten(fields.props))))
  }

  function RebuildFieldsAsWritten(props: seq<(string, Value)>): seq<(string, Value)>
    requires WrittenFieldsOk(props)
    decreases PropsSize(props), 3
  {
    if props == [] then []
    else
      var n := |props| - 1;
      assert forall i :: 0 <= i < n ==> props[..n][i] == props[i];
      RebuildFieldsAsWritten(props[..n]) + [(props[n].0, RebuildValueAsWritten(props[n].1))]
  }

  /** The callback of pages/preview.tsx:101-107 as written: an entry is
      rebuilt, and every element of a list is passed to `reconstructEntry`. */
  function RebuildValueAsWritten(x: Value): Value
    requires WrittenValueOk(x)
    decreases Size(x), 2
  {
    if Entries.IsEntry(x) then ReconstructAsWritten(x)
    else if x.Arr? then Arr(MapAsWritten(x.items))
    else x
  }

  /** `list.map(reconstructEntry)`. */
  function MapAsWritten(items: seq<Value>): seq<Value>
    requires forall j :: 0 <= j < |items| ==> WrittenItemOk(items[j])
    decreases ItemsSize(items), 3
  {
    if items == [] then []
    else
      var n := |items| - 1;
      assert forall j :: 0 <= j < n ==> items[..n][j] == items[j];
      MapAsWritten(items[..n]) + [ReconstructListItem(items[n])]
  }

  /** `reconstructEntry` applied to one element of a list field: an object
      is rebuilt; anything else has no `fields`, so it comes back as the
      spread `{...x}`. Whatever the element, the result is an object. */
  function ReconstructListItem(x: Value): (r: Value)
    requires WrittenItemOk(x)
    ensures r.Obj?
    decreases Size(x), 1
  {
    if x.Obj? then ReconstructAsWritten(x) else Spread(x)
  }

  /** Every list reached by the rebuild holds only objects. */
  predicate ObjectLists(e: Value)
    decreases Size(e), 0
  {
    var fields := Get(e, "fields");
    GetSmaller(e, "fields");
    fields.Obj? ==> FieldsObjectLists(fields.props)
  }

  predicate FieldsObjectLists(props: seq<(string, Value)>)
    decreases PropsSize(props), 2
  {
    forall i :: 0 <= i < |props| ==> ValueObjectLists(props[i].1)
  }

  predicate ValueObjectLists(x: Value)
    decreases Size(x), 1
  {
    if Entries.IsEntry(x) then ObjectLists(x)
    else if x.Arr? then forall j :: 0 <= j < |x.items| ==> x.items[j].Obj? && ObjectLists(x.items[j])
    else true
  }

  /** A list element that is an object whose lists hold only objects. */
  predicate ObjectItem(x: Value) {
    x.Obj? && WrittenOk(x) && ObjectLists(x)
  }

  /** Where every list reached holds only objects, `reconstructEntry` as
      written is a structural copy too. */
  lemma {:induction false} AsWrittenIdentity(e: Value)
    requires WrittenOk(e) && ObjectLists(e)
    ensures ReconstructAsWritten(e) == e
    decreases Size(e), 0
  {
    var fields := Get(e, "fields");
    if Truthy(fields) {
      GetSmaller(e, "fields");
      FieldsAsWrittenIdentity(fields.props);
      PutSame(e.props, "fields");
    }
  }

  lemma {:induction false} FieldsAsWrittenIdentity(props: seq<(string, Value)>)
    requires WrittenFieldsOk(props) && FieldsObjectLists(props)
    ensures RebuildFieldsAsWritten(props) == props
    decreases PropsSize(props), 3
  {
    if props != [] {
      var n := |props| - 1;
      var prefix, last := props[..n], props[n];
      WrittenSplitLast(props);
      SplitLastSize(props);
      assert RebuildFieldsAsWritten(props) == RebuildFieldsAsWritten(prefix) + [(last.0, RebuildValueAsWritten(last.1))];
      FieldsAsWrittenIdentity(prefix);
      ValueAsWrittenIdentity(last.1);
      assert (last.0, RebuildValueAsWritten(last.1)) == last;
      PrefixLast(props);
    }
  }

  lemma WrittenSplitLast(props: seq<(string, Value)>)
    requires props != [] && WrittenFieldsOk(props) && FieldsObjectLists(props)
    ensures WrittenFieldsOk(props[..|props| - 1]) && FieldsObjectLists(props[..|props| - 1])
    ensures WrittenValueOk(props[|props| - 1].1) && ValueObjectLists(props[|props| - 1].1)
  {
    var n := |props| - 1;
    assert forall i :: 0 <= i < n ==> props[..n][i] == props[i];
  }

  lemma {:induction false} ValueAsWrittenIdentity(x: Value)
    requires WrittenValueOk(x) && ValueObjectLists(x)
    ensures RebuildValueAsWritten(x) == x
    decreases Size(x), 2
  {
    if Entries.IsEntry(x) {
      AsWrittenIdentity(x);
    } else if x.Arr? {
      MapAsWrittenIdentity(x.items);
    }
  }

  lemma {:induction false} MapAsWrittenIdentity(items: seq<Value>)
    requires forall j :: 0 <= j < |items| ==> WrittenItemOk(items[j]) && ObjectItem(items[j])
    ensures MapAsWritten(items) == items
    decreases ItemsSize(items), 3
  {
    if items != [] {
      var n := |items| - 1;
      var last := items[n];
      assert forall j :: 0 <= j < n ==> items[..n][j] == items[j];
      assert MapAsWritten(items) == MapAsWritten(items[..n]) + [ReconstructListItem(last)];
      MapAsWrittenIdentity(items[..n]);
      AsWrittenIdentity(last);
      PrefixLast(items);
    }
  }

  /** On an object element whose lists hold only objects, the callback as
      written agrees with the corrected one: both return the element. */
  lemma ListItemObject(x: Value)
    requires x.Obj? && WrittenOk(x) && ObjectLists(x) && Rebuildable(x)
    ensures ReconstructListItem(x) == x && RebuildItem(x) == x
  {
    AsWrittenIdentity(x);
    ReconstructIdentity(x);
  }

  /** A list field holding the string "ab" has that element turned into
      the object `{0: "a", 1: "b"}` by the callback as written, where the
      corrected callback keeps the string. */
  lemma StringListItemMangled()
    ensures ReconstructListItem(Str("ab")) == Obj([("0", Str("a")), ("1", Str("b"))])
    ensures RebuildItem(Str("ab")) == Str("ab")
    ensures RebuildValue(Arr([Str("ab")])) == Arr([Str("ab")])
  {
    var chars := Chars("ab");
    assert "ab"[1..] == "b" && "b"[1..] == "";
    assert chars == [Str("a"), Str("b")];
    assert IndexKey(0) == "0" && IndexKey(1) == "1";
    assert Indexed(chars) == [("0", Str("a")), ("1", Str("b"))];
    RebuildValueIdentity(Arr([Str("ab")]));
  }

  /** An entry whose `tags` field is the list `["ab"]`. */
  const TaggedEntry: Value := Obj([("sys", Obj([("type", Str("Entry"))])), ("fields", Obj([("tags", Arr([Str("ab")]))]))])

  /** The same entry with `tags` equal to `[{0: "a", 1: "b"}]`. */
  const TaggedEntryMangled: Value := Obj([("sys", Obj([("type", Str("Entry"))])), ("fields", Obj([("tags", Arr([Obj([("0", Str("a")), ("1", Str("b"))])]))]))])

  lemma TagsAsWritten()
    ensures WrittenValueOk(Arr([Str("ab")]))
    ensures RebuildValueAsWritten(Arr([Str("ab")])) == Arr([Obj([("0", Str("a")), ("1", Str("b"))])])
  {
    StringListItemMangled();
    assert [Str("ab")][..0] == [];
    assert MapAsWritten([Str("ab")]) == MapAsWritten([]) + [ReconstructListItem(Str("ab"))];
  }

  lemma TagFieldsAsWritten()
    ensures WrittenFieldsOk([("tags", Arr([Str("ab")]))])
    ensures RebuildFieldsAsWritten([("tags", Arr([Str("ab")]))]) == [("tags", Arr([Obj([("0", Str("a")), ("1", Str("b"))])]))]
  {
    var fields := [("tags", Arr([Str("ab")]))];
    TagsAsWritten();
    assert fields[..0] == [];
    assert RebuildFieldsAsWritten(fields) == RebuildFieldsAsWritten([]) + [("tags", RebuildValueAsWritten(Arr([Str("ab")])))];
  }

  /** The same one level down: an entry whose `tags` field is the list
      `["ab"]` comes back from `reconstructEntry` as written with `tags`
      equal to `[{0: "a", 1: "b"}]`; the corrected rebuild returns the
      entry unchanged. */
  lemma NestedListItemMangled()
    ensures WrittenOk(TaggedEntry) && Rebuildable(TaggedEntry)
    ensures ReconstructAsWritten(TaggedEntry) == TaggedEntryMangled
    ensures Reconstruct(TaggedEntry) == TaggedEntry
  {
    var fields := [("tags", Arr([Str("ab")]))];
    TaggedEntryFields();
    TagFieldsAsWritten();
    assert !Entries.IsEntry(Arr([Str("ab")]));
    assert FieldsRebuildable(fields);
    ReconstructIdentity(TaggedEntry);
  }

  lemma TaggedEntryFields()
    ensures Get(TaggedEntry, "fields") == Obj([("tags", Arr([Str("ab")]))])
    ensures Put(TaggedEntry.props, "fields", Obj([("tags", Arr([Obj([("0", Str("a")), ("1", Str("b"))])]))])) == TaggedEntryMangled.props
  {
    var e := TaggedEntry;
    var mangled := Obj([("tags", Arr([Obj([("0", Str("a")), ("1", Str("b"))])]))]);
    assert |"sys"| != |"fields"|;
    assert e.props[1..] == [("fields", Obj([("tags", Arr([Str("ab")]))]))];
    assert Lookup(e.props, "fields") == Some(Obj([("tags", Arr([Str("ab")]))]));
    assert Put(e.props, "fields", mangled) == [e.props[0]] + Put(e.props[1..], "fields", mangled);
  }

  // ----- useEntryPreview (pages/preview.tsx:55-118) -----

  /** What the hook needs of its inputs: a live list whose elements all have
      an id, one of them the root's; the fallback block can read the live
      root; and every live copy the lookup may pick can be rebuilt. */
  predicate PreviewOk(entry: Value, live: seq<Value>, shadow: Value, locale: Locale) {
    && |live| >= 1
    && FallbackOk(live[0], shadow, locale)
    && Identified(entry)
    && (forall i :: 0 <= i < |live| ==> Identified(live[i]))
    && (exists i :: 0 <= i < |live| && EntryId(live[i]) == EntryId(entry))
    && (forall i :: 0 <= i < |live| && EntryId(live[i]) == EntryId(entry) ==> Rebuildable(live[i]))
  }

  /** The block keeps every live entry's id. */
  lemma FallbackKeepsIds(live: seq<Value>, shadow: Value, locale: Locale)
    requires |live| >= 1 && FallbackOk(live[0], shadow, locale)
    ensures forall i :: 0 <= i < |live| ==> EntryId(Fallback(live, shadow, locale)[i]) == EntryId(live[i])
  {
    FallbackRootKeepsSys(live[0], shadow, locale);
  }

  /** The block keeps what the rest of the hook relies on: ids, and a live
      root that can be rebuilt. */
  lemma FallbackKeepsPreviewOk(entry: Value, live: seq<Value>, shadow: Value, locale: Locale)
    requires PreviewOk(entry, live, shadow, locale)
    ensures forall i :: 0 <= i < |live| ==> EntryId(Fallback(live, shadow, locale)[i]) == EntryId(live[i])
    ensures forall i :: 0 <= i < |live| && EntryId(Fallback(live, shadow, locale)[i]) == EntryId(entry) ==>
      Rebuildable(Fallback(live, shadow, locale)[i])
  {
    FallbackKeepsIds(live, shadow, locale);
    if EntryId(live[0]) == EntryId(entry) {
      FallbackRootRebuildable(live[0], shadow, locale);
    }
  }

  /** The block never touches the root's `sys`: its id and content type
      stay. */
  lemma FallbackRootKeepsSys(root: Value, shadow: Value, locale: Locale)
    requires FallbackOk(root, shadow, locale)
    ensures Get(FallbackRoot(root, shadow, locale), "sys") == Get(root, "sys")
  {
    FallbackRootOthers(root, shadow, locale);
    assert |"sys"| != |"fields"|;
  }

  /** The live root stays rebuildable: the block only stores values of its
      own fields, `[]` or `undefined`. */
  lemma FallbackRootRebuildable(root: Value, shadow: Value, locale: Locale)
    requires FallbackOk(root, shadow, locale) && Rebuildable(root)
    ensures Rebuildable(FallbackRoot(root, shadow, locale))
  {
    if Rewrites(root, shadow, locale) {
      var fields := Get(root, "fields").props;
      var after := FallbackFields(fields, Get(shadow, "fields"), locale);
      FallbackFieldsRebuildable(fields, Get(shadow, "fields"), locale);
      PutLookup(root.props, "fields", Obj(after));
      assert Get(FallbackRoot(root, shadow, locale), "fields") == Obj(after);
    }
  }

  lemma FallbackFieldsRebuildable(fields: seq<(string, Value)>, shadowFields: Value, locale: Locale)
    requires FieldsRebuildable(fields)
    ensures FieldsRebuildable(FallbackFields(fields, shadowFields, locale))
  {
    var w := WithSections(fields, shadowFields, locale);
    GetRebuildable(fields, "localizedSections");
    PutRebuildable(fields, "sections", OrEmptyList(Get(Obj(fields), "localizedSections")));
    assert FieldsRebuildable(w);
    GetRebuildable(w, "localizedBottomSections");
    PutRebuildable(w, "bottomSections", Get(Obj(w), "localizedBottomSections"));
  }

  lemma GetRebuildable(props: seq<(string, Value)>, k: string)
    requires FieldsRebuildable(props)
    ensures ValueRebuildable(Get(Obj(props), k))
  {
    if Lookup(props, k).Some? {
      var i := LookupFound(props, k);
    }
  }

  lemma PutRebuildable(props: seq<(string, Value)>, k: string, x: Value)
    requires FieldsRebuildable(props)
    requires ValueRebuildable(x)
    ensures FieldsRebuildable(Put(props, k, x))
  {
    forall i | 0 <= i < |Put(props, k, x)|
      ensures ValueRebuildable(Put(props, k, x)[i].1)
    {
      PutElements(props, k, x, i);
    }
  }

  /** The result of `useEntryPreview`: the live list after the fallback
      block, indexed by id, and the entry under the root's id rebuilt
      (pages/preview.tsx:116). */
  function Reconcile(entry: Value, live: seq<Value>, shadow: Value, locale: Locale): Value
    requires PreviewOk(entry, live, shadow, locale)
  {
    var after := Fallback(live, shadow, locale);
    IndexedRoot(entry, live, shadow, locale);
    Reconstruct(LiveIndex(after)[EntryId(entry).s])
  }

  /** After the block the index has the root's id, under it a live copy
      that can be rebuilt. */
  lemma IndexedRoot(entry: Value, live: seq<Value>, shadow: Value, locale: Locale)
    requires PreviewOk(entry, live, shadow, locale)
    ensures forall i :: 0 <= i < |live| ==> Identified(Fallback(live, shadow, locale)[i])
    ensures EntryId(entry).s in LiveIndex(Fallback(live, shadow, locale))
    ensures Rebuildable(LiveIndex(Fallback(live, shadow, locale))[EntryId(entry).s])
  {
    var after := Fallback(live, shadow, locale);
    FallbackKeepsPreviewOk(entry, live, shadow, locale);
    var i :| 0 <= i < |live| && EntryId(live[i]) == EntryId(entry);
    IndexHasRebuildable(after, EntryId(entry), i);
  }

  lemma IndexHasRebuildable(live: seq<Value>, id: Value, i: nat)
    requires forall j :: 0 <= j < |live| ==> Identified(live[j])
    requires i < |live| && EntryId(live[i]) == id
    requires forall j :: 0 <= j < |live| && EntryId(live[j]) == id ==> Rebuildable(live[j])
    ensures id.Str? && id.s in LiveIndex(live) && Rebuildable(LiveIndex(live)[id.s])
  {
    assert Identified(live[i]);
    LiveIndexKeys(live, id.s);
  }

  /** The preview is the last live copy with the root's id, after the
      fallback block: when that copy is the live root, it carries the
      localized lists; a later copy with the same id does not. */
  lemma ReconcileIsLastCopy(entry: Value, live: seq<Value>, shadow: Value, locale: Locale, i: nat)
    requires PreviewOk(entry, live, shadow, locale)
    requires i < |live| && EntryId(live[i]) == EntryId(entry)
    requires forall j :: i < j < |live| ==> EntryId(live[j]) != EntryId(entry)
    ensures Reconcile(entry, live, shadow, locale) ==
      if i == 0 then FallbackRoot(live[0], shadow, locale) else live[i]
  {
    var after := Fallback(live, shadow, locale);
    FallbackKeepsPreviewOk(entry, live, shadow, locale);
    LiveIndexLastWins(after, i);
    ReconstructIdentity(after[i]);
  }

  /** `useEntryPreview` as the page runs it: the block assigns into the live
      list, then the index is built and the root's entry rebuilt. */
  method UseEntryPreview(entry: Value, live: array<Value>, shadow: Value, locale: Locale) returns (r: Value)
    requires PreviewOk(entry, live[..], shadow, locale)
    modifies live
    ensures live[..] == Fallback(old(live[..]), shadow, locale)
    ensures r == Reconcile(entry, old(live[..]), shadow, locale)
  {
    ghost var before := live[..];
    ApplyLocaleFallback(live, shadow, locale);
    IndexedRoot(entry, before, shadow, locale);
    var liveEntryMap := LiveIndex(live[..]);
    r := Reconstruct(liveEntryMap[EntryId(entry).s]);
  }

  // ----- PreviewableComponent (pages/preview.tsx:126-157) -----

  /** What the component renders: nothing, or the content page with its
      path and its `sections` prop. */
  datatype View = Nothing | ContentPage(pagePath: string, sections: Value)

  /** `PreviewableComponent`: a static page renders `ContentPage` with the
      path "/" and the sections of `mapContentfulEntry`, or `[]` when that
      gives `null` (spreading `null` adds no props); anything else renders
      nothing. */
  function Dispatch(preview: Value): (v: View)
    requires Sections.HasContentTypePath(preview)
    requires Entries.IsStaticPageEntry(preview) ==> Sections.EntryOk(preview)
    ensures v.ContentPage? <==> Entries.IsStaticPageEntry(preview)
    ensures v.ContentPage? ==> v.pagePath == "/"
  {
    if Entries.IsStaticPageEntry(preview) then
      match Sections.MapContentfulEntry(preview)
      case None => ContentPage("/", Arr([]))
      case Some(query) => ContentPage("/", Get(query, "sections"))
    else Nothing
  }

  /** A static page with a published path renders one section per page
      section, each shaped as `mapContentfulEntry` shapes it; one without
      renders an empty list. */
  lemma DispatchSections(preview: Value)
    requires Sections.HasContentTypePath(preview) && Entries.IsStaticPageEntry(preview)
    requires Sections.EntryOk(preview) && WF(preview)
    ensures var v := Dispatch(preview);
      && v.ContentPage?
      && (!Sections.Publishes(Get(Get(preview, "fields"), "urlPath")) ==> v.sections == Arr([]))
      && (Sections.Publishes(Get(Get(preview, "fields"), "urlPath")) ==>
            && v.sections.Arr?
            && |v.sections.items| == |Sections.PageSections(preview)|
            && forall i :: 0 <= i < |v.sections.items| ==>
                 v.sections.items[i] == Sections.Shaped(Sections.PageSections(preview)[i]))
  {
    if Sections.Publishes(Get(Get(preview, "fields"), "urlPath")) {
      Sections.MapContentfulEntrySections(preview);
    }
  }
}
