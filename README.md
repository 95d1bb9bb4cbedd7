# Contentful preview: content shaping and live-preview reconciliation

This project models the content-shaping core of a Next.js preview app for the
Contentful content store, and proves properties of it in Dafny.

The app takes an entry tree as the content store returns it and does three things with it:

- It normalises URL paths (`makePath`).
- It turns the entry's `sections` and `bottomSections` into render-ready
  section descriptors (`generateSections`, `mapContentfulEntry`). On the way, it
  strips `undefined` values with a recursive key/value rewriter (`deepTransform`).
- On the preview page, it reconciles the live-updated copies of an entry
  (`useEntryPreview`):
  - it discovers the entries nested in the root (`extractEntries`);
  - for a static page, it replaces `sections` and `bottomSections` with the
    localized lists when the all-locales copy has one for the current locale;
  - it indexes the live copies by `sys.id`, where the last copy wins;
  - it rebuilds the root's copy (`reconstructEntry`);
  - it renders a content page only for static-page content types
    (`PreviewableComponent`).

Modules:

- `Json`: JavaScript values (`undefined`, `null`, strings, integers, booleans,
  arrays, objects with their keys in insertion order). It also covers truthiness,
  `typeof`, lodash `isObject`, property read and assignment, array element
  assignment with holes, and `Object.fromEntries`.
- `DeepTransform`: `deepTransform` as a fold specification and as a loop, with
  the strip-`undefined` iterator. A reference definition `Clean` says what the
  strip yields.
- `Paths`: `makePath`, characterised by the slash-free words of its segments.
- `Sections`: `contentModels`, `customSections`, `generateSections` and
  `mapContentfulEntry`.
- `Entries`: `isEntry`, `extractEntries` and `isStaticPageEntry`.
- `Preview`: covers these parts of the hook:
  - the watch list;
  - the locale fallback block, as an in-place method on the live array and as the function specifying it;
  - the live index;
  - `reconstructEntry`;
  - the hook's result;
  - the static-page dispatch.

The live-update hook is not modelled. Its result is an `array` of live copies,
given as a parameter, whose first element is the live root. The all-locales
copy and the locale are parameters too.

Three behaviours of the code a reader might not expect, which the model keeps:

- Nested entries are rebuilt from the copy their parent holds. Only the root is
  looked up in the live index (pages/preview.tsx:102, 116).
- `extractEntries` does not deduplicate (see `Entries.SameEntryTwice`).
- Section lists keep their `null` slots, because `null` is not `undefined`
  (utils.ts:83, 130).

## Model

| member | source | states |
|---|---|---|
| Json.PutLookup | pages/preview.tsx:75-81 | After `obj[k] = x`, reading `k` gives `x` and every other property reads as before |
| Json.PutKeys | utils.ts:102-107 | An assignment keeps the existing keys in order as a prefix and adds at most the assigned key, at the end |
| Json.PutSame | pages/preview.tsx:93-98 | Assigning a property the value it already holds leaves the object equal to the original |
| Json.SetIndex | utils.ts:31 | Array element assignment: the slot holds the value, other slots are kept, and assigning past the end grows the array with holes read as `undefined` |
| Json.FromEntriesKeys | pages/preview.tsx:86-88 | `Object.fromEntries` has a key exactly for the keys of its pairs |
| Json.FromEntriesLast | pages/preview.tsx:86-88 | Under a key, `Object.fromEntries` holds the value of the last pair with that key |
| Json.FromEntriesFound | pages/preview.tsx:86-88 | Whatever `Object.fromEntries` holds under a key is the value of one of its pairs with that key |
| DeepTransform.Transform | utils.ts:15-35 | `deepTransform` of an object is an object and of an array is an array, because lodash `transform` keeps the accumulator kind |
| DeepTransform.DeepTransform | utils.ts:22-34 | The pair-by-pair iteration, with one accumulator assignment per kept pair, returns exactly the fold specification `Transform` and leaves its input as it was |
| DeepTransform.TransformPropsKeys | utils.ts:25-29 | A key is in the result if and only if the iterator stores some pair under it; pairs it drops leave no key |
| DeepTransform.TransformPropsValue | utils.ts:29-33 | A kept pair is stored under its returned key with its value transformed recursively (objects and arrays) or kept (scalars), unless a later pair takes that key |
| DeepTransform.StripUndefinedAdmissible | utils.ts:129-131 | The strip-`undefined` iterator returns each pair it keeps unchanged, so `deepTransform` with it terminates |
| DeepTransform.Strip | utils.ts:128-131 | Stripping an object gives an object and stripping an array gives an array |
| DeepTransform.StripSingleton | utils.ts:124-131 | Stripping `{sections: x}` gives `{sections: strip(x)}` |
| DeepTransform.Clean | utils.ts:128-131 | Reference definition: `undefined`, scalars and kinds are kept, and every `undefined`-valued property is removed at every depth |
| DeepTransform.TrimHoles | utils.ts:31 | Only trailing holes are dropped, and what remains is a prefix of the array that does not end in a hole |
| DeepTransform.SetAfterTrim | utils.ts:31 | Assigning just past the end of a trimmed array restores the trimmed holes |
| DeepTransform.StripIsClean | utils.ts:128-131 | On well-formed trees, `deepTransform` with the strip-`undefined` iterator equals the reference `Clean` |
| DeepTransform.StripChildIsClean | utils.ts:31-33 | A stored value, transformed recursively or kept, equals its clean form |
| DeepTransform.StripPropsIsClean | utils.ts:22-34 | The object accumulator after the strip holds exactly the clean pairs, in order |
| DeepTransform.StripItemsIsClean | utils.ts:22-34 | The array accumulator after the strip is the cleaned elements without trailing holes |
| DeepTransform.CleanPropsLookup | utils.ts:128-131 | A cleaned object holds each defined property, cleaned, under its own key, and has no key whose value was `undefined` |
| DeepTransform.CleanNoUndefined | utils.ts:128-131 | No object in a cleaned tree has an `undefined` property |
| DeepTransform.CleanWF | utils.ts:128-131 | Cleaning keeps keys distinct at every depth |
| DeepTransform.CleanIdempotent | utils.ts:128-131 | Cleaning twice equals cleaning once |
| DeepTransform.StripRemovesUndefined | utils.ts:128-131 | After the strip, no object at any depth holds an `undefined` value |
| DeepTransform.StripIdempotent | utils.ts:128-131 | Stripping a stripped tree changes nothing |
| DeepTransform.StripLookup | utils.ts:129-131 | A defined scalar property survives unchanged under its key, an object or array property survives stripped, and an `undefined` one is gone |
| DeepTransform.StripEach | utils.ts:31-33 | Element-wise strip keeps the array length |
| DeepTransform.StripArrayWithoutHoles | utils.ts:22-34 | An array without `undefined` elements keeps its length and order, and each element is stripped in place |
| Paths.Split | utils.ts:42 | `split("/")` gives at least one piece, and no piece contains a slash |
| Paths.NonEmpty | utils.ts:42-44 | `filter(Boolean)` keeps only non-empty pieces taken from the input |
| Paths.NormalizeAll | utils.ts:41-43 | One normalised segment per input segment |
| Paths.JoinSplit | utils.ts:42 | Joining the pieces of a split gives the string back |
| Paths.SplitJoin | utils.ts:42 | Splitting a join of slash-free pieces gives the pieces back |
| Paths.NormalizeSegmentWords | utils.ts:41-43 | A normalised segment is its slash-free words joined by single slashes |
| Paths.NormalizedWords | utils.ts:40-44 | The non-empty normalised segments join to the words of all segments, and there are none exactly when there are no words |
| Paths.MakePathWords | utils.ts:37-46 | `makePath` is "/" when there are no words, and otherwise "/" + words joined by "/" + "/" |
| Paths.MakePathShape | utils.ts:37-46 | The path starts and ends with "/", never contains "//", and is exactly "/" if and only if every segment consists of slashes only (this includes no segments and empty segments) |
| Paths.WordsOfMakePath | utils.ts:37-46 | The words of the built path are the words of its segments, in order |
| Paths.MakePathIdempotent | utils.ts:37-46 | Applying `makePath` to a built path changes nothing |
| Paths.MakePathOfJoin | utils.ts:40-44 | Inner slashes split a segment exactly as separate segments do |
| Paths.MakePathExample | utils.ts:37-46 | `makePath("a/b")` and `makePath("a", "b")` are both "/a/b/" |
| Paths.WordsEmpty | utils.ts:42 | A string has no words if and only if it consists of slashes only |
| Sections.SectionName | utils.ts:86-89 | The alias table maps `spHeadingComponent` to "Heading", any other id passes through unchanged, and the name is "Heading" exactly for those two ids |
| Sections.HeadingDescriptor | utils.ts:91-100 | A Heading descriptor is an object |
| Sections.HeadingDescriptorKeys | utils.ts:91-100 | A Heading descriptor has exactly the keys sectionName, title, formatted, isFrame, subtitle and withSubheadline, in that order |
| Sections.HeadingDescriptorLookup | utils.ts:91-100 | The descriptor holds the computed section name and each heading field read from the section's fields |
| Sections.HeadingDescriptorDistinct | utils.ts:91-100 | The Heading descriptor's keys are distinct |
| Sections.MergedDescriptor | utils.ts:102-107 | Any other descriptor is an object |
| Sections.MergedDescriptorKeys | utils.ts:102-107 | A non-Heading descriptor keeps every field key in order, followed by whichever of anchorElementId, name and sectionName the fields lack, and has no other key |
| Sections.AddedKeysOrder | utils.ts:104-106 | The three assignments append exactly the missing added keys, in literal order |
| Sections.MergedDescriptorLookup | utils.ts:102-107 | The computed section name overrides a field of that name, anchorElementId and name are read from the fields, and every other field is copied unchanged |
| Sections.Descriptor | utils.ts:81-108 | A section's slot is `null` exactly when the section has no truthy `fields`, and is otherwise an object |
| Sections.DescriptorWF | utils.ts:81-108 | A descriptor of a well-formed section has distinct keys at every depth |
| Sections.GenerateSections | utils.ts:76-109 | `null` exactly for an absent list, and otherwise one slot per section |
| Sections.GenerateSectionsNulls | utils.ts:81-84 | A slot is `null` exactly where its section has no fields |
| Sections.GeneratedSlots | utils.ts:81-122 | Slot `i` of a generated list, with an absent list read as empty, is the descriptor of section `i` |
| Sections.Shaped | utils.ts:125-131 | A shaped section is `null` exactly when the section has no fields, because the strip keeps `null` |
| Sections.MapContentfulEntry | utils.ts:111-132 | `null` exactly when `urlPath` is absent, empty or "/home", and otherwise an object |
| Sections.SlotsShape | utils.ts:118-126 | The unstripped query list has one slot per page section, and each slot is that section's descriptor and is never `undefined` |
| Sections.MapContentfulEntrySections | utils.ts:124-131 | The query has the single key `sections`, holding a list of length |primary| + |bottom|, and each element is the shaped section at the same position, `null` slots included |
| Sections.PageSectionsOrder | utils.ts:120-125 | The page sections are the primary sections followed by the bottom sections, with an absent list counting as empty |
| Entries.IsEntryShape | pages/preview.tsx:20-30 | `isEntry(v)` holds exactly when `v` is an object whose `sys` is an object with `type` "Entry" |
| Entries.ExtractEntries | pages/preview.tsx:32-44 | An entry without truthy fields contributes nothing |
| Entries.ExtractedAreEntries | pages/preview.tsx:32-44 | Every element `extractEntries` returns is an entry |
| Entries.FromPropsAreEntries | pages/preview.tsx:35-43 | The entries found in a run of fields are all entries |
| Entries.FromItemsAreEntries | pages/preview.tsx:35-43 | The entries found in array-valued fields are all entries |
| Entries.FromValueAreEntries | pages/preview.tsx:36-42 | What one field value contributes is all entries |
| Entries.ExtractEachAreEntries | pages/preview.tsx:39 | What the elements of a list contribute is all entries |
| Entries.ExtractedOccur | pages/preview.tsx:32-44 | Nothing is invented: every entry `extractEntries` returns occurs in the fields it was given, as a field value or inside one |
| Entries.FromPropsOccur | pages/preview.tsx:35-43 | Every entry found in a run of fields occurs inside one of the field values |
| Entries.FromItemsOccur | pages/preview.tsx:35-43 | Every entry found in array-valued fields occurs inside one of the elements |
| Entries.FromValueOccur | pages/preview.tsx:36-42 | What one field value contributes occurs inside that value |
| Entries.ExtractEachOccur | pages/preview.tsx:39 | What the elements of a list contribute occurs inside one of the elements |
| Entries.FromPropsConcat | pages/preview.tsx:35-43 | Results follow field order: two runs of fields give the first run's entries followed by the second's |
| Entries.FromValueCases | pages/preview.tsx:37-41 | A field holding an entry contributes exactly that entry, without descending into it; a list contributes what each element holds inside, in order; anything else contributes nothing |
| Entries.IsStaticPageEntryIff | pages/preview.tsx:46-47 | A static page is exactly one of the three `contentModels` content types |
| Entries.SameEntryTwice | pages/preview.tsx:35-43 | Duplicates are not removed: one entry held by two fields is returned twice |
| Entries.BareEntriesContributeNothing | pages/preview.tsx:38-39 | A list of entries without fields contributes nothing, although every element is an entry |
| Preview.WatchList | pages/preview.tsx:60-63 | The watched list starts with the root, and every later element is an entry |
| Preview.ApplyLocaleFallback | pages/preview.tsx:69-83 | The in-place block leaves the live array equal to the fallback function of its old contents |
| Preview.AssignLocalized | pages/preview.tsx:74-82 | The two conditional assignments, run in order, give the fallback fields |
| Preview.WithSectionsLookup | pages/preview.tsx:74-77 | The first assignment sets `sections` to `localizedSections ?? []` exactly when the all-locales list exists for the locale, and changes nothing else |
| Preview.WithBottomSectionsLookup | pages/preview.tsx:79-82 | The second assignment sets `bottomSections` to `localizedBottomSections` exactly when its all-locales list exists for the locale, and changes nothing else |
| Preview.FallbackSections | pages/preview.tsx:74-77 | After the block, `sections` is `localizedSections ?? []` if and only if `localizedSections[locale]` is truthy, and is otherwise unchanged |
| Preview.FallbackBottomSections | pages/preview.tsx:79-82 | After the block, `bottomSections` is `localizedBottomSections` if and only if `localizedBottomSections[locale]` is truthy, and is otherwise unchanged |
| Preview.FallbackOtherFields | pages/preview.tsx:69-83 | No field other than `sections` and `bottomSections` changes |
| Preview.FallbackRootFields | pages/preview.tsx:69-83 | When an assignment runs, the root keeps its keys and its `fields` become the fallback fields |
| Preview.FallbackRootOthers | pages/preview.tsx:69-83 | Every root property but `fields` is kept, and when no assignment runs (not a static page, no all-locales copy, or no locale list) the root is untouched |
| Preview.FallbackRootKeepsSys | pages/preview.tsx:69-83 | The block never changes the root's `sys`, so its id and content type stay |
| Preview.FallbackKeepsIds | pages/preview.tsx:69-88 | Every live copy keeps its id through the block |
| Preview.FallbackKeepsPreviewOk | pages/preview.tsx:69-116 | Ids are kept, and every live copy with the root's id stays rebuildable |
| Preview.FallbackRootRebuildable | pages/preview.tsx:69-83 | The live root stays rebuildable through the block |
| Preview.FallbackFieldsRebuildable | pages/preview.tsx:74-82 | The fallback stores only values taken from the fields, `[]` or `undefined`, so the fields stay rebuildable |
| Preview.LiveIndexKeys | pages/preview.tsx:86-88 | The index has a key exactly for the ids in the live list, and holds under each key a live copy with that id |
| Preview.LiveIndexLastWins | pages/preview.tsx:86-88 | Under each id, the index holds the last live copy with that id |
| Preview.IndexHasRebuildable | pages/preview.tsx:86-116 | If every copy with an id is rebuildable, the index has that id and a rebuildable copy under it |
| Preview.IndexedRoot | pages/preview.tsx:69-116 | After the block, the index has the root's id and holds a rebuildable copy under it |
| Preview.ReconstructIdentity | pages/preview.tsx:90-114 | `reconstructEntry`, with the corrected list callback, is a structural copy: the result equals the input, so keys, field order, scalars and list lengths are kept |
| Preview.RebuildFieldsIdentity | pages/preview.tsx:97-109 | The rebuilt fields have the same keys, order and values |
| Preview.RebuildValueIdentity | pages/preview.tsx:101-107 | The field callback returns an entry rebuilt, a list with its entries rebuilt, and anything else unchanged, all equal to the input |
| Preview.RebuildEachIdentity | pages/preview.tsx:103-104 | With the corrected element callback, a list comes back unchanged, scalars included |
| Preview.Chars | pages/preview.tsx:94 | A string spreads into one property per character |
| Preview.Spread | pages/preview.tsx:93-95 | Spreading a non-object gives an object with one property per character of a string, one per element of a list, and none for a number or boolean |
| Preview.ReconstructListItem | pages/preview.tsx:104 | `reconstructEntry` as written, applied to any list element, returns an object |
| Preview.AsWrittenIdentity | pages/preview.tsx:90-114 | `reconstructEntry` as written, at every depth, returns its input when every list it reaches holds only objects |
| Preview.FieldsAsWrittenIdentity | pages/preview.tsx:97-109 | The fields rebuilt as written keep their keys, order and values when every list below holds only objects |
| Preview.ValueAsWrittenIdentity | pages/preview.tsx:101-107 | The field callback as written returns its input when every list reached holds only objects |
| Preview.MapAsWrittenIdentity | pages/preview.tsx:104 | `list.map(reconstructEntry)` returns a list of objects whose own lists hold only objects unchanged |
| Preview.ListItemObject | pages/preview.tsx:103-104 | On an object element whose lists hold only objects, the callback as written and the corrected callback both return the element |
| Preview.StringListItemMangled | pages/preview.tsx:103-104 | The callback as written turns the list element "ab" into `{0: "a", 1: "b"}`, while the corrected callback keeps it |
| Preview.TagsAsWritten | pages/preview.tsx:103-104 | The field callback as written turns the list `["ab"]` into `[{0: "a", 1: "b"}]` |
| Preview.NestedListItemMangled | pages/preview.tsx:90-114 | `reconstructEntry` as written turns an entry whose `tags` field is `["ab"]` into one whose `tags` is `[{0: "a", 1: "b"}]`, while the corrected rebuild returns the entry unchanged |
| Preview.ReconcileIsLastCopy | pages/preview.tsx:85-116 | With the corrected list callback, the preview is the last live copy with the root's id, taken after the fallback block; it carries the localized lists only when that copy is the live root |
| Preview.UseEntryPreview | pages/preview.tsx:55-118 | The hook leaves the live array as the fallback block leaves it, then indexes the updated array and returns the entry under the root's id, rebuilt with the corrected list callback |
| Preview.Dispatch | pages/preview.tsx:126-157 | A content page is rendered if and only if the preview is a static page, always with path "/" |
| Preview.DispatchSections | pages/preview.tsx:144-157 | A published static page renders one section per page section, each shaped as `mapContentfulEntry` shapes it; an unpublished one renders `[]` |

## Left out

- `getClient` (utils.ts:53-74) and `getServerSideProps` (pages/preview.tsx:176-224) are left out: they read environment variables, talk to the network and construct the SDK client. The fetched entry, the all-locales copy and the locale are parameters.
- `useContentfulLiveUpdates`, `useMemo`, `ContentfulLivePreviewProvider` and the page wrapper are left out: they are React and SDK internals. The live list is an array parameter, and re-running on updates is not modelled.
- The rendered components (`ContentPage`, `Heading`, `Container`) are left out. Rendering stops at the `View` value: the page path and the `sections` prop.
- Numbers are integers. Floating point, `NaN` and `-0` are not modelled.
- Property keys are kept in insertion order. JavaScript lists integer-like keys first; no field name here is integer-like, except the indices a spread string gets.
- Sharing is not modelled: the live root's fields object is assigned in place, and any other holder of that object would see the change. The model updates the array element, not shared objects.
- Prototype keys are excluded from the alias table by a precondition. With them, "constructor" and similar keys would find an inherited member (utils.ts:87-89).
- Sections.SectionName: requires the id not to be an array, because an array's string form could name a table entry.
- Sections.SectionOk: requires each section to be neither `null` nor `undefined`; the source throws reading `section.fields` (utils.ts:82). When the section's fields are truthy, it also requires a `sys.contentType.sys` path, without which the source throws at utils.ts:88.
- Sections.SectionOk: requires truthy `fields` to be an object. This is stronger than the source. A string or list there would be spread into index keys by the merge at utils.ts:103, and a number or boolean would read as having no fields of its own. Neither is modelled.
- Sections.SectionsOk: requires a truthy `sections` or `bottomSections` to be an array. Any other truthy value has no `map` method, and the source throws at utils.ts:81, reached from utils.ts:118-122.
- Sections.EntryOk: requires `entry.fields` to be neither `null` nor `undefined`; the destructuring at utils.ts:112 throws on either.
- DeepTransform.Transform: admits only iterators that return a key of the kind handed in and a value no larger than the one handed in, so that the recursion ends. The strip iterator is such an iterator.
- Entries.ExtractEntries: requires no array anywhere in the tree to hold `null` or `undefined`. The source throws only for such elements in lists it actually descends into, so this is stronger than needed.
- Preview.FallbackOk: requires the fields of the all-locales copy to be present when the block applies, and the live root's fields to be an object when an assignment runs. Otherwise the source throws.
- Preview.Reconstruct: requires fields that are present to be an object. A string or list as `fields` would be spread into index keys, and this is not modelled.
- Preview.PreviewOk: requires every live copy's id to be a string. A non-string id would be converted to a string key by `Object.fromEntries`.
- Preview.PreviewOk: requires the root's id among the live ids, since otherwise the source calls `reconstructEntry` on `undefined`. It also requires every live copy with that id to be rebuildable. This is stronger than needed: the source rebuilds only the last such copy, the one the index holds, and accepts an earlier copy that could not be rebuilt.
- Preview.Dispatch: requires the reconciled entry to have a content-type path. The source reads it unconditionally and throws without it.
- Preview.RebuildEach: models the corrected list callback. The code as written is modelled separately by `Preview.ReconstructAsWritten`; see Findings.
- Preview.Chars: splits a string into Unicode scalar values. JavaScript spreads a string by UTF-16 code unit, so a character outside the Basic Multilingual Plane gives two keys in the source and one in the model.

## Findings

| source | as written | input that shows it | evidently intended | confidence | as-written member | corrected member |
|---|---|---|---|---|---|---|
| pages/preview.tsx:103-104 | Every element of a list field is passed to `reconstructEntry`, which spreads it into an object | An entry whose field holds the list `["ab"]` (a list of tags, say) gets `[{0: "a", 1: "b"}]` there, at any depth, and a `null` element throws | Only entries in a list are rebuilt, and other elements are kept, as the field-level callback does for a field value | medium, not executed | Preview.NestedListItemMangled | Preview.RebuildEachIdentity |
