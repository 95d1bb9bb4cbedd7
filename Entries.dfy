/** What pages/preview.tsx knows about entries: the `isEntry` check
    (pages/preview.tsx:20-30), the discovery of the entries an entry's fields
    hold (pages/preview.tsx:32-44) and the static-page allow-list
    (pages/preview.tsx:46-47). */
module Entries {
  import opened Json
  import Sections

  /** `k in v` for the names read here: none of them is inherited from
      `Object.prototype`, and an array has none of them as an own key. */
  predicate Has(v: Value, k: string) {
    v.Obj? && k in Keys(v.props)
  }

  /** `isEntry` (pages/preview.tsx:20-30), conjunct by conjunct. */
  predicate IsEntry(v: Value) {
    && Truthy(v)
    && TypeOf(v) == ObjectType
    && Has(v, "sys")
    && TypeOf(Get(v, "sys")) == ObjectType
    && Truthy(Get(v, "sys"))
    && Has(Get(v, "sys"), "type")
    && Get(Get(v, "sys"), "type") == Str("Entry")
  }

  /** An entry is exactly an object whose `sys` is an object with `type`
      "Entry": arrays, `null` and scalars never are. */
  lemma IsEntryShape(v: Value)
    ensures IsEntry(v) <==> v.Obj? && Get(v, "sys").Obj? && Get(Get(v, "sys"), "type") == Str("Entry")
  {
    if v.Obj? && Get(v, "sys").Obj? && Get(Get(v, "sys"), "type") == Str("Entry") {
      assert Lookup(v.props, "sys").Some?;
      assert Lookup(Get(v, "sys").props, "type").Some?;
    }
  }

  /** What a field value is to the extractor: an entry, a list to look
      into, or anything else. */
  datatype FieldKind = EntryRef | List(items: seq<Value>) | Other

  function Classify(x: Value): FieldKind {
    if IsEntry(x) then EntryRef else if x.Arr? then List(x.items) else Other
  }

  /** No array anywhere in the tree holds `null` or `undefined`: the
      extractor reads `.fields` of every array element it reaches, which
      throws for those. */
  predicate NoNullItems(v: Value)
    decreases Size(v)
  {
    match v
    case Arr(items) => forall i :: 0 <= i < |items| ==> !Nullish(items[i]) && NoNullItems(items[i])
    case Obj(props) => forall i :: 0 <= i < |props| ==> NoNullItems(props[i].1)
    case _ => true
  }

  lemma GetNoNullItems(v: Value, k: string)
    requires NoNullItems(v)
    ensures NoNullItems(Get(v, k))
  {
    if v.Obj? && Lookup(v.props, k).Some? {
      var i := LookupFound(v.props, k);
    }
  }

  /** `extractEntries(v)` (pages/preview.tsx:32-44): nothing without
      fields; otherwise the entries the field values hold, in field order.
      The values of a string are one-character strings and a number or a
      boolean has none, so those contribute nothing. */
  function ExtractEntries(v: Value): (r: seq<Value>)
    requires !Nullish(v) && NoNullItems(v)
    ensures !Truthy(Get(v, "fields")) ==> r == []
    decreases Size(v), 3
  {
    var fields := Get(v, "fields");
    GetSmaller(v, "fields");
    GetNoNullItems(v, "fields");
    if !Truthy(fields) then []
    else if fields.Obj? then FromProps(fields.props)
    else if fields.Arr? then FromItems(fields.items)
    else []
  }

  /** `Object.values(fields).map(callback).flat()` for an object. */
  function FromProps(props: seq<(string, Value)>): seq<Value>
    requires forall i :: 0 <= i < |props| ==> NoNullItems(props[i].1)
    decreases PropsSize(props), 2
  {
    if props == [] then []
    else
      var n := |props| - 1;
      assert forall i :: 0 <= i < n ==> props[..n][i] == props[i];
      FromProps(props[..n]) + FromValue(props[n].1)
  }

  /** The same for fields that are an array: its elements are the values. */
  function FromItems(items: seq<Value>): seq<Value>
    requires forall i :: 0 <= i < |items| ==> NoNullItems(items[i])
    decreases ItemsSize(items), 2
  {
    if items == [] then []
    else
      var n := |items| - 1;
      assert forall i :: 0 <= i < n ==> items[..n][i] == items[i];
      FromItems(items[..n]) + FromValue(items[n])
  }

  /** The callback of pages/preview.tsx:36-42 for one field value. */
  function FromValue(x: Value): seq<Value>
    requires NoNullItems(x)
    decreases Size(x), 1
  {
    match Classify(x)
    case EntryRef => [x]
    case List(items) => ExtractEach(items)
    case Other => []
  }

  /** `list.map(extractEntries).flat()` (pages/preview.tsx:39): the entries
      found inside each element, in order. */
  function ExtractEach(items: seq<Value>): seq<Value>
    requires forall i :: 0 <= i < |items| ==> !Nullish(items[i]) && NoNullItems(items[i])
    decreases ItemsSize(items), 4
  {
    if items == [] then []
    else
      var n := |items| - 1;
      assert forall i :: 0 <= i < n ==> items[..n][i] == items[i];
      ExtractEach(items[..n]) + ExtractEntries(items[n])
  }

  // ----- what the extractor finds -----

  predicate AllEntries(s: seq<Value>) {
    forall i :: 0 <= i < |s| ==> IsEntry(s[i])
  }

  lemma AllEntriesConcat(a: seq<Value>, b: seq<Value>)
    requires AllEntries(a) && AllEntries(b)
    ensures AllEntries(a + b)
  {
    forall i | 0 <= i < |a + b| ensures IsEntry((a + b)[i]) {
      if i >= |a| {
        assert (a + b)[i] == b[i - |a|];
      }
    }
  }

  /** Everything the extractor returns is an entry (pages/preview.tsx:36). */
  lemma {:induction false} ExtractedAreEntries(v: Value)
    requires !Nullish(v) && NoNullItems(v)
    ensures AllEntries(ExtractEntries(v))
    decreases Size(v), 3
  {
    var fields := Get(v, "fields");
    GetSmaller(v, "fields");
    GetNoNullItems(v, "fields");
    if Truthy(fields) && fields.Obj? {
      FromPropsAreEntries(fields.props);
    } else if Truthy(fields) && fields.Arr? {
      FromItemsAreEntries(fields.items);
    }
  }

  lemma {:induction false} FromPropsAreEntries(props: seq<(string, Value)>)
    requires forall i :: 0 <= i < |props| ==> NoNullItems(props[i].1)
    ensures AllEntries(FromProps(props))
    decreases PropsSize(props), 2
  {
    if props != [] {
      var n := |props| - 1;
      assert forall i :: 0 <= i < n ==> props[..n][i] == props[i];
      FromPropsAreEntries(props[..n]);
      FromValueAreEntries(props[n].1);
      AllEntriesConcat(FromProps(props[..n]), FromValue(props[n].1));
    }
  }

  lemma {:induction false} FromItemsAreEntries(items: seq<Value>)
    requires forall i :: 0 <= i < |items| ==> NoNullItems(items[i])
    ensures AllEntries(FromItems(items))
    decreases ItemsSize(items), 2
  {
    if items != [] {
      var n := |items| - 1;
      assert forall i :: 0 <= i < n ==> items[..n][i] == items[i];
      FromItemsAreEntries(items[..n]);
      FromValueAreEntries(items[n]);
      AllEntriesConcat(FromItems(items[..n]), FromValue(items[n]));
    }
  }

  lemma {:induction false} FromValueAreEntries(x: Value)
    requires NoNullItems(x)
    ensures AllEntries(FromValue(x))
    decreases Size(x), 1
  {
    if !IsEntry(x) && x.Arr? {
      ExtractEachAreEntries(x.items);
    }
  }

  lemma {:induction false} ExtractEachAreEntries(items: seq<Value>)
    requires forall i :: 0 <= i < |items| ==> !Nullish(items[i]) && NoNullItems(items[i])
    ensures AllEntries(ExtractEach(items))
    decreases ItemsSize(items), 4
  {
    if items != [] {
      var n := |items| - 1;
      assert forall i :: 0 <= i < n ==> items[..n][i] == items[i];
      ExtractEachAreEntries(items[..n]);
      ExtractedAreEntries(items[n]);
      AllEntriesConcat(ExtractEach(items[..n]), ExtractEntries(items[n]));
    }
  }

  /** `e` is `v` or sits somewhere inside it, under a property or in a
      list element. */
  predicate Occurs(e: Value, v: Value)
    decreases Size(v)
  {
    || e == v
    || (v.Obj? && exists i :: 0 <= i < |v.props| && Occurs(e, v.props[i].1))
    || (v.Arr? && exists j :: 0 <= j < |v.items| && Occurs(e, v.items[j]))
  }

  /** What sits inside a property of an object sits inside the object. */
  lemma OccursGet(e: Value, v: Value, k: string)
    requires Get(v, k) != Undef && Occurs(e, Get(v, k))
    ensures Occurs(e, v)
  {
    var i := LookupFound(v.props, k);
    assert Occurs(e, v.props[i].1);
  }

  /** Nothing is invented: every entry the extractor returns is found in
      the fields it was given (pages/preview.tsx:33-43). */
  lemma {:induction false} ExtractedOccur(v: Value)
    requires !Nullish(v) && NoNullItems(v)
    ensures forall i :: 0 <= i < |ExtractEntries(v)| ==> Occurs(ExtractEntries(v)[i], Get(v, "fields"))
    decreases Size(v), 3
  {
    var fields := Get(v, "fields");
    GetSmaller(v, "fields");
    GetNoNullItems(v, "fields");
    if Truthy(fields) && fields.Obj? {
      FromPropsOccur(fields.props);
    } else if Truthy(fields) && fields.Arr? {
      FromItemsOccur(fields.items);
    }
  }

  /** Each entry found in a run of fields sits inside one of the field
      values. */
  lemma {:induction false} FromPropsOccur(props: seq<(string, Value)>)
    requires forall i :: 0 <= i < |props| ==> NoNullItems(props[i].1)
    ensures forall i :: 0 <= i < |FromProps(props)| ==> exists k :: 0 <= k < |props| && Occurs(FromProps(props)[i], props[k].1)
    decreases PropsSize(props), 2
  {
    if props != [] {
      var n := |props| - 1;
      var prefix := props[..n];
      assert forall i :: 0 <= i < n ==> prefix[i] == props[i];
      assert FromProps(props) == FromProps(prefix) + FromValue(props[n].1);
      FromPropsOccur(prefix);
      FromValueOccur(props[n].1);
      forall i | 0 <= i < |FromProps(props)| ensures exists k :: 0 <= k < |props| && Occurs(FromProps(props)[i], props[k].1) {
        var e := FromProps(props)[i];
        if i < |FromProps(prefix)| {
          var k :| 0 <= k < |prefix| && Occurs(e, prefix[k].1);
          assert Occurs(e, props[k].1);
        } else {
          assert Occurs(e, props[n].1);
        }
      }
    } else {
      assert FromProps(props) == [];
    }
  }

  /** The same for fields that are an array. */
  lemma {:induction false} FromItemsOccur(items: seq<Value>)
    requires forall i :: 0 <= i < |items| ==> NoNullItems(items[i])
    ensures forall i :: 0 <= i < |FromItems(items)| ==> exists k :: 0 <= k < |items| && Occurs(FromItems(items)[i], items[k])
    decreases ItemsSize(items), 2
  {
    if items != [] {
      var n := |items| - 1;
      var prefix := items[..n];
      assert forall i :: 0 <= i < n ==> prefix[i] == items[i];
      assert FromItems(items) == FromItems(prefix) + FromValue(items[n]);
      FromItemsOccur(prefix);
      FromValueOccur(items[n]);
      forall i | 0 <= i < |FromItems(items)| ensures exists k :: 0 <= k < |items| && Occurs(FromItems(items)[i], items[k]) {
        var e := FromItems(items)[i];
        if i < |FromItems(prefix)| {
          var k :| 0 <= k < |prefix| && Occurs(e, prefix[k]);
          assert Occurs(e, items[k]);
        } else {
          assert Occurs(e, items[n]);
        }
      }
    } else {
      assert FromItems(items) == [];
    }
  }

  lemma {:induction false} FromValueOccur(x: Value)
    requires NoNullItems(x)
    ensures forall i :: 0 <= i < |FromValue(x)| ==> Occurs(FromValue(x)[i], x)
    decreases Size(x), 1
  {
    if IsEntry(x) {
      assert FromValue(x) == [x];
    } else if x.Arr? {
      ExtractEachOccur(x.items);
      forall i | 0 <= i < |FromValue(x)| ensures Occurs(FromValue(x)[i], x) {
        var k :| 0 <= k < |x.items| && Occurs(FromValue(x)[i], x.items[k]);
      }
    }
  }

  lemma {:induction false} ExtractEachOccur(items: seq<Value>)
    requires forall i :: 0 <= i < |items| ==> !Nullish(items[i]) && NoNullItems(items[i])
    ensures forall i :: 0 <= i < |ExtractEach(items)| ==> exists k :: 0 <= k < |items| && Occurs(ExtractEach(items)[i], items[k])
    decreases ItemsSize(items), 4
  {
    if items != [] {
      var n := |items| - 1;
      var prefix := items[..n];
      assert forall i :: 0 <= i < n ==> prefix[i] == items[i];
      assert ExtractEach(items) == ExtractEach(prefix) + ExtractEntries(items[n]);
      ExtractEachOccur(prefix);
      ExtractedOccur(items[n]);
      forall i | 0 <= i < |ExtractEach(items)| ensures exists k :: 0 <= k < |items| && Occurs(ExtractEach(items)[i], items[k]) {
        var e := ExtractEach(items)[i];
        if i < |ExtractEach(prefix)| {
          var k :| 0 <= k < |prefix| && Occurs(e, prefix[k]);
          assert Occurs(e, items[k]);
        } else {
          assert Truthy(Get(items[n], "fields"));
          OccursGet(e, items[n], "fields");
          assert Occurs(e, items[n]);
        }
      }
    } else {
      assert ExtractEach(items) == [];
    }
  }

  /** Field order is kept: the entries of two runs of fields are those of
      the first run followed by those of the second. */
  lemma {:induction false} FromPropsConcat(a: seq<(string, Value)>, b: seq<(string, Value)>)
    requires forall i :: 0 <= i < |a| ==> NoNullItems(a[i].1)
    requires forall i :: 0 <= i < |b| ==> NoNullItems(b[i].1)
    ensures forall i :: 0 <= i < |a + b| ==> NoNullItems((a + b)[i].1)
    ensures FromProps(a + b) == FromProps(a) + FromProps(b)
    decreases |b|
  {
    assert forall i :: 0 <= i < |a + b| ==> (a + b)[i] == if i < |a| then a[i] else b[i - |a|];
    if b == [] {
      assert a + b == a;
    } else {
      var n := |b| - 1;
      assert (a + b)[..|a + b| - 1] == a + b[..n];
      assert (a + b)[|a + b| - 1] == b[n];
      assert forall i :: 0 <= i < n ==> b[..n][i] == b[i];
      FromPropsConcat(a, b[..n]);
    }
  }

  /** A field holding an entry contributes that entry and nothing from
      inside it; a field holding a list contributes what the extractor finds
      inside each element, not the elements; anything else contributes
      nothing (pages/preview.tsx:37-41). */
  lemma FromValueCases(x: Value)
    requires NoNullItems(x)
    ensures IsEntry(x) ==> FromValue(x) == [x]
    ensures x.Arr? ==> FromValue(x) == ExtractEach(x.items)
    ensures !IsEntry(x) && !x.Arr? ==> FromValue(x) == []
  {
    IsEntryShape(x);
  }

  /** `isStaticPageEntry` (pages/preview.tsx:46-47): the content type is one
      of `contentModels`' values. */
  predicate IsStaticPageEntry(entry: Value)
    requires Sections.HasContentTypePath(entry)
  {
    var id := Sections.ContentTypeId(entry);
    id.Str? && id.s in Sections.ContentModels
  }

  lemma IsStaticPageEntryIff(entry: Value)
    requires Sections.HasContentTypePath(entry)
    ensures IsStaticPageEntry(entry) <==>
      Sections.ContentTypeId(entry) in {Str(Sections.CustomStaticPage), Str(Sections.CityPage), Str(Sections.SeoPage)}
  {
  }

  /** Nothing is deduplicated: two fields holding the same entry give it
      twice. */
  lemma SameEntryTwice(k1: string, k2: string, e: Value)
    requires IsEntry(e) && NoNullItems(e)
    ensures FromProps([(k1, e), (k2, e)]) == [e, e]
  {
    var props := [(k1, e), (k2, e)];
    assert props[..1] == [(k1, e)];
    assert [(k1, e)][..0] == [];
    FromValueCases(e);
    assert FromProps([(k1, e)]) == [] + [e];
    assert FromProps(props) == FromProps([(k1, e)]) + [e];
  }

  /** A list of entries that hold no fields contributes nothing, although
      every element is an entry. */
  lemma {:induction false} BareEntriesContributeNothing(items: seq<Value>)
    requires forall i :: 0 <= i < |items| ==> !Nullish(items[i]) && NoNullItems(items[i])
    requires forall i :: 0 <= i < |items| ==> !Truthy(Get(items[i], "fields"))
    ensures ExtractEach(items) == []
  {
    if items != [] {
      var n := |items| - 1;
      assert forall i :: 0 <= i < n ==> items[..n][i] == items[i];
      BareEntriesContributeNothing(items[..n]);
    }
  }
}
