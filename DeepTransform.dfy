/** `deepTransform` (utils.ts:15-35): rebuilds an object or array pair by pair
    through an iterator that may rename, rewrite or drop each pair, and
    recurses into every stored value that lodash's `isObject` accepts. */
module DeepTransform {
  import opened Json

  /** The key lodash `transform` hands the iterator: a property name for an
      object, a position for an array. */
  datatype Key = Name(name: string) | Index(index: nat)

  type Iterator = (Key, Value) -> Option<(Key, Value)>

  predicate SameKind(k: Key, k': Key) {
    k.Name? == k'.Name?
  }

  /** Iterators this model admits: a returned key is of the kind handed in (a
      name for a name, a position for a position), and a returned value is no
      larger than the value handed in, so the recursion ends. */
  ghost predicate Admissible(iter: Iterator) {
    forall k, x :: iter(k, x).Some? ==> SameKind(k, iter(k, x).value.0) && Size(iter(k, x).value.1) <= Size(x)
  }

  /** What `deepTransform` stores for a kept value (utils.ts:31-33). */
  function Child(x: Value, iter: Iterator): Value
    requires Admissible(iter)
    decreases Size(x), 1
  {
    if IsObject(x) then Transform(x, iter) else x
  }

  /** `deepTransform(v, iter)`: lodash `transform` starts from an empty object
      for an object and from an empty array for an array. */
  function Transform(v: Value, iter: Iterator): (r: Value)
    requires Admissible(iter) && IsObject(v)
    ensures r.Obj? == v.Obj? && IsObject(r)
    decreases Size(v), 0
  {
    if v.Obj? then Obj(TransformProps(v.props, iter)) else Arr(TransformItems(v.items, iter))
  }

  /** The callback lodash `transform` runs for one object pair
      (utils.ts:22-34): drop the pair, or store its rewritten value under the
      returned name. */
  function StepProps(acc: seq<(string, Value)>, p: (string, Value), iter: Iterator): seq<(string, Value)>
    requires Admissible(iter)
    decreases PropSize(p), 2
  {
    match iter(Name(p.0), p.1)
    case None => acc
    case Some((k', x')) => Put(acc, k'.name, Child(x', iter))
  }

  /** The same callback for the array element `x` at position `i`. */
  function StepItems(acc: seq<Value>, i: nat, x: Value, iter: Iterator): seq<Value>
    requires Admissible(iter)
    decreases Size(x), 2
  {
    match iter(Index(i), x)
    case None => acc
    case Some((k', x')) => SetIndex(acc, k'.index, Child(x', iter))
  }

  /** The object accumulator after the pairs of `props`, in order. */
  function TransformProps(props: seq<(string, Value)>, iter: Iterator): seq<(string, Value)>
    requires Admissible(iter)
    decreases PropsSize(props), 3
  {
    if props == [] then []
    else StepProps(TransformProps(props[..|props| - 1], iter), props[|props| - 1], iter)
  }

  /** The array accumulator after the elements of `items`, in order. */
  function TransformItems(items: seq<Value>, iter: Iterator): seq<Value>
    requires Admissible(iter)
    decreases ItemsSize(items), 3
  {
    if items == [] then []
    else StepItems(TransformItems(items[..|items| - 1], iter), |items| - 1, items[|items| - 1], iter)
  }

  lemma PropSizeBound(props: seq<(string, Value)>, i: nat)
    requires i < |props|
    ensures Size(props[i].1) < Size(Obj(props))
  {
    assert PropSize(props[i]) <= PropsSize(props);
  }

  /** The iteration of utils.ts:22-34: one assignment to the accumulator per
      pair the iterator keeps. The input is a value and is left as it is. */
  method DeepTransform(v: Value, iter: Iterator) returns (r: Value)
    requires Admissible(iter) && IsObject(v)
    ensures r == Transform(v, iter)
    decreases Size(v)
  {
    if v.Obj? {
      var props := v.props;
      var acc: seq<(string, Value)> := [];
      for i := 0 to |props|
        invariant acc == TransformProps(props[..i], iter)
      {
        assert props[..i + 1][..i] == props[..i] && props[..i + 1][i] == props[i];
        ghost var before := acc;
        var (k, x) := props[i];
        var pair := iter(Name(k), x);
        if pair.Some? {
          var (k', x') := pair.value;
          var child := x';
          if IsObject(x') {
            PropSizeBound(props, i);
            child := DeepTransform(x', iter);
          }
          acc := Put(acc, k'.name, child);
        }
        assert acc == StepProps(before, props[i], iter);
      }
      assert props[..|props|] == props;
      r := Obj(acc);
    } else {
      var items := v.items;
      var acc: seq<Value> := [];
      for i := 0 to |items|
        invariant acc == TransformItems(items[..i], iter)
      {
        assert items[..i + 1][..i] == items[..i] && items[..i + 1][i] == items[i];
        ghost var before := acc;
        var pair := iter(Index(i), items[i]);
        if pair.Some? {
          var (k', x') := pair.value;
          var child := x';
          if IsObject(x') {
            assert Size(items[i]) <= ItemsSize(items);
            child := DeepTransform(x', iter);
          }
          acc := SetIndex(acc, k'.index, child);
        }
        assert acc == StepItems(before, i, items[i], iter);
      }
      assert items[..|items|] == items;
      r := Arr(acc);
    }
  }

  // ----- what the generic transform keeps -----

  /** The name a pair is stored under, or None when the iterator drops it. */
  function Renamed(iter: Iterator, p: (string, Value)): (r: Option<string>)
    requires Admissible(iter)
  {
    match iter(Name(p.0), p.1)
    case None => None
    case Some((k', _)) => Some(k'.name)
  }

  /** A key is in the result exactly when the iterator stores some pair under
      it; a pair it drops leaves no key behind (utils.ts:25-29). */
  lemma {:induction false} TransformPropsKeys(props: seq<(string, Value)>, iter: Iterator, name: string)
    requires Admissible(iter)
    ensures name in Keys(TransformProps(props, iter)) <==> exists i :: 0 <= i < |props| && Renamed(iter, props[i]) == Some(name)
  {
    if props != [] {
      var n := |props| - 1;
      var prefix := props[..n];
      TransformPropsKeys(prefix, iter, name);
      var acc := TransformProps(prefix, iter);
      var pair := iter(Name(props[n].0), props[n].1);
      var last := Renamed(iter, props[n]) == Some(name);
      if pair.Some? {
        assert TransformProps(props, iter) == Put(acc, pair.value.0.name, Child(pair.value.1, iter));
        assert last <==> name == pair.value.0.name;
      } else {
        assert TransformProps(props, iter) == acc;
        assert !last;
      }
      assert name in Keys(TransformProps(props, iter)) <==> name in Keys(acc) || last;
      var inPrefix := exists i :: 0 <= i < |prefix| && Renamed(iter, prefix[i]) == Some(name);
      var inAll := exists i :: 0 <= i < |props| && Renamed(iter, props[i]) == Some(name);
      if inAll {
        var i :| 0 <= i < |props| && Renamed(iter, props[i]) == Some(name);
        if i < n {
          assert Renamed(iter, prefix[i]) == Some(name);
        }
      }
      if inPrefix {
        var i :| 0 <= i < |prefix| && Renamed(iter, prefix[i]) == Some(name);
        assert Renamed(iter, props[i]) == Some(name);
      }
      assert inAll <==> inPrefix || last;
    }
  }

  /** A kept pair is stored under its returned key, its value rewritten
      recursively, unless a later pair is stored under the same key
      (utils.ts:29-33). */
  lemma {:induction false} TransformPropsValue(props: seq<(string, Value)>, iter: Iterator, i: nat, name: string, x': Value)
    requires Admissible(iter) && i < |props|
    requires iter(Name(props[i].0), props[i].1) == Some((Name(name), x'))
    requires forall j :: i < j < |props| ==> Renamed(iter, props[j]) != Some(name)
    ensures Lookup(TransformProps(props, iter), name) == Some(Child(x', iter))
  {
    var n := |props| - 1;
    var prefix := props[..n];
    var acc := TransformProps(prefix, iter);
    if i < n {
      assert prefix[i] == props[i];
      TransformPropsValue(prefix, iter, i, name, x');
      assert Renamed(iter, props[n]) != Some(name);
    }
    var pair := iter(Name(props[n].0), props[n].1);
    if pair.Some? {
      PutLookup(acc, pair.value.0.name, Child(pair.value.1, iter));
    }
  }

  // ----- the iterator mapContentfulEntry passes -----

  /** `(key, value) => value === undefined ? null : [key, value]`
      (utils.ts:129-131). */
  function StripUndefined(k: Key, x: Value): Option<(Key, Value)> {
    if x == Undef then None else Some((k, x))
  }

  lemma StripUndefinedAdmissible()
    ensures Admissible(StripUndefined)
  {
  }

  /** `deepTransform(v, StripUndefined)`. */
  function Strip(v: Value): (r: Value)
    requires IsObject(v)
    ensures r.Obj? == v.Obj? && IsObject(r)
  {
    StripUndefinedAdmissible();
    Transform(v, StripUndefined)
  }

  /** Stripping a one-property object strips the property's value. */
  lemma StripSingleton(k: string, x: Value)
    requires IsObject(x)
    ensures Strip(Obj([(k, x)])) == Obj([(k, Strip(x))])
  {
    StripUndefinedAdmissible();
    var props := [(k, x)];
    assert props[..0] == [];
    assert TransformProps(props, StripUndefined) == StepProps([], (k, x), StripUndefined);
    assert StepProps([], (k, x), StripUndefined) == Put([], k, Child(x, StripUndefined));
    assert Child(x, StripUndefined) == Strip(x);
  }

  // ----- a reference description of the stripped tree -----

  /** The tree with every `undefined`-valued property removed at every depth.
      In an array a dropped element leaves a hole, read back as `undefined`,
      and holes at the end vanish, as with lodash's array accumulator. */
  function Clean(v: Value): (r: Value)
    ensures r.Undef? == v.Undef? && r.Obj? == v.Obj? && r.Arr? == v.Arr?
    ensures !IsObject(v) ==> r == v
    decreases Size(v), 1
  {
    match v
    case Obj(props) => Obj(CleanProps(props))
    case Arr(items) => Arr(TrimHoles(CleanItems(items)))
    case _ => v
  }

  function CleanProps(props: seq<(string, Value)>): (r: seq<(string, Value)>)
    ensures forall k :: k in Keys(r) ==> k in Keys(props)
    decreases PropsSize(props), 2
  {
    if props == [] then []
    else
      var prefix := props[..|props| - 1];
      var last := props[|props| - 1];
      var kept := if last.1 == Undef then [] else [(last.0, Clean(last.1))];
      CleanPropsKeysStep(CleanProps(prefix), kept, prefix, last);
      CleanProps(prefix) + kept
  }

  lemma CleanPropsKeysStep(c: seq<(string, Value)>, kept: seq<(string, Value)>, prefix: seq<(string, Value)>, last: (string, Value))
    requires forall k :: k in Keys(c) ==> k in Keys(prefix)
    requires forall k :: k in Keys(kept) ==> k == last.0
    ensures forall k :: k in Keys(c + kept) ==> k in Keys(prefix + [last])
  {
    KeysConcat(c, kept);
    KeysConcat(prefix, [last]);
  }

  function CleanItems(items: seq<Value>): (r: seq<Value>)
    ensures |r| == |items|
    decreases ItemsSize(items), 2
  {
    if items == [] then []
    else CleanItems(items[..|items| - 1]) + [Clean(items[|items| - 1])]
  }

  /** Drops the holes at the end of an array. */
  function TrimHoles(items: seq<Value>): (r: seq<Value>)
    ensures |r| <= |items| && r == items[..|r|]
    ensures r == [] || r[|r| - 1] != Undef
    ensures forall j :: |r| <= j < |items| ==> items[j] == Undef
  {
    if items == [] then []
    else if items[|items| - 1] == Undef then TrimHoles(items[..|items| - 1])
    else items
  }

  /** No object, at any depth, has a property whose value is `undefined`. */
  predicate NoUndefinedProperty(v: Value)
    decreases Size(v)
  {
    match v
    case Obj(props) => forall i :: 0 <= i < |props| ==> props[i].1 != Undef && NoUndefinedProperty(props[i].1)
    case Arr(items) => forall i :: 0 <= i < |items| ==> NoUndefinedProperty(items[i])
    case _ => true
  }

  lemma {:induction false} PutNew(props: seq<(string, Value)>, k: string, x: Value)
    requires k !in Keys(props)
    ensures Put(props, k, x) == props + [(k, x)]
  {
    if props != [] {
      PutNew(props[1..], k, x);
    }
  }

  /** Setting the slot just past the end of a trimmed array restores the
      trimmed holes. */
  lemma SetAfterTrim(s: seq<Value>, c: Value)
    requires c != Undef
    ensures SetIndex(TrimHoles(s), |s|, c) == s + [c]
  {
    var t := TrimHoles(s);
    assert SetIndex(t, |s|, c) == t + Holes(|s| - |t|) + [c];
    assert t + Holes(|s| - |t|) == s;
  }

  lemma {:induction false} StripIsClean(v: Value)
    requires WF(v) && IsObject(v)
    ensures Strip(v) == Clean(v)
    decreases Size(v), 0
  {
    StripUndefinedAdmissible();
    if v.Obj? {
      StripPropsIsClean(v.props);
    } else {
      StripItemsIsClean(v.items);
    }
  }

  lemma {:induction false} StripChildIsClean(x: Value)
    requires WF(x) && x != Undef
    ensures (StripUndefinedAdmissible(); Child(x, StripUndefined) == Clean(x))
    decreases Size(x), 1
  {
    StripUndefinedAdmissible();
    if IsObject(x) {
      StripIsClean(x);
    }
  }

  lemma {:induction false} StripPropsIsClean(props: seq<(string, Value)>)
    requires DistinctKeys(props) && forall i :: 0 <= i < |props| ==> WF(props[i].1)
    ensures (StripUndefinedAdmissible(); TransformProps(props, StripUndefined) == CleanProps(props))
    decreases PropsSize(props), 2
  {
    StripUndefinedAdmissible();
    if props != [] {
      var n := |props| - 1;
      var prefix := props[..n];
      var (k, x) := props[n];
      assert forall i :: 0 <= i < n ==> prefix[i] == props[i];
      StripPropsIsClean(prefix);
      if x != Undef {
        var acc := CleanProps(prefix);
        assert k !in Keys(prefix);
        PutNew(acc, k, Child(x, StripUndefined));
        assert Size(x) <= PropsSize(props) by {
          assert PropSize(props[n]) <= PropsSize(props);
        }
        StripChildIsClean(x);
      }
    }
  }

  lemma {:induction false} StripItemsIsClean(items: seq<Value>)
    requires forall i :: 0 <= i < |items| ==> WF(items[i])
    ensures (StripUndefinedAdmissible(); TransformItems(items, StripUndefined) == TrimHoles(CleanItems(items)))
    decreases ItemsSize(items), 2
  {
    StripUndefinedAdmissible();
    if items != [] {
      var n := |items| - 1;
      var prefix := items[..n];
      var x := items[n];
      assert forall i :: 0 <= i < n ==> WF(prefix[i]);
      StripItemsIsClean(prefix);
      var c := CleanItems(prefix);
      var t := TrimHoles(c);
      assert CleanItems(items) == c + [Clean(x)];
      assert TransformItems(items, StripUndefined) == StepItems(t, n, x, StripUndefined);
      if x == Undef {
        assert StepItems(t, n, x, StripUndefined) == t;
        assert (c + [Undef])[..|c|] == c;
      } else {
        assert Size(x) <= ItemsSize(items);
        StripChildIsClean(x);
        assert StepItems(t, n, x, StripUndefined) == SetIndex(t, n, Clean(x));
        SetAfterTrim(c, Clean(x));
      }
    }
  }

  // ----- facts about the reference description -----

  lemma {:induction false} CleanItemsAt(items: seq<Value>, i: nat)
    requires i < |items|
    ensures CleanItems(items)[i] == Clean(items[i])
    decreases |items|
  {
    if i < |items| - 1 {
      CleanItemsAt(items[..|items| - 1], i);
    }
  }

  lemma {:induction false} CleanItemsPrefix(s: seq<Value>, m: nat)
    requires m <= |s|
    ensures CleanItems(s[..m]) == CleanItems(s)[..m]
    decreases |s|
  {
    if m < |s| {
      var s' := s[..|s| - 1];
      assert s[..m] == s'[..m];
      CleanItemsPrefix(s', m);
    } else {
      assert s[..m] == s;
    }
  }

  lemma {:induction false} CleanPropsConcat(a: seq<(string, Value)>, b: seq<(string, Value)>)
    ensures CleanProps(a + b) == CleanProps(a) + CleanProps(b)
    decreases |b|
  {
    if b == [] {
      assert a + b == a;
    } else {
      var n := |b| - 1;
      assert (a + b)[..|a + b| - 1] == a + b[..n];
      assert (a + b)[|a + b| - 1] == b[n];
      CleanPropsConcat(a, b[..n]);
    }
  }

  lemma {:induction false} CleanPropsLookup(props: seq<(string, Value)>, k: string)
    requires DistinctKeys(props)
    ensures Lookup(CleanProps(props), k) ==
      match Lookup(props, k)
      case None => None
      case Some(x) => if x == Undef then None else Some(Clean(x))
  {
    if props != [] {
      var n := |props| - 1;
      var prefix := props[..n];
      var last := props[n];
      var kept := if last.1 == Undef then [] else [(last.0, Clean(last.1))];
      assert CleanProps(props) == CleanProps(prefix) + kept;
      assert props == prefix + [last];
      assert DistinctKeys(prefix);
      CleanPropsLookup(prefix, k);
      LookupConcat(prefix, [last], k);
      LookupConcat(CleanProps(prefix), kept, k);
      if k == last.0 {
        assert k !in Keys(prefix);
      }
    }
  }

  lemma {:induction false} CleanNoUndefined(v: Value)
    ensures NoUndefinedProperty(Clean(v))
    decreases Size(v), 0
  {
    match v
    case Obj(props) =>
      CleanPropsNoUndefined(props);
    case Arr(items) =>
      var c := CleanItems(items);
      var t := TrimHoles(c);
      forall i | 0 <= i < |t|
        ensures NoUndefinedProperty(t[i])
      {
        assert t[i] == c[i];
        CleanItemsAt(items, i);
        assert Size(items[i]) <= ItemsSize(items);
        CleanNoUndefined(items[i]);
      }
    case _ =>
  }

  lemma {:induction false} CleanPropsNoUndefined(props: seq<(string, Value)>)
    ensures forall i :: 0 <= i < |CleanProps(props)| ==> CleanProps(props)[i].1 != Undef && NoUndefinedProperty(CleanProps(props)[i].1)
    decreases PropsSize(props), 1
  {
    if props != [] {
      var n := |props| - 1;
      var (k, x) := props[n];
      CleanPropsNoUndefined(props[..n]);
      if x != Undef {
        assert PropSize(props[n]) <= PropsSize(props);
        CleanNoUndefined(x);
      }
    }
  }

  lemma {:induction false} CleanWF(v: Value)
    requires WF(v)
    ensures WF(Clean(v))
    decreases Size(v), 0
  {
    match v
    case Obj(props) =>
      CleanPropsWF(props);
    case Arr(items) =>
      var c := CleanItems(items);
      var t := TrimHoles(c);
      forall i | 0 <= i < |t|
        ensures WF(t[i])
      {
        assert t[i] == c[i];
        CleanItemsAt(items, i);
        assert Size(items[i]) <= ItemsSize(items);
        CleanWF(items[i]);
      }
    case _ =>
  }

  lemma {:induction false} CleanPropsWF(props: seq<(string, Value)>)
    requires DistinctKeys(props) && forall i :: 0 <= i < |props| ==> WF(props[i].1)
    ensures DistinctKeys(CleanProps(props))
    ensures forall i :: 0 <= i < |CleanProps(props)| ==> WF(CleanProps(props)[i].1)
    decreases PropsSize(props), 1
  {
    if props != [] {
      var n := |props| - 1;
      var prefix := props[..n];
      var last := props[n];
      var c := CleanProps(prefix);
      assert DistinctKeys(prefix);
      assert forall i :: 0 <= i < n ==> WF(prefix[i].1);
      CleanPropsWF(prefix);
      if last.1 != Undef {
        assert PropSize(last) <= PropsSize(props);
        CleanWF(last.1);
        var r := c + [(last.0, Clean(last.1))];
        assert CleanProps(props) == r;
        assert last.0 !in Keys(prefix);
        assert last.0 !in Keys(c);
        forall i, j | 0 <= i < j < |r|
          ensures r[i].0 != r[j].0
        {
          if j == |c| {
            assert r[i].0 == Keys(c)[i];
          }
        }
      } else {
        assert CleanProps(props) == c;
      }
    }
  }

  lemma {:induction false} CleanIdempotent(v: Value)
    ensures Clean(Clean(v)) == Clean(v)
    decreases Size(v), 0
  {
    match v
    case Obj(props) =>
      CleanPropsIdempotent(props);
    case Arr(items) =>
      var c := CleanItems(items);
      var t := TrimHoles(c);
      CleanItemsIdempotent(items);
      CleanItemsPrefix(c, |t|);
      assert CleanItems(t) == t;
    case _ =>
  }

  lemma {:induction false} CleanPropsIdempotent(props: seq<(string, Value)>)
    ensures CleanProps(CleanProps(props)) == CleanProps(props)
    decreases PropsSize(props), 1
  {
    if props != [] {
      var n := |props| - 1;
      var prefix := props[..n];
      var (k, x) := props[n];
      CleanPropsIdempotent(prefix);
      var kept := if x == Undef then [] else [(k, Clean(x))];
      CleanPropsConcat(CleanProps(prefix), kept);
      if x != Undef {
        assert PropSize(props[n]) <= PropsSize(props);
        CleanIdempotent(x);
        assert kept[..0] == [];
      }
    }
  }

  lemma {:induction false} CleanItemsIdempotent(items: seq<Value>)
    ensures CleanItems(CleanItems(items)) == CleanItems(items)
    decreases ItemsSize(items), 1
  {
    if items != [] {
      var n := |items| - 1;
      var c := CleanItems(items);
      CleanItemsIdempotent(items[..n]);
      assert c[..n] == CleanItems(items[..n]);
      assert Size(items[n]) <= ItemsSize(items);
      CleanIdempotent(items[n]);
    }
  }

  // ----- what mapContentfulEntry's strip guarantees -----

  /** After the strip no object, at any depth, holds an `undefined` value. */
  lemma StripRemovesUndefined(v: Value)
    requires WF(v) && IsObject(v)
    ensures NoUndefinedProperty(Strip(v))
  {
    StripIsClean(v);
    CleanNoUndefined(v);
  }

  /** Stripping a stripped tree changes nothing. */
  lemma StripIdempotent(v: Value)
    requires WF(v) && IsObject(v)
    ensures IsObject(Strip(v)) && Strip(Strip(v)) == Strip(v)
  {
    StripIsClean(v);
    CleanWF(v);
    StripIsClean(Clean(v));
    CleanIdempotent(v);
  }

  /** Every defined property survives under its own key: a scalar unchanged,
      an object or array stripped in turn; an `undefined` one is gone. */
  lemma StripLookup(props: seq<(string, Value)>, k: string)
    requires WF(Obj(props))
    ensures Lookup(Strip(Obj(props)).props, k) ==
      match Lookup(props, k)
      case None => None
      case Some(x) => if x == Undef then None else Some(if IsObject(x) then Strip(x) else x)
  {
    StripIsClean(Obj(props));
    CleanPropsLookup(props, k);
    var found := Lookup(props, k);
    if found.Some? && IsObject(found.value) {
      var i := LookupFound(props, k);
      StripIsClean(found.value);
    }
  }

  /** Each element stripped where it stands: an object or array stripped in
      turn, anything else kept. */
  function StripEach(items: seq<Value>): (r: seq<Value>)
    ensures |r| == |items|
  {
    seq(|items|, i requires 0 <= i < |items| => if IsObject(items[i]) then Strip(items[i]) else items[i])
  }

  /** An array without `undefined` elements keeps its length and its order;
      each element is stripped where it stands. */
  lemma StripArrayWithoutHoles(items: seq<Value>)
    requires WF(Arr(items)) && forall i :: 0 <= i < |items| ==> items[i] != Undef
    ensures Strip(Arr(items)) == Arr(StripEach(items))
  {
    StripIsClean(Arr(items));
    var c := CleanItems(items);
    if items != [] {
      CleanItemsAt(items, |items| - 1);
      assert TrimHoles(c) == c;
    }
    forall i | 0 <= i < |items|
      ensures c[i] == StripEach(items)[i]
    {
      CleanItemsAt(items, i);
      if IsObject(items[i]) {
        StripIsClean(items[i]);
      }
    }
  }
}
