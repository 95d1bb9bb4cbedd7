/** JavaScript values as they occur in a content entry tree: the entries the
    content store returns are plain objects, arrays and scalars. */
module Json {

  datatype Option<T> = None | Some(value: T)

  /** One JavaScript value. An object keeps its own enumerable properties in
      insertion order; `Undef` is `undefined`. Numbers are integers here. */
  datatype Value =
    | Undef
    | Null
    | Str(s: string)
    | Num(n: int)
    | Bool(b: bool)
    | Arr(items: seq<Value>)
    | Obj(props: seq<(string, Value)>)

  /** JavaScript truthiness, `!!v`. */
  predicate Truthy(v: Value) {
    match v
    case Undef => false
    case Null => false
    case Str(s) => s != ""
    case Num(n) => n != 0
    case Bool(b) => b
    case _ => true
  }

  /** `v == null`, the values `??` and `?.` skip. */
  predicate Nullish(v: Value) {
    v.Undef? || v.Null?
  }

  /** lodash `isObject`: true for arrays and objects alike (and not for null). */
  predicate IsObject(v: Value) {
    v.Arr? || v.Obj?
  }

  /** The strings the `typeof` operator yields for these values. */
  datatype TypeName = UndefinedType | StringType | NumberType | BooleanType | ObjectType

  /** The `typeof` operator (`null` is an "object"). */
  function TypeOf(v: Value): TypeName {
    match v
    case Undef => UndefinedType
    case Str(_) => StringType
    case Num(_) => NumberType
    case Bool(_) => BooleanType
    case _ => ObjectType
  }

  /** Number of nodes of a tree; every recursion over trees decreases it. */
  function Size(v: Value): (n: nat)
    ensures n >= 1
  {
    match v
    case Arr(items) => 1 + ItemsSize(items)
    case Obj(props) => 1 + PropsSize(props)
    case _ => 1
  }

  function ItemsSize(items: seq<Value>): (n: nat)
    ensures forall i :: 0 <= i < |items| ==> Size(items[i]) <= n
    ensures items != [] ==> n > 0
  {
    if items == [] then 0
    else ItemsSize(items[..|items| - 1]) + Size(items[|items| - 1])
  }

  function PropsSize(props: seq<(string, Value)>): (n: nat)
    ensures forall i :: 0 <= i < |props| ==> PropSize(props[i]) <= n
    ensures props != [] ==> n > 0
  {
    if props == [] then 0
    else PropsSize(props[..|props| - 1]) + PropSize(props[|props| - 1])
  }

  function PropSize(p: (string, Value)): (n: nat)
    ensures n == Size(p.1)
  {
    Size(p.1)
  }

  /** The keys of an object, in order (`Object.keys`). */
  function Keys(props: seq<(string, Value)>): (ks: seq<string>)
    ensures |ks| == |props|
    ensures forall i :: 0 <= i < |props| ==> ks[i] == props[i].0
  {
    if props == [] then [] else [props[0].0] + Keys(props[1..])
  }

  lemma KeysConcat(a: seq<(string, Value)>, b: seq<(string, Value)>)
    ensures Keys(a + b) == Keys(a) + Keys(b)
  {
  }

  /** A JavaScript object never holds one key twice. */
  predicate DistinctKeys(props: seq<(string, Value)>) {
    forall i, j :: 0 <= i < j < |props| ==> props[i].0 != props[j].0
  }

  /** Every object in the tree has distinct keys. */
  predicate WF(v: Value)
    decreases Size(v)
  {
    match v
    case Arr(items) => forall i :: 0 <= i < |items| ==> WF(items[i])
    case Obj(props) => DistinctKeys(props) && forall i :: 0 <= i < |props| ==> WF(props[i].1)
    case _ => true
  }

  lemma LookupConcat(a: seq<(string, Value)>, b: seq<(string, Value)>, k: string)
    ensures Lookup(a + b, k) == if k in Keys(a) then Lookup(a, k) else Lookup(b, k)
  {
    if a != [] {
      assert (a + b)[1..] == a[1..] + b;
      LookupConcat(a[1..], b, k);
    } else {
      assert a + b == b;
    }
  }

  /** The own property `k` of an object, if it has one. */
  function Lookup(props: seq<(string, Value)>, k: string): (r: Option<Value>)
    ensures r.Some? <==> k in Keys(props)
  {
    if props == [] then None
    else if props[0].0 == k then Some(props[0].1)
    else Lookup(props[1..], k)
  }

  /** A property found is one of the object's pairs. */
  lemma LookupFound(props: seq<(string, Value)>, k: string) returns (i: nat)
    requires Lookup(props, k).Some?
    ensures i < |props| && props[i] == (k, Lookup(props, k).value)
  {
    if props[0].0 == k {
      i := 0;
    } else {
      i := LookupFound(props[1..], k);
      i := i + 1;
    }
  }

  lemma LookupSmaller(props: seq<(string, Value)>, k: string)
    requires Lookup(props, k).Some?
    ensures Size(Lookup(props, k).value) <= PropsSize(props)
  {
    var i := LookupFound(props, k);
    assert PropSize(props[i]) <= PropsSize(props);
  }

  lemma LookupAt(props: seq<(string, Value)>, i: nat)
    requires DistinctKeys(props) && i < |props|
    ensures Lookup(props, props[i].0) == Some(props[i].1)
  {
    if i > 0 {
      LookupAt(props[1..], i - 1);
    }
  }

  /** Property read `v.k`. Arrays, strings, numbers and booleans have no own
      property under the names read here, so they give `undefined`; reading a
      property of `null` or `undefined` throws, which callers rule out. */
  function Get(v: Value, k: string): Value {
    if v.Obj? && Lookup(v.props, k).Some? then Lookup(v.props, k).value else Undef
  }

  /** A property read from a tree is a smaller tree, or `undefined`. */
  lemma GetSmaller(v: Value, k: string)
    ensures Get(v, k) == Undef || Size(Get(v, k)) < Size(v)
  {
    if v.Obj? && Lookup(v.props, k).Some? {
      LookupSmaller(v.props, k);
    }
  }

  /** The keys an assignment to `k` appends to an object with keys `keys`. */
  function NewKey(keys: seq<string>, k: string): seq<string> {
    if k in keys then [] else [k]
  }

  /** Property assignment `obj[k] = x`: an existing key keeps its place, a new
      key goes last. */
  function Put(props: seq<(string, Value)>, k: string, x: Value): (r: seq<(string, Value)>)
    ensures Keys(r) == Keys(props) + NewKey(Keys(props), k)
  {
    if props == [] then [(k, x)]
    else if props[0].0 == k then [(k, x)] + props[1..]
    else
      var rest := Put(props[1..], k, x);
      assert ([props[0]] + rest)[1..] == rest;
      [props[0]] + rest
  }

  /** After `obj[k] = x`, `obj[k]` is `x` and every other property is as it
      was. */
  lemma PutLookup(props: seq<(string, Value)>, k: string, x: Value)
    ensures Lookup(Put(props, k, x), k) == Some(x)
    ensures forall k' :: k' != k ==> Lookup(Put(props, k, x), k') == Lookup(props, k')
  {
    if props != [] && props[0].0 != k {
      PutLookup(props[1..], k, x);
      var rest := Put(props[1..], k, x);
      assert Put(props, k, x) == [props[0]] + rest;
      assert ([props[0]] + rest)[1..] == rest;
    }
  }

  /** Assigning a property the value it already has changes nothing. */
  lemma {:induction false} PutSame(props: seq<(string, Value)>, k: string)
    requires Lookup(props, k).Some?
    ensures Put(props, k, Lookup(props, k).value) == props
  {
    if props[0].0 != k {
      PutSame(props[1..], k);
      assert [props[0]] + props[1..] == props;
    } else {
      assert [(k, props[0].1)] + props[1..] == props;
    }
  }

  lemma PutDistinct(props: seq<(string, Value)>, k: string, x: Value)
    requires DistinctKeys(props)
    ensures DistinctKeys(Put(props, k, x))
  {
    var r := Put(props, k, x);
    forall i, j | 0 <= i < j < |r| ensures r[i].0 != r[j].0 {
      assert Keys(r)[i] == r[i].0 && Keys(r)[j] == r[j].0;
      if k !in Keys(props) && j == |props| {
        assert r[i].0 == Keys(props)[i];
      }
    }
  }

  /** `Put` keeps the existing keys, in order, as a prefix, and adds at most
      `k`. */
  lemma PutKeys(props: seq<(string, Value)>, k: string, x: Value)
    ensures |props| <= |Put(props, k, x)|
    ensures Keys(Put(props, k, x))[..|props|] == Keys(props)
    ensures forall k' :: k' in Keys(Put(props, k, x)) <==> k' in Keys(props) || k' == k
  {
    var r := Put(props, k, x);
    if k !in Keys(props) {
      assert (Keys(props) + [k])[..|props|] == Keys(props);
    }
  }

  /** Every pair of `Put(props, k, x)` is the new pair or one of `props`. */
  lemma PutElements(props: seq<(string, Value)>, k: string, x: Value, i: nat)
    requires i < |Put(props, k, x)|
    ensures Put(props, k, x)[i] == (k, x) || Put(props, k, x)[i] in props
  {
    if props != [] && props[0].0 != k && i > 0 {
      PutElements(props[1..], k, x, i - 1);
    }
  }

  lemma PutWF(props: seq<(string, Value)>, k: string, x: Value)
    requires WF(Obj(props)) && WF(x)
    ensures WF(Obj(Put(props, k, x)))
  {
    var r := Put(props, k, x);
    PutDistinct(props, k, x);
    forall i | 0 <= i < |r|
      ensures WF(r[i].1)
    {
      PutElements(props, k, x, i);
    }
  }

  /** A property of a well-formed tree is well-formed. */
  lemma GetWF(v: Value, k: string)
    requires WF(v)
    ensures WF(Get(v, k))
  {
    if v.Obj? && Lookup(v.props, k).Some? {
      var i := LookupFound(v.props, k);
    }
  }

  /** `Object.fromEntries(pairs)`: a later pair with a key already present
      replaces the earlier one. */
  function FromEntries(pairs: seq<(string, Value)>): map<string, Value> {
    if pairs == [] then map[]
    else FromEntries(pairs[..|pairs| - 1])[pairs[|pairs| - 1].0 := pairs[|pairs| - 1].1]
  }

  /** The keys of the object built are exactly the keys of the pairs. */
  lemma {:induction false} FromEntriesKeys(pairs: seq<(string, Value)>)
    ensures forall k :: k in FromEntries(pairs) <==> k in Keys(pairs)
  {
    if pairs != [] {
      var n := |pairs| - 1;
      FromEntriesKeys(pairs[..n]);
      KeysConcat(pairs[..n], [pairs[n]]);
      assert pairs[..n] + [pairs[n]] == pairs;
    }
  }

  /** Under a key the object holds the value of the last pair with that
      key. */
  lemma {:induction false} FromEntriesLast(pairs: seq<(string, Value)>, i: nat)
    requires i < |pairs|
    requires forall j :: i < j < |pairs| ==> pairs[j].0 != pairs[i].0
    ensures pairs[i].0 in FromEntries(pairs) && FromEntries(pairs)[pairs[i].0] == pairs[i].1
  {
    var n := |pairs| - 1;
    if i < n {
      FromEntriesLast(pairs[..n], i);
    }
  }

  /** Whatever the object holds under a key comes from a pair with that
      key. */
  lemma {:induction false} FromEntriesFound(pairs: seq<(string, Value)>, k: string) returns (i: nat)
    requires k in FromEntries(pairs)
    ensures i < |pairs| && pairs[i] == (k, FromEntries(pairs)[k])
  {
    var n := |pairs| - 1;
    if pairs[n].0 == k {
      i := n;
    } else {
      i := FromEntriesFound(pairs[..n], k);
    }
  }

  /** `n` holes, read back as `undefined`. */
  function Holes(n: nat): (r: seq<Value>)
    ensures |r| == n && forall i :: 0 <= i < n ==> r[i] == Undef
  {
    seq(n, _ => Undef)
  }

  /** Array element assignment `arr[i] = x`: past the end, the array grows and
      the skipped slots are holes. */
  function SetIndex(items: seq<Value>, i: nat, x: Value): (r: seq<Value>)
    ensures |r| == if i < |items| then |items| else i + 1
    ensures r[i] == x
    ensures forall j :: 0 <= j < |items| && j != i ==> r[j] == items[j]
    ensures forall j :: |items| <= j < i ==> r[j] == Undef
  {
    if i < |items| then items[i := x] else items + Holes(i - |items|) + [x]
  }
}
