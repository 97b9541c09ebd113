/** JSON values as the exam utilities see them after `JSON.parse`: numbers
    are JavaScript numbers (reals here; NaN and the infinities never come out
    of JSON), and an object is its own properties in insertion order. A
    property whose value is `undefined` is simply absent. */
module Json {
  import opened Wrappers

  datatype Json =
    | JNull
    | JBool(b: bool)
    | JNum(n: real)
    | JStr(s: string)
    | JArr(items: seq<Json>)
    | JObj(fields: seq<Field>)

  datatype Field = Field(key: string, value: Json)

  /** The keys of an object, in order. */
  function Keys(fs: seq<Field>): (r: seq<string>)
    ensures |r| == |fs|
    ensures forall i | 0 <= i < |fs| :: r[i] == fs[i].key
  {
    seq(|fs|, i requires 0 <= i < |fs| => fs[i].key)
  }

  lemma KeysCons(f: Field, rest: seq<Field>)
    ensures Keys([f] + rest) == [f.key] + Keys(rest)
  {
  }

  /** Property access `obj[k]` on an object's fields: the first field with
      key `k`, or `undefined`. */
  function Lookup(fs: seq<Field>, k: string): (r: Option<Json>)
    ensures r.None? <==> k !in Keys(fs)
    ensures r.Some? ==> exists i | 0 <= i < |fs| :: fs[i] == Field(k, r.value)
  {
    if fs == [] then None
    else if fs[0].key == k then Some(fs[0].value)
    else
      assert Keys(fs) == [fs[0].key] + Keys(fs[1..]);
      var r := Lookup(fs[1..], k);
      assert r.Some? ==> exists i | 0 <= i < |fs[1..]| :: fs[1..][i] == Field(k, r.value);
      r
  }

  /** Property access on any value: only objects have the properties the
      exam code reads. */
  function Get(v: Json, k: string): Option<Json> {
    if v.JObj? then Lookup(v.fields, k) else None
  }

  /** `R.has(k)`: an own property named `k`. */
  predicate Has(v: Json, k: string) {
    v.JObj? && k in Keys(v.fields)
  }

  /** An object literal entry `k: v` whose value may be `undefined`, in which
      case the property is absent. */
  function Prop(k: string, v: Option<Json>): (r: seq<Field>)
    ensures v.None? ==> r == []
    ensures v.Some? ==> r == [Field(k, v.value)]
  {
    if v.None? then [] else [Field(k, v.value)]
  }

  /** An optional number or flag as a JSON value or `undefined`. */
  function NumValue(v: Option<real>): (r: Option<Json>)
    ensures r.Some? <==> v.Some?
    ensures v.Some? ==> r.value == JNum(v.value)
  {
    if v.None? then None else Some(JNum(v.value))
  }

  function BoolValue(v: Option<bool>): (r: Option<Json>)
    ensures r.Some? <==> v.Some?
    ensures v.Some? ==> r.value == JBool(v.value)
  {
    if v.None? then None else Some(JBool(v.value))
  }

  function NumProp(k: string, v: Option<real>): seq<Field> {
    Prop(k, NumValue(v))
  }

  function BoolProp(k: string, v: Option<bool>): seq<Field> {
    Prop(k, BoolValue(v))
  }

  /** A number for which `Number.isInteger(x) && x >= 0` holds. */
  predicate IsNatNumber(x: real) {
    x.Floor as real == x && x >= 0.0
  }

  /** The field lookup steps through a leading field. */
  lemma LookupCons(f: Field, rest: seq<Field>, k: string)
    ensures Lookup([f] + rest, k) == if f.key == k then Some(f.value) else Lookup(rest, k)
  {
    assert ([f] + rest)[1..] == rest;
  }

  /** The field lookup steps through a property that may be `undefined`. */
  lemma LookupProp(k: string, v: Option<Json>, rest: seq<Field>, key: string)
    ensures Lookup(Prop(k, v) + rest, key) == if key == k && v.Some? then v else Lookup(rest, key)
  {
    if v.Some? {
      LookupCons(Field(k, v.value), rest, key);
    } else {
      assert Prop(k, v) + rest == rest;
    }
  }

  /** A property that may be `undefined`, on its own. */
  lemma LookupPropOnly(k: string, v: Option<Json>, key: string)
    ensures Lookup(Prop(k, v), key) == if key == k && v.Some? then v else None
  {
    if v.Some? {
      LookupSingle(Field(k, v.value), key);
    }
  }

  /** A one-field object. */
  lemma LookupSingle(f: Field, key: string)
    ensures Lookup([f], key) == if f.key == key then Some(f.value) else None
  {
    assert [f] + [] == [f];
    LookupCons(f, [], key);
  }

  /** A field appended after the others does not change what any other key
      reads. */
  lemma {:induction false} LookupAppendOther(fs: seq<Field>, f: Field, k: string)
    requires f.key != k
    ensures Lookup(fs + [f], k) == Lookup(fs, k)
  {
    if fs != [] {
      assert (fs + [f])[1..] == fs[1..] + [f];
      LookupAppendOther(fs[1..], f, k);
    }
  }
}
