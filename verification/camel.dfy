/** `objectPropertiesToCamel`: the top-level keys of a database row are
    renamed from snake case to camel case, in place. An object is its map of
    own properties together with the order its keys were inserted in, which
    is the order `for…in` visits them. Values are moved, never looked into,
    so nested objects keep their keys. */
module Camel {
  import opened Text

  /** `capitalizeFirstLetter(word)`: `charAt(0)` upper-cased (the empty
      string for an empty word) followed by `slice(1)`. */
  function CapitalizeFirstLetter(word: string): (r: string)
    ensures |r| == |word|
    ensures word != "" ==> r[0] == ToUpper(word[0]) && r[1..] == word[1..]
  {
    if word == "" then "" else [ToUpper(word[0])] + word[1..]
  }

  /** `words.map((word, i) => i > 0 ? capitalizeFirstLetter(word) : word)`;
      with `up` the first word is capitalised too. */
  function CapitalizeLater(words: seq<string>, up: bool): (r: seq<string>)
    ensures |r| == |words|
  {
    seq(|words|, i requires 0 <= i < |words| => if i > 0 || up then CapitalizeFirstLetter(words[i]) else words[i])
  }

  /** `parts.join('')`. */
  function Concat(parts: seq<string>): string {
    if parts == [] then "" else parts[0] + Concat(parts[1..])
  }

  /** `stringToCamel(str)`: split on `_`, capitalise every piece but the
      first, join with nothing. */
  function StringToCamel(str: string): string {
    Join(CapitalizeLater(Split(str, '_'), false), "")
  }

  /** The same conversion read character by character: every `_` is
      dropped, and a character right after a `_` is upper-cased; `up` says
      the character before `s` was a `_`. */
  function CamelChars(s: string, up: bool): (r: string)
    ensures '_' !in r
    ensures |r| <= |s|
  {
    if s == [] then []
    else if s[0] == '_' then CamelChars(s[1..], true)
    else [if up then ToUpper(s[0]) else s[0]] + CamelChars(s[1..], false)
  }

  /** Joining with the empty separator is concatenation. */
  lemma {:induction false} JoinEmpty(parts: seq<string>)
    ensures Join(parts, "") == Concat(parts)
  {
    if |parts| >= 2 {
      JoinEmpty(parts[1..]);
    } else if |parts| == 1 {
      assert parts[1..] == [];
    }
  }

  /** A piece without `_` is copied, capitalised when `up`. */
  lemma {:induction false} CamelCharsPlain(a: string, up: bool)
    requires '_' !in a
    ensures CamelChars(a, up) == if up then CapitalizeFirstLetter(a) else a
  {
    if a != [] {
      CamelCharsPlain(a[1..], false);
      assert a == [a[0]] + a[1..];
    }
  }

  /** Reading a piece and its `_`: the piece as it is (capitalised when
      `up`), then the rest read as after a `_`. */
  lemma {:induction false} CamelCharsPiece(a: string, t: string, up: bool)
    requires '_' !in a
    ensures CamelChars(a + "_" + t, up) == (if up then CapitalizeFirstLetter(a) else a) + CamelChars(t, true)
  {
    if a == [] {
      assert a + "_" + t == "_" + t;
      assert ("_" + t)[1..] == t;
    } else {
      var s := a + "_" + t;
      assert s[0] == a[0] && s[1..] == a[1..] + "_" + t;
      CamelCharsPiece(a[1..], t, false);
      assert a == [a[0]] + a[1..];
    }
  }

  lemma CapitalizeLaterCons(w: string, rest: seq<string>, up: bool)
    ensures CapitalizeLater([w] + rest, up) ==
      [if up then CapitalizeFirstLetter(w) else w] + CapitalizeLater(rest, true)
  {
    var l := CapitalizeLater([w] + rest, up);
    var r := [if up then CapitalizeFirstLetter(w) else w] + CapitalizeLater(rest, true);
    assert |l| == |r|;
    forall i | 0 <= i < |l| ensures l[i] == r[i] {
      if i > 0 { assert ([w] + rest)[i] == rest[i - 1]; }
    }
  }

  /** Split, capitalise and concatenate agree with the character reading. */
  lemma {:induction false} PiecesAreChars(s: string, up: bool)
    ensures Concat(CapitalizeLater(Split(s, '_'), up)) == CamelChars(s, up)
    decreases |s|
  {
    match IndexOf(s, '_')
    case None =>
      assert CapitalizeLater([s], up) == [if up then CapitalizeFirstLetter(s) else s];
      CamelCharsPlain(s, up);
    case Some(i) =>
      var a, t := s[..i], s[i + 1..];
      assert Split(s, '_') == [a] + Split(t, '_');
      CapitalizeLaterCons(a, Split(t, '_'), up);
      var first := if up then CapitalizeFirstLetter(a) else a;
      assert Concat([first] + CapitalizeLater(Split(t, '_'), true)) == first + Concat(CapitalizeLater(Split(t, '_'), true)) by {
        assert ([first] + CapitalizeLater(Split(t, '_'), true))[1..] == CapitalizeLater(Split(t, '_'), true);
      }
      PiecesAreChars(t, true);
      assert s == a + "_" + t by { Around(s, i); }
      CamelCharsPiece(a, t, up);
  }

  /** A string is what stands before, at and after a position. */
  lemma Around(s: string, i: nat)
    requires i < |s|
    ensures s == s[..i] + [s[i]] + s[i + 1..]
  {
  }

  /** `stringToCamel` drops every `_` and upper-cases the character after
      each one. */
  lemma StringToCamelChars(str: string)
    ensures StringToCamel(str) == CamelChars(str, false)
  {
    JoinEmpty(CapitalizeLater(Split(str, '_'), false));
    PiecesAreChars(str, false);
  }

  /** A converted key has no `_`, and a key without `_` is left as it is. */
  lemma CamelShape(str: string)
    ensures '_' !in StringToCamel(str)
    ensures '_' !in str ==> StringToCamel(str) == str
  {
    StringToCamelChars(str);
    if '_' !in str {
      CamelCharsPlain(str, false);
    }
  }

  /** Two words joined by `_` become the first word followed by the second
      capitalised, as `foo_bar` becomes `fooBar`. */
  lemma CamelTwoWords(a: string, b: string)
    requires '_' !in a && '_' !in b
    ensures StringToCamel(a + "_" + b) == a + CapitalizeFirstLetter(b)
  {
    StringToCamelChars(a + "_" + b);
    CamelCharsPiece(a, b, false);
    CamelCharsPlain(b, true);
  }

  /** Converting a converted key changes nothing. */
  lemma CamelIdempotent(str: string)
    ensures StringToCamel(StringToCamel(str)) == StringToCamel(str)
  {
    CamelShape(str);
    CamelShape(StringToCamel(str));
  }

  /** `renameProperty(obj, prop, newName)`: when the names differ, the value
      moves to the new key, overwriting what was there, and the old key goes. */
  function RenameProperty<V>(obj: map<string, V>, prop: string, newName: string): (r: map<string, V>)
    requires prop in obj
    ensures prop != newName ==> r.Keys == obj.Keys - {prop} + {newName} && r[newName] == obj[prop]
    ensures prop != newName ==> forall k | k in r && k != newName :: r[k] == obj[k]
    ensures prop == newName ==> r == obj
  {
    if prop != newName then obj[newName := obj[prop]] - {prop} else obj
  }

  /** One turn of the `for…in` loop: a key deleted before its turn is not
      visited. */
  function Visit<V>(obj: map<string, V>, prop: string): map<string, V> {
    if prop in obj then RenameProperty(obj, prop, StringToCamel(prop)) else obj
  }

  /** The loop after visiting the keys `ks`, in order. */
  function VisitAll<V>(obj: map<string, V>, ks: seq<string>): map<string, V>
    decreases |ks|
  {
    if ks == [] then obj else Visit(VisitAll(obj, ks[..|ks| - 1]), ks[|ks| - 1])
  }

  /** `order` lists the keys of `obj` in insertion order, each once. */
  predicate KeyOrder<V>(obj: map<string, V>, order: seq<string>) {
    && (forall i, j | 0 <= i < j < |order| :: order[i] != order[j])
    && obj.Keys == (set k | k in order)
  }

  /** `objectPropertiesToCamel(obj)` for an object whose keys were inserted
      in `order`. */
  function ObjectPropertiesToCamel<V>(obj: map<string, V>, order: seq<string>): map<string, V>
    requires KeyOrder(obj, order)
  {
    VisitAll(obj, order)
  }

  /** The key whose value ends up under `key` after the keys `ks` were
      visited: the last visited key that was renamed to `key`, or `key`
      itself if none was. */
  function Source(ks: seq<string>, key: string): (k: string)
    ensures k == key || (k in ks && StringToCamel(k) == key && k != key)
  {
    if ks == [] then key
    else
      var last := ks[|ks| - 1];
      if StringToCamel(last) == key && last != key then last
      else
        var k := Source(ks[..|ks| - 1], key);
        assert k != key ==> k in ks[..|ks| - 1];
        k
  }

  /** The keys the visited keys were converted to. */
  function Targets(ks: seq<string>): set<string> {
    set k | k in ks :: StringToCamel(k)
  }

  /** No key is renamed onto a key that itself needs renaming. */
  lemma SourceOfUnconverted(ks: seq<string>, key: string)
    requires StringToCamel(key) != key
    ensures Source(ks, key) == key
    ensures key !in Targets(ks)
  {
    if Source(ks, key) != key {
      CamelIdempotent(Source(ks, key));
    }
    if key in Targets(ks) {
      var k :| k in ks && StringToCamel(k) == key;
      CamelIdempotent(k);
    }
  }

  /** The keys visited so far. */
  function Visited(ks: seq<string>): set<string> {
    set k | k in ks
  }

  /** What the loop keeps after visiting `ks`: the converted visited keys
      and the unvisited ones, each holding the original value of its
      source. */
  ghost predicate Invariant<V>(obj: map<string, V>, ks: seq<string>, s: map<string, V>) {
    && s.Keys == Targets(ks) + (obj.Keys - Visited(ks))
    && forall key | key in s :: Source(ks, key) in obj && s[key] == obj[Source(ks, key)]
  }

  /** Visiting one more key. */
  lemma ExtendVisited(q: seq<string>, prop: string)
    ensures Targets(q + [prop]) == Targets(q) + {StringToCamel(prop)}
    ensures Visited(q + [prop]) == Visited(q) + {prop}
    ensures forall key :: Source(q + [prop], key) == (if StringToCamel(prop) == key && prop != key then prop else Source(q, key))
  {
    assert (q + [prop])[..|q|] == q;
  }

  /** One turn of the loop keeps the invariant. */
  lemma VisitStep<V>(obj: map<string, V>, q: seq<string>, prop: string, before: map<string, V>)
    requires prop in obj && prop !in q
    requires Invariant(obj, q, before)
    ensures Invariant(obj, q + [prop], Visit(before, prop))
  {
    ExtendVisited(q, prop);
    assert prop in before;
    if StringToCamel(prop) != prop {
      SourceOfUnconverted(q, prop);
    }
    VisitStepKeys(obj, q, prop, before);
    VisitStepValues(obj, q, prop, before);
  }

  lemma VisitStepKeys<V>(obj: map<string, V>, q: seq<string>, prop: string, before: map<string, V>)
    requires prop in obj && prop !in q && prop in before
    requires StringToCamel(prop) != prop ==> prop !in Targets(q)
    requires before.Keys == Targets(q) + (obj.Keys - Visited(q))
    requires Targets(q + [prop]) == Targets(q) + {StringToCamel(prop)}
    requires Visited(q + [prop]) == Visited(q) + {prop}
    ensures Visit(before, prop).Keys == Targets(q + [prop]) + (obj.Keys - Visited(q + [prop]))
  {
  }

  lemma VisitStepValues<V>(obj: map<string, V>, q: seq<string>, prop: string, before: map<string, V>)
    requires prop in obj && prop in before
    requires StringToCamel(prop) != prop ==> Source(q, prop) == prop
    requires forall key | key in before :: Source(q, key) in obj && before[key] == obj[Source(q, key)]
    requires forall key :: Source(q + [prop], key) == (if StringToCamel(prop) == key && prop != key then prop else Source(q, key))
    ensures var after := Visit(before, prop);
            forall key | key in after :: Source(q + [prop], key) in obj && after[key] == obj[Source(q + [prop], key)]
  {
    var to := StringToCamel(prop);
    var after := Visit(before, prop);
    forall key | key in after ensures Source(q + [prop], key) in obj && after[key] == obj[Source(q + [prop], key)] {
      if to != prop && key == to {
        assert after[key] == before[prop];
      } else {
        assert key != prop || to == prop;
        assert after[key] == before[key];
      }
    }
  }

  /** The loop invariant after the first `n` keys. */
  lemma {:induction false} VisitAllState<V>(obj: map<string, V>, order: seq<string>, n: nat)
    requires KeyOrder(obj, order) && n <= |order|
    ensures Invariant(obj, order[..n], VisitAll(obj, order[..n]))
  {
    var p := order[..n];
    if n == 0 {
      assert p == [];
    } else {
      var q := order[..n - 1];
      VisitAllState(obj, order, n - 1);
      var prop := order[n - 1];
      assert p == q + [prop];
      assert p[..|p| - 1] == q;
      assert prop !in q by {
        forall i | 0 <= i < n - 1 ensures q[i] != prop { assert q[i] == order[i]; }
      }
      assert VisitAll(obj, p) == Visit(VisitAll(obj, q), prop);
      VisitStep(obj, q, prop, VisitAll(obj, q));
    }
  }

  /** The result of the conversion: its keys are exactly the converted keys
      of the object, and under each key stands the original value of the
      last key renamed onto it, or its own original value if no key was. */
  lemma ObjectPropertiesToCamelResult<V>(obj: map<string, V>, order: seq<string>)
    requires KeyOrder(obj, order)
    ensures var r := ObjectPropertiesToCamel(obj, order);
            && r.Keys == (set k | k in obj :: StringToCamel(k))
            && forall key | key in r :: Source(order, key) in obj && r[key] == obj[Source(order, key)]
  {
    VisitAllState(obj, order, |order|);
    assert order[..|order|] == order;
    assert Visited(order) == obj.Keys;
  }

  /** No key of the result holds an underscore. */
  lemma ObjectKeysHaveNoUnderscore<V>(obj: map<string, V>, order: seq<string>)
    requires KeyOrder(obj, order)
    ensures forall key | key in ObjectPropertiesToCamel(obj, order) :: '_' !in key
  {
    ObjectPropertiesToCamelResult(obj, order);
    forall key | key in ObjectPropertiesToCamel(obj, order) ensures '_' !in key {
      var k :| k in obj && StringToCamel(k) == key;
      CamelShape(k);
    }
  }

  /** When no two keys convert to the same key, every value moves to the
      converted form of its key, untouched: keys without `_` keep their
      value where it was. */
  lemma ObjectPropertiesToCamelDistinct<V>(obj: map<string, V>, order: seq<string>)
    requires KeyOrder(obj, order)
    requires forall a, b | a in obj && b in obj && a != b :: StringToCamel(a) != StringToCamel(b)
    ensures forall k | k in obj :: StringToCamel(k) in ObjectPropertiesToCamel(obj, order)
    ensures forall k | k in obj :: ObjectPropertiesToCamel(obj, order)[StringToCamel(k)] == obj[k]
  {
    ObjectPropertiesToCamelResult(obj, order);
    forall k | k in obj
      ensures StringToCamel(k) in ObjectPropertiesToCamel(obj, order)
      ensures ObjectPropertiesToCamel(obj, order)[StringToCamel(k)] == obj[k]
    {
      var key := StringToCamel(k);
      var s := Source(order, key);
      if s != k {
        if s == key {
          CamelIdempotent(k);
        }
      }
    }
  }
}
