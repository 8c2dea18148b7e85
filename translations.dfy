/** The message bundles of lib/translations.ts: a registry of one bundle per
    locale, and the lookup of a dotted key such as `hero.title` in a
    bundle, which falls back to the key itself. */
module Translations {
  import opened Wrappers
  import opened Strings
  import opened Middleware

  /** A parsed message bundle: a string, an object of named members, or any
      other JSON value (number, boolean, array, null). */
  datatype Json = Str(text: string) | Obj(fields: map<string, Json>) | Other

  /** `translations`: the registry, keyed by locale. The bundles themselves
      (the JSON message files) are inputs of the model. */
  function Registry(en: Json, fr: Json): (r: map<string, Json>)
    ensures r.Keys == set i | 0 <= i < |Locales| :: Locales[i]
    ensures "en" in r && r["en"] == en
    ensures "fr" in r && r["fr"] == fr
  {
    var r := map["en" := en, "fr" := fr];
    assert r.Keys == {Locales[0], Locales[1]};
    r
  }

  /** `getTranslations`: every locale has a bundle, and it is the one
      registered under that locale. */
  function GetTranslations(en: Json, fr: Json, locale: Locale): (r: Json)
    ensures locale == "en" ==> r == en
    ensures locale == "fr" ==> r == fr
  {
    var registry := Registry(en, fr);
    assert locale in registry.Keys;
    registry[locale]
  }

  /** `value?.[k]`: a member of an object; anything else has no members. */
  function Step(value: Option<Json>, k: string): Option<Json> {
    match value
    case Some(Obj(fields)) => if k in fields then Some(fields[k]) else None
    case _ => None
  }

  /** The descent of the loop: one member per key, from left to right. */
  function Descend(value: Option<Json>, keys: seq<string>): Option<Json>
    decreases |keys|
  {
    if keys == [] then value else Descend(Step(value, keys[0]), keys[1..])
  }

  /** `getNestedTranslation`, as a value: the string the dotted key leads to,
      or else the key. */
  function Lookup(t: Json, key: string): string {
    match Descend(Some(t), Split(key, '.'))
    case Some(Str(s)) => s
    case _ => key
  }

  /** `getNestedTranslation`: the loop that reassigns `value` once per key. */
  method GetNestedTranslation(t: Json, key: string) returns (r: string)
    ensures r == Lookup(t, key)
  {
    var keys := Split(key, '.');
    var value := Some(t);
    for i := 0 to |keys|
      invariant Descend(value, keys[i..]) == Descend(Some(t), keys)
    {
      assert keys[i..][1..] == keys[i + 1..];
      value := Step(value, keys[i]);
    }
    assert keys[|keys|..] == [];
    match value {
      case Some(Str(s)) => r := s;
      case _ => r := key;
    }
  }

  /** Once a member is missing, the rest of the descent stays missing: a
      missing intermediate does not fail, it ends in nothing. */
  lemma {:induction false} DescendMissing(keys: seq<string>)
    ensures Descend(None, keys) == None
    decreases |keys|
  {
    if keys != [] {
      DescendMissing(keys[1..]);
    }
  }

  /** The descent along `a + b` is the descent along `a`, then along `b`. */
  lemma {:induction false} DescendAppend(value: Option<Json>, a: seq<string>, b: seq<string>)
    ensures Descend(value, a + b) == Descend(Descend(value, a), b)
    decreases |a|
  {
    if a != [] {
      assert (a + b)[0] == a[0] && (a + b)[1..] == a[1..] + b;
      DescendAppend(Step(value, a[0]), a[1..], b);
    } else {
      assert a + b == b;
    }
  }

  /** The key comes back whenever a prefix of its pieces leads nowhere or
      the whole key leads to an object or another non-string value. */
  lemma MissingGivesKey(t: Json, key: string, n: nat)
    requires n <= |Split(key, '.')|
    requires Descend(Some(t), Split(key, '.')[..n]) == None
    ensures Lookup(t, key) == key
  {
    var keys := Split(key, '.');
    assert keys == keys[..n] + keys[n..];
    DescendAppend(Some(t), keys[..n], keys[n..]);
    DescendMissing(keys[n..]);
  }

  /** `t` with the value `leaf` stored at the path `keys`, objects being
      created or replaced along the way. */
  function Put(t: Json, keys: seq<string>, leaf: Json): Json
    decreases |keys|
  {
    if keys == [] then leaf
    else
      var fields := if t.Obj? then t.fields else map[];
      var child := if keys[0] in fields then fields[keys[0]] else Obj(map[]);
      Obj(fields[keys[0] := Put(child, keys[1..], leaf)])
  }

  /** The descent along a path finds what was stored there. */
  lemma {:induction false} DescendPut(t: Json, keys: seq<string>, leaf: Json)
    ensures Descend(Some(Put(t, keys, leaf)), keys) == Some(leaf)
    decreases |keys|
  {
    if keys != [] {
      var fields := if t.Obj? then t.fields else map[];
      var child := if keys[0] in fields then fields[keys[0]] else Obj(map[]);
      assert Step(Some(Put(t, keys, leaf)), keys[0]) == Some(Put(child, keys[1..], leaf));
      DescendPut(child, keys[1..], leaf);
    }
  }

  /** Round trip: a message stored under the path `k1`, …, `kn` (no piece
      holding a `.`) is what the key `k1.….kn` translates to. */
  lemma LookupPut(t: Json, keys: seq<string>, message: string)
    requires |keys| >= 1
    requires forall k :: 0 <= k < |keys| ==> '.' !in keys[k]
    ensures Lookup(Put(t, keys, Str(message)), Join(keys, '.')) == message
  {
    SplitJoin(keys, '.');
    DescendPut(t, keys, Str(message));
  }

  /** Storing a sub-object under a key makes the key translate to itself:
      the descent ends on a value that is not a string. */
  lemma LookupObjectGivesKey(t: Json, keys: seq<string>, fields: map<string, Json>)
    requires |keys| >= 1
    requires forall k :: 0 <= k < |keys| ==> '.' !in keys[k]
    ensures Lookup(Put(t, keys, Obj(fields)), Join(keys, '.')) == Join(keys, '.')
  {
    SplitJoin(keys, '.');
    DescendPut(t, keys, Obj(fields));
  }

  /** A lookup in a string leaf finds nothing, whatever the key. */
  lemma LookupInLeaf(s: string, key: string)
    ensures Lookup(Str(s), key) == key
  {
    MissingGivesKey(Str(s), key, 1);
  }
}
