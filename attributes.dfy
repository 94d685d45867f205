/**
 * The attribute-hash helpers of `Sensu::Helpers`: `sanitize`, which copies a
 * node-attribute hash while evaluating lazy values and dropping `nil`s and
 * empty hashes, and `select_attributes`, which keeps the entries whose
 * stringified key is among the requested ones.
 *
 * A Ruby hash is an insertion-ordered sequence of key/value pairs; a hash built
 * by Ruby never repeats a key, which is what `DistinctKeys` states.
 */
module Attributes {
  import opened Wrappers

  /** A hash key: Chef attribute keys are strings or symbols, and `to_s` gives their name either way. */
  datatype Key = Str(name: string) | Sym(name: string)

  /**
   * An attribute value. `Delayed` is a lazy value (a `Chef::DelayedEvaluator`)
   * whose `call` returns `evaluated`.
   */
  datatype Value =
    | Nil
    | Bool(b: bool)
    | Int(i: int)
    | Text(s: string)
    | Symbol(name: string)
    | List(items: seq<Value>)
    | Hash(entries: seq<(Key, Value)>)
    | Delayed(evaluated: Value)

  /** The keys of a hash, as a set. */
  function Keys(h: seq<(Key, Value)>): set<Key>
  {
    set e | e in h :: e.0
  }

  /** No key occurs twice: every hash Ruby builds has this shape. */
  predicate DistinctKeys(h: seq<(Key, Value)>)
  {
    forall i, j :: 0 <= i < j < |h| ==> h[i].0 != h[j].0
  }

  /** `h[k]`: the value stored under `k`, `None` when the key is absent. */
  function Lookup(h: seq<(Key, Value)>, k: Key): (r: Option<Value>)
    ensures r.Some? <==> k in Keys(h)
    ensures r.Some? ==> (k, r.value) in h
  {
    if h == [] then None
    else if h[0].0 == k then Some(h[0].1)
    else Lookup(h[1..], k)
  }

  /**
   * `h[k] = v` (`Hash#[]=`): an existing key keeps its position and takes the
   * new value; a new key is appended at the end.
   */
  function Store(h: seq<(Key, Value)>, k: Key, v: Value): (r: seq<(Key, Value)>)
    ensures |r| <= |h| + 1
    ensures Lookup(r, k) == Some(v)
    ensures forall k' :: k' != k ==> Lookup(r, k') == Lookup(h, k')
  {
    if h == [] then [(k, v)]
    else if h[0].0 == k then [(k, v)] + h[1..]
    else [h[0]] + Store(h[1..], k, v)
  }

  /** Storing adds its key to the key set and no other. */
  lemma {:induction false} StoreKeySet(h: seq<(Key, Value)>, k: Key, v: Value)
    ensures Keys(Store(h, k, v)) == Keys(h) + {k}
  {
    if h != [] {
      KeysCons(h[0], h[1..]);
      assert h == [h[0]] + h[1..];
      if h[0].0 == k {
        KeysCons((k, v), h[1..]);
      } else {
        StoreKeySet(h[1..], k, v);
        KeysCons(h[0], Store(h[1..], k, v));
      }
    }
  }

  /** Storing into a hash with distinct keys keeps them distinct. */
  lemma {:induction false} StoreKeepsDistinct(h: seq<(Key, Value)>, k: Key, v: Value)
    requires DistinctKeys(h)
    ensures DistinctKeys(Store(h, k, v))
  {
    if h != [] {
      var t := h[1..];
      assert h == [h[0]] + t;
      DistinctTail(h[0], t);
      if h[0].0 == k {
        DistinctCons((k, v), t);
      } else {
        var r := Store(t, k, v);
        StoreKeepsDistinct(t, k, v);
        StoreKeySet(t, k, v);
        DistinctCons(h[0], r);
        assert Store(h, k, v) == [h[0]] + r;
      }
    }
  }


  /** A key that was absent is appended at the end. */
  lemma {:induction false} StoreAppendsNewKey(h: seq<(Key, Value)>, k: Key, v: Value)
    requires k !in Keys(h)
    ensures Store(h, k, v) == h + [(k, v)]
  {
    if h != [] {
      assert h[0] in h;
      KeysCons(h[0], h[1..]);
      assert h == [h[0]] + h[1..];
      StoreAppendsNewKey(h[1..], k, v);
    }
  }

  lemma KeysCons(e: (Key, Value), t: seq<(Key, Value)>)
    ensures Keys([e] + t) == {e.0} + Keys(t)
  {
    assert forall x :: x in [e] + t <==> x == e || x in t;
  }

  /** The tail of a hash with distinct keys has distinct keys, none of them the head's key. */
  lemma DistinctTail(e: (Key, Value), t: seq<(Key, Value)>)
    requires DistinctKeys([e] + t)
    ensures DistinctKeys(t) && e.0 !in Keys(t)
  {
    var s := [e] + t;
    forall i, j | 0 <= i < j < |t|
      ensures t[i].0 != t[j].0
    {
      assert t[i] == s[i + 1] && t[j] == s[j + 1];
    }
    forall x | x in t
      ensures x.0 != e.0
    {
      var j :| 0 <= j < |t| && t[j] == x;
      assert s[0] == e && s[j + 1] == x;
    }
  }

  /** A pair whose key is new can be put in front of a hash with distinct keys. */
  lemma DistinctCons(e: (Key, Value), t: seq<(Key, Value)>)
    requires DistinctKeys(t) && e.0 !in Keys(t)
    ensures DistinctKeys([e] + t)
  {
    var s := [e] + t;
    forall i, j | 0 <= i < j < |s|
      ensures s[i].0 != s[j].0
    {
      assert s[j] == t[j - 1];
      if i > 0 {
        assert s[i] == t[i - 1];
      } else {
        assert t[j - 1] in t;
      }
    }
  }

  /** `value = value.call if value.respond_to?(:call)`: a lazy value is evaluated once, anything else is left alone. */
  function Evaluate(v: Value): (r: Value)
    ensures r != v ==> v.Delayed? && r == v.evaluated
    ensures v.Delayed? ==> r == v.evaluated
  {
    if v.Delayed? then v.evaluated else v
  }

  /**
   * What `sanitize` stores for the raw value `v`: nothing when `v` evaluates to
   * `nil` or to an empty hash, the sanitized copy of a non-empty hash, and the
   * evaluated value itself otherwise.
   */
  function Cleaned(v: Value): (r: Option<Value>)
    ensures r.None? <==> Evaluate(v) == Nil || Evaluate(v) == Hash([])
    ensures r.Some? ==> (r.value.Hash? <==> Evaluate(v).Hash?)
    ensures r.Some? && !r.value.Hash? ==> r.value == Evaluate(v)
    ensures r.Some? && r.value.Hash? ==> |r.value.entries| <= |Evaluate(v).entries|
    decreases v, 2
  {
    var w := Evaluate(v);
    match w
    case Nil => None
    case Hash(entries) => if entries == [] then None else Some(Hash(SanitizeHash(entries)))
    case _ => Some(w)
  }

  /** `sanitize(raw)`. */
  function SanitizeHash(raw: seq<(Key, Value)>): (r: seq<(Key, Value)>)
    ensures |r| <= |raw|
    decreases Hash(raw), 1
  {
    SanitizedPrefix(raw, |raw|)
  }

  /** The hash `sanitize` has built once the first `i` entries of `raw` have been visited. */
  function SanitizedPrefix(raw: seq<(Key, Value)>, i: nat): (r: seq<(Key, Value)>)
    requires i <= |raw|
    ensures |r| <= i
    decreases Hash(raw), 0, i
  {
    if i == 0 then []
    else
      var acc := SanitizedPrefix(raw, i - 1);
      match Cleaned(raw[i - 1].1)
      case None => acc
      case Some(w) => Store(acc, raw[i - 1].0, w)
  }

  /**
   * `sanitize(raw_hash)`: walks the entries in order, evaluates lazy values,
   * recurses into non-empty hashes, skips `nil`s and copies everything else.
   */
  method Sanitize(rawHash: seq<(Key, Value)>) returns (sanitized: seq<(Key, Value)>)
    ensures sanitized == SanitizeHash(rawHash)
    ensures NilFree(sanitized)
    ensures Keys(sanitized) <= Keys(rawHash)
    decreases Hash(rawHash)
  {
    sanitized := [];
    var i := 0;
    while i < |rawHash|
      invariant 0 <= i <= |rawHash|
      invariant sanitized == SanitizedPrefix(rawHash, i)
    {
      var key := rawHash[i].0;
      var value := rawHash[i].1;
      if value.Delayed? {
        value := value.evaluated;
      }
      match value {
        case Hash(entries) =>
          if entries != [] {
            var inner := Sanitize(entries);
            sanitized := Store(sanitized, key, Hash(inner));
          }
        case Nil =>
        case _ =>
          sanitized := Store(sanitized, key, value);
      }
      i := i + 1;
    }
    SanitizeNilFree(rawHash);
    SanitizeKeys(rawHash);
  }

  /** No `nil` value at any level of hash nesting. */
  predicate NilFree(h: seq<(Key, Value)>)
    decreases Hash(h)
  {
    forall i :: 0 <= i < |h| ==> h[i].1 != Nil && (h[i].1.Hash? ==> NilFree(h[i].1.entries))
  }

  /** Whatever `sanitize` stores is not `nil` and holds no `nil` in its nested hashes. */
  lemma {:induction false} CleanedNilFree(v: Value)
    ensures Cleaned(v).Some? ==> Cleaned(v).value != Nil
    ensures Cleaned(v).Some? && Cleaned(v).value.Hash? ==> NilFree(Cleaned(v).value.entries)
    decreases v, 2
  {
    var w := Evaluate(v);
    if w.Hash? && w.entries != [] {
      SanitizeNilFree(w.entries);
    }
  }

  /** The output of `sanitize` holds no `nil` value at any depth. */
  lemma {:induction false} SanitizeNilFree(raw: seq<(Key, Value)>)
    ensures NilFree(SanitizeHash(raw))
    decreases Hash(raw), 1
  {
    SanitizedPrefixNilFree(raw, |raw|);
  }

  lemma {:induction false} SanitizedPrefixNilFree(raw: seq<(Key, Value)>, i: nat)
    requires i <= |raw|
    ensures NilFree(SanitizedPrefix(raw, i))
    decreases Hash(raw), 0, i
  {
    if i > 0 {
      SanitizedPrefixNilFree(raw, i - 1);
      CleanedNilFree(raw[i - 1].1);
      var acc := SanitizedPrefix(raw, i - 1);
      if Cleaned(raw[i - 1].1).Some? {
        StoreKeepsNilFree(acc, raw[i - 1].0, Cleaned(raw[i - 1].1).value);
      }
    }
  }

  /** Storing a value that is not `nil` and is `nil`-free inside keeps a hash `nil`-free. */
  lemma {:induction false} StoreKeepsNilFree(h: seq<(Key, Value)>, k: Key, v: Value)
    requires NilFree(h) && v != Nil && (v.Hash? ==> NilFree(v.entries))
    ensures NilFree(Store(h, k, v))
  {
    if h != [] && h[0].0 != k {
      StoreKeepsNilFree(h[1..], k, v);
      var r := Store(h, k, v);
      assert r == [h[0]] + Store(h[1..], k, v);
      forall i | 0 <= i < |r|
        ensures r[i].1 != Nil && (r[i].1.Hash? ==> NilFree(r[i].1.entries))
      {
        if i > 0 {
          assert r[i] == Store(h[1..], k, v)[i - 1];
        }
      }
    } else if h != [] {
      var r := Store(h, k, v);
      forall i | 0 <= i < |r|
        ensures r[i].1 != Nil && (r[i].1.Hash? ==> NilFree(r[i].1.entries))
      {
        if i > 0 {
          assert r[i] == h[i];
        }
      }
    }
  }

  /** `sanitize` introduces no key and never repeats one. */
  lemma SanitizeKeys(raw: seq<(Key, Value)>)
    ensures Keys(SanitizeHash(raw)) <= Keys(raw)
    ensures DistinctKeys(SanitizeHash(raw))
  {
    SanitizedPrefixKeys(raw, |raw|);
  }

  lemma {:induction false} SanitizedPrefixKeys(raw: seq<(Key, Value)>, i: nat)
    requires i <= |raw|
    ensures Keys(SanitizedPrefix(raw, i)) <= Keys(raw[..i])
    ensures DistinctKeys(SanitizedPrefix(raw, i))
  {
    if i > 0 {
      SanitizedPrefixKeys(raw, i - 1);
      assert raw[..i] == raw[..i - 1] + [raw[i - 1]];
      assert Keys(raw[..i]) == Keys(raw[..i - 1]) + {raw[i - 1].0};
      var c := Cleaned(raw[i - 1].1);
      if c.Some? {
        StoreKeySet(SanitizedPrefix(raw, i - 1), raw[i - 1].0, c.value);
        StoreKeepsDistinct(SanitizedPrefix(raw, i - 1), raw[i - 1].0, c.value);
      }
    }
    assert raw[..|raw|] == raw;
  }

  /**
   * Key by key, `sanitize` keeps what `Cleaned` says: a key whose raw value is
   * `nil`, evaluates to `nil`, or is an empty hash disappears; every other key
   * maps to its evaluated, recursively sanitized value.
   */
  lemma SanitizeLookup(raw: seq<(Key, Value)>, k: Key)
    requires DistinctKeys(raw)
    ensures Lookup(SanitizeHash(raw), k) == if Lookup(raw, k).Some? then Cleaned(Lookup(raw, k).value) else None
  {
    SanitizedPrefixLookup(raw, |raw|, k);
    assert raw[..|raw|] == raw;
  }

  lemma {:induction false} SanitizedPrefixLookup(raw: seq<(Key, Value)>, i: nat, k: Key)
    requires i <= |raw| && DistinctKeys(raw)
    ensures Lookup(SanitizedPrefix(raw, i), k) == if Lookup(raw[..i], k).Some? then Cleaned(Lookup(raw[..i], k).value) else None
  {
    if i > 0 {
      SanitizedPrefixLookup(raw, i - 1, k);
      LookupAppend(raw[..i - 1], raw[i - 1].0, raw[i - 1].1, k);
      assert raw[..i] == raw[..i - 1] + [raw[i - 1]];
      if raw[i - 1].0 == k {
        assert k !in Keys(raw[..i - 1]);
      }
    }
  }

  /** Looking up in a hash with one pair appended at the end. */
  lemma {:induction false} LookupAppend(h: seq<(Key, Value)>, k: Key, v: Value, k': Key)
    ensures Lookup(h + [(k, v)], k') == if k' in Keys(h) then Lookup(h, k') else if k' == k then Some(v) else None
  {
    if h != [] {
      assert (h + [(k, v)])[1..] == h[1..] + [(k, v)];
      LookupAppend(h[1..], k, v, k');
    }
  }

  /**
   * Sanitizing is not idempotent: `{"a" => {"b" => nil}}` becomes
   * `{"a" => {}}` (the raw inner hash was not empty), and sanitizing that
   * drops `"a"` altogether.
   */
  lemma SanitizeNotIdempotent()
    ensures var raw := [(Str("a"), Hash([(Str("b"), Nil)]))];
            && SanitizeHash(raw) == [(Str("a"), Hash([]))]
            && SanitizeHash(SanitizeHash(raw)) == []
  {
    var inner := [(Str("b"), Nil)];
    assert SanitizedPrefix(inner, 1) == [];
    assert SanitizeHash(inner) == [];
    var once := [(Str("a"), Hash([]))];
    assert Cleaned(once[0].1) == None;
    assert SanitizedPrefix(once, 1) == [];
  }

  /** `Array(keys)`: `nil` gives `[]`, an array its items, a hash its `[key, value]` pairs, anything else `[keys]`. */
  function ArrayOf(keys: Value): (r: seq<Value>)
    ensures keys.Nil? ==> r == []
    ensures keys.List? ==> r == keys.items
    ensures keys.Hash? ==> |r| == |keys.entries|
    ensures keys.Hash? ==> forall i :: 0 <= i < |r| ==> r[i] == List([KeyValue(keys.entries[i].0), keys.entries[i].1])
    ensures !keys.Nil? && !keys.List? && !keys.Hash? ==> r == [keys]
  {
    match keys
    case Nil => []
    case List(items) => items
    case Hash(entries) => seq(|entries|, i requires 0 <= i < |entries| => List([KeyValue(entries[i].0), entries[i].1]))
    case _ => [keys]
  }

  /** A key seen as a value, as `Array(hash)` exposes it. */
  function KeyValue(k: Key): Value
  {
    match k
    case Str(name) => Text(name)
    case Sym(name) => Symbol(name)
  }

  /** The test of the `reject` block, negated: the entry is kept. */
  predicate Selected(e: (Key, Value), keys: Value)
    ensures Selected(e, keys) ==> e.1 != Nil
    ensures keys.Text? ==> (Selected(e, keys) <==> e.0.name == keys.s && e.1 != Nil)
    ensures keys.List? ==> (Selected(e, keys) <==> Text(e.0.name) in keys.items && e.1 != Nil)
    ensures !keys.Text? && !keys.List? ==> !Selected(e, keys)
  {
    Text(e.0.name) in ArrayOf(keys) && e.1 != Nil
  }

  /**
   * `select_attributes(attributes, keys)`: the entries whose stringified key is
   * one of `Array(keys)` and whose value is not `nil`, in their original order
   * and with their values untouched.
   */
  function SelectAttributes(attributes: seq<(Key, Value)>, keys: Value): (r: seq<(Key, Value)>)
    ensures forall e :: e in r <==> e in attributes && Text(e.0.name) in ArrayOf(keys) && e.1 != Nil
    ensures |r| <= |attributes|
  {
    if attributes == [] then []
    else
      var rest := SelectAttributes(attributes[1..], keys);
      if Selected(attributes[0], keys) then [attributes[0]] + rest else rest
  }

  /** The entries kept keep their relative order: the result is a subsequence of the input. */
  lemma {:induction false} SelectAttributesSubsequence(attributes: seq<(Key, Value)>, keys: Value)
    ensures IsSubsequence(SelectAttributes(attributes, keys), attributes)
  {
    if attributes != [] {
      SelectAttributesSubsequence(attributes[1..], keys);
    }
  }

  /** `s` can be obtained from `t` by deleting entries. */
  predicate IsSubsequence(s: seq<(Key, Value)>, t: seq<(Key, Value)>)
  {
    if s == [] then true
    else if t == [] then false
    else if s[0] == t[0] then IsSubsequence(s[1..], t[1..])
    else IsSubsequence(s, t[1..])
  }

  /** Selecting twice with the same keys selects nothing more. */
  lemma {:induction false} SelectAttributesIdempotent(attributes: seq<(Key, Value)>, keys: Value)
    ensures SelectAttributes(SelectAttributes(attributes, keys), keys) == SelectAttributes(attributes, keys)
  {
    if attributes != [] {
      SelectAttributesIdempotent(attributes[1..], keys);
    }
  }

  /** Selecting from a Ruby hash gives a Ruby hash, and a kept key looks up the same value as before. */
  lemma {:induction false} SelectAttributesLookup(attributes: seq<(Key, Value)>, keys: Value, k: Key)
    requires DistinctKeys(attributes)
    ensures DistinctKeys(SelectAttributes(attributes, keys))
    ensures Lookup(SelectAttributes(attributes, keys), k) ==
              if Lookup(attributes, k).Some? && Selected((k, Lookup(attributes, k).value), keys) then Lookup(attributes, k) else None
  {
    if attributes != [] {
      SelectAttributesLookup(attributes[1..], keys, k);
    }
  }
}
