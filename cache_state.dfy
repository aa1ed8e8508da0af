/**
 * The rolling cache as a value: the two tables of one generation, and the
 * cache's operations as functions from the old tables to the returned
 * string and the new tables.
 */
module CacheState {
  import opened KeyCodec

  /** Strings shorter than this are never cached. */
  const MIN_SIZE_CACHEABLE: nat := 4

  /** The string carries one of the reserved tag prefixes "~#", "~$" or "~:". */
  predicate HasSigil(s: string) {
    "~#" <= s || "~$" <= s || "~:" <= s
  }

  /** The admission rule: long enough, and either a map key or a tag. */
  predicate Cacheable(s: string, asMapKey: bool := false) {
    |s| >= MIN_SIZE_CACHEABLE && (asMapKey || HasSigil(s))
  }

  /** The admission rule, stated on the first characters. */
  lemma CacheableRule(s: string, asMapKey: bool)
    ensures Cacheable(s, asMapKey) <==>
      |s| >= MIN_SIZE_CACHEABLE && (asMapKey || (s[0] == '~' && s[1] in {'#', '$', ':'}))
  {
    if |s| >= MIN_SIZE_CACHEABLE && s[0] == '~' && s[1] in {'#', '$', ':'} {
      assert s[..2] == ['~', s[1]];
      assert s[1] == '#' ==> "~#" <= s;
      assert s[1] == '$' ==> "~$" <= s;
      assert s[1] == ':' ==> "~:" <= s;
    }
  }

  /**
   * The rule on small examples: a tag is admitted, a three-character string
   * never is, not even as a map key, and a plain string only as a map key.
   */
  lemma CacheableExamples()
    ensures Cacheable("~#foo", false) && Cacheable("~:abc", false) && Cacheable("~$xyz", false)
    ensures !Cacheable("foo", false) && !Cacheable("foo", true) && !Cacheable("ab", true)
    ensures Cacheable("abcd", true) && !Cacheable("abcd", false)
  {
    assert "abcd"[0] != '~';
  }

  /** No key is admitted: keys have at most three characters. */
  lemma KeysNotCacheable(i: nat, asMapKey: bool)
    requires i < CACHE_SIZE
    ensures !Cacheable(EncodeKey(i), asMapKey)
  {
  }

  /** The tables of one generation: key to value and value to key. */
  datatype State = State(keyToValue: map<string, string>, valueToKey: map<string, string>)

  /** What an operation returns, and the tables it leaves. */
  datatype Reply = Reply(out: string, state: State)

  /** The two tables hold the same pairs, one read forwards and one backwards. */
  ghost predicate Inverse(kv: map<string, string>, vk: map<string, string>) {
    && (forall k :: k in kv ==> kv[k] in vk && vk[kv[k]] == k)
    && (forall v :: v in vk ==> vk[v] in kv && kv[vk[v]] == v)
  }

  /** The keys of the first `n` indices. */
  function KeySet(n: nat): set<string>
    requires n <= CACHE_SIZE
  {
    set i | 0 <= i < n :: EncodeKey(i)
  }

  /**
   * The invariant of the cache: the tables are inverses, the keys are exactly
   * those of the indices below the size, every value is long enough to have
   * been admitted, and the size stays within one generation.
   */
  ghost predicate Valid(st: State) {
    && |st.keyToValue| <= CACHE_SIZE
    && Inverse(st.keyToValue, st.valueToKey)
    && st.keyToValue.Keys == KeySet(|st.keyToValue|)
    && (forall v :: v in st.valueToKey ==> |v| >= MIN_SIZE_CACHEABLE)
  }

  /** The size of the generation: the number of keys. */
  function Size(st: State): nat {
    |st.keyToValue|
  }

  /** The generation has used up every key. */
  predicate CacheFull(st: State) {
    Size(st) >= CACHE_SIZE
  }

  /** The string is a key of the current generation. */
  predicate IsCacheKey(st: State, name: string) {
    name in st.keyToValue
  }

  /** The empty cache, also what a full reset leaves. */
  function Clear(): (st: State)
    ensures Valid(st) && Size(st) == 0 && |st.valueToKey| == 0
  {
    State(map[], map[])
  }

  /**
   * Admit `name`: start a new generation if this one is full, then return
   * the key of `name` if it is already cached, or record it under the key of
   * the next index and return `name` itself.
   */
  function Encache(st: State, name: string): Reply {
    var base := if CacheFull(st) then Clear() else st;
    if name in base.valueToKey then
      Reply(base.valueToKey[name], base)
    else
      var key := EncodeKey(Size(base));
      Reply(name, State(base.keyToValue[key := name], base.valueToKey[name := key]))
  }

  /** Admit `name` if the admission rule lets it in; otherwise return it unchanged. */
  function MaybeEncache(st: State, name: string, asMapKey: bool): Reply {
    if Cacheable(name, asMapKey) then Encache(st, name) else Reply(name, st)
  }

  /** The receiving side: a known key gives its value back, anything else is a literal. */
  function Decode(st: State, name: string, asMapKey: bool): Reply {
    if name in st.keyToValue then Reply(st.keyToValue[name], st)
    else MaybeEncache(st, name, asMapKey)
  }

  /** The sending side: a cached value gives its key, anything else is a literal. */
  function Encode(st: State, name: string, asMapKey: bool): Reply {
    if name in st.valueToKey then Reply(st.valueToKey[name], st)
    else MaybeEncache(st, name, asMapKey)
  }

  /** The keys of the first n + 1 indices add one new key to those of the first n. */
  lemma KeySetGrow(n: nat)
    requires n < CACHE_SIZE
    ensures EncodeKey(n) !in KeySet(n)
    ensures KeySet(n + 1) == KeySet(n) + {EncodeKey(n)}
  {
    forall i | 0 <= i < n
      ensures EncodeKey(i) != EncodeKey(n)
    {
      EncodeKeyInjective(i, n);
    }
  }

  /** In a valid cache, the keys are exactly the well-formed keys with an index below the size. */
  lemma CurrentKeyIff(st: State, name: string)
    requires Valid(st)
    ensures IsCacheKey(st, name) <==> KeyIndex(name).Some? && KeyIndex(name).value < Size(st)
  {
    if name in st.keyToValue {
      assert name in KeySet(Size(st));
      var i :| 0 <= i < Size(st) && EncodeKey(i) == name;
      KeyIndexIff(name, i);
    }
    if KeyIndex(name).Some? && KeyIndex(name).value < Size(st) {
      var i := KeyIndex(name).value;
      KeyIndexIff(name, i);
      assert name in KeySet(Size(st));
    }
  }

  /** Keys of a valid cache are short, so they are never values of it and never admitted. */
  lemma KeysAreShort(st: State, name: string)
    requires Valid(st) && IsCacheKey(st, name)
    ensures |name| < MIN_SIZE_CACHEABLE
    ensures name !in st.valueToKey
  {
    CurrentKeyIff(st, name);
  }

  /** The two tables of a valid cache have the same number of entries. */
  lemma {:induction false} InverseSameSize(kv: map<string, string>, vk: map<string, string>)
    requires Inverse(kv, vk)
    ensures |kv| == |vk|
    decreases |kv|
  {
    if |kv| != 0 {
      var k :| k in kv;
      var v := kv[k];
      var kv', vk' := kv - {k}, vk - {v};
      assert Inverse(kv', vk');
      InverseSameSize(kv', vk');
    }
  }

  /** Adding a pair whose key and value are both new keeps two tables inverse. */
  lemma InverseInsert(kv: map<string, string>, vk: map<string, string>, key: string, name: string)
    requires Inverse(kv, vk) && key !in kv && name !in vk
    ensures Inverse(kv[key := name], vk[name := key])
  {
    var kv', vk' := kv[key := name], vk[name := key];
    forall k | k in kv'
      ensures kv'[k] in vk' && vk'[kv'[k]] == k
    {
      if k != key {
        assert kv[k] in vk;
      }
    }
    forall v | v in vk'
      ensures vk'[v] in kv' && kv'[vk'[v]] == v
    {
      if v != name {
        assert vk[v] in kv;
      }
    }
  }

  /** Admitting into a generation with room keeps the invariant. */
  lemma InsertKeepsValid(st: State, name: string)
    requires Valid(st) && !CacheFull(st)
    requires name !in st.valueToKey && |name| >= MIN_SIZE_CACHEABLE
    ensures var key := EncodeKey(Size(st));
      && key !in st.keyToValue
      && Valid(State(st.keyToValue[key := name], st.valueToKey[name := key]))
      && |st.keyToValue[key := name]| == Size(st) + 1
  {
    var n, key := Size(st), EncodeKey(Size(st));
    KeySetGrow(n);
    var kv, vk := st.keyToValue[key := name], st.valueToKey[name := key];
    assert kv.Keys == st.keyToValue.Keys + {key};
    assert |kv| == n + 1;
    InverseInsert(st.keyToValue, st.valueToKey, key, name);
    assert kv.Keys == KeySet(|kv|);
    assert forall v :: v in vk ==> |v| >= MIN_SIZE_CACHEABLE;
  }

  /** Encache of a cached value in a generation with room returns its key and changes nothing. */
  lemma EncacheHit(st: State, name: string)
    requires !CacheFull(st) && name in st.valueToKey
    ensures Encache(st, name) == Reply(st.valueToKey[name], st)
  {
  }

  /**
   * Encache of a new admissible string in a generation with room returns the
   * string, keeps every old entry and adds the string under the next key.
   */
  lemma EncacheIntoRoom(st: State, name: string)
    requires Valid(st) && !CacheFull(st)
    requires name !in st.valueToKey && |name| >= MIN_SIZE_CACHEABLE
    ensures var r := Encache(st, name);
      && Valid(r.state)
      && r.out == name
      && Size(r.state) == Size(st) + 1
      && r.state.valueToKey == st.valueToKey[name := EncodeKey(Size(st))]
      && r.state.keyToValue == st.keyToValue[EncodeKey(Size(st)) := name]
      && EncodeKey(Size(st)) !in st.keyToValue
  {
    InsertKeepsValid(st, name);
  }

  /**
   * Encache of an admissible string into a full generation starts a new one
   * holding only that string, under the first key.
   */
  lemma EncacheIntoFull(st: State, name: string)
    requires CacheFull(st) && |name| >= MIN_SIZE_CACHEABLE
    ensures var r := Encache(st, name);
      && Valid(r.state)
      && r.out == name
      && Size(r.state) == 1
      && r.state == State(map[EncodeKey(0) := name], map[name := EncodeKey(0)])
  {
    InsertKeepsValid(Clear(), name);
  }

  /**
   * Encache on a valid cache and an admissible string: the invariant holds
   * afterwards; a string cached in a generation with room gives its key and
   * changes nothing; otherwise the string comes back as it is and becomes the
   * newest entry, of a fresh generation when the old one was full.
   */
  lemma EncacheSpec(st: State, name: string)
    requires Valid(st) && |name| >= MIN_SIZE_CACHEABLE
    ensures var r := Encache(st, name);
      && Valid(r.state)
      && (!CacheFull(st) && name in st.valueToKey ==> r == Reply(st.valueToKey[name], st))
      && (CacheFull(st) || name !in st.valueToKey ==>
            var n := if CacheFull(st) then 0 else Size(st);
            && r.out == name
            && Size(r.state) == n + 1
            && r.state.valueToKey[name] == EncodeKey(n)
            && r.state.keyToValue[EncodeKey(n)] == name)
  {
    if CacheFull(st) {
      EncacheIntoFull(st, name);
    } else if name !in st.valueToKey {
      EncacheIntoRoom(st, name);
    }
  }

  /**
   * Encode against a valid cache keeps the invariant, and returns: the key of
   * a cached value, leaving the cache alone; a string not admitted unchanged,
   * leaving the cache alone; an admissible new string unchanged, as Encache
   * admits it, under the key of the next index.
   */
  lemma EncodeSpec(st: State, name: string, asMapKey: bool)
    requires Valid(st)
    ensures var r := Encode(st, name, asMapKey);
      && Valid(r.state)
      && (name in st.valueToKey ==>
            && r == Reply(st.valueToKey[name], st)
            && r.out in st.keyToValue && st.keyToValue[r.out] == name
            && r.out != name)
      && (name !in st.valueToKey && !Cacheable(name, asMapKey) ==> r == Reply(name, st))
      && (name !in st.valueToKey && Cacheable(name, asMapKey) ==>
            var n := if CacheFull(st) then 0 else Size(st);
            && r == Encache(st, name)
            && r.out == name
            && Size(r.state) == n + 1
            && r.state.valueToKey[name] == EncodeKey(n))
  {
    if name in st.valueToKey {
      KeysAreShort(st, st.valueToKey[name]);
    } else if Cacheable(name, asMapKey) {
      EncacheSpec(st, name);
    }
  }

  /**
   * Decode against a valid cache keeps the invariant, and returns: the value
   * of a current key, leaving the cache alone; otherwise what admitting the
   * string as a literal returns.
   */
  lemma DecodeSpec(st: State, name: string, asMapKey: bool)
    requires Valid(st)
    ensures var r := Decode(st, name, asMapKey);
      && Valid(r.state)
      && (name in st.keyToValue ==>
            && r == Reply(st.keyToValue[name], st)
            && r.out in st.valueToKey && st.valueToKey[r.out] == name
            && r.out != name)
      && (name !in st.keyToValue && !Cacheable(name, asMapKey) ==> r == Reply(name, st))
      && (name !in st.keyToValue && Cacheable(name, asMapKey) ==> r == Encache(st, name))
  {
    if name in st.keyToValue {
      assert st.keyToValue[name] in st.valueToKey;
      KeysAreShort(st, name);
    } else if Cacheable(name, asMapKey) {
      EncacheSpec(st, name);
    }
  }

  /** On a string that is neither a key nor a cached value, Decode does what Encode does. */
  lemma DecodeMirrorsEncode(st: State, name: string, asMapKey: bool)
    requires name !in st.keyToValue && name !in st.valueToKey
    ensures Decode(st, name, asMapKey) == Encode(st, name, asMapKey)
  {
  }

  /**
   * Decode of a cached value that is not a key, and that the call's flag
   * admits: in a generation with room it
   * returns the value's key without change; in a full generation it starts a
   * new one and returns the value itself.
   */
  lemma DecodeOfCachedValue(st: State, name: string, asMapKey: bool)
    requires Valid(st) && name in st.valueToKey && Cacheable(name, asMapKey)
    ensures name !in st.keyToValue
    ensures !CacheFull(st) ==> Decode(st, name, asMapKey) == Reply(st.valueToKey[name], st)
    ensures CacheFull(st) ==>
      Decode(st, name, asMapKey) == Reply(name, State(map[EncodeKey(0) := name], map[name := EncodeKey(0)]))
  {
    if name in st.keyToValue {
      KeysAreShort(st, name);
    }
  }

  /**
   * The first encode of an admissible new string returns it; the next one
   * returns its key, which is not the string, and changes nothing, so every
   * further encode returns the same key.
   */
  lemma EncodeTwice(st: State, name: string, asMapKey: bool, again: bool)
    requires Valid(st) && Cacheable(name, asMapKey) && name !in st.valueToKey
    ensures var first := Encode(st, name, asMapKey);
      var second := Encode(first.state, name, again);
      && first.out == name
      && second.out == EncodeKey(if CacheFull(st) then 0 else Size(st))
      && second.out != name
      && second.state == first.state
  {
    EncodeSpec(st, name, asMapKey);
  }

  /**
   * A string shorter than the admission length changes nothing: Encode
   * returns it, and Decode returns it unless it is a current key.
   */
  lemma ShortNamesPassThrough(st: State, name: string, asMapKey: bool)
    requires Valid(st) && |name| < MIN_SIZE_CACHEABLE
    ensures Encode(st, name, asMapKey) == Reply(name, st)
    ensures Decode(st, name, asMapKey).state == st
    ensures Decode(st, name, asMapKey).out == name <==> name !in st.keyToValue
  {
    if name in st.keyToValue {
      assert st.keyToValue[name] in st.valueToKey;
    }
  }
}
