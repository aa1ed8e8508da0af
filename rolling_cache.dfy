/**
 * The rolling cache as the object the codec holds: the two tables are fields
 * that the operations replace in place. Every method is tied to the function
 * of the same name in CacheState, whose lemmas carry the properties.
 */
module Transit {
  import opened KeyCodec
  import CacheState

  class RollingCache {
    var keyToValue: map<string, string>
    var valueToKey: map<string, string>

    /** The tables as a value of the functional model. */
    function Model(): CacheState.State
      reads this
    {
      CacheState.State(keyToValue, valueToKey)
    }

    /** The object invariant: the tables satisfy the cache invariant. */
    ghost predicate Valid()
      reads this
    {
      CacheState.Valid(Model())
    }

    /** A new cache is empty. */
    constructor ()
      ensures Valid() && Model() == CacheState.Clear()
    {
      keyToValue := map[];
      valueToKey := map[];
    }

    /** Drop the whole generation: both tables become empty. */
    method Clear()
      modifies this
      ensures Valid() && Model() == CacheState.Clear()
    {
      keyToValue := map[];
      valueToKey := map[];
    }

    /** Admit `name` if the admission rule lets it in; otherwise return it unchanged. */
    method MaybeEncache(name: string, asMapKey: bool) returns (r: string)
      requires Valid()
      modifies this
      ensures Valid()
      ensures CacheState.Reply(r, Model()) == CacheState.MaybeEncache(old(Model()), name, asMapKey)
    {
      if CacheState.Cacheable(name, asMapKey) {
        r := Encache(name);
      } else {
        r := name;
      }
    }

    /** The receiving side: a current key gives its value, anything else is a literal. */
    method Decode(name: string, asMapKey: bool := false) returns (r: string)
      requires Valid()
      modifies this
      ensures Valid()
      ensures CacheState.Reply(r, Model()) == CacheState.Decode(old(Model()), name, asMapKey)
    {
      CacheState.DecodeSpec(Model(), name, asMapKey);
      if name in keyToValue {
        r := keyToValue[name];
      } else {
        r := MaybeEncache(name, asMapKey);
      }
    }

    /** The sending side: a cached value gives its key, anything else is a literal. */
    method Encode(name: string, asMapKey: bool := false) returns (r: string)
      requires Valid()
      modifies this
      ensures Valid()
      ensures CacheState.Reply(r, Model()) == CacheState.Encode(old(Model()), name, asMapKey)
    {
      CacheState.EncodeSpec(Model(), name, asMapKey);
      if name in valueToKey {
        r := valueToKey[name];
      } else {
        r := MaybeEncache(name, asMapKey);
      }
    }

    /** The string is a key of the current generation, that is a well-formed key below the size. */
    function IsCacheKey(name: string): (b: bool)
      reads this
      requires Valid()
      ensures b <==> KeyIndex(name).Some? && KeyIndex(name).value < |keyToValue|
    {
      CacheState.CurrentKeyIff(Model(), name);
      CacheState.IsCacheKey(Model(), name)
    }

    /** The size of the generation; both tables have it. */
    function Size(): (n: nat)
      reads this
      requires Valid()
      ensures n <= CACHE_SIZE && n == |valueToKey|
    {
      CacheState.InverseSameSize(keyToValue, valueToKey);
      CacheState.Size(Model())
    }

    /** The generation is full exactly when every one of its keys is in use. */
    predicate CacheFull()
      reads this
      requires Valid()
      ensures CacheFull() <==> |keyToValue| == CACHE_SIZE
    {
      CacheState.CacheFull(Model())
    }

    /**
     * Admit `name`, which the caller has found admissible: reset a full
     * generation, then return the key of a cached `name`, or record `name`
     * under the key of the next index and return it.
     */
    method Encache(name: string) returns (r: string)
      requires Valid() && |name| >= CacheState.MIN_SIZE_CACHEABLE
      modifies this
      ensures Valid()
      ensures CacheState.Reply(r, Model()) == CacheState.Encache(old(Model()), name)
    {
      CacheState.EncacheSpec(Model(), name);
      if CacheFull() {
        Clear();
      }
      if name in valueToKey {
        r := valueToKey[name];
      } else {
        var key := EncodeKey(|keyToValue|);
        valueToKey := valueToKey[name := key];
        keyToValue := keyToValue[key := name];
        r := name;
      }
    }
  }

  /**
   * One cache object driven through repeated encodes of a map key: the first
   * returns the string, every later one its key "^!", which decodes back.
   */
  method RepeatedEncode() returns (first: string, second: string, third: string, back: string)
    ensures first == "abcd" && second == "^!" && third == "^!" && back == "abcd"
  {
    var rc := new RollingCache();
    first := rc.Encode("abcd", true);
    second := rc.Encode("abcd", true);
    KeyCodec.FirstKeyExample();
    third := rc.Encode("abcd", true);
    back := rc.Decode(third);
  }
}
