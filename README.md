# Transit rolling cache, modelled in Dafny

This project models `Transit::RollingCache`, the bounded string-interning
cache of the Transit codec. A sender encodes tokens with its own cache and a
receiver decodes them with another. The first time an admissible string goes
through `encode`, the string itself is sent and both ends record it under the
same short key. Every later time, only the key is sent. Keys are `"^"`
followed by one or two base-94 digits written as printable ASCII characters
(codes 33 to 126). When a generation holds `CACHE_SIZE = 94 * 94 = 8836`
entries, the next admission wipes both tables and starts again at index 0.

The project has four modules:

- `KeyCodec` (`key_codec.dfy`): the constants, `EncodeKey`, a checked inverse
  `KeyIndex`, and the private decoder `decode_key` of `RollingCache` as
  `DecodeKey`, written as it is.
- `CacheState` (`cache_state.dfy`): the admission rule `Cacheable` and the
  cache as a value. A `State` holds the two tables. The functions `Encache`,
  `MaybeEncache`, `Encode` and `Decode` map an old state to a `Reply` (the
  returned string and the new state). `Valid` is the invariant: the tables
  are inverses, the keys are exactly `EncodeKey(i)` for `i` below the size,
  every value has at least 4 characters, and the size is at most
  `CACHE_SIZE`. The lemmas state what each operation returns and that it
  keeps `Valid`.
- `Protocol` (`protocol.dfy`): runs over token streams. `EncodeAll` is a
  sender alone. `Lockstep` is a receiver decoding what a sender encodes. The
  lemmas cover the lockstep theorem, the capacity reset, short strings, and
  the scenarios of the Ruby implementation's tests.
- `Transit` (`rolling_cache.dfy`): the class `RollingCache`. Its two map
  fields are updated in place. Each method's `ensures` ties the returned
  string and the new fields to the `CacheState` function of the same name,
  and keeps `Valid()`. The client method `RepeatedEncode` drives one object
  through the repeated-encode test.

Three behaviours of `RollingCache` are easy to misread, and the model states
each one:

- A three-character string is never admitted, not even as a map key, because
  the length test comes first (`CacheState.CacheableExamples`).
- `decode` of a string that is cached as a value, is not a key, and is
  admitted with the call's map-key flag goes through `encache`. With room
  left it returns the value's key. When the generation is full it wipes the
  tables first and re-admits the string (`CacheState.DecodeOfCachedValue`).
  A cached string that the flag does not admit comes back unchanged, and
  nothing is wiped (`CacheState.DecodeSpec`, `Protocol.CachedMapKeyDecodedPlain`).
- `decode_key` does not invert `encode_key` (see Findings).
  `KeyCodec.KeyIndex` does (`KeyCodec.KeyIndexIff`).

## Model

| member | source | states |
|---|---|---|
| `KeyCodec.DecodeKey` | lib/transit/rolling_cache.rb:69-75 | decode_key as written; no contract of its own, its behaviour on every key is stated in DecodeKeyMisreadsKeys and FirstKeyExample |
| `CacheState.Cacheable` | lib/transit/rolling_cache.rb:43-45 | the admission rule; no contract of its own, restated on the first characters in CacheableRule, with CacheableExamples and KeysNotCacheable |
| `CacheState.Valid` | lib/transit/rolling_cache.rb:49-57 | the invariant the operations keep: inverse tables, keys exactly EncodeKey(i) below the size, values of at least 4 characters, size within CACHE_SIZE; established by Clear, kept as shown in EncacheSpec, EncodeSpec, DecodeSpec and EncodeAllKeepsValid |
| `CacheState.IsCacheKey` | lib/transit/rolling_cache.rb:31-33 | key-table lookup; no contract of its own, characterised in CurrentKeyIff |
| `CacheState.Size` | lib/transit/rolling_cache.rb:35-37 | the number of keys; no contract of its own, equal to the number of values by InverseSameSize |
| `CacheState.CacheFull` | lib/transit/rolling_cache.rb:39-41 | size at least CACHE_SIZE; no contract of its own, exactly CACHE_SIZE under Valid as shown by Transit.RollingCache.CacheFull |
| `CacheState.Encache` | lib/transit/rolling_cache.rb:49-57 | clear if full, then value-table lookup, else insert under the next key; no contract of its own, properties in EncacheHit, EncacheIntoRoom, EncacheIntoFull and EncacheSpec |
| `CacheState.MaybeEncache` | lib/transit/rolling_cache.rb:19-21 | Encache if admissible, else the string unchanged; no contract of its own, properties in EncodeSpec, DecodeSpec and ShortNamesPassThrough |
| `CacheState.Decode` | lib/transit/rolling_cache.rb:23-25 | key-table lookup, else MaybeEncache; no contract of its own, properties in DecodeSpec, DecodeMirrorsEncode and DecodeOfCachedValue |
| `CacheState.Encode` | lib/transit/rolling_cache.rb:27-29 | value-table lookup, else MaybeEncache; no contract of its own, properties in EncodeSpec and EncodeTwice |
| `Protocol.EncodeAll` | spec/transit/rolling_cache_spec.rb:55-66 | the sender's loop of encodes over a stream; no contract of its own, properties in EncodeAllKeepsValid, AdmitDistinct, CapacityReset and ShortStringsNotCached |
| `Protocol.Lockstep` | spec/transit/rolling_cache_spec.rb:93-103 | the sender encodes and the receiver decodes each token in turn; no contract of its own, properties in LockstepStep, LockstepAgrees and LockstepRecoversLongNames |
| `KeyCodec.DigitChar` | lib/transit/rolling_cache.rb:63-65 | a digit below 94 becomes a printable character whose code minus 33 gives the digit back |
| `KeyCodec.EncodeKey` | lib/transit/rolling_cache.rb:59-67 | the key is "^" and then 1 digit below index 94, 2 digits from 94 on; every digit is in [33,126]; the last digit is i % 94 + 33 and a middle digit is i / 94 + 33 |
| `KeyCodec.KeyIndex` | lib/transit/rolling_cache.rb:69-75 | the corrected form of decode_key (see Findings), a checked inverse of the key codec: when it gives an index, the string has the key shape and the index is below CACHE_SIZE |
| `KeyCodec.KeyIndexIff` | lib/transit/rolling_cache.rb:59-67 | KeyIndex(k) == Some(i) exactly when i < CACHE_SIZE and EncodeKey(i) == k: the codec is a bijection onto the well-formed keys |
| `KeyCodec.EncodeKeyInjective` | lib/transit/rolling_cache.rb:59-67 | distinct indices below CACHE_SIZE get distinct keys |
| `KeyCodec.DecodeKeyMisreadsKeys` | lib/transit/rolling_cache.rb:69-75 | decode_key as written reads the '^' prefix as a digit: it gives 61 for every 2-character key and 61 * 94 + i / 94 for a 3-character one, so it returns i only for i = 61 and i = 5795 |
| `KeyCodec.FirstKeyExample` | lib/transit/rolling_cache.rb:59-75 | index 0 has key "^!", KeyIndex maps "^!" back to 0, and decode_key gives 61 for it |
| `CacheState.CacheableRule` | lib/transit/rolling_cache.rb:43-45 | a string is admitted iff it has at least 4 characters and either is a map key or starts with '~' followed by '#', '$' or ':' |
| `CacheState.CacheableExamples` | lib/transit/rolling_cache.rb:43-45 | "~#foo" is admitted as a tag; "foo" and "ab" are never admitted; "abcd" only as a map key |
| `CacheState.KeysNotCacheable` | lib/transit/rolling_cache.rb:43-45 | no key produced by the codec passes the admission rule |
| `CacheState.Clear` | lib/transit/rolling_cache.rb:14-17 | the wiped cache is valid, with no keys and no values |
| `CacheState.KeySetGrow` | lib/transit/rolling_cache.rb:53-55 | the key of the next index is not among the keys of the earlier indices, and it is the only key added |
| `CacheState.CurrentKeyIff` | lib/transit/rolling_cache.rb:31-33 | in a valid cache a string is a key iff it is a well-formed key whose index is below the size |
| `CacheState.KeysAreShort` | lib/transit/rolling_cache.rb:52-55 | a key of a valid cache has fewer than 4 characters and is not a cached value |
| `CacheState.InverseSameSize` | lib/transit/rolling_cache.rb:35-37 | two inverse tables have the same number of entries, so the size can be read from either |
| `CacheState.InverseInsert` | lib/transit/rolling_cache.rb:54-55 | adding one pair whose key and value are both new keeps the tables inverse |
| `CacheState.InsertKeepsValid` | lib/transit/rolling_cache.rb:49-56 | with room left, inserting a new admissible string under the next key keeps the invariant and adds one entry |
| `CacheState.EncacheHit` | lib/transit/rolling_cache.rb:52 | with room left, an already cached value gives its key and nothing changes |
| `CacheState.EncacheIntoRoom` | lib/transit/rolling_cache.rb:49-56 | with room left, a new string is returned unchanged; it is recorded in both tables under EncodeKey(size) and the old entries stay |
| `CacheState.EncacheIntoFull` | lib/transit/rolling_cache.rb:49-56 | in a full generation both tables are wiped; the string is returned and is the only entry, under EncodeKey(0) |
| `CacheState.EncacheSpec` | lib/transit/rolling_cache.rb:49-57 | encache keeps the invariant. With room, a cached value gives its key. Otherwise it returns the string and records it under the next index, or under 0 after a reset |
| `CacheState.EncodeSpec` | lib/transit/rolling_cache.rb:27-29 | encode keeps the invariant. A cached value gives its key, which maps back to it and differs from it. A string that is not admitted is returned with no change. A new admissible string goes through Encache (whole new state in EncacheIntoRoom and EncacheIntoFull): it is returned and cached under the next index |
| `CacheState.DecodeSpec` | lib/transit/rolling_cache.rb:23-25 | decode keeps the invariant. A current key gives its value, which maps back to it, with no change. A non-key that is not admitted is returned with no change. Any other string goes through encache |
| `CacheState.DecodeMirrorsEncode` | lib/transit/rolling_cache.rb:23-29 | on a string that is neither a key nor a cached value, decode does exactly what encode does |
| `CacheState.DecodeOfCachedValue` | lib/transit/rolling_cache.rb:49-56 | decode of a cached admissible value returns its key when there is room, and wipes and re-admits it under "^!" when the generation is full |
| `CacheState.EncodeTwice` | lib/transit/rolling_cache.rb:27-28 | the first encode of a new admissible string returns it; the second returns its key, which differs from it, and changes nothing, so every later call returns the same key |
| `CacheState.ShortNamesPassThrough` | lib/transit/rolling_cache.rb:19-29 | a string shorter than 4 characters never changes the cache; encode returns it, and decode returns it iff it is not a current key |
| `Protocol.EncodeAllKeepsValid` | spec/transit/rolling_cache_spec.rb:55-66 | any stream of encodes keeps the invariant, including size at most CACHE_SIZE, and gives one output per token |
| `Protocol.AdmitOne` | lib/transit/rolling_cache.rb:49-56 | one new admissible string with room left is returned, adds one entry, and is the one new value |
| `Protocol.AdmitDistinct` | spec/transit/rolling_cache_spec.rb:37-44 | distinct, new, admissible strings that fit in the generation each come back unchanged, and each adds one entry |
| `Protocol.OverflowStep` | lib/transit/rolling_cache.rb:49-56 | a new admissible string that reaches a full generation comes back unchanged and is the only entry of the next one, under "^!" |
| `Protocol.CapacityReset` | spec/transit/rolling_cache_spec.rb:37-53 | from empty, CACHE_SIZE distinct admissible strings come back unchanged and fill the cache; one more also comes back unchanged and leaves size 1, under "^!" |
| `Protocol.ShortStringsNotCached` | spec/transit/rolling_cache_spec.rb:68-77 | a stream of strings shorter than 4 characters is echoed unchanged and leaves the cache as it was |
| `Protocol.LockstepStep` | lib/transit/rolling_cache.rb:23-28 | the receiver's decode of the sender's encode leaves both caches equal and valid, and returns the sent string iff it is not a current key |
| `Protocol.LockstepAgrees` | spec/transit/rolling_cache_spec.rb:93-103 | sender and receiver that start from the same valid cache stay equal and valid on any stream, with the sender's cache equal to EncodeAll's. Token j comes back iff it is not a key of the cache after the first j tokens |
| `Protocol.LockstepRecoversLongNames` | spec/transit/rolling_cache_spec.rb:55-66 | in lockstep, every string of 4 or more characters comes back unchanged, and neither cache exceeds CACHE_SIZE |
| `Protocol.RepeatedMapKeyScenario` | spec/transit/rolling_cache_spec.rb:13-23 | on a fresh cache "abcd" as a map key is returned first, then "^!" with no further change, and "^!" decodes to "abcd" |
| `Protocol.CachedMapKeyDecodedPlain` | lib/transit/rolling_cache.rb:19-25 | "abcd" cached as a map key, then decoded with the default flag, is refused by the admission rule and comes back unchanged, with the cache as it was |
| `Protocol.CountScenario` | spec/transit/rolling_cache_spec.rb:25-31 | three distinct map keys give size 3 |
| `Protocol.PlainStringScenario` | spec/transit/rolling_cache_spec.rb:81-91 | a plain "abcd" that is neither a tag nor a map key is returned unchanged by encode and decode and never cached |
| `Transit.RollingCache.constructor` | lib/transit/rolling_cache.rb:10-12 | a new cache is valid and empty |
| `Transit.RollingCache.Clear` | lib/transit/rolling_cache.rb:14-17 | both fields become empty tables |
| `Transit.RollingCache.MaybeEncache` | lib/transit/rolling_cache.rb:19-21 | returns and leaves what CacheState.MaybeEncache gives for the old tables, and keeps Valid |
| `Transit.RollingCache.Decode` | lib/transit/rolling_cache.rb:23-25 | returns and leaves what CacheState.Decode gives for the old tables (properties in DecodeSpec), and keeps Valid |
| `Transit.RollingCache.Encode` | lib/transit/rolling_cache.rb:27-29 | returns and leaves what CacheState.Encode gives for the old tables (properties in EncodeSpec), and keeps Valid |
| `Transit.RollingCache.IsCacheKey` | lib/transit/rolling_cache.rb:31-33 | true iff the string is a well-formed key whose index is below the current size |
| `Transit.RollingCache.Size` | lib/transit/rolling_cache.rb:35-37 | the size is at most CACHE_SIZE and equals the number of entries of both tables |
| `Transit.RollingCache.CacheFull` | lib/transit/rolling_cache.rb:39-41 | in a valid cache, full means exactly CACHE_SIZE entries |
| `Transit.RollingCache.Encache` | lib/transit/rolling_cache.rb:49-57 | returns and leaves what CacheState.Encache gives for the old tables (properties in EncacheSpec), and keeps Valid |
| `Transit.RepeatedEncode` | spec/transit/rolling_cache_spec.rb:13-23 | one object encoding the map key "abcd" three times returns "abcd", then "^!" twice, and decoding "^!" gives "abcd" back |

## Left out

- Ruby hash insertion order and object identity are not modelled. The tables are Dafny maps from string to string. Ruby's `||` on a lookup is modelled as "present or absent", because keys and values are never nil.
- Ruby's `Integer#chr` is modelled by code point. A character is the `char` with code 33 to 126, and there is no string encoding.
- KeyCodec.EncodeKey: requires an index below CACHE_SIZE. Its only caller passes the size of a generation with room. The Ruby implementation gives no printable key for larger indices.
- KeyCodec.DecodeKey: modelled as written, with no round-trip property, since it has none. It requires two characters, because the Ruby implementation fails on shorter strings.
- Transit.RollingCache.Encache: requires, as well as the object invariant, a string of at least 4 characters. Its only caller, `maybe_encache`, passes only admitted strings.
- Every class member except the constructor and `Clear` requires `Valid()`, the object invariant. The constructor and `Clear` establish it, and every method keeps it.
- The tests pick random strings. Here every lemma holds for all token sequences instead.
- Thread safety is not modelled: the cache has no locking, so the model is single-threaded.
- The surrounding Transit codec is not part of this model. It decides which tokens go through the cache and escapes strings that look like keys.

## Findings

| source | as written | input that shows it | evidently intended | confidence | as-written member | corrected member |
|---|---|---|---|---|---|---|
| lib/transit/rolling_cache.rb:69-75 | `decode_key` converts the first character, the '^' prefix (code 94), as a digit | `decode_key("^!")` is 61, but "^!" is the key of index 0; only indices 61 and 5795 round-trip | convert the characters after the prefix, so that decoding inverts `encode_key` on [0, 8836) (proved in KeyCodec.KeyIndexIff) | not executed; high (the method is private and never called, so no other behaviour depends on it) | KeyCodec.DecodeKeyMisreadsKeys | KeyCodec.KeyIndex |
