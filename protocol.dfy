/**
 * The cache over a stream of tokens: a sender that encodes every token, and
 * a receiver that decodes what the sender produced, each with its own cache.
 */
module Protocol {
  import opened KeyCodec
  import opened CacheState

  /** One candidate string of the stream, with the caller's map-key flag. */
  datatype Token = Token(name: string, asMapKey: bool)

  /** The strings an operation returned along a stream, and the cache it left. */
  datatype Run = Run(outs: seq<string>, final: State)

  /** The sender: Encode every token in order. */
  function EncodeAll(st: State, tokens: seq<Token>): Run
    decreases |tokens|
  {
    if tokens == [] then Run([], st)
    else
      var r := Encode(st, tokens[0].name, tokens[0].asMapKey);
      var rest := EncodeAll(r.state, tokens[1..]);
      Run([r.out] + rest.outs, rest.final)
  }

  /** Both ends of the wire: the receiver decodes each string the sender encodes. */
  datatype Link = Link(sender: State, receiver: State, received: seq<string>)

  function Lockstep(sender: State, receiver: State, tokens: seq<Token>): Link
    decreases |tokens|
  {
    if tokens == [] then Link(sender, receiver, [])
    else
      var t := tokens[0];
      var sent := Encode(sender, t.name, t.asMapKey);
      var got := Decode(receiver, sent.out, t.asMapKey);
      var rest := Lockstep(sent.state, got.state, tokens[1..]);
      Link(rest.sender, rest.receiver, [got.out] + rest.received)
  }

  /** Splitting a stream at its last token. */
  lemma {:induction false} EncodeAllSnoc(st: State, tokens: seq<Token>, t: Token)
    ensures var r := EncodeAll(st, tokens);
      var last := Encode(r.final, t.name, t.asMapKey);
      EncodeAll(st, tokens + [t]) == Run(r.outs + [last.out], last.state)
    decreases |tokens|
  {
    if tokens == [] {
      assert [] + [t] == [t];
    } else {
      var r := Encode(st, tokens[0].name, tokens[0].asMapKey);
      assert (tokens + [t])[1..] == tokens[1..] + [t];
      EncodeAllSnoc(r.state, tokens[1..], t);
    }
  }

  /** Encoding a stream keeps the cache invariant. */
  lemma {:induction false} EncodeAllKeepsValid(st: State, tokens: seq<Token>)
    requires Valid(st)
    ensures Valid(EncodeAll(st, tokens).final)
    ensures |EncodeAll(st, tokens).outs| == |tokens|
    decreases |tokens|
  {
    if tokens != [] {
      EncodeSpec(st, tokens[0].name, tokens[0].asMapKey);
      EncodeAllKeepsValid(Encode(st, tokens[0].name, tokens[0].asMapKey).state, tokens[1..]);
    }
  }

  /** No two tokens of the stream carry the same string. */
  ghost predicate DistinctNames(tokens: seq<Token>) {
    forall i, j :: 0 <= i < j < |tokens| ==> tokens[i].name != tokens[j].name
  }

  /** The strings of a stream. */
  function Names(tokens: seq<Token>): set<string>
    decreases |tokens|
  {
    if tokens == [] then {} else {tokens[0].name} + Names(tokens[1..])
  }

  /** A string carried by no token of the stream is not among its strings. */
  lemma {:induction false} NotInNames(tokens: seq<Token>, name: string)
    requires forall j :: 0 <= j < |tokens| ==> tokens[j].name != name
    ensures name !in Names(tokens)
    decreases |tokens|
  {
    if tokens != [] {
      assert forall j :: 0 <= j < |tokens[1..]| ==> tokens[1..][j] == tokens[j + 1];
      NotInNames(tokens[1..], name);
    }
  }

  /** Every output is the string of the token at the same position. */
  ghost predicate Echoes(outs: seq<string>, tokens: seq<Token>) {
    |outs| == |tokens| && forall j :: 0 <= j < |tokens| ==> outs[j] == tokens[j].name
  }

  lemma EchoesCons(outs: seq<string>, tokens: seq<Token>)
    requires tokens != [] && Echoes(outs, tokens[1..])
    ensures Echoes([tokens[0].name] + outs, tokens)
  {
    forall j | 0 < j < |tokens|
      ensures ([tokens[0].name] + outs)[j] == tokens[j].name
    {
      assert tokens[1..][j - 1] == tokens[j];
    }
  }

  /** Distinct admissible strings, none of them cached yet. */
  ghost predicate FreshAdmissible(st: State, tokens: seq<Token>) {
    && DistinctNames(tokens)
    && (forall j :: 0 <= j < |tokens| ==> Cacheable(tokens[j].name, tokens[j].asMapKey))
    && (forall j :: 0 <= j < |tokens| ==> tokens[j].name !in st.valueToKey)
  }

  lemma FreshAdmissibleTail(st: State, next: State, tokens: seq<Token>)
    requires tokens != [] && FreshAdmissible(st, tokens)
    requires forall v :: v in next.valueToKey <==> v in st.valueToKey || v == tokens[0].name
    ensures FreshAdmissible(next, tokens[1..])
  {
    assert forall j :: 0 <= j < |tokens[1..]| ==> tokens[1..][j] == tokens[j + 1];
  }

  /**
   * Distinct admissible strings that the cache has not seen, as many as it
   * has room for: each comes back unchanged, and each adds one entry.
   */
  lemma {:induction false} AdmitDistinct(st: State, tokens: seq<Token>)
    requires Valid(st) && Size(st) + |tokens| <= CACHE_SIZE
    requires FreshAdmissible(st, tokens)
    ensures var r := EncodeAll(st, tokens);
      && Echoes(r.outs, tokens)
      && Size(r.final) == Size(st) + |tokens|
      && (forall v :: v in r.final.valueToKey <==> v in st.valueToKey || v in Names(tokens))
      && Valid(r.final)
    decreases |tokens|
  {
    if tokens != [] {
      var t := tokens[0];
      AdmitOne(st, t);
      var next := Encode(st, t.name, t.asMapKey).state;
      FreshAdmissibleTail(st, next, tokens);
      AdmitDistinct(next, tokens[1..]);
      EchoesCons(EncodeAll(next, tokens[1..]).outs, tokens);
    }
  }

  /** One admissible new string, with room to spare: what AdmitDistinct needs of one step. */
  lemma AdmitOne(st: State, t: Token)
    requires Valid(st) && !CacheFull(st)
    requires Cacheable(t.name, t.asMapKey) && t.name !in st.valueToKey
    ensures var r := Encode(st, t.name, t.asMapKey);
      && r.out == t.name
      && Valid(r.state)
      && Size(r.state) == Size(st) + 1
      && (forall v :: v in r.state.valueToKey <==> v in st.valueToKey || v == t.name)
  {
    EncacheIntoRoom(st, t.name);
  }

  /**
   * An admissible new string arriving at a full generation comes back
   * unchanged and is the only entry of the next generation, under "^!".
   */
  lemma OverflowStep(st: State, t: Token)
    requires Valid(st) && CacheFull(st)
    requires Cacheable(t.name, t.asMapKey) && t.name !in st.valueToKey
    ensures Encode(st, t.name, t.asMapKey) == Reply(t.name, State(map["^!" := t.name], map[t.name := "^!"]))
  {
    EncacheIntoFull(st, t.name);
    FirstKeyExample();
  }

  /**
   * From an empty cache, CACHE_SIZE distinct admissible strings all come back
   * unchanged and fill the generation; one more distinct string also comes
   * back unchanged, starts a new generation and takes its first key "^!".
   */
  lemma CapacityReset(tokens: seq<Token>)
    requires |tokens| == CACHE_SIZE + 1 && FreshAdmissible(Clear(), tokens)
    ensures var full := EncodeAll(Clear(), tokens[..CACHE_SIZE]);
      && Echoes(full.outs, tokens[..CACHE_SIZE])
      && Size(full.final) == CACHE_SIZE
    ensures var r := EncodeAll(Clear(), tokens);
      && Echoes(r.outs, tokens)
      && Size(r.final) == 1
      && r.final.valueToKey == map[tokens[CACHE_SIZE].name := "^!"]
      && r.final.keyToValue == map["^!" := tokens[CACHE_SIZE].name]
  {
    var prefix, last := tokens[..CACHE_SIZE], tokens[CACHE_SIZE];
    FreshAdmissiblePrefix(Clear(), tokens, CACHE_SIZE);
    AdmitDistinct(Clear(), prefix);
    var full := EncodeAll(Clear(), prefix);
    NotInNames(prefix, last.name);
    OverflowStep(full.final, last);
    EncodeAllSnoc(Clear(), prefix, last);
    EchoesSnoc(full.outs, prefix, last);
  }

  lemma FreshAdmissiblePrefix(st: State, tokens: seq<Token>, n: nat)
    requires n < |tokens| && FreshAdmissible(st, tokens)
    ensures FreshAdmissible(st, tokens[..n])
    ensures forall j :: 0 <= j < n ==> tokens[..n][j].name != tokens[n].name
    ensures n + 1 == |tokens| ==> tokens == tokens[..n] + [tokens[n]]
  {
  }

  lemma EchoesSnoc(outs: seq<string>, tokens: seq<Token>, t: Token)
    requires Echoes(outs, tokens)
    ensures Echoes(outs + [t.name], tokens + [t])
  {
  }

  /** A stream of short strings passes through unchanged and leaves the cache as it was. */
  lemma {:induction false} ShortStringsNotCached(st: State, tokens: seq<Token>)
    requires Valid(st)
    requires forall j :: 0 <= j < |tokens| ==> |tokens[j].name| < MIN_SIZE_CACHEABLE
    ensures var r := EncodeAll(st, tokens);
      && |r.outs| == |tokens|
      && (forall j :: 0 <= j < |tokens| ==> r.outs[j] == tokens[j].name)
      && r.final == st
    decreases |tokens|
  {
    if tokens != [] {
      ShortNamesPassThrough(st, tokens[0].name, tokens[0].asMapKey);
      ShortStringsNotCached(st, tokens[1..]);
      var rest := EncodeAll(st, tokens[1..]);
      forall j | 0 < j < |tokens|
        ensures EncodeAll(st, tokens).outs[j] == tokens[j].name
      {
        assert EncodeAll(st, tokens).outs[j] == rest.outs[j - 1];
        assert tokens[1..][j - 1] == tokens[j];
      }
    }
  }

  /**
   * One step of the wire: the receiver's decode of the sender's encode
   * leaves both caches equal and valid, and recovers the sender's string
   * exactly when that string is not a current key.
   */
  lemma LockstepStep(st: State, name: string, asMapKey: bool)
    requires Valid(st)
    ensures var sent := Encode(st, name, asMapKey);
      var got := Decode(st, sent.out, asMapKey);
      && got.state == sent.state
      && Valid(sent.state)
      && (got.out == name <==> name !in st.keyToValue)
  {
    EncodeSpec(st, name, asMapKey);
    var sent := Encode(st, name, asMapKey);
    DecodeSpec(st, sent.out, asMapKey);
    if name in st.valueToKey {
      KeysAreShort(st, st.valueToKey[name]);
      assert st.keyToValue[st.valueToKey[name]] == name;
      if name in st.keyToValue {
        KeysAreShort(st, name);
      }
    } else if name in st.keyToValue {
      KeysAreShort(st, name);
      assert st.keyToValue[name] in st.valueToKey;
    } else if Cacheable(name, asMapKey) {
      DecodeMirrorsEncode(st, name, asMapKey);
    }
  }

  /**
   * Sender and receiver that start from the same valid cache stay equal
   * along any stream, both caches stay valid, the sender's cache is that of
   * encoding the stream alone, and the receiver gets back each string
   * exactly when it was not a key of the caches at that point.
   */
  lemma {:induction false} LockstepAgrees(st: State, tokens: seq<Token>)
    requires Valid(st)
    ensures var l := Lockstep(st, st, tokens);
      && l.sender == l.receiver
      && l.sender == EncodeAll(st, tokens).final
      && Valid(l.sender)
      && |l.received| == |tokens|
      && (forall j :: 0 <= j < |tokens| ==>
            (l.received[j] == tokens[j].name <==>
             tokens[j].name !in EncodeAll(st, tokens[..j]).final.keyToValue))
    decreases |tokens|
  {
    if tokens != [] {
      var t := tokens[0];
      LockstepStep(st, t.name, t.asMapKey);
      var next := Encode(st, t.name, t.asMapKey).state;
      LockstepAgrees(next, tokens[1..]);
      var l := Lockstep(st, st, tokens);
      var rest := Lockstep(next, next, tokens[1..]);
      assert l.received == [Decode(st, Encode(st, t.name, t.asMapKey).out, t.asMapKey).out] + rest.received;
      forall j | 0 <= j < |tokens|
        ensures l.received[j] == tokens[j].name <==>
                tokens[j].name !in EncodeAll(st, tokens[..j]).final.keyToValue
      {
        if j == 0 {
          assert tokens[..0] == [];
        } else {
          assert l.received[j] == rest.received[j - 1];
          EncodeAllPrefixStep(st, tokens, j);
        }
      }
    }
  }

  /** Encoding the first j tokens is encoding the first one, then the next j - 1. */
  lemma EncodeAllPrefixStep(st: State, tokens: seq<Token>, j: nat)
    requires 0 < j < |tokens|
    ensures tokens[1..][j - 1] == tokens[j]
    ensures EncodeAll(st, tokens[..j]).final ==
            EncodeAll(Encode(st, tokens[0].name, tokens[0].asMapKey).state, tokens[1..][..j - 1]).final
  {
    assert tokens[..j][1..] == tokens[1..][..j - 1];
    assert tokens[..j][0] == tokens[0];
  }

  /**
   * The receiver gets back every string at least as long as the admission
   * length, and the two caches never grow beyond one generation.
   */
  lemma LockstepRecoversLongNames(st: State, tokens: seq<Token>)
    requires Valid(st)
    ensures var l := Lockstep(st, st, tokens);
      && l.sender == l.receiver
      && Size(l.sender) <= CACHE_SIZE
      && |l.received| == |tokens|
      && (forall j :: 0 <= j < |tokens| && |tokens[j].name| >= MIN_SIZE_CACHEABLE ==>
            l.received[j] == tokens[j].name)
  {
    LockstepAgrees(st, tokens);
    forall j | 0 <= j < |tokens| && |tokens[j].name| >= MIN_SIZE_CACHEABLE
      ensures tokens[j].name !in EncodeAll(st, tokens[..j]).final.keyToValue
    {
      var mid := EncodeAll(st, tokens[..j]).final;
      EncodeAllKeepsValid(st, tokens[..j]);
      if tokens[j].name in mid.keyToValue {
        KeysAreShort(mid, tokens[j].name);
      }
    }
  }

  /**
   * A fresh cache: a map key comes back unchanged the first time and as "^!"
   * from then on, and the receiver turns "^!" back into it.
   */
  lemma RepeatedMapKeyScenario()
    ensures var first := Encode(Clear(), "abcd", true);
      var second := Encode(first.state, "abcd", true);
      && first.out == "abcd" && Size(first.state) == 1
      && second.out == "^!" && second.state == first.state
      && Decode(second.state, second.out, false).out == "abcd"
  {
    FirstKeyExample();
  }

  /**
   * A string cached as a map key and then decoded with the default flag is
   * not admitted, so it comes back as it is and the cache does not change.
   */
  lemma CachedMapKeyDecodedPlain()
    ensures var st := Encode(Clear(), "abcd", true).state;
      && st.valueToKey == map["abcd" := "^!"]
      && Decode(st, "abcd", false) == Reply("abcd", st)
  {
    FirstKeyExample();
    CacheableExamples();
  }

  /** Three distinct map keys make three entries. */
  lemma CountScenario()
    ensures Size(EncodeAll(Clear(), [Token("abcd", true), Token("xxxx", true), Token("yyyy", true)]).final) == 3
  {
    var toks := [Token("abcd", true), Token("xxxx", true), Token("yyyy", true)];
    assert FreshAdmissible(Clear(), toks);
    AdmitDistinct(Clear(), toks);
  }

  /**
   * A plain string that is neither a tag nor a map key is never cached, so
   * Encode and Decode both hand it back as it is.
   */
  lemma PlainStringScenario()
    ensures var plain := Encode(Clear(), "abcd", false);
      && plain == Reply("abcd", Clear())
      && Encode(plain.state, "abcd", false) == plain
      && Decode(plain.state, "abcd", false) == plain
  {
    CacheableExamples();
  }
}
