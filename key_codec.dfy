/**
 * The key codec of the rolling cache: an index of the current generation
 * becomes a key made of the prefix '^' and one or two base-94 digits, each
 * digit written as a printable ASCII character (codes 33 to 126).
 */
module KeyCodec {

  datatype Option<+T> = None | Some(value: T)

  /** Code of the first printable ASCII character, '!'. */
  const FIRST_ORD: nat := 33
  /** Number of printable characters, hence the base of a key digit. */
  const BASE: nat := 94
  /** Capacity of one generation: one key per pair of digits. */
  const CACHE_SIZE: nat := 94 * 94
  /** Every key starts with this character. */
  const KEY_PREFIX: char := '^'

  /** A character that stands for a key digit. */
  predicate IsDigitChar(c: char) {
    FIRST_ORD <= c as int < FIRST_ORD + BASE
  }

  /** The character of digit `d`. */
  function DigitChar(d: nat): (c: char)
    requires d < BASE
    ensures IsDigitChar(c) && c as int - FIRST_ORD == d
  {
    (d + FIRST_ORD) as char
  }

  /** The key of index `i`: two characters below 94, three from there on. */
  function EncodeKey(i: nat): (k: string)
    requires i < CACHE_SIZE
    ensures |k| == (if i < BASE then 2 else 3)
    ensures k[0] == KEY_PREFIX
    ensures forall j :: 1 <= j < |k| ==> IsDigitChar(k[j])
    ensures k[|k| - 1] as int == i % BASE + FIRST_ORD
    ensures |k| == 3 ==> k[1] as int == i / BASE + FIRST_ORD
  {
    var hi := i / BASE;
    var lo := i % BASE;
    if hi == 0 then
      [KEY_PREFIX, DigitChar(lo)]
    else
      [KEY_PREFIX, DigitChar(hi), DigitChar(lo)]
  }

  /**
   * The index a key stands for, or None when the string is not a key that
   * EncodeKey can produce (wrong prefix or length, a character outside the
   * digit range, or a leading zero digit in a three-character key).
   */
  function KeyIndex(k: string): (r: Option<nat>)
    ensures r.Some? ==> 2 <= |k| <= 3 && k[0] == KEY_PREFIX && r.value < CACHE_SIZE
  {
    if |k| == 2 && k[0] == KEY_PREFIX && IsDigitChar(k[1]) then
      Some(k[1] as int - FIRST_ORD)
    else if |k| == 3 && k[0] == KEY_PREFIX && IsDigitChar(k[1]) && IsDigitChar(k[2])
            && k[1] != DigitChar(0) then
      Some((k[1] as int - FIRST_ORD) * BASE + (k[2] as int - FIRST_ORD))
    else
      None
  }

  lemma DivModDigits(hi: nat, lo: nat)
    requires lo < BASE
    ensures (hi * BASE + lo) / BASE == hi && (hi * BASE + lo) % BASE == lo
  {
  }

  /** KeyIndex and EncodeKey are inverse bijections between [0, CACHE_SIZE) and the keys. */
  lemma KeyIndexIff(k: string, i: nat)
    ensures KeyIndex(k) == Some(i) <==> i < CACHE_SIZE && EncodeKey(i) == k
  {
    if i < CACHE_SIZE && EncodeKey(i) == k {
      DivModDigits(i / BASE, i % BASE);
    }
    if KeyIndex(k) == Some(i) {
      if |k| == 2 {
        assert k == EncodeKey(i);
      } else {
        var hi, lo := k[1] as int - FIRST_ORD, k[2] as int - FIRST_ORD;
        DivModDigits(hi, lo);
        assert k == EncodeKey(i);
      }
    }
  }

  /** Distinct indices of one generation get distinct keys. */
  lemma EncodeKeyInjective(i: nat, j: nat)
    requires i < CACHE_SIZE && j < CACHE_SIZE
    ensures EncodeKey(i) == EncodeKey(j) ==> i == j
  {
    KeyIndexIff(EncodeKey(i), i);
    KeyIndexIff(EncodeKey(i), j);
  }

  /**
   * The private decoder `decode_key` of RollingCache, as written: for a two-character key
   * it converts the first character, and for a longer one the first two, so
   * the prefix '^' (code 94) is read as a digit. A string shorter than two
   * characters makes the Ruby implementation fail, hence the precondition.
   */
  function DecodeKey(s: string): int
    requires |s| >= 2
  {
    if |s| == 2 then
      s[0] as int - FIRST_ORD
    else
      (s[0] as int - FIRST_ORD) * BASE + (s[1] as int - FIRST_ORD)
  }

  /**
   * DecodeKey does not invert EncodeKey: the prefix always contributes 61,
   * and only the indices 61 and 61 * 94 + 61 come back unchanged.
   */
  lemma DecodeKeyMisreadsKeys(i: nat)
    requires i < CACHE_SIZE
    ensures DecodeKey(EncodeKey(i)) == (if i < BASE then 61 else 61 * BASE + i / BASE)
    ensures DecodeKey(EncodeKey(i)) == i <==> i == 61 || i == 61 * BASE + 61
  {
    var hi, lo := i / BASE, i % BASE;
    assert i == hi * BASE + lo;
    if i >= BASE && DecodeKey(EncodeKey(i)) == i {
      assert 93 * hi + lo == 93 * 61 + 61;
    }
  }

  /** The first key of a generation, and what `decode_key` makes of it. */
  lemma FirstKeyExample()
    ensures EncodeKey(0) == "^!" && KeyIndex("^!") == Some(0)
    ensures DecodeKey("^!") == 61
  {
  }
}
