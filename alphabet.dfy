/** The character classes the evaluator recognises, and the random choice it
    draws replacement characters with. */
module Alphabet {

  /** `string.ascii_lowercase`, `string.ascii_uppercase` and `string.digits`,
      each a run of consecutive code points. */
  const LOWERCASE: string := CharRange('a', 26)
  const UPPERCASE: string := CharRange('A', 26)
  const DIGITS: string := CharRange('0', 10)

  /** The alphabet of padding, repeat and avoid-list repairs: letters, then digits. */
  const VALID_CHARS: string := LOWERCASE + UPPERCASE + DIGITS

  /** The n characters from first on, in code-point order. */
  function CharRange(first: char, n: nat): (s: string)
    requires first as int + n < 0xD800
    ensures |s| == n
    ensures forall c :: c in s <==> first <= c && c as int < first as int + n
  {
    var s := seq(n, i requires 0 <= i < n => (first as int + i) as char);
    RangeMembers(first, n, s);
    s
  }

  lemma RangeMembers(first: char, n: nat, s: string)
    requires first as int + n < 0xD800
    requires |s| == n && forall i :: 0 <= i < n ==> s[i] == (first as int + i) as char
    ensures forall c :: c in s <==> first <= c && c as int < first as int + n
  {
    forall c | first <= c && c as int < first as int + n ensures c in s {
      var i := c as int - first as int;
      assert s[i] == c;
    }
  }

  /** The constants spell out the usual alphabets. */
  lemma AlphabetsSpelledOut()
    ensures LOWERCASE == "abcdefghijklmnopqrstuvwxyz"
    ensures UPPERCASE == "ABCDEFGHIJKLMNOPQRSTUVWXYZ"
    ensures DIGITS == "0123456789"
    ensures |VALID_CHARS| == 62
  {
  }

  /** What `random.choice(alphabet)` returns for the evaluator's operation
      numbered k: the random source is an injected stream of raw draws, and a
      draw is reduced to an index of the alphabet. Nothing is assumed about
      how the draws are distributed. */
  function Pick(alphabet: string, rng: nat -> nat, k: nat): (c: char)
    requires |alphabet| > 0
    ensures c in alphabet
  {
    alphabet[rng(k) % |alphabet|]
  }

  /** The stream model loses no outcome: for any character of the alphabet
      there is a random source that picks it. */
  lemma PickReaches(alphabet: string, c: char, k: nat) returns (rng: nat -> nat)
    requires c in alphabet
    ensures Pick(alphabet, rng, k) == c
  {
    var i :| 0 <= i < |alphabet| && alphabet[i] == c;
    rng := _ => i;
  }

  /** Some index of c in alphabet, when c occurs in it. */
  ghost function IndexOf(alphabet: string, c: char): (i: nat)
    ensures c in alphabet ==> i < |alphabet| && alphabet[i] == c
  {
    if c in alphabet then var i :| 0 <= i < |alphabet| && alphabet[i] == c; i else 0
  }

  /** The same for a whole run of operations: any characters of the alphabet
      are picked, in order, at consecutive operations from base on. */
  lemma PicksReach(alphabet: string, cs: seq<char>, base: nat) returns (rng: nat -> nat)
    requires |alphabet| > 0 && forall j :: 0 <= j < |cs| ==> cs[j] in alphabet
    ensures forall j :: 0 <= j < |cs| ==> Pick(alphabet, rng, base + j) == cs[j]
  {
    var idx := seq(|cs|, j requires 0 <= j < |cs| => IndexOf(alphabet, cs[j]));
    rng := (k: nat) => if base <= k < base + |idx| then idx[k - base] else 0;
    forall j | 0 <= j < |cs| ensures Pick(alphabet, rng, base + j) == cs[j] {
      var i := IndexOf(alphabet, cs[j]);
      assert rng(base + j) == idx[j] == i < |alphabet|;
      assert i % |alphabet| == i;
    }
  }
}
