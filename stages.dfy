/** The repair stages of `_make_secure`, each a function from the evaluator's
    state before the stage to its state after it. The random source is the
    stream rng: the character drawn for the operation numbered k (counting
    from 0 over the whole run) is Pick(alphabet, rng, k). */
module Stages {
  import opened Alphabet
  import opened Options
  import opened Queries
  import opened RepeatIndex
  import opened Avoid

  const MIN_LENGTH := 7
  const MAX_LENGTH := 22

  /** The evaluator's mutable state: the character list and the operation counter. */
  datatype State = State(chars: seq<char>, ops: nat)

  // Stage 1: pad on the right to MIN_LENGTH.

  /** The picks from VALID_CHARS of the d operations numbered from on. */
  function Draws(rng: nat -> nat, from: nat, d: nat): (cs: seq<char>)
    ensures |cs| == d
    ensures forall j :: 0 <= j < d ==> cs[j] == Pick(VALID_CHARS, rng, from + j)
  {
    if d == 0 then [] else Draws(rng, from, d - 1) + [Pick(VALID_CHARS, rng, from + d - 1)]
  }

  /** Appending one character to a padded prefix: a step of the padding loop. */
  lemma AppendStep(chars: seq<char>, drawn: seq<char>, next: char, longer: seq<char>, before: seq<char>)
    requires before == chars + drawn && longer == drawn + [next]
    ensures before + [next] == chars + longer
  {
  }

  /** The draws of one more operation, numbered at. */
  lemma DrawsNext(rng: nat -> nat, from: nat, k: nat, at: nat)
    requires at == from + k
    ensures Draws(rng, from, k + 1) == Draws(rng, from, k) + [Pick(VALID_CHARS, rng, at)]
  {
  }

  /** Appends one pick from VALID_CHARS per missing character, one operation each. */
  function Padded(st: State, rng: nat -> nat): (r: State)
    ensures |r.chars| == if |st.chars| < MIN_LENGTH then MIN_LENGTH else |st.chars|
    ensures r.chars[..|st.chars|] == st.chars
    ensures forall i :: |st.chars| <= i < |r.chars| ==> r.chars[i] in VALID_CHARS
    ensures r.ops == st.ops + (|r.chars| - |st.chars|)
  {
    var d := if |st.chars| < MIN_LENGTH then MIN_LENGTH - |st.chars| else 0;
    State(st.chars + Draws(rng, st.ops, d), st.ops + d)
  }

  // Stage 2: trim from the front to MAX_LENGTH.

  /** Keeps the last MAX_LENGTH characters, in order, one operation per removal. */
  function Trimmed(st: State): (r: State)
    ensures |r.chars| == if |st.chars| > MAX_LENGTH then MAX_LENGTH else |st.chars|
    ensures r.chars == st.chars[|st.chars| - |r.chars|..]
    ensures r.ops == st.ops + (|st.chars| - |r.chars|)
  {
    if |st.chars| > MAX_LENGTH then
      State(st.chars[|st.chars| - MAX_LENGTH..], st.ops + (|st.chars| - MAX_LENGTH))
    else st
  }

  // Stages 3 to 5: make sure a lowercase letter, an uppercase letter and a digit occur.

  /** Appends one pick from members when none of them occurs, and otherwise changes nothing. */
  function WithClass(st: State, members: string, rng: nat -> nat): (r: State)
    requires |members| > 0
    ensures HasAtLeastOneCharFrom(members, r.chars) != {}
    ensures HasAtLeastOneCharFrom(members, st.chars) != {} ==> r == st
    ensures |st.chars| <= |r.chars| <= |st.chars| + 1 && r.chars[..|st.chars|] == st.chars
    ensures forall i :: |st.chars| <= i < |r.chars| ==> r.chars[i] in members
    ensures r.ops == st.ops + (|r.chars| - |st.chars|)
  {
    if HasAtLeastOneCharFrom(members, st.chars) != {} then st
    else
      var c := Pick(members, rng, st.ops);
      assert (st.chars + [c])[|st.chars|] == c;
      State(st.chars + [c], st.ops + 1)
  }

  /** Appending characters keeps every class that was already present. */
  lemma ExtendKeepsClass(members: string, s: seq<char>, t: seq<char>)
    requires |s| <= |t| && t[..|s|] == s
    ensures HasAtLeastOneCharFrom(members, s) != {} ==> HasAtLeastOneCharFrom(members, t) != {}
  {
    if HasAtLeastOneCharFrom(members, s) != {} {
      var c :| c in HasAtLeastOneCharFrom(members, s);
      var i :| 0 <= i < |s| && s[i] == c;
      assert t[i] == c;
    }
  }

  /** Stages 3, 4 and 5 in order: afterwards all three classes occur. */
  function ClassesAdded(st: State, rng: nat -> nat): (r: State)
    ensures HasAtLeastOneCharFrom(LOWERCASE, r.chars) != {}
    ensures HasAtLeastOneCharFrom(UPPERCASE, r.chars) != {}
    ensures HasAtLeastOneCharFrom(DIGITS, r.chars) != {}
    ensures |st.chars| <= |r.chars| <= |st.chars| + 3 && r.chars[..|st.chars|] == st.chars
    ensures r.ops == st.ops + (|r.chars| - |st.chars|)
  {
    var lower := WithClass(st, LOWERCASE, rng);
    var upper := WithClass(lower, UPPERCASE, rng);
    var digit := WithClass(upper, DIGITS, rng);
    ExtendKeepsClass(LOWERCASE, lower.chars, upper.chars);
    ExtendKeepsClass(LOWERCASE, upper.chars, digit.chars);
    ExtendKeepsClass(UPPERCASE, upper.chars, digit.chars);
    assert digit.chars[..|st.chars|] == upper.chars[..|lower.chars|][..|st.chars|];
    digit
  }

  // Stage 6: overwrite surplus repeats.

  /** Overwrites index i with the pick of the next operation. */
  function Write(st: State, i: nat, rng: nat -> nat): (r: State)
    requires i < |st.chars|
  {
    State(st.chars[i := Pick(VALID_CHARS, rng, st.ops)], st.ops + 1)
  }

  predicate Below(idxs: seq<nat>, n: nat)
  {
    forall j :: 0 <= j < |idxs| ==> idxs[j] < n
  }

  /** Overwrites the indices idxs in order, one pick and one operation each. */
  function Overwrite(st: State, idxs: seq<nat>, rng: nat -> nat): (r: State)
    requires Below(idxs, |st.chars|)
    ensures |r.chars| == |st.chars|
    ensures r.ops == st.ops + |idxs|
    ensures forall i :: 0 <= i < |st.chars| && i !in idxs ==> r.chars[i] == st.chars[i]
    decreases |idxs|
  {
    if idxs == [] then st
    else
      var front := idxs[..|idxs| - 1];
      assert forall i :: i !in idxs ==> i !in front && i != idxs[|idxs| - 1];
      Write(Overwrite(st, front, rng), idxs[|idxs| - 1], rng)
  }

  /** Python's `xs[:-1]`: all but the last element, and nothing for an empty list. */
  function AllButLast(xs: seq<nat>): (ys: seq<nat>)
    ensures |ys| == if xs == [] then 0 else |xs| - 1
    ensures forall j :: 0 <= j < |ys| ==> ys[j] == xs[j]
  {
    if xs == [] then [] else xs[..|xs| - 1]
  }

  predicate ListsBelow(at: map<char, seq<nat>>, n: nat)
  {
    forall c :: c in at ==> Below(at[c], n)
  }

  /** One pass of the repeat loop, for key c: the count is taken on the
      CURRENT characters, and only the listed indices but the last are rewritten. */
  function SuppressOne(st: State, c: char, at: map<char, seq<nat>>, rng: nat -> nat): (r: State)
    requires c in at && ListsBelow(at, |st.chars|)
    ensures |r.chars| == |st.chars| && r.ops >= st.ops
  {
    if Count(st.chars, c) > 2 then Overwrite(st, AllButLast(at[c]), rng) else st
  }

  /** Index i is in none of the lists of keys. */
  predicate Unlisted(i: nat, keys: seq<char>, at: map<char, seq<nat>>)
    requires forall k :: 0 <= k < |keys| ==> keys[k] in at
  {
    forall k :: 0 <= k < |keys| ==> i !in at[keys[k]]
  }

  /** The repeat loop over the keys, in order, with the index lists fixed in advance. */
  function Suppress(st: State, keys: seq<char>, at: map<char, seq<nat>>, rng: nat -> nat): (r: State)
    requires forall k :: 0 <= k < |keys| ==> keys[k] in at
    requires ListsBelow(at, |st.chars|)
    ensures |r.chars| == |st.chars| && r.ops >= st.ops
    decreases |keys|
  {
    if keys == [] then st
    else SuppressOne(Suppress(st, keys[..|keys| - 1], at, rng), keys[|keys| - 1], at, rng)
  }

  /** A key occurring at most twice is skipped; otherwise each of its listed
      indices but the last costs one operation, and no index outside its list
      changes. */
  lemma SuppressOneSpec(st: State, c: char, at: map<char, seq<nat>>, rng: nat -> nat)
    requires c in at && ListsBelow(at, |st.chars|)
    ensures Count(st.chars, c) <= 2 ==> SuppressOne(st, c, at, rng) == st
    ensures Count(st.chars, c) > 2 ==> SuppressOne(st, c, at, rng).ops == st.ops + |AllButLast(at[c])|
    ensures forall i :: 0 <= i < |st.chars| && i !in at[c] ==> SuppressOne(st, c, at, rng).chars[i] == st.chars[i]
  {
    var ys := AllButLast(at[c]);
    forall i | 0 <= i < |st.chars| && i !in at[c] ensures i !in ys {
      assert forall j :: 0 <= j < |ys| ==> ys[j] == at[c][j] && at[c][j] in at[c];
    }
  }

  /** The repeat loop changes no index that is in none of the keys' lists. */
  lemma {:induction false} SuppressKeepsUnlisted(st: State, keys: seq<char>, at: map<char, seq<nat>>, rng: nat -> nat)
    requires forall k :: 0 <= k < |keys| ==> keys[k] in at
    requires ListsBelow(at, |st.chars|)
    ensures forall i :: 0 <= i < |st.chars| && Unlisted(i, keys, at) ==>
      Suppress(st, keys, at, rng).chars[i] == st.chars[i]
    decreases |keys|
  {
    if keys != [] {
      var front := keys[..|keys| - 1];
      SuppressKeepsUnlisted(st, front, at, rng);
      SuppressOneSpec(Suppress(st, front, at, rng), keys[|keys| - 1], at, rng);
      forall i | 0 <= i < |st.chars| && Unlisted(i, keys, at) ensures Unlisted(i, front, at) {
        forall k | 0 <= k < |front| ensures i !in at[front[k]] {
          assert front[k] == keys[k];
        }
      }
    }
  }

  /** The repeat map's keys are its own, and its indices are indices of s. */
  lemma RepeatMapInRange(s: seq<char>)
    ensures forall k :: 0 <= k < |RepeatedIndices(s).order| ==> RepeatedIndices(s).order[k] in RepeatedIndices(s).at
    ensures ListsBelow(RepeatedIndices(s).at, |s|)
  {
    var m := RepeatedIndices(s);
    RepeatedIndicesSpec(s);
    forall c | c in m.at ensures Below(m.at[c], |s|) {
      PositionsHold(s, c);
    }
  }

  /** Stage 6 as the source runs it: the map is built once from the characters
      at the start of the stage. */
  function RepeatsFixed(st: State, rng: nat -> nat): (r: State)
    ensures |r.chars| == |st.chars| && r.ops >= st.ops
  {
    var m := RepeatedIndices(st.chars);
    RepeatMapInRange(st.chars);
    Suppress(st, m.order, m.at, rng)
  }

  // Stage 7: one overwrite per avoid-list entry.

  /** When bad occurs, overwrites the first index of its first occurrence with
      a pick from VALID_CHARS, as one operation; otherwise changes nothing. */
  function ScrubOne(st: State, bad: string, rng: nat -> nat): (r: State)
    requires |st.chars| > 0
    ensures |r.chars| == |st.chars|
    ensures !Contains(st.chars, bad) ==> r == st
    ensures Contains(st.chars, bad) ==>
      var i := Find(st.chars, bad);
      r.chars[i] in VALID_CHARS && r.ops == st.ops + 1 &&
      forall j :: 0 <= j < |st.chars| && j != i ==> r.chars[j] == st.chars[j]
  {
    if Contains(st.chars, bad) then
      var i := Find(st.chars, bad);
      assert |bad| == 0 ==> MatchAt(st.chars, bad, 0);
      Write(st, i, rng)
    else st
  }

  /** The avoid-list loop: entries in list order, at most one overwrite each. */
  function Scrubbed(st: State, avoid: seq<string>, rng: nat -> nat): (r: State)
    requires |st.chars| > 0
    ensures |r.chars| == |st.chars|
    ensures st.ops <= r.ops <= st.ops + |avoid|
    ensures forall i :: 0 <= i < |st.chars| ==> r.chars[i] == st.chars[i] || r.chars[i] in VALID_CHARS
    decreases |avoid|
  {
    if avoid == [] then st
    else ScrubOne(Scrubbed(st, avoid[..|avoid| - 1], rng), avoid[|avoid| - 1], rng)
  }

  /** The indices where s and t differ. */
  function Changed(s: seq<char>, t: seq<char>): (d: set<nat>)
    requires |s| == |t|
    ensures forall i: nat :: i in d <==> i < |s| && s[i] != t[i]
  {
    set i: nat | i < |s| && s[i] != t[i]
  }

  lemma SubsetCard(a: set<nat>, b: set<nat>)
    requires a <= b
    ensures |a| <= |b|
  {
    assert b == a + (b - a);
  }

  /** The avoid-list loop changes at most one index per operation it counts,
      so at most one index per entry. */
  lemma {:induction false} ScrubbedChangesAtMostOnePerEntry(st: State, avoid: seq<string>, rng: nat -> nat)
    requires |st.chars| > 0
    ensures |Changed(st.chars, Scrubbed(st, avoid, rng).chars)| <= Scrubbed(st, avoid, rng).ops - st.ops <= |avoid|
    decreases |avoid|
  {
    if avoid == [] {
      assert Changed(st.chars, st.chars) == {};
    } else {
      var bad := avoid[|avoid| - 1];
      var mid := Scrubbed(st, avoid[..|avoid| - 1], rng);
      var r := ScrubOne(mid, bad, rng);
      ScrubbedChangesAtMostOnePerEntry(st, avoid[..|avoid| - 1], rng);
      if Contains(mid.chars, bad) {
        var i := Find(mid.chars, bad);
        SubsetCard(Changed(st.chars, r.chars), Changed(st.chars, mid.chars) + {i});
      } else {
        assert r == mid;
      }
    }
  }

  // The whole run.

  /** `avoid or []`: a missing or empty list gives no entries, and any other
      list is used as given. */
  function OrEmpty(avoid: Option<seq<string>>): (entries: seq<string>)
    ensures avoid.None? ==> entries == []
    ensures avoid.Some? ==> entries == avoid.value
  {
    if avoid.Some? then avoid.value else []
  }

  /** Stages 1 to 5: the length is in range and every class occurs. */
  function Prepared(st: State, rng: nat -> nat): (r: State)
    ensures MIN_LENGTH <= |r.chars| <= MAX_LENGTH + 3
    ensures HasAtLeastOneCharFrom(LOWERCASE, r.chars) != {}
    ensures HasAtLeastOneCharFrom(UPPERCASE, r.chars) != {}
    ensures HasAtLeastOneCharFrom(DIGITS, r.chars) != {}
    ensures |st.chars| <= MAX_LENGTH ==> r.ops == st.ops + (|r.chars| - |st.chars|)
    ensures |st.chars| > MAX_LENGTH ==>
      r.ops == st.ops + (|st.chars| - MAX_LENGTH) + (|r.chars| - MAX_LENGTH)
  {
    ClassesAdded(Trimmed(Padded(st, rng)), rng)
  }

  /** All seven stages, from the state the constructor sets up. */
  function Secured(st: State, avoid: Option<seq<string>>, rng: nat -> nat): (r: State)
    ensures MIN_LENGTH <= |r.chars| <= MAX_LENGTH + 3
    ensures |r.chars| == |Prepared(st, rng).chars|
    ensures r.ops >= Prepared(st, rng).ops
    ensures |st.chars| < MIN_LENGTH ==> r.ops >= st.ops + (MIN_LENGTH - |st.chars|)
  {
    var prepared := Prepared(st, rng);
    var fixed := RepeatsFixed(prepared, rng);
    Scrubbed(fixed, OrEmpty(avoid), rng)
  }
}
