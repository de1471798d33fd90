/** What the repeat stage does, stated without its loop: which indices it
    rewrites, with which picks, and what it leaves in place. */
module RepeatFacts {
  import opened Alphabet
  import opened Queries
  import opened RepeatIndex
  import opened Stages

  predicate Distinct(xs: seq<nat>)
  {
    forall j, k :: 0 <= j < k < |xs| ==> xs[j] != xs[k]
  }

  /** The indices the repeat loop rewrites for keys, in rewrite order, decided
      by the counts in s, the characters at the start of the stage. */
  function SurplusWrites(s: seq<char>, keys: seq<char>, at: map<char, seq<nat>>): (w: seq<nat>)
    decreases |keys|
  {
    if keys == [] then []
    else
      var c := keys[|keys| - 1];
      SurplusWrites(s, keys[..|keys| - 1], at) + (if c in at && Count(s, c) > 2 then AllButLast(at[c]) else [])
  }

  /** The indices stage 6 rewrites when it starts from s. */
  function Rewrites(s: seq<char>): (w: seq<nat>)
  {
    var m := RepeatedIndices(s);
    SurplusWrites(s, m.order, m.at)
  }

  /** Index i holds a character that occurs more than twice in s, and is
      neither that character's first nor its last occurrence. */
  predicate Surplus(s: seq<char>, i: nat)
    requires i < |s|
  {
    var ps := Positions(s, s[i]);
    Count(s, s[i]) > 2 && ps[0] < i < ps[|ps| - 1]
  }

  /** Overwriting a then b is overwriting a + b. */
  lemma {:induction false} OverwriteAppend(st: State, a: seq<nat>, b: seq<nat>, rng: nat -> nat)
    requires Below(a, |st.chars|) && Below(b, |st.chars|)
    ensures Below(a + b, |st.chars|)
    ensures Overwrite(Overwrite(st, a, rng), b, rng) == Overwrite(st, a + b, rng)
    decreases |b|
  {
    if b == [] {
      assert a + b == a;
    } else {
      var front := b[..|b| - 1];
      OverwriteAppend(st, a, front, rng);
      assert (a + b)[..|a + b| - 1] == a + front;
      assert (a + b)[|a + b| - 1] == b[|b| - 1];
    }
  }

  /** With distinct indices, the j-th index written keeps the j-th pick. */
  lemma {:induction false} OverwritePicks(st: State, idxs: seq<nat>, rng: nat -> nat)
    requires Below(idxs, |st.chars|) && Distinct(idxs)
    ensures forall j :: 0 <= j < |idxs| ==>
      Overwrite(st, idxs, rng).chars[idxs[j]] == Pick(VALID_CHARS, rng, st.ops + j)
    decreases |idxs|
  {
    if idxs != [] {
      var n := |idxs| - 1;
      var front := idxs[..n];
      OverwritePicks(st, front, rng);
      var mid := Overwrite(st, front, rng);
      var r := Overwrite(st, idxs, rng);
      assert r.chars == mid.chars[idxs[n] := Pick(VALID_CHARS, rng, st.ops + n)];
      forall j | 0 <= j < |idxs| ensures r.chars[idxs[j]] == Pick(VALID_CHARS, rng, st.ops + j) {
        if j < n {
          assert front[j] == idxs[j];
          assert idxs[j] != idxs[n];
          assert mid.chars[front[j]] == Pick(VALID_CHARS, rng, st.ops + j);
        }
      }
    }
  }

  /** The facts about the repeat map that the proofs below rely on. */
  lemma MapFacts(s: seq<char>, c: char)
    requires c in RepeatedIndices(s).at
    ensures Count(s, c) >= 2
    ensures |RepeatedIndices(s).at[c]| == Count(s, c) - 1
    ensures forall j :: 0 <= j < |RepeatedIndices(s).at[c]| ==>
      RepeatedIndices(s).at[c][j] < |s| && s[RepeatedIndices(s).at[c][j]] == c
    ensures Distinct(RepeatedIndices(s).at[c])
  {
    RepeatedIndicesSpec(s);
    PositionsHold(s, c);
    PositionsAscending(s, c);
    var ps := Positions(s, c);
    var at := RepeatedIndices(s).at[c];
    assert at == ps[1..];
    forall j | 0 <= j < |at| ensures at[j] < |s| && s[at[j]] == c {
      assert at[j] == ps[j + 1];
    }
    forall j, k | 0 <= j < k < |at| ensures at[j] != at[k] {
      assert at[j] == ps[j + 1] && at[k] == ps[k + 1];
    }
  }

  /** Which indices the loop over keys writes: exactly the listed indices but
      the last of each key whose count in s exceeds 2. */
  lemma {:induction false} SurplusWritesMembers(s: seq<char>, keys: seq<char>, at: map<char, seq<nat>>)
    requires at == RepeatedIndices(s).at
    requires forall k :: 0 <= k < |keys| ==> keys[k] in at
    requires forall k, l :: 0 <= k < l < |keys| ==> keys[k] != keys[l]
    ensures Below(SurplusWrites(s, keys, at), |s|)
    ensures Distinct(SurplusWrites(s, keys, at))
    ensures forall j :: 0 <= j < |SurplusWrites(s, keys, at)| ==> s[SurplusWrites(s, keys, at)[j]] in keys
    ensures forall i :: 0 <= i < |s| ==>
      (i in SurplusWrites(s, keys, at) <==>
        s[i] in keys && Count(s, s[i]) > 2 && i in AllButLast(at[s[i]]))
    decreases |keys|
  {
    if keys != [] {
      var n := |keys| - 1;
      var front, c := keys[..n], keys[n];
      SurplusWritesMembers(s, front, at);
      MapFacts(s, c);
      var w := SurplusWrites(s, front, at);
      var b := if Count(s, c) > 2 then AllButLast(at[c]) else [];
      assert SurplusWrites(s, keys, at) == w + b;
      assert c !in front;
      assert forall j :: 0 <= j < |b| ==> b[j] < |s| && s[b[j]] == c;
      forall j, k | 0 <= j < k < |w + b| ensures (w + b)[j] != (w + b)[k] {
        if k < |w| {
        } else if j < |w| {
          assert s[w[j]] in front;
        } else {
          assert b[j - |w|] == at[c][j - |w|] && b[k - |w|] == at[c][k - |w|];
        }
      }
      forall i | 0 <= i < |s|
        ensures i in w + b <==> s[i] in keys && Count(s, s[i]) > 2 && i in AllButLast(at[s[i]])
      {
        if s[i] == c {
          assert i !in w;
        } else {
          assert i !in b;
          assert s[i] in keys <==> s[i] in front;
        }
      }
    }
  }

  /** The loop over keys, which tests the CURRENT count, writes the same indices
      as SurplusWrites, which tests the count at the start of the stage: a key's
      own indices are untouched until its turn, so its count can only have grown,
      and a key whose count was 2 has a single listed index, of which `[:-1]`
      writes nothing. */
  lemma {:induction false} SuppressAsWrites(st: State, keys: seq<char>, at: map<char, seq<nat>>, rng: nat -> nat)
    requires at == RepeatedIndices(st.chars).at
    requires forall k :: 0 <= k < |keys| ==> keys[k] in at
    requires forall k, l :: 0 <= k < l < |keys| ==> keys[k] != keys[l]
    ensures ListsBelow(at, |st.chars|)
    ensures Below(SurplusWrites(st.chars, keys, at), |st.chars|)
    ensures Suppress(st, keys, at, rng) == Overwrite(st, SurplusWrites(st.chars, keys, at), rng)
    decreases |keys|
  {
    var s := st.chars;
    RepeatMapInRange(s);
    SurplusWritesMembers(s, keys, at);
    if keys != [] {
      var n := |keys| - 1;
      var front, c := keys[..n], keys[n];
      SuppressAsWrites(st, front, at, rng);
      SurplusWritesMembers(s, front, at);
      MapFacts(s, c);
      var w := SurplusWrites(s, front, at);
      var mid := Suppress(st, front, at, rng);
      assert mid == Overwrite(st, w, rng);
      assert c !in front;
      forall i | 0 <= i < |s| && s[i] == c ensures mid.chars[i] == c {
        assert i !in w;
      }
      CountMono(s, mid.chars, c);
      if Count(s, c) > 2 {
        OverwriteAppend(st, w, AllButLast(at[c]), rng);
      } else {
        assert AllButLast(at[c]) == [];
        assert SurplusWrites(s, keys, at) == w + [];
        assert w + [] == w;
      }
    }
  }

  /** In a strictly ascending list, a member is among the elements after the
      first and before the last exactly when it lies strictly between them. */
  lemma InnerElement(ps: seq<nat>, i: nat)
    requires forall j, k :: 0 <= j < k < |ps| ==> ps[j] < ps[k]
    requires i in ps
    ensures i in AllButLast(ps[1..]) <==> ps[0] < i < ps[|ps| - 1]
  {
    var j :| 0 <= j < |ps| && ps[j] == i;
    var inner := AllButLast(ps[1..]);
    if i in inner {
      var k :| 0 <= k < |inner| && inner[k] == i;
      assert ps[k + 1] == i;
    }
    if ps[0] < i < ps[|ps| - 1] {
      assert inner[j - 1] == i;
    }
  }

  /** i is among the listed indices of its character, all but the last, exactly
      when it lies strictly between that character's first and last occurrence. */
  lemma MiddleOccurrence(s: seq<char>, i: nat)
    requires i < |s| && s[i] in RepeatedIndices(s).at
    ensures i in AllButLast(RepeatedIndices(s).at[s[i]]) <==>
      Positions(s, s[i])[0] < i < Positions(s, s[i])[|Positions(s, s[i])| - 1]
  {
    var c := s[i];
    var ps := Positions(s, c);
    ListIsTail(s, c);
    PositionsAscending(s, c);
    PositionsComplete(s, c);
    assert i in ps;
    InnerElement(ps, i);
  }

  /** The listed indices of a key are its positions after the first. */
  lemma ListIsTail(s: seq<char>, c: char)
    requires c in RepeatedIndices(s).at
    ensures Count(s, c) >= 2 && RepeatedIndices(s).at[c] == Positions(s, c)[1..]
  {
    RepeatedIndicesLists(s);
  }

  /** The indices stage 6 rewrites are distinct indices of s, and they are
      exactly the surplus ones. */
  lemma RewritesAreSurplus(s: seq<char>)
    ensures Below(Rewrites(s), |s|) && Distinct(Rewrites(s))
    ensures forall i :: 0 <= i < |s| ==> (i in Rewrites(s) <==> Surplus(s, i))
  {
    var m := RepeatedIndices(s);
    RepeatedIndicesSpec(s);
    SurplusWritesMembers(s, m.order, m.at);
    forall i | 0 <= i < |s| ensures i in Rewrites(s) <==> Surplus(s, i) {
      if Count(s, s[i]) > 2 {
        MiddleOccurrence(s, i);
      }
    }
  }

  /** Stage 6 rewrites exactly the surplus indices: those strictly between the
      first and the last occurrence of a character occurring more than twice.
      The j-th rewrite takes the pick of operation st.ops + j, each index is
      rewritten once, each rewrite is one operation, and every other index
      keeps its character. */
  lemma RepeatsFixedSpec(st: State, rng: nat -> nat)
    ensures Below(Rewrites(st.chars), |st.chars|) && Distinct(Rewrites(st.chars))
    ensures forall i :: 0 <= i < |st.chars| ==> (i in Rewrites(st.chars) <==> Surplus(st.chars, i))
    ensures RepeatsFixed(st, rng).ops == st.ops + |Rewrites(st.chars)|
    ensures forall i :: 0 <= i < |st.chars| && !Surplus(st.chars, i) ==>
      RepeatsFixed(st, rng).chars[i] == st.chars[i]
    ensures forall j :: 0 <= j < |Rewrites(st.chars)| ==>
      RepeatsFixed(st, rng).chars[Rewrites(st.chars)[j]] == Pick(VALID_CHARS, rng, st.ops + j)
  {
    var s := st.chars;
    var m := RepeatedIndices(s);
    RepeatMapInRange(s);
    RepeatedIndicesSpec(s);
    RewritesAreSurplus(s);
    SuppressAsWrites(st, m.order, m.at, rng);
    assert RepeatsFixed(st, rng) == Overwrite(st, Rewrites(s), rng);
    OverwritePicks(st, Rewrites(s), rng);
  }

  /** Every character present before stage 6 keeps its first and its last
      occurrence, so it is still present after it. */
  lemma RepeatsFixedKeepsCharacters(st: State, rng: nat -> nat)
    ensures forall i :: 0 <= i < |st.chars| && st.chars[i] !in st.chars[..i] ==>
      RepeatsFixed(st, rng).chars[i] == st.chars[i]
    ensures forall i :: 0 <= i < |st.chars| && st.chars[i] !in st.chars[i + 1..] ==>
      RepeatsFixed(st, rng).chars[i] == st.chars[i]
    ensures forall c :: c in st.chars ==> c in RepeatsFixed(st, rng).chars
  {
    var s, t := st.chars, RepeatsFixed(st, rng).chars;
    RepeatsFixedSpec(st, rng);
    forall i | 0 <= i < |s| && (s[i] !in s[..i] || s[i] !in s[i + 1..]) ensures !Surplus(s, i) {
      var c := s[i];
      PositionsHold(s, c);
      var ps := Positions(s, c);
      if Count(s, c) > 2 {
        if ps[0] < i { assert s[..i][ps[0]] == c; }
        if i < ps[|ps| - 1] { assert s[i + 1..][ps[|ps| - 1] - i - 1] == c; }
      }
    }
    forall c | c in s ensures c in t {
      var i :| 0 <= i < |s| && s[i] == c && c !in s[..i] by {
        PositionsHold(s, c);
        PositionsAscending(s, c);
        var ps := Positions(s, c);
        PositionsComplete(s, c);
        assert c !in s[..ps[0]];
      }
      assert t[i] == c;
    }
  }

  /** The bound the stage aims for, for a character already present: it holds
      when no pick of the stage equals a character of the stage's input. */
  lemma BoundedPresent(st: State, rng: nat -> nat, c: char)
    requires c in st.chars
    requires forall k :: st.ops <= k < st.ops + |Rewrites(st.chars)| ==> Pick(VALID_CHARS, rng, k) !in st.chars
    ensures Count(RepeatsFixed(st, rng).chars, c) <= 2
  {
    var s, t, w := st.chars, RepeatsFixed(st, rng).chars, Rewrites(st.chars);
    RepeatsFixedSpec(st, rng);
    forall i | 0 <= i < |t| && t[i] == c ensures s[i] == c && !Surplus(s, i) {
      assert i !in w;
    }
    if Count(s, c) > 2 {
      var ps := Positions(s, c);
      PositionsSpec(s, c);
      forall i | 0 <= i < |t| && t[i] == c ensures i in {ps[0], ps[|ps| - 1]} {
        var j :| 0 <= j < |ps| && ps[j] == i;
      }
      CountWithin(t, c, {ps[0], ps[|ps| - 1]});
    } else {
      CountMono(t, s, c);
    }
  }

  /** A character absent from the stage's input that occurs afterwards was
      written by the stage: its index is the j-th rewrite, holding the j-th pick. */
  lemma PickAt(st: State, rng: nat -> nat, c: char, i: nat) returns (j: nat)
    requires c !in st.chars
    requires i < |RepeatsFixed(st, rng).chars| && RepeatsFixed(st, rng).chars[i] == c
    ensures j < |Rewrites(st.chars)| && Rewrites(st.chars)[j] == i
    ensures Pick(VALID_CHARS, rng, st.ops + j) == c
  {
    var w := Rewrites(st.chars);
    RepeatsFixedSpec(st, rng);
    assert i in w;
    j :| 0 <= j < |w| && w[j] == i;
  }

  /** If every occurrence of c in t is at a written index whose pick is c,
      and the picks are pairwise different, c occurs at most once in t. */
  lemma AtMostOneHit(t: seq<char>, c: char, w: seq<nat>, base: nat, rng: nat -> nat)
    requires forall i :: 0 <= i < |t| && t[i] == c ==>
      exists j :: 0 <= j < |w| && w[j] == i && Pick(VALID_CHARS, rng, base + j) == c
    requires forall k, l :: base <= k < l < base + |w| ==>
      Pick(VALID_CHARS, rng, k) != Pick(VALID_CHARS, rng, l)
    ensures Count(t, c) <= 1
  {
    if k :| base <= k < base + |w| && Pick(VALID_CHARS, rng, k) == c {
      var j0 := k - base;
      forall i | 0 <= i < |t| && t[i] == c ensures i in {w[j0]} {
        var j :| 0 <= j < |w| && w[j] == i && Pick(VALID_CHARS, rng, base + j) == c;
        var k' := base + j;
        assert Pick(VALID_CHARS, rng, k') == Pick(VALID_CHARS, rng, k);
        assert k' == k;
      }
      CountWithin(t, c, {w[j0]});
    } else {
      CountWithin(t, c, {});
    }
  }

  /** The same for a character absent from the stage's input: it can only come
      from picks, and with pairwise different picks it comes at most once. */
  lemma BoundedAbsent(st: State, rng: nat -> nat, c: char)
    requires c !in st.chars
    requires forall k, l :: st.ops <= k < l < st.ops + |Rewrites(st.chars)| ==>
      Pick(VALID_CHARS, rng, k) != Pick(VALID_CHARS, rng, l)
    ensures Count(RepeatsFixed(st, rng).chars, c) <= 1
  {
    var t, w := RepeatsFixed(st, rng).chars, Rewrites(st.chars);
    forall i | 0 <= i < |t| && t[i] == c
      ensures exists j :: 0 <= j < |w| && w[j] == i && Pick(VALID_CHARS, rng, st.ops + j) == c
    {
      var j := PickAt(st, rng, c, i);
    }
    AtMostOneHit(t, c, w, st.ops, rng);
  }

  /** The bound the stage aims for holds only when the random source cooperates:
      if the picks it makes are pairwise different and none of them already
      occurs in the characters, no character occurs more than twice afterwards. */
  lemma RepeatsBoundedWithFreshPicks(st: State, rng: nat -> nat)
    requires forall k :: st.ops <= k < st.ops + |Rewrites(st.chars)| ==> Pick(VALID_CHARS, rng, k) !in st.chars
    requires forall k, l :: st.ops <= k < l < st.ops + |Rewrites(st.chars)| ==>
      Pick(VALID_CHARS, rng, k) != Pick(VALID_CHARS, rng, l)
    ensures forall c :: Count(RepeatsFixed(st, rng).chars, c) <= 2
  {
    forall c ensures Count(RepeatsFixed(st, rng).chars, c) <= 2 {
      if c in st.chars {
        BoundedPresent(st, rng, c);
      } else {
        BoundedAbsent(st, rng, c);
      }
    }
  }
}
