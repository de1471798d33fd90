/** Facts about how the late stages interact with what the early stages
    established. */
module PipelineFacts {
  import opened Alphabet
  import opened Options
  import opened Queries
  import opened Avoid
  import opened RepeatIndex
  import opened Stages
  import opened RepeatFacts

  /** The repeat stage keeps every character that was present, so a class
      present before it is still present after it. */
  lemma RepeatsFixedKeepsClass(st: State, rng: nat -> nat, members: string)
    requires HasAtLeastOneCharFrom(members, st.chars) != {}
    ensures HasAtLeastOneCharFrom(members, RepeatsFixed(st, rng).chars) != {}
  {
    var c :| c in HasAtLeastOneCharFrom(members, st.chars);
    RepeatsFixedKeepsCharacters(st, rng);
    assert c in HasAtLeastOneCharFrom(members, RepeatsFixed(st, rng).chars);
  }

  /** After the first six stages all three classes are present. */
  lemma ClassesBeforeAvoidStage(st: State, rng: nat -> nat)
    ensures var fixed := RepeatsFixed(Prepared(st, rng), rng);
      HasAtLeastOneCharFrom(LOWERCASE, fixed.chars) != {} &&
      HasAtLeastOneCharFrom(UPPERCASE, fixed.chars) != {} &&
      HasAtLeastOneCharFrom(DIGITS, fixed.chars) != {}
  {
    var prepared := Prepared(st, rng);
    RepeatsFixedKeepsClass(prepared, rng, LOWERCASE);
    RepeatsFixedKeepsClass(prepared, rng, UPPERCASE);
    RepeatsFixedKeepsClass(prepared, rng, DIGITS);
  }

  /** An avoid entry that occurs exactly once is gone after its overwrite,
      provided the drawn character is not one of the entry's own. */
  lemma ScrubOneRemovesSoleOccurrence(st: State, bad: string, rng: nat -> nat)
    requires |st.chars| > 0 && |bad| > 0 && Contains(st.chars, bad)
    requires forall j :: MatchAt(st.chars, bad, j) ==> j == Find(st.chars, bad)
    requires Pick(VALID_CHARS, rng, st.ops) !in bad
    ensures !Contains(ScrubOne(st, bad, rng).chars, bad)
  {
    var i := Find(st.chars, bad);
    var s, t := st.chars, ScrubOne(st, bad, rng).chars;
    assert t == s[i := Pick(VALID_CHARS, rng, st.ops)];
    forall j: nat ensures !MatchAt(t, bad, j) {
      if j <= i < j + |bad| && j + |bad| <= |t| {
        assert t[j..j + |bad|][i - j] == t[i] && t[i] !in bad;
        assert t[j..j + |bad|] != bad;
      } else if j + |bad| <= |t| {
        assert t[j..j + |bad|] == s[j..j + |bad|];
        assert j != i && MatchAt(t, bad, j) == MatchAt(s, bad, j);
      }
    }
  }

  /** With no avoid list the last stage changes nothing. */
  lemma NoAvoidListIsEmptyList(st: State, rng: nat -> nat)
    ensures Secured(st, None, rng) == Secured(st, Some([]), rng)
    ensures Secured(st, None, rng) == RepeatsFixed(Prepared(st, rng), rng)
  {
  }

  /** Without avoid entries every class is present in the final password. */
  lemma ClassesWithoutAvoidEntries(st: State, avoid: Option<seq<string>>, rng: nat -> nat)
    requires OrEmpty(avoid) == []
    ensures var r := Secured(st, avoid, rng);
      HasAtLeastOneCharFrom(LOWERCASE, r.chars) != {} &&
      HasAtLeastOneCharFrom(UPPERCASE, r.chars) != {} &&
      HasAtLeastOneCharFrom(DIGITS, r.chars) != {}
  {
    ClassesBeforeAvoidStage(st, rng);
  }

  /** A password whose characters are pairwise different has no repeats. */
  lemma {:induction false} DistinctHasNoRepeats(s: seq<char>)
    requires forall i, j :: 0 <= i < j < |s| ==> s[i] != s[j]
    ensures RepeatedIndices(s) == RepeatMap([], map[])
    decreases |s|
  {
    if s != [] {
      var n := |s| - 1;
      DistinctHasNoRepeats(s[..n]);
      assert s[n] !in s[..n];
    }
  }

  /** Padding leaves a password of at least MIN_LENGTH characters alone. */
  lemma PaddedLongEnough(st: State, rng: nat -> nat)
    requires |st.chars| >= MIN_LENGTH
    ensures Padded(st, rng) == st
  {
    assert st.chars + Draws(rng, st.ops, 0) == st.chars;
  }

  /** Stages 3 to 5 leave a password holding every class alone. */
  lemma ClassesPresentUnchanged(st: State, rng: nat -> nat)
    requires HasAtLeastOneCharFrom(LOWERCASE, st.chars) != {}
    requires HasAtLeastOneCharFrom(UPPERCASE, st.chars) != {}
    requires HasAtLeastOneCharFrom(DIGITS, st.chars) != {}
    ensures ClassesAdded(st, rng) == st
  {
  }

  /** A seven-character password that already holds every class is left as it
      is by the first six stages. */
  lemma UntouchedBeforeAvoidStage(s: seq<char>, rng: nat -> nat)
    requires |s| == MIN_LENGTH && forall i, j :: 0 <= i < j < |s| ==> s[i] != s[j]
    requires exists i :: 0 <= i < |s| && s[i] in LOWERCASE
    requires exists i :: 0 <= i < |s| && s[i] in UPPERCASE
    requires exists i :: 0 <= i < |s| && s[i] in DIGITS
    ensures RepeatsFixed(Prepared(State(s, 0), rng), rng) == State(s, 0)
  {
    var st := State(s, 0);
    PaddedLongEnough(st, rng);
    assert Trimmed(st) == st;
    var i1 :| 0 <= i1 < |s| && s[i1] in LOWERCASE;
    var i2 :| 0 <= i2 < |s| && s[i2] in UPPERCASE;
    var i3 :| 0 <= i3 < |s| && s[i3] in DIGITS;
    assert s[i1] in HasAtLeastOneCharFrom(LOWERCASE, s);
    assert s[i2] in HasAtLeastOneCharFrom(UPPERCASE, s);
    assert s[i3] in HasAtLeastOneCharFrom(DIGITS, s);
    ClassesPresentUnchanged(st, rng);
    DistinctHasNoRepeats(s);
  }

  /** On "aA1bcde", the entry "1" is found at index 2, which takes the draw
      of the first operation. */
  lemma ScrubSample(rng: nat -> nat)
    requires Pick(VALID_CHARS, rng, 0) == 'a'
    ensures ScrubOne(State(['a', 'A', '1', 'b', 'c', 'd', 'e'], 0), "1", rng).chars ==
      ['a', 'A', 'a', 'b', 'c', 'd', 'e']
  {
    var s := ['a', 'A', '1', 'b', 'c', 'd', 'e'];
    assert MatchAt(s, "1", 2);
    assert s[0..1] == ['a'] && s[1..2] == ['A'];
    assert !MatchAt(s, "1", 0) && !MatchAt(s, "1", 1);
    assert Find(s, "1") == 2;
  }

  /** The whole run on "aA1bcde" with the avoid list ["1"], when the first
      draw is 'a': only the digit is replaced. */
  lemma SecuredSample(rng: nat -> nat)
    requires Pick(VALID_CHARS, rng, 0) == 'a'
    ensures Secured(State(['a', 'A', '1', 'b', 'c', 'd', 'e'], 0), Some(["1"]), rng).chars ==
      ['a', 'A', 'a', 'b', 'c', 'd', 'e']
  {
    var s := ['a', 'A', '1', 'b', 'c', 'd', 'e'];
    var st := State(s, 0);
    assert s[0] in LOWERCASE && s[1] in UPPERCASE && s[2] in DIGITS;
    UntouchedBeforeAvoidStage(s, rng);
    assert ["1"][..0] == [];
    assert Secured(st, Some(["1"]), rng) == ScrubOne(st, "1", rng);
    ScrubSample(rng);
  }

  /** A password whose characters all lie outside '0'..'9' has no digit. */
  lemma NoDigit(t: seq<char>)
    requires forall i :: 0 <= i < |t| ==> t[i] < '0' || '9' < t[i]
    ensures HasAtLeastOneCharFrom(DIGITS, t) == {}
  {
  }

  lemma SampleScrubbedHasNoDigit()
    ensures HasAtLeastOneCharFrom(DIGITS, ['a', 'A', 'a', 'b', 'c', 'd', 'e']) == {}
  {
    NoDigit(['a', 'A', 'a', 'b', 'c', 'd', 'e']);
  }

  lemma SampleHasDigit()
    ensures HasAtLeastOneCharFrom(DIGITS, ['a', 'A', '1', 'b', 'c', 'd', 'e']) != {}
  {
    var s := ['a', 'A', '1', 'b', 'c', 'd', 'e'];
    assert s[2] in DIGITS;
    assert s[2] in HasAtLeastOneCharFrom(DIGITS, s);
  }

  /** The avoid stage may overwrite the only digit with a letter, so the final
      password need not contain every class: "aA1bcde" holds a digit, and with
      the avoid list ["1"], under any random source whose first draw is 'a',
      the final password holds none. */
  lemma AvoidStageCanDropClass(rng: nat -> nat)
    requires Pick(VALID_CHARS, rng, 0) == 'a'
    ensures HasAtLeastOneCharFrom(DIGITS, ['a', 'A', '1', 'b', 'c', 'd', 'e']) != {}
    ensures HasAtLeastOneCharFrom(DIGITS,
      Secured(State(['a', 'A', '1', 'b', 'c', 'd', 'e'], 0), Some(["1"]), rng).chars) == {}
  {
    SampleHasDigit();
    SecuredSample(rng);
    SampleScrubbedHasNoDigit();
  }
}
