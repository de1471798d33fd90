/** The evaluator object. Its constructor copies the password into a list of
    characters and repairs that list in place, stage by stage, counting every
    change it makes. */
module Evaluator {
  import opened Alphabet
  import opened Options
  import opened Queries
  import opened RepeatIndex
  import opened Avoid
  import opened Stages

  class PasswordEvaluator {
    const originalPassword: string
    /** `_valid_chars`; the repairs draw from VALID_CHARS, its value. */
    const validChars: string := VALID_CHARS
    /** The injected random source: the character drawn for the operation
        numbered k is Pick(alphabet, rng, k). */
    const rng: nat -> nat
    var state: seq<char>
    var operationCount: nat

    /** The mutable part, as one value. */
    function Current(): (st: State)
      reads this
    {
      State(state, operationCount)
    }

    /** Runs the whole repair on password; avoid is None when no list is given. */
    constructor (password: string, avoid: Option<seq<string>>, rng: nat -> nat)
      ensures originalPassword == password && this.rng == rng
      ensures validChars == LOWERCASE + UPPERCASE + DIGITS
      ensures Current() == Secured(State(password, 0), avoid, rng)
      ensures MIN_LENGTH <= Length() <= MAX_LENGTH + 3
      ensures password == [] ==> operationCount >= MIN_LENGTH
    {
      originalPassword := password;
      state := password;
      operationCount := 0;
      this.rng := rng;
      new;
      MakeSecure(avoid);
    }

    /** `__len__`: the length of the password. */
    function Length(): (n: nat)
      reads this
      ensures n == |Representation()|
    {
      |state|
    }

    /** `representation`: the characters joined into one string. */
    function Representation(): (r: string)
      reads this
      ensures |r| == |state| && forall i :: 0 <= i < |r| ==> r[i] == state[i]
    {
      state
    }

    /** `_counts`: how often each character occurs. */
    function Counts(): (m: multiset<char>)
      reads this
      ensures forall c :: m[c] == Count(state, c)
      ensures forall c :: m[c] > 0 <==> c in state
    {
      multiset(state)
    }

    /** `_make_secure`: the seven stages, in order. */
    method MakeSecure(avoid: Option<seq<string>>)
      modifies this
      ensures Current() == Secured(old(Current()), avoid, rng)
    {
      var entries := OrEmpty(avoid);
      PadToMinimum();
      TrimToMaximum();
      AddMissing(LOWERCASE);
      AddMissing(UPPERCASE);
      AddMissing(DIGITS);
      FixRepetitions();
      AvoidInclusions(entries);
    }

    /** Stage 1: append picks from validChars while the password is too short. */
    method PadToMinimum()
      modifies this
      ensures Current() == Padded(old(Current()), rng)
    {
      ghost var start := Current();
      var n := |start.chars|;
      while |state| < MIN_LENGTH
        invariant n <= |state| && state == start.chars + Draws(rng, start.ops, |state| - n)
        invariant operationCount == start.ops + (|state| - n)
        invariant n < MIN_LENGTH ==> |state| <= MIN_LENGTH
        invariant n >= MIN_LENGTH ==> |state| == n
        decreases MIN_LENGTH - |state|
      {
        ghost var k, before := |state| - n, state;
        DrawsNext(rng, start.ops, k, operationCount);
        ghost var next := Pick(VALID_CHARS, rng, operationCount);
        AppendPick(VALID_CHARS);
        AppendStep(start.chars, Draws(rng, start.ops, k), next, Draws(rng, start.ops, k + 1), before);
      }
      assert |state| - n == if n < MIN_LENGTH then MIN_LENGTH - n else 0;
    }

    /** `append(random.choice(alphabet))`, counted as one operation. */
    method AppendPick(alphabet: string)
      requires |alphabet| > 0
      modifies this
      ensures state == old(state) + [Pick(alphabet, rng, old(operationCount))]
      ensures operationCount == old(operationCount) + 1
    {
      state := state + [Pick(alphabet, rng, operationCount)];
      operationCount := operationCount + 1;
    }

    /** Stage 2: drop the front character while the password is too long. */
    method TrimToMaximum()
      modifies this
      ensures Current() == Trimmed(old(Current()))
    {
      ghost var start := Current();
      while |state| > MAX_LENGTH
        invariant |state| <= |start.chars|
        invariant state == start.chars[|start.chars| - |state|..]
        invariant operationCount == start.ops + (|start.chars| - |state|)
        invariant |start.chars| > MAX_LENGTH ==> |state| >= MAX_LENGTH
        invariant |start.chars| <= MAX_LENGTH ==> state == start.chars
      {
        state := state[1..];
        operationCount := operationCount + 1;
      }
    }

    /** Stages 3 to 5: append picks from members while none of them occurs. */
    method AddMissing(members: string)
      requires |members| > 0
      modifies this
      ensures Current() == WithClass(old(Current()), members, rng)
    {
      ghost var start := Current();
      while HasAtLeastOneCharFrom(members, state) == {}
        invariant Current() == start ||
          (HasAtLeastOneCharFrom(members, start.chars) == {} && Current() == WithClass(start, members, rng))
        decreases if HasAtLeastOneCharFrom(members, state) == {} then 1 else 0
      {
        AppendPick(members);
      }
    }

    /** Stage 6: build the repeat map once; then for each key in insertion
        order whose current count exceeds 2, overwrite its listed indices but
        the last with picks from validChars. */
    method FixRepetitions()
      modifies this
      ensures Current() == RepeatsFixed(old(Current()), rng)
    {
      ghost var start := Current();
      var repeated := ComputeRepeatedIndices(state);
      RepeatMapInRange(state);
      var order, at := repeated.order, repeated.at;
      for k := 0 to |order|
        invariant |state| == |start.chars|
        invariant Current() == Suppress(start, order[..k], at, rng)
      {
        assert order[..k + 1][..k] == order[..k];
        var c := order[k];
        if Counts()[c] > 2 {
          RewriteIndices(AllButLast(at[c]));
        }
      }
      assert order[..|order|] == order;
    }

    /** The inner loop of stage 6: one pick and one operation per listed index. */
    method RewriteIndices(targets: seq<nat>)
      requires Below(targets, |state|)
      modifies this
      ensures Current() == Overwrite(old(Current()), targets, rng)
    {
      ghost var before := Current();
      for j := 0 to |targets|
        invariant Current() == Overwrite(before, targets[..j], rng)
      {
        assert targets[..j + 1][..j] == targets[..j];
        state := state[targets[j] := Pick(VALID_CHARS, rng, operationCount)];
        operationCount := operationCount + 1;
      }
      assert targets[..|targets|] == targets;
    }

    /** Stage 7: for each avoid-list entry in order, overwrite the first index
        of its first occurrence, if it occurs, with a pick from validChars. */
    method AvoidInclusions(avoid: seq<string>)
      requires |state| > 0
      modifies this
      ensures Current() == Scrubbed(old(Current()), avoid, rng)
      ensures |Changed(old(state), state)| <= operationCount - old(operationCount) <= |avoid|
    {
      ghost var start := Current();
      for k := 0 to |avoid|
        invariant Current() == Scrubbed(start, avoid[..k], rng)
      {
        assert avoid[..k + 1][..k] == avoid[..k];
        var badPassword := avoid[k];
        if Contains(Representation(), badPassword) {
          var index := Find(Representation(), badPassword);
          assert |badPassword| == 0 ==> MatchAt(Representation(), badPassword, 0);
          state := state[index := Pick(VALID_CHARS, rng, operationCount)];
          operationCount := operationCount + 1;
        }
      }
      assert avoid[..|avoid|] == avoid;
      ScrubbedChangesAtMostOnePerEntry(start, avoid, rng);
    }
  }
}
