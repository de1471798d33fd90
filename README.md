# Password evaluator, modelled in Dafny

This project models the `PasswordEvaluator` class in
`task_one/password_evaluator.py`. The class takes a password and, optionally,
a list of strings to avoid. Its constructor copies the password into a list of
characters and repairs that list in place, in seven stages. It counts every
character it appends, removes or overwrites as one operation.

1. Pad on the right with random letters and digits up to 7 characters.
2. Drop characters from the front down to 22.
3. Append a random lowercase letter if none occurs.
4. Append a random uppercase letter if none occurs.
5. Append a random digit if none occurs.
6. For each character repeated in the list, in order of its second
   appearance, if it now occurs more than twice, overwrite all but the last of
   its repeat positions with random letters and digits.
7. For each avoid entry, in list order, if it occurs, overwrite the first
   character of its first occurrence with a random letter or digit.

Structure:

- `Evaluator.PasswordEvaluator` is the class. It has the source's fields
  (`state`, `operationCount`, `originalPassword`, `validChars`). The methods
  run the source's loops, and each stage method is proved to compute a pure
  function of the old state.
- `Stages` holds those functions: `Padded`, `Trimmed`, `WithClass`,
  `RepeatsFixed`, `Scrubbed`, and `Secured` for the whole run.
- `RepeatIndex` models the `_repeated_indices` map and its loop.
- `Queries` holds `Counter`, `_has_at_least_one_char_from` and occurrence
  positions.
- `Avoid` models Python's `in` and `str.index` on strings.
- `RepeatFacts` and `PipelineFacts` hold what the stages guarantee, stated
  without loops.

Randomness is a parameter, `rng: nat -> nat`. The character drawn for the
operation numbered `k` (counting from 0 over the whole run) is
`alphabet[rng(k) % |alphabet|]`. `Alphabet.PickReaches` shows that any character
of the alphabet can be drawn at any operation. `Alphabet.PicksReach` shows the
same for a whole sequence: any characters of the alphabet can be drawn at any
run of consecutive operations by a single `rng`. Each repair loop draws at
consecutive operations, so every sequence of draws `random.choice` can produce
within a loop is covered.

The method's doc comment describes stage 6 as "more than 2 in a row". The code
counts total occurrences, not runs, and the model follows the code. Stage 6
also tests the count of the list as it currently stands, not the count at the
start of the stage. `RepeatFacts.SuppressAsWrites` shows this gives the same
result as using the starting counts.

## Model

| member | source | states |
|---|---|---|
| Evaluator.PasswordEvaluator.constructor | task_one/password_evaluator.py:15-37 | keeps the original password and the 62-character alphabet; the resulting state is the seven-stage function `Secured` of the password with 0 operations; length between 7 and 25; an empty password costs at least 7 operations |
| Evaluator.PasswordEvaluator.Length | task_one/password_evaluator.py:39-46 | the length is the length of the representation |
| Evaluator.PasswordEvaluator.Counts | task_one/password_evaluator.py:48-56 | each character's count is its number of occurrences, and it is positive exactly for characters present |
| Evaluator.PasswordEvaluator.Representation | task_one/password_evaluator.py:91-99 | the joined string has the same length and the same character at each index as the list |
| Evaluator.PasswordEvaluator.MakeSecure | task_one/password_evaluator.py:112-171 | running the seven stage loops, with a missing avoid list read as empty, yields exactly `Secured` of the old state |
| Evaluator.PasswordEvaluator.PadToMinimum | task_one/password_evaluator.py:130-132 | the append loop yields `Padded` of the old state |
| Evaluator.PasswordEvaluator.AppendPick | task_one/password_evaluator.py:131-132 | one append of a random choice: the list grows by the pick for the current operation, and the count by one |
| Evaluator.PasswordEvaluator.TrimToMaximum | task_one/password_evaluator.py:134-136 | the pop-front loop yields `Trimmed` of the old state |
| Evaluator.PasswordEvaluator.AddMissing | task_one/password_evaluator.py:138-157 | the while-missing loop appends at most once and yields `WithClass` of the old state |
| Evaluator.PasswordEvaluator.FixRepetitions | task_one/password_evaluator.py:159-164 | the nested loops over the repeat map, testing current counts, yield `RepeatsFixed` of the old state |
| Evaluator.PasswordEvaluator.RewriteIndices | task_one/password_evaluator.py:162-164 | the inner loop yields `Overwrite` of the old state with the given indices |
| Evaluator.PasswordEvaluator.AvoidInclusions | task_one/password_evaluator.py:166-171 | the loop over avoid entries yields `Scrubbed` of the old state; the number of changed indices is at most the operations it counts, which is at most the number of entries |
| Alphabet.CharRange | task_one/password_evaluator.py:32-36 | a run of n consecutive characters: length n, and membership is exactly the range |
| Alphabet.Pick | task_one/password_evaluator.py:131 | a random choice always lies in the alphabet it is drawn from |
| Alphabet.PickReaches | task_one/password_evaluator.py:131 | every character of the alphabet is drawn at operation k for some random source |
| Alphabet.PicksReach | task_one/password_evaluator.py:131 | every sequence of alphabet characters is drawn, in order, at consecutive operations from any starting number, by some random source |
| Queries.Count | task_one/password_evaluator.py:48-56 | the count equals the multiset multiplicity and is positive exactly when the character occurs |
| Queries.Positions | task_one/password_evaluator.py:70-74 | there are as many positions as occurrences |
| Queries.PositionsSpec | task_one/password_evaluator.py:70-74 | the positions hold the character, ascend strictly, and include every index that holds it |
| Queries.HasAtLeastOneCharFrom | task_one/password_evaluator.py:101-110 | a character is in the result exactly when it is in both sequences |
| Queries.SharedCharacter | task_one/password_evaluator.py:101-110 | the result is non-empty exactly when some element of one sequence equals some element of the other |
| RepeatIndex.RepeatedIndicesSpec | task_one/password_evaluator.py:58-76 | about the map `RepeatedIndices` builds: a character is a key exactly when it occurs at least twice; its list is every occurrence but the first; keys are listed once, in order of second appearance |
| RepeatIndex.ComputeRepeatedIndices | task_one/password_evaluator.py:68-76 | the tracker-set loop builds exactly `RepeatedIndices`, with keys and lists as above |
| Avoid.Contains | task_one/password_evaluator.py:168 | true exactly when the entry occurs at some index |
| Avoid.Find | task_one/password_evaluator.py:169 | an index where the entry occurs, with no occurrence before it |
| Avoid.EmptyNeedle | task_one/password_evaluator.py:168-169 | an empty entry is found in every text, at index 0 |
| Stages.Draws | task_one/password_evaluator.py:130-132 | the d characters drawn from operation `from` on: the j-th is the pick from the 62-character alphabet at operation `from + j` |
| Stages.Padded | task_one/password_evaluator.py:130-132 | length becomes max(7, n); the original characters are the prefix; appended characters are letters or digits; one operation per append |
| Stages.Trimmed | task_one/password_evaluator.py:134-136 | length becomes min(22, n); the result is the suffix of the input; one operation per removal |
| Stages.WithClass | task_one/password_evaluator.py:138-143 | afterwards the class occurs; unchanged when it already did; otherwise exactly one member appended, costing one operation |
| Stages.ClassesAdded | task_one/password_evaluator.py:138-157 | afterwards a lowercase letter, an uppercase letter and a digit all occur; at most 3 characters appended; prefix kept; one operation per append |
| Stages.Overwrite | task_one/password_evaluator.py:162-164 | length kept; one operation per index; indices not listed keep their character |
| Stages.SuppressOne | task_one/password_evaluator.py:161-164 | one key of the repeat loop: length kept and the operation count never decreases; its effect on the count and on indices outside the key's list is in `Stages.SuppressOneSpec`; the exact effect of the whole stage is `RepeatFacts.RepeatsFixedSpec` |
| Stages.SuppressOneSpec | task_one/password_evaluator.py:161-164 | a key whose current count is at most 2 changes nothing; otherwise each listed index but the last costs one operation; indices outside the key's list keep their character |
| Stages.Suppress | task_one/password_evaluator.py:160-164 | the repeat loop over the keys in order: length kept and the operation count never decreases |
| Stages.SuppressKeepsUnlisted | task_one/password_evaluator.py:160-164 | an index in none of the keys' lists keeps its character through the repeat loop |
| Stages.RepeatsFixed | task_one/password_evaluator.py:159-164 | stage 6 with the map built once at its start: length kept and the operation count never decreases; its exact effect is in `RepeatFacts.RepeatsFixedSpec` |
| Stages.Scrubbed | task_one/password_evaluator.py:166-171 | length kept; at most one operation per entry; every index keeps its character or holds a letter or digit |
| Stages.ScrubbedChangesAtMostOnePerEntry | task_one/password_evaluator.py:166-171 | the avoid loop changes at most one index per operation it counts, so at most one index per entry |
| Stages.OrEmpty | task_one/password_evaluator.py:128 | `avoid or []`: a missing list gives no entries; a given list is used as it is |
| Stages.ScrubOne | task_one/password_evaluator.py:168-171 | an absent entry changes nothing; otherwise only the first index of its first occurrence changes, to a letter or digit, as one operation |
| Stages.Prepared | task_one/password_evaluator.py:130-157 | after stages 1 to 5, length is between 7 and 25, all three classes occur, and the operation count matches the appends and removals exactly |
| Stages.Secured | task_one/password_evaluator.py:112-171 | the final length is between 7 and 25 and equals the length after stage 5; padding an n-character password with n < 7 costs at least 7 - n operations |
| RepeatFacts.OverwriteAppend | task_one/password_evaluator.py:162-164 | overwriting a list of indices and then another equals overwriting their concatenation |
| RepeatFacts.OverwritePicks | task_one/password_evaluator.py:162-164 | with distinct indices, the j-th index written ends up holding the j-th pick |
| RepeatFacts.SuppressAsWrites | task_one/password_evaluator.py:160-164 | testing the current count gives the same writes as testing the count at the start of the stage |
| RepeatFacts.RepeatsFixedSpec | task_one/password_evaluator.py:159-164 | stage 6 rewrites exactly the indices strictly between the first and last occurrence of a character occurring more than twice, each once and with one operation each; the j-th rewrite gets the j-th pick of the stage; every other index is unchanged |
| RepeatFacts.RepeatsFixedKeepsCharacters | task_one/password_evaluator.py:159-164 | first and last occurrences are never rewritten, so every character present before stage 6 is present after it |
| RepeatFacts.RepeatsBoundedWithFreshPicks | task_one/test_password_evaluator.py:22-34 | when the stage's picks are pairwise different and new to the password, no character occurs more than twice afterwards |
| PipelineFacts.RepeatsFixedKeepsClass | task_one/password_evaluator.py:138-164 | a class present before stage 6 is present after it |
| PipelineFacts.ClassesBeforeAvoidStage | task_one/password_evaluator.py:130-164 | after stage 6 a lowercase letter, an uppercase letter and a digit all occur |
| PipelineFacts.ClassesWithoutAvoidEntries | task_one/test_password_evaluator.py:78-91 | with no avoid entries, the final password contains all three classes |
| PipelineFacts.ScrubOneRemovesSoleOccurrence | task_one/test_password_evaluator.py:110-113 | a non-empty entry occurring exactly once no longer occurs after its overwrite, provided the pick is not one of its characters |
| PipelineFacts.NoAvoidListIsEmptyList | task_one/password_evaluator.py:128 | a missing avoid list behaves as an empty one, and then stage 7 changes nothing |
| PipelineFacts.DistinctHasNoRepeats | task_one/password_evaluator.py:58-76 | a password with pairwise different characters has an empty repeat map |
| PipelineFacts.PaddedLongEnough | task_one/password_evaluator.py:130-132 | padding leaves a password of at least 7 characters unchanged, with no operation |
| PipelineFacts.ClassesPresentUnchanged | task_one/password_evaluator.py:138-157 | stages 3 to 5 leave a password holding all three classes unchanged |
| PipelineFacts.UntouchedBeforeAvoidStage | task_one/password_evaluator.py:130-164 | a 7-character password of distinct characters with all three classes leaves stages 1 to 6 unchanged, with no operation |
| PipelineFacts.ScrubSample | task_one/password_evaluator.py:166-171 | on "aA1bcde", the entry "1" is found at index 2 and, when the first draw is 'a', replaced by it |
| PipelineFacts.SecuredSample | task_one/password_evaluator.py:112-171 | the whole run on "aA1bcde" with avoid list ["1"], when the first draw is 'a', yields "aAabcde" |
| PipelineFacts.AvoidStageCanDropClass | task_one/password_evaluator.py:112-171 | the whole run on "aA1bcde", which holds a digit, with avoid list ["1"] and any random source whose first draw is 'a', ends with no digit: the final password need not contain all three classes |

## Left out

- The command-line entry point (lines 174-190) is not modelled. It reads a file and prints.
- `__repr__` (lines 78-89) is not modelled. It only formats text for printing.
- The distribution and seeding of Python's `random` module are not modelled. Draws come from the parameter `rng`, so the stage-6 and stage-7 guarantees hold only under stated conditions on the draws.
- `task_two/app.py` is not part of this model.
- Evaluator.PasswordEvaluator.Representation: the joined string is the list itself, since Dafny strings are character sequences.
- Stages.Padded: its ensures says only that appended characters are letters or digits; the exact draw for each operation is stated by `Stages.Draws`, which its body uses.
- Stages.Secured: the final password is not claimed to contain every class. Stage 7 can remove the only member of a class (`PipelineFacts.AvoidStageCanDropClass`).
- RepeatFacts.RepeatsBoundedWithFreshPicks: "no character more than twice" is proved only for draws that are new and distinct; other draws can create new repeats, which the source does not recheck.
- PipelineFacts.ScrubOneRemovesSoleOccurrence: proved only for an entry occurring once whose replacement draw is not one of its characters; otherwise a later occurrence or the draw can leave the entry in place.
- A Python `str` can hold lone surrogate code points (U+D800 to U+DFFF), which a Dafny `char` cannot. Passwords containing them are not modelled.
- Python's `str` and `list` copy semantics are represented by value sequences. Aliasing of the list is not modelled, because the source never shares it.
