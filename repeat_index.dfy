/** `_repeated_indices`: each character that appears more than once, mapped to
    the indices of its second, third, ... appearances. A Python dict keeps its
    keys in insertion order, which the repeat repair iterates, so the model
    keeps that order beside the map. */
module RepeatIndex {
  import opened Queries

  /** order: the keys, in insertion order; at: the index lists. */
  datatype RepeatMap = RepeatMap(order: seq<char>, at: map<char, seq<nat>>)

  /** One step of the scan: index i holds c, and seen is everything before it. */
  function Record(m: RepeatMap, seen: seq<char>, i: nat, c: char): (r: RepeatMap)
  {
    if c !in seen then m
    else if c in m.at then m.(at := m.at[c := m.at[c] + [i]])
    else RepeatMap(m.order + [c], m.at[c := [i]])
  }

  /** The map the scan of s builds. */
  function RepeatedIndices(s: seq<char>): (m: RepeatMap)
    decreases |s|
  {
    if s == [] then RepeatMap([], map[])
    else Record(RepeatedIndices(s[..|s| - 1]), s[..|s| - 1], |s| - 1, s[|s| - 1])
  }

  /** One scan step keeps, for one character c, the facts of RepeatedIndicesLists. */
  lemma ListsStep(s: seq<char>, c: char)
    requires s != []
    requires c in RepeatedIndices(s[..|s| - 1]).at <==> Count(s[..|s| - 1], c) >= 2
    requires c in RepeatedIndices(s[..|s| - 1]).at ==>
      RepeatedIndices(s[..|s| - 1]).at[c] == Positions(s[..|s| - 1], c)[1..]
    ensures c in RepeatedIndices(s).at <==> Count(s, c) >= 2
    ensures c in RepeatedIndices(s).at ==> RepeatedIndices(s).at[c] == Positions(s, c)[1..]
  {
    var n := |s| - 1;
    var p, x := s[..n], s[n];
    var mp, m := RepeatedIndices(p), RepeatedIndices(s);
    assert m == Record(mp, p, n, x);
    assert Count(s, c) == Count(p, c) + (if x == c then 1 else 0);
    assert Positions(s, c) == Positions(p, c) + (if x == c then [n] else []);
    if c == x && x in p {
      if x in mp.at {
        assert m.at[x] == mp.at[x] + [n];
      } else {
        assert Count(p, x) == 1;
      }
    }
  }

  /** A character is a key exactly when it occurs at least twice, and its list
      is every position after its first occurrence. */
  lemma {:induction false} RepeatedIndicesLists(s: seq<char>)
    ensures forall c :: c in RepeatedIndices(s).at <==> Count(s, c) >= 2
    ensures forall c :: c in RepeatedIndices(s).at ==> RepeatedIndices(s).at[c] == Positions(s, c)[1..]
    decreases |s|
  {
    if s != [] {
      RepeatedIndicesLists(s[..|s| - 1]);
      forall c ensures (c in RepeatedIndices(s).at <==> Count(s, c) >= 2)
        && (c in RepeatedIndices(s).at ==> RepeatedIndices(s).at[c] == Positions(s, c)[1..])
      {
        ListsStep(s, c);
      }
    }
  }

  /** The keys are the characters with a list, each once, ordered by second appearance. */
  lemma {:induction false} RepeatedIndicesOrder(s: seq<char>)
    ensures forall c :: c in RepeatedIndices(s).order <==> c in RepeatedIndices(s).at
    ensures forall c :: c in RepeatedIndices(s).at ==> |RepeatedIndices(s).at[c]| > 0
    ensures forall k, l :: 0 <= k < l < |RepeatedIndices(s).order| ==>
      RepeatedIndices(s).at[RepeatedIndices(s).order[k]][0] < RepeatedIndices(s).at[RepeatedIndices(s).order[l]][0]
    decreases |s|
  {
    if s != [] {
      var n := |s| - 1;
      var p, x := s[..n], s[n];
      RepeatedIndicesOrder(p);
      RepeatedIndicesLists(p);
      var mp, m := RepeatedIndices(p), RepeatedIndices(s);
      assert m == Record(mp, p, n, x);
      if x in p && x !in mp.at {
        forall c | c in mp.at ensures mp.at[c][0] < n {
          PositionsHold(p, c);
          assert mp.at[c][0] == Positions(p, c)[1];
        }
        forall k, l | 0 <= k < l < |m.order|
          ensures m.at[m.order[k]][0] < m.at[m.order[l]][0]
        {
          if l == |m.order| - 1 {
            assert m.order[k] in mp.at;
          } else {
            assert m.order[k] == mp.order[k] && m.order[l] == mp.order[l];
          }
        }
      }
    }
  }

  /** A character is a key exactly when it occurs at least twice; its list is
      every position after its first occurrence, so its count is one more than
      the list's length; the keys are listed once each, ordered by second appearance. */
  lemma RepeatedIndicesSpec(s: seq<char>)
    ensures forall c :: c in RepeatedIndices(s).at <==> Count(s, c) >= 2
    ensures forall c :: c in RepeatedIndices(s).at ==>
      RepeatedIndices(s).at[c] == Positions(s, c)[1..] && Count(s, c) == 1 + |RepeatedIndices(s).at[c]|
    ensures forall c :: c in RepeatedIndices(s).order <==> c in RepeatedIndices(s).at
    ensures forall k, l :: 0 <= k < l < |RepeatedIndices(s).order| ==>
      RepeatedIndices(s).at[RepeatedIndices(s).order[k]][0] < RepeatedIndices(s).at[RepeatedIndices(s).order[l]][0]
  {
    RepeatedIndicesLists(s);
    RepeatedIndicesOrder(s);
  }

  /** The loop of `_repeated_indices`: a tracker set of characters seen so far,
      and the map, filled while enumerating s. */
  method ComputeRepeatedIndices(s: seq<char>) returns (m: RepeatMap)
    ensures m == RepeatedIndices(s)
    ensures forall c :: c in m.at <==> Count(s, c) >= 2
    ensures forall c :: c in m.at ==> m.at[c] == Positions(s, c)[1..] && Count(s, c) == 1 + |m.at[c]|
  {
    var tracker: set<char> := {};
    m := RepeatMap([], map[]);
    for i := 0 to |s|
      invariant forall c :: c in tracker <==> c in s[..i]
      invariant m == RepeatedIndices(s[..i])
    {
      assert s[..i + 1][..i] == s[..i];
      var item := s[i];
      if item !in tracker {
        tracker := tracker + {item};
      } else if item in m.at {
        m := m.(at := m.at[item := m.at[item] + [i]]);
      } else {
        m := RepeatMap(m.order + [item], m.at[item := [i]]);
      }
    }
    assert s[..|s|] == s;
    RepeatedIndicesSpec(s);
  }
}
