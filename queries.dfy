/** Read-only queries over the evaluator's character list. */
module Queries {

  /** The number of occurrences of c in s: `Counter(s)[c]`, zero when c is absent. */
  function Count(s: seq<char>, c: char): (n: nat)
    ensures n == multiset(s)[c]
    ensures n > 0 <==> c in s
    decreases |s|
  {
    if s == [] then 0
    else
      assert s == s[..|s| - 1] + [s[|s| - 1]];
      Count(s[..|s| - 1], c) + (if s[|s| - 1] == c then 1 else 0)
  }

  /** Every index at which c occurs in s, in ascending order. */
  function Positions(s: seq<char>, c: char): (ps: seq<nat>)
    ensures |ps| == Count(s, c)
    decreases |s|
  {
    if s == [] then []
    else Positions(s[..|s| - 1], c) + (if s[|s| - 1] == c then [|s| - 1] else [])
  }

  /** Every entry of Positions(s, c) is an index of s that holds c. */
  lemma {:induction false} PositionsHold(s: seq<char>, c: char)
    ensures forall j :: 0 <= j < |Positions(s, c)| ==>
      Positions(s, c)[j] < |s| && s[Positions(s, c)[j]] == c
    decreases |s|
  {
    if s != [] {
      var n := |s| - 1;
      var p := s[..n];
      PositionsHold(p, c);
      var pp := Positions(p, c);
      var ps := Positions(s, c);
      forall j | 0 <= j < |ps| ensures ps[j] < |s| && s[ps[j]] == c {
        if j < |pp| {
          assert ps[j] == pp[j];
          assert p[pp[j]] == c;
        }
      }
    }
  }

  /** Positions(s, c) is strictly ascending. */
  lemma {:induction false} PositionsAscending(s: seq<char>, c: char)
    ensures forall j, k :: 0 <= j < k < |Positions(s, c)| ==> Positions(s, c)[j] < Positions(s, c)[k]
    decreases |s|
  {
    if s != [] {
      var n := |s| - 1;
      var p := s[..n];
      PositionsAscending(p, c);
      PositionsHold(p, c);
      var pp := Positions(p, c);
      var ps := Positions(s, c);
      forall j, k | 0 <= j < k < |ps| ensures ps[j] < ps[k] {
        assert ps[j] == pp[j];
        if k < |pp| { assert ps[k] == pp[k]; } else { assert ps[k] == n; }
      }
    }
  }

  /** Every index of c in s is listed by Positions(s, c). */
  lemma {:induction false} PositionsComplete(s: seq<char>, c: char)
    ensures forall i :: 0 <= i < |s| && s[i] == c ==> i in Positions(s, c)
    decreases |s|
  {
    if s != [] {
      var n := |s| - 1;
      var p := s[..n];
      PositionsComplete(p, c);
      var pp := Positions(p, c);
      var ps := Positions(s, c);
      forall i | 0 <= i < |s| && s[i] == c ensures i in ps {
        if i < n {
          assert p[i] == c;
          var j :| 0 <= j < |pp| && pp[j] == i;
          assert ps[j] == i;
        } else {
          assert ps[|ps| - 1] == n;
        }
      }
    }
  }

  /** Positions lists exactly the indices of c, each once, in ascending order. */
  lemma PositionsSpec(s: seq<char>, c: char)
    ensures forall j :: 0 <= j < |Positions(s, c)| ==>
      Positions(s, c)[j] < |s| && s[Positions(s, c)[j]] == c
    ensures forall j, k :: 0 <= j < k < |Positions(s, c)| ==> Positions(s, c)[j] < Positions(s, c)[k]
    ensures forall i :: 0 <= i < |s| && s[i] == c ==> i in Positions(s, c)
  {
    PositionsHold(s, c);
    PositionsAscending(s, c);
    PositionsComplete(s, c);
  }

  /** `_has_at_least_one_char_from`: the characters that source and target share. */
  function HasAtLeastOneCharFrom(source: seq<char>, target: seq<char>): (common: set<char>)
    ensures forall c :: c in common <==> c in source && c in target
  {
    (set c | c in source) * (set c | c in target)
  }

  /** The result is non-empty exactly when some character of source equals some
      character of target. */
  lemma SharedCharacter(source: seq<char>, target: seq<char>)
    ensures HasAtLeastOneCharFrom(source, target) != {} <==>
      exists i, j :: 0 <= i < |source| && 0 <= j < |target| && source[i] == target[j]
  {
    var common := HasAtLeastOneCharFrom(source, target);
    if common != {} {
      var c :| c in common;
      var i :| 0 <= i < |source| && source[i] == c;
      var j :| 0 <= j < |target| && target[j] == c;
    }
    if exists i, j :: 0 <= i < |source| && 0 <= j < |target| && source[i] == target[j] {
      var i, j :| 0 <= i < |source| && 0 <= j < |target| && source[i] == target[j];
      assert source[i] in common;
    }
  }

  /** Where every occurrence of c in s is still c in t, t has at least as many. */
  lemma {:induction false} CountMono(s: seq<char>, t: seq<char>, c: char)
    requires |s| == |t|
    requires forall i :: 0 <= i < |s| && s[i] == c ==> t[i] == c
    ensures Count(s, c) <= Count(t, c)
    decreases |s|
  {
    if s != [] {
      var n := |s| - 1;
      CountMono(s[..n], t[..n], c);
    }
  }

  /** If c occurs in t only at indices from allowed, it occurs at most |allowed| times. */
  lemma {:induction false} CountWithin(t: seq<char>, c: char, allowed: set<int>)
    requires forall i :: 0 <= i < |t| && t[i] == c ==> i in allowed
    ensures Count(t, c) <= |allowed|
    decreases |t|
  {
    if t != [] {
      var n := |t| - 1;
      if t[n] == c {
        CountWithin(t[..n], c, allowed - {n});
      } else {
        CountWithin(t[..n], c, allowed);
      }
    }
  }
}
