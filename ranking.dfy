/**
 * The ranking step of the compare handler: `sort((a, b) => b.score - a.score)`, a stable
 * sort into non-increasing score order. The reference definition is a stable insertion
 * sort on sequences; the in-place method on an array is proved to produce it, and the
 * lemmas show that it is the only ordering that is sorted and keeps the players of equal
 * score in their original order, so every stable sort gives the same result.
 */
module Ranking {
  import opened Scoring

  /** Scores never increase from left to right. */
  predicate NonIncreasing(s: seq<ScoredPlayer>)
  {
    forall i, j :: 0 <= i < j < |s| ==> s[i].score >= s[j].score
  }

  /** The entries with the given score, in their order in s. */
  function WithScore(s: seq<ScoredPlayer>, score: int): seq<ScoredPlayer>
  {
    if s == [] then [] else (if s[0].score == score then [s[0]] else []) + WithScore(s[1..], score)
  }

  /** Places x after every leading entry that scores at least as much. */
  function Insert(sorted: seq<ScoredPlayer>, x: ScoredPlayer): (r: seq<ScoredPlayer>)
    ensures |r| == |sorted| + 1
  {
    if sorted == [] then [x]
    else if sorted[0].score >= x.score then [sorted[0]] + Insert(sorted[1..], x)
    else [x] + sorted
  }

  /** The stable sort by descending score: each entry in turn inserted into the sorted prefix. */
  function SortByScore(s: seq<ScoredPlayer>): (r: seq<ScoredPlayer>)
    ensures |r| == |s|
  {
    if s == [] then [] else Insert(SortByScore(s[..|s| - 1]), s[|s| - 1])
  }

  lemma {:induction false} WithScoreAppend(a: seq<ScoredPlayer>, b: seq<ScoredPlayer>, score: int)
    ensures WithScore(a + b, score) == WithScore(a, score) + WithScore(b, score)
  {
    if a == [] {
      assert a + b == b;
    } else {
      var head := if a[0].score == score then [a[0]] else [];
      assert (a + b)[0] == a[0];
      assert (a + b)[1..] == a[1..] + b;
      assert WithScore(a + b, score) == head + WithScore(a[1..] + b, score);
      WithScoreAppend(a[1..], b, score);
      assert WithScore(a, score) == head + WithScore(a[1..], score);
    }
  }

  lemma {:induction false} WithScoreNone(s: seq<ScoredPlayer>, score: int)
    requires forall k :: 0 <= k < |s| ==> s[k].score != score
    ensures WithScore(s, score) == []
  {
    if s != [] {
      WithScoreNone(s[1..], score);
    }
  }

  /** Inserting x adds x once and keeps every entry of the list. */
  lemma {:induction false} InsertPermutes(sorted: seq<ScoredPlayer>, x: ScoredPlayer)
    ensures multiset(Insert(sorted, x)) == multiset(sorted) + multiset{x}
  {
    if sorted != [] && sorted[0].score >= x.score {
      InsertPermutes(sorted[1..], x);
      assert sorted == [sorted[0]] + sorted[1..];
    }
  }

  /** Inserting into a sorted list keeps it sorted. */
  lemma {:induction false} InsertSorted(sorted: seq<ScoredPlayer>, x: ScoredPlayer)
    requires NonIncreasing(sorted)
    ensures NonIncreasing(Insert(sorted, x))
  {
    if sorted != [] && sorted[0].score >= x.score {
      var tail := sorted[1..];
      InsertSorted(tail, x);
      InsertPermutes(tail, x);
      var rest := Insert(tail, x);
      var r := Insert(sorted, x);
      assert r == [sorted[0]] + rest;
      forall j | 0 <= j < |rest| ensures sorted[0].score >= rest[j].score {
        assert rest[j] in multiset(rest);
        if rest[j] != x {
          assert rest[j] in multiset(tail);
          var k :| 0 <= k < |tail| && tail[k] == rest[j];
          assert sorted[k + 1] == tail[k];
        }
      }
    }
  }

  /** Inserting x appends x to its own score group and leaves the other groups alone. */
  lemma {:induction false} InsertGroups(sorted: seq<ScoredPlayer>, x: ScoredPlayer, score: int)
    requires NonIncreasing(sorted)
    ensures WithScore(Insert(sorted, x), score) == WithScore(sorted, score) + (if x.score == score then [x] else [])
  {
    if sorted == [] {
    } else if sorted[0].score >= x.score {
      NonIncreasingTail(sorted);
      InsertGroups(sorted[1..], x, score);
      var r := Insert(sorted, x);
      assert r == [sorted[0]] + Insert(sorted[1..], x);
      assert r[1..] == Insert(sorted[1..], x);
    } else {
      InsertInFrontGroups(sorted, x, score);
    }
  }

  /** An entry scoring more than the whole sorted list goes in front, last of its own group. */
  lemma InsertInFrontGroups(sorted: seq<ScoredPlayer>, x: ScoredPlayer, score: int)
    requires NonIncreasing(sorted)
    requires sorted != [] && sorted[0].score < x.score
    ensures WithScore([x] + sorted, score) == WithScore(sorted, score) + (if x.score == score then [x] else [])
  {
    assert ([x] + sorted)[1..] == sorted;
    if x.score == score {
      forall k | 0 <= k < |sorted| ensures sorted[k].score != score {
        assert sorted[k].score <= sorted[0].score;
      }
      WithScoreNone(sorted, score);
    }
  }

  /** The reference sort yields a non-increasing list. */
  lemma {:induction false} SortByScoreSorted(s: seq<ScoredPlayer>)
    ensures NonIncreasing(SortByScore(s))
  {
    if s != [] {
      SortByScoreSorted(s[..|s| - 1]);
      InsertSorted(SortByScore(s[..|s| - 1]), s[|s| - 1]);
    }
  }

  /** The reference sort only reorders its input. */
  lemma {:induction false} SortByScorePermutes(s: seq<ScoredPlayer>)
    ensures multiset(SortByScore(s)) == multiset(s)
  {
    if s != [] {
      var init := s[..|s| - 1];
      var x := s[|s| - 1];
      SortByScorePermutes(init);
      InsertPermutes(SortByScore(init), x);
      assert s == init + [x];
      assert multiset(s) == multiset(init) + multiset{x};
    }
  }

  /** The reference sort keeps the entries of each score in input order. */
  lemma {:induction false} SortByScoreStable(s: seq<ScoredPlayer>, score: int)
    ensures WithScore(SortByScore(s), score) == WithScore(s, score)
  {
    if s != [] {
      var init := s[..|s| - 1];
      var x := s[|s| - 1];
      SortByScoreSorted(init);
      SortByScoreStable(init, score);
      InsertGroups(SortByScore(init), x, score);
      assert s == init + [x];
      WithScoreAppend(init, [x], score);
    }
  }

  /** The reference sort yields a sorted permutation that keeps equal scores in input order. */
  lemma SortByScoreProperties(s: seq<ScoredPlayer>)
    ensures NonIncreasing(SortByScore(s))
    ensures multiset(SortByScore(s)) == multiset(s)
    ensures forall score :: WithScore(SortByScore(s), score) == WithScore(s, score)
  {
    SortByScoreSorted(s);
    SortByScorePermutes(s);
    forall score ensures WithScore(SortByScore(s), score) == WithScore(s, score) {
      SortByScoreStable(s, score);
    }
  }

  /**
   * A sorted list is determined by its groups of equal score: two non-increasing lists
   * with the same entries per score, in the same order, are equal.
   */
  lemma {:induction false} SortedGroupsDetermine(t: seq<ScoredPlayer>, u: seq<ScoredPlayer>)
    requires NonIncreasing(t) && NonIncreasing(u)
    requires forall score :: WithScore(t, score) == WithScore(u, score)
    ensures t == u
    decreases |t|
  {
    if t == [] || u == [] {
      EmptyGroups(t, u);
    } else {
      SameHead(t, u);
      TailGroups(t, u);
      NonIncreasingTail(t);
      NonIncreasingTail(u);
      SortedGroupsDetermine(t[1..], u[1..]);
      assert t == [t[0]] + t[1..];
      assert u == [u[0]] + u[1..];
    }
  }

  /** A list has the same score groups as the empty list only when it is empty itself. */
  lemma EmptyGroups(t: seq<ScoredPlayer>, u: seq<ScoredPlayer>)
    requires t == [] || u == []
    requires forall score :: WithScore(t, score) == WithScore(u, score)
    ensures t == u
  {
    if t != [] {
      WithScoreNonEmpty(t, 0);
      assert false;
    } else if u != [] {
      WithScoreNonEmpty(u, 0);
      assert false;
    }
  }

  lemma NonIncreasingTail(t: seq<ScoredPlayer>)
    requires |t| > 0 && NonIncreasing(t)
    ensures NonIncreasing(t[1..])
  {
    var tail := t[1..];
    forall i, j | 0 <= i < j < |tail| ensures tail[i].score >= tail[j].score {
      assert tail[i] == t[i + 1] && tail[j] == t[j + 1];
    }
  }

  /** Two sorted lists with the same score groups start with the same entry. */
  lemma SameHead(t: seq<ScoredPlayer>, u: seq<ScoredPlayer>)
    requires |t| > 0 && |u| > 0 && NonIncreasing(t) && NonIncreasing(u)
    requires forall score :: WithScore(t, score) == WithScore(u, score)
    ensures t[0] == u[0]
  {
    HeadScoreIsMax(t, u);
    HeadScoreIsMax(u, t);
    var c := t[0].score;
    assert WithScore(t, c)[0] == t[0];
    assert WithScore(u, c)[0] == u[0];
  }

  /** Lists with the same head and the same score groups have tails with the same score groups. */
  lemma TailGroups(t: seq<ScoredPlayer>, u: seq<ScoredPlayer>)
    requires |t| > 0 && |u| > 0 && t[0] == u[0]
    requires forall score :: WithScore(t, score) == WithScore(u, score)
    ensures forall score :: WithScore(t[1..], score) == WithScore(u[1..], score)
  {
    forall score ensures WithScore(t[1..], score) == WithScore(u[1..], score) {
      var head := if t[0].score == score then [t[0]] else [];
      assert WithScore(t, score) == head + WithScore(t[1..], score);
      assert WithScore(u, score) == head + WithScore(u[1..], score);
      assert WithScore(t[1..], score) == (head + WithScore(t[1..], score))[|head|..];
      assert WithScore(u[1..], score) == (head + WithScore(u[1..], score))[|head|..];
    }
  }

  lemma {:induction false} WithScoreNonEmpty(s: seq<ScoredPlayer>, k: nat)
    requires k < |s|
    ensures s[k] in WithScore(s, s[k].score)
  {
    if k > 0 {
      WithScoreNonEmpty(s[1..], k - 1);
    }
  }

  lemma {:induction false} WithScoreMembers(s: seq<ScoredPlayer>, score: int, x: ScoredPlayer)
    requires x in WithScore(s, score)
    ensures x in s && x.score == score
  {
    if s != [] && !(s[0].score == score && x == s[0]) {
      WithScoreMembers(s[1..], score, x);
    }
  }

  /** With equal groups, the head of a sorted list scores at least as much as the head of the other. */
  lemma HeadScoreIsMax(t: seq<ScoredPlayer>, u: seq<ScoredPlayer>)
    requires |t| > 0 && |u| > 0 && NonIncreasing(t)
    requires forall score :: WithScore(t, score) == WithScore(u, score)
    ensures t[0].score >= u[0].score
  {
    WithScoreNonEmpty(u, 0);
    assert u[0] in WithScore(t, u[0].score);
    WithScoreMembers(t, u[0].score, u[0]);
  }

  /** Any stable descending sort of s, sorted and keeping each score group in order, is SortByScore(s). */
  lemma StableSortIsUnique(s: seq<ScoredPlayer>, t: seq<ScoredPlayer>)
    requires NonIncreasing(t)
    requires forall score :: WithScore(t, score) == WithScore(s, score)
    ensures t == SortByScore(s)
  {
    SortByScoreProperties(s);
    SortedGroupsDetermine(t, SortByScore(s));
  }

  /** The first entry of the ranking has the highest score of all players. */
  lemma {:induction false} FirstIsBest(s: seq<ScoredPlayer>)
    requires |s| > 0
    ensures forall k :: 0 <= k < |s| ==> SortByScore(s)[0].score >= s[k].score
  {
    SortByScoreProperties(s);
    var r := SortByScore(s);
    forall k | 0 <= k < |s| ensures r[0].score >= s[k].score {
      assert s[k] in multiset(r);
      var j :| 0 <= j < |r| && r[j] == s[k];
    }
  }

  /** In a sorted list, x lands right after the entries that score at least as much. */
  lemma InsertSplit(sorted: seq<ScoredPlayer>, x: ScoredPlayer, j: nat)
    requires j <= |sorted|
    requires forall k :: 0 <= k < j ==> sorted[k].score >= x.score
    requires forall k :: j <= k < |sorted| ==> sorted[k].score < x.score
    ensures Insert(sorted, x) == sorted[..j] + [x] + sorted[j..]
    decreases j
  {
    if j == 0 {
      if sorted != [] {
        assert sorted[0].score < x.score;
      }
    } else {
      InsertSplit(sorted[1..], x, j - 1);
      assert sorted[1..][..j - 1] == sorted[1..j];
      assert sorted[..j] == [sorted[0]] + sorted[1..j];
    }
  }

  /**
   * One insertion step: the entry at index i moves left past every strictly lower score
   * just before it, the entries it passes shift one place right. The position j where it
   * lands is returned.
   */
  method InsertAt(a: array<ScoredPlayer>, i: nat) returns (j: nat)
    requires i < a.Length
    modifies a
    ensures j <= i
    ensures a[..i + 1] == old(a[..i])[..j] + [old(a[i])] + old(a[..i])[j..]
    ensures j > 0 ==> old(a[..i])[j - 1].score >= old(a[i]).score
    ensures forall k :: j <= k < i ==> old(a[..i])[k].score < old(a[i]).score
    ensures a[i + 1..] == old(a[i + 1..])
  {
    ghost var sorted := a[..i];
    var x := a[i];
    j := i;
    while j > 0 && a[j - 1].score < x.score
      invariant 0 <= j <= i
      invariant forall k :: 0 <= k < j ==> a[k] == sorted[k]
      invariant forall k :: j < k <= i ==> a[k] == sorted[k - 1]
      invariant forall k :: j <= k < i ==> sorted[k].score < x.score
      invariant forall k :: i < k < a.Length ==> a[k] == old(a[k])
    {
      a[j] := a[j - 1];
      j := j - 1;
    }
    a[j] := x;
    ShiftedLayout(a[..], sorted, x, j);
  }

  /** The array after the shifts holds the prefix, then x, then the entries it passed. */
  lemma ShiftedLayout(b: seq<ScoredPlayer>, sorted: seq<ScoredPlayer>, x: ScoredPlayer, j: nat)
    requires j <= |sorted| < |b|
    requires forall k :: 0 <= k < j ==> b[k] == sorted[k]
    requires b[j] == x
    requires forall k :: j < k <= |sorted| ==> b[k] == sorted[k - 1]
    ensures b[..|sorted| + 1] == sorted[..j] + [x] + sorted[j..]
  {
    var target := sorted[..j] + [x] + sorted[j..];
    forall k | 0 <= k <= |sorted| ensures b[k] == target[k] {
      if k < j {
        assert target[k] == sorted[k];
      } else if k > j {
        assert target[k] == sorted[k - 1];
      }
    }
  }

  /** In a sorted list, everything before an entry scoring at least x.score scores at least as much. */
  lemma PrefixScoresAtLeast(sorted: seq<ScoredPlayer>, x: ScoredPlayer, j: nat)
    requires NonIncreasing(sorted)
    requires j <= |sorted|
    requires j > 0 ==> sorted[j - 1].score >= x.score
    ensures forall k :: 0 <= k < j ==> sorted[k].score >= x.score
  {
  }

  /** Placing entry i of the input at j, past strictly lower scores only, sorts one more entry. */
  lemma InsertionStep(input: seq<ScoredPlayer>, i: nat, j: nat)
    requires i < |input|
    requires j <= i
    requires j > 0 ==> SortByScore(input[..i])[j - 1].score >= input[i].score
    requires forall k :: j <= k < i ==> SortByScore(input[..i])[k].score < input[i].score
    ensures SortByScore(input[..i + 1])
         == SortByScore(input[..i])[..j] + [input[i]] + SortByScore(input[..i])[j..]
  {
    var sorted := SortByScore(input[..i]);
    SortByScoreSorted(input[..i]);
    PrefixScoresAtLeast(sorted, input[i], j);
    InsertSplit(sorted, input[i], j);
    assert input[..i + 1][..i] == input[..i];
    assert input[..i + 1][i] == input[i];
  }

  /** The in-place sort: insertion of each entry in turn into the sorted prefix. */
  method SortInPlace(a: array<ScoredPlayer>)
    modifies a
    ensures a[..] == SortByScore(old(a[..]))
  {
    ghost var input := a[..];
    var i := 0;
    while i < a.Length
      invariant 0 <= i <= a.Length
      invariant a[..i] == SortByScore(input[..i])
      invariant a[i..] == input[i..]
    {
      ghost var sorted := a[..i];
      assert a[i + 1..] == input[i + 1..] by {
        assert a[i + 1..] == a[i..][1..];
        assert input[i + 1..] == input[i..][1..];
      }
      assert a[i] == input[i] by {
        assert a[i] == a[i..][0];
      }
      var j := InsertAt(a, i);
      InsertionStep(input, i, j);
      i := i + 1;
    }
    assert input[..a.Length] == input;
  }
}
