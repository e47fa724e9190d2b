/** The top-ten high-score list of TetrisStore (src/store/TetrisStore.ts, checkHighScore/addHighScore/topScore). */
module HighScores {
  import opened Types

  const MAX_HIGH_SCORES: nat := 10

  /** `Math.min` over the scores of a non-empty list. */
  function MinScore(hs: seq<HighScore>): (m: int)
    requires |hs| > 0
    ensures forall i :: 0 <= i < |hs| ==> m <= hs[i].score
    ensures exists i :: 0 <= i < |hs| && hs[i].score == m
  {
    if |hs| == 1 then hs[0].score
    else
      var rest := MinScore(hs[1..]);
      if hs[0].score < rest then hs[0].score else rest
  }

  /** The test of `checkHighScore`: a free slot, or a score beating some entry, qualifies. */
  function IsHighScore(hs: seq<HighScore>, score: int): (r: bool)
    ensures r <==> |hs| < MAX_HIGH_SCORES || exists i :: 0 <= i < |hs| && hs[i].score < score
  {
    |hs| < MAX_HIGH_SCORES || score > MinScore(hs)
  }

  predicate SortedByScore(hs: seq<HighScore>) {
    forall i, j :: 0 <= i < j < |hs| ==> hs[i].score >= hs[j].score
  }

  /** Inserts `e` after every entry scoring at least as much, as a stable sort places a new last entry. */
  function InsertByScore(e: HighScore, hs: seq<HighScore>): (r: seq<HighScore>)
    ensures |r| == |hs| + 1 && multiset(r) == multiset(hs) + multiset{e}
    ensures r[0] == e || (|hs| > 0 && r[0] == hs[0])
    ensures SortedByScore(hs) ==> SortedByScore(r)
  {
    if |hs| == 0 then [e]
    else if hs[0].score >= e.score then
      assert hs == [hs[0]] + hs[1..];
      [hs[0]] + InsertByScore(e, hs[1..])
    else [e] + hs
  }

  /** The order `sort((a, b) => b.score - a.score)` leaves: non-increasing scores, same entries. */
  function SortByScore(hs: seq<HighScore>): (r: seq<HighScore>)
    ensures |r| == |hs| && multiset(r) == multiset(hs)
    ensures SortedByScore(r)
  {
    if |hs| == 0 then []
    else
      assert hs == hs[..|hs| - 1] + [hs[|hs| - 1]];
      InsertByScore(hs[|hs| - 1], SortByScore(hs[..|hs| - 1]))
  }

  /** `addHighScore` on the list: push, sort by score descending, keep the first ten. */
  function AddHighScore(hs: seq<HighScore>, e: HighScore): (r: seq<HighScore>)
    ensures SortedByScore(r)
    ensures |r| == if |hs| + 1 < MAX_HIGH_SCORES then |hs| + 1 else MAX_HIGH_SCORES
    ensures multiset(r) <= multiset(hs + [e])
  {
    var sorted := SortByScore(hs + [e]);
    var n := if |sorted| < MAX_HIGH_SCORES then |sorted| else MAX_HIGH_SCORES;
    assert sorted == sorted[..n] + sorted[n..];
    sorted[..n]
  }

  /** Truncation drops only entries scoring no more than every entry kept. */
  lemma KeepsHighest(hs: seq<HighScore>, e: HighScore)
    ensures var r := AddHighScore(hs, e);
      forall d, i :: d in multiset(hs + [e]) - multiset(r) && 0 <= i < |r| ==> d.score <= r[i].score
  {
    var sorted := SortByScore(hs + [e]);
    var r := AddHighScore(hs, e);
    var n := |r|;
    var tail := sorted[n..];
    assert sorted == r + tail;
    assert multiset(hs + [e]) - multiset(r) == multiset(tail);
    forall d, i | d in multiset(hs + [e]) - multiset(r) && 0 <= i < |r|
      ensures d.score <= r[i].score
    {
      assert d in tail;
      var q :| 0 <= q < |tail| && tail[q] == d;
      assert r[i] == sorted[i] && tail[q] == sorted[n + q];
      SortedAt(sorted, i, n + q);
    }
  }

  /** One instance of `SortedByScore`, proved apart so that the lemma above stays cheap. */
  lemma SortedAt(hs: seq<HighScore>, i: int, j: int)
    requires SortedByScore(hs) && 0 <= i < j < |hs|
    ensures hs[i].score >= hs[j].score
  {
  }

  /** A score that `IsHighScore` accepts survives the truncation (for lists of at most ten). */
  lemma QualifyingScoreKept(hs: seq<HighScore>, e: HighScore)
    requires |hs| <= MAX_HIGH_SCORES && IsHighScore(hs, e.score)
    ensures e in AddHighScore(hs, e)
  {
    var s := hs + [e];
    var sorted := SortByScore(s);
    var r := AddHighScore(hs, e);
    assert s[|s| - 1] == e;
    assert e in multiset(sorted);
    var p := IndexOf(sorted, e);
    if |hs| == MAX_HIGH_SCORES {
      var i :| 0 <= i < |hs| && hs[i].score < e.score;
      assert s[i] == hs[i];
      assert hs[i] in multiset(sorted);
      var q := IndexOf(sorted, hs[i]);
      assert sorted[p].score > sorted[q].score;
      assert p < q;
      assert r == sorted[..MAX_HIGH_SCORES];
      assert r[p] == e;
    } else {
      assert r == sorted[..|sorted|];
      assert r[p] == e;
    }
  }

  lemma IndexOf(s: seq<HighScore>, x: HighScore) returns (k: nat)
    requires x in multiset(s)
    ensures k < |s| && s[k] == x
  {
    assert x in s;
    k :| 0 <= k < |s| && s[k] == x;
  }

  /** Inserting an entry that scores no more than all others appends it. */
  lemma {:induction false} InsertLast(e: HighScore, hs: seq<HighScore>)
    requires forall i :: 0 <= i < |hs| ==> hs[i].score >= e.score
    ensures InsertByScore(e, hs) == hs + [e]
  {
    if |hs| > 0 {
      InsertLast(e, hs[1..]);
      assert [hs[0]] + (hs[1..] + [e]) == hs + [e];
    }
  }

  /** Sorting an already sorted list changes nothing. */
  lemma {:induction false} SortSorted(hs: seq<HighScore>)
    requires SortedByScore(hs)
    ensures SortByScore(hs) == hs
  {
    if |hs| > 0 {
      var p := hs[..|hs| - 1];
      assert SortedByScore(p);
      SortSorted(p);
      InsertLast(hs[|hs| - 1], p);
      assert p + [hs[|hs| - 1]] == hs;
    }
  }

  /** On a sorted list, adding an entry is inserting it in place and truncating to ten. */
  lemma AddIsInsert(hs: seq<HighScore>, e: HighScore)
    requires SortedByScore(hs)
    ensures var ins := InsertByScore(e, hs);
      AddHighScore(hs, e) == ins[..if |ins| < MAX_HIGH_SCORES then |ins| else MAX_HIGH_SCORES]
  {
    var s := hs + [e];
    assert s[..|s| - 1] == hs;
    SortSorted(hs);
  }

  /** `topScore`: the first entry's score, or 0 for an empty list; on a sorted list, the best score. */
  function TopScore(hs: seq<HighScore>): (r: int)
    ensures |hs| == 0 ==> r == 0
    ensures |hs| > 0 ==> r == hs[0].score
    ensures |hs| > 0 ==> exists i :: 0 <= i < |hs| && hs[i].score == r
    ensures SortedByScore(hs) ==> forall i :: 0 <= i < |hs| ==> hs[i].score <= r
  {
    if |hs| > 0 then hs[0].score else 0
  }

  lemma AddShortInsert(hs: seq<HighScore>, e: HighScore, r: seq<HighScore>)
    requires SortedByScore(hs) && InsertByScore(e, hs) == r && |r| <= MAX_HIGH_SCORES
    ensures AddHighScore(hs, e) == r
  {
    AddIsInsert(hs, e);
    assert r[..|r|] == r;
  }

  lemma AddFirst(a: HighScore)
    ensures AddHighScore([], a) == [a]
  {
    AddIsInsert([], a);
    assert InsertByScore(a, []) == [a];
  }

  lemma AddSecond(a: HighScore, b: HighScore)
    requires a.score < b.score
    ensures AddHighScore([a], b) == [b, a]
  {
    AddIsInsert([a], b);
    assert InsertByScore(b, [a]) == [b, a];
  }

  lemma AddThird(a: HighScore, b: HighScore, c: HighScore)
    requires a.score < c.score <= b.score
    ensures AddHighScore([b, a], c) == [b, c, a]
  {
    var hs := [b, a];
    assert SortedByScore(hs);
    assert InsertByScore(c, hs) == [b, c, a] by {
      assert hs[1..] == [a];
      assert InsertByScore(c, [a]) == [c, a];
    }
    AddShortInsert(hs, c, [b, c, a]);
  }

  /** Scores 500, 1000 and 750 added in turn are listed as 1000, 750, 500. */
  lemma SortExample(a: HighScore, b: HighScore, c: HighScore)
    requires a.score == 500 && b.score == 1000 && c.score == 750
    ensures AddHighScore(AddHighScore(AddHighScore([], a), b), c) == [b, c, a]
    ensures TopScore(AddHighScore(AddHighScore(AddHighScore([], a), b), c)) == 1000
  {
    AddFirst(a);
    AddSecond(a, b);
    AddThird(a, b, c);
  }
}
