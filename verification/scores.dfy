/** The high-score table update of perform_player_death: the lowest entry below the new
    score is replaced by it, and qsort with scoresort (b - a) puts the table in
    non-increasing order. */
module Scores {

  /** Non-increasing order: what scoresort asks qsort for. */
  ghost predicate Descending(s: seq<int>) {
    forall i, j :: 0 <= i < j < |s| ==> s[i] >= s[j]
  }

  /** k is the first position holding the table's minimum, and that minimum is below the
      score. */
  ghost predicate IsLowestBelow(t: seq<int>, score: int, k: int) {
    && 0 <= k < |t| && t[k] < score
    && (forall j :: 0 <= j < |t| ==> t[k] <= t[j])
    && (forall j :: 0 <= j < k ==> t[k] < t[j])
  }

  /** The scan loop from position i; `found` and `minimum` are the loop variables. The
      comparison is strict, so on a tie the earlier position stays the candidate. */
  function ScanLowest(t: seq<int>, score: int, i: nat, found: int, minimum: int): (r: int)
    requires i <= |t|
    requires found == -1 ==> minimum == score && forall j :: 0 <= j < i ==> score <= t[j]
    requires found != -1 ==> IsLowestBelow(t[..i], score, found) && minimum == t[found]
    ensures r == -1 ==> forall j :: 0 <= j < |t| ==> score <= t[j]
    ensures r != -1 ==> IsLowestBelow(t, score, r)
    decreases |t| - i
  {
    if i == |t| then
      assert t[..i] == t;
      found
    else if t[i] < minimum then
      ScanLowest(t, score, i + 1, i, t[i])
    else
      ScanLowest(t, score, i + 1, found, minimum)
  }

  /** The position perform_player_death overwrites, or -1 when no entry is below the
      score. */
  function FindLowest(t: seq<int>, score: int): (r: int)
    ensures r == -1 <==> forall j :: 0 <= j < |t| ==> score <= t[j]
    ensures r != -1 ==> IsLowestBelow(t, score, r)
  {
    ScanLowest(t, score, 0, -1, score)
  }

  /** Replacement: the score takes the lowest entry's place; the rest of the table is
      untouched. */
  function ReplaceLowest(t: seq<int>, score: int): (r: seq<int>)
    ensures |r| == |t|
    ensures FindLowest(t, score) == -1 ==> r == t
    ensures FindLowest(t, score) != -1 ==>
              multiset(r) == multiset(t) - multiset{t[FindLowest(t, score)]} + multiset{score}
  {
    var k := FindLowest(t, score);
    if k == -1 then t
    else
      assert t == t[..k] + [t[k]] + t[k + 1..];
      assert t[k := score] == t[..k] + [score] + t[k + 1..];
      t[k := score]
  }

  /** A head no smaller than the first element keeps the order. */
  lemma DescendingCons(h: int, s: seq<int>)
    requires Descending(s) && (s == [] || h >= s[0])
    ensures Descending([h] + s)
  {
    var r := [h] + s;
    forall i, j | 0 <= i < j < |r|
      ensures r[i] >= r[j]
    {
      if i == 0 {
        assert r[j] == s[j - 1] && s[0] >= s[j - 1];
      } else {
        assert r[i] == s[i - 1] && r[j] == s[j - 1];
      }
    }
  }

  lemma DescendingTail(s: seq<int>)
    requires Descending(s) && s != []
    ensures Descending(s[1..])
  {
    var t := s[1..];
    forall i, j | 0 <= i < j < |t|
      ensures t[i] >= t[j]
    {
      assert t[i] == s[i + 1] && t[j] == s[j + 1];
    }
  }

  /** The first element of a non-increasing sequence is its largest. */
  lemma HeadIsLargest(s: seq<int>, x: int)
    requires Descending(s) && x in s
    ensures s[0] >= x
  {
    var j :| 0 <= j < |s| && s[j] == x;
    if j > 0 {
      assert s[0] >= s[j];
    }
  }

  /** Inserting x into a non-increasing sequence. */
  function Insert(s: seq<int>, x: int): (r: seq<int>)
    requires Descending(s)
    ensures Descending(r) && multiset(r) == multiset(s) + multiset{x}
    ensures |r| == |s| + 1 && (r[0] == x || (s != [] && r[0] == s[0]))
  {
    if s == [] || x >= s[0] then
      DescendingCons(x, s);
      [x] + s
    else
      DescendingTail(s);
      var rest := Insert(s[1..], x);
      assert rest[0] == x || rest[0] == s[1];
      DescendingCons(s[0], rest);
      assert s == [s[0]] + s[1..];
      [s[0]] + rest
  }

  /** The table in non-increasing order, holding the same entries. */
  function SortDescending(s: seq<int>): (r: seq<int>)
    ensures Descending(r) && multiset(r) == multiset(s) && |r| == |s|
  {
    if s == [] then []
    else
      assert s == [s[0]] + s[1..];
      Insert(SortDescending(s[1..]), s[0])
  }

  lemma MultisetTail(s: seq<int>)
    requires s != []
    ensures multiset(s[1..]) == multiset(s) - multiset{s[0]}
  {
    assert s == [s[0]] + s[1..];
  }

  /** A non-increasing arrangement of a multiset is unique, so any sort that honours
      scoresort (qsort included, stable or not) yields SortDescending's table. */
  lemma {:induction false} DescendingUnique(a: seq<int>, b: seq<int>)
    requires Descending(a) && Descending(b) && multiset(a) == multiset(b)
    ensures a == b
    decreases |a|
  {
    assert |a| == |multiset(a)| == |b|;
    if a != [] {
      assert a[0] in multiset(b) && b[0] in multiset(a);
      assert a[0] in b && b[0] in a;
      HeadIsLargest(b, a[0]);
      HeadIsLargest(a, b[0]);
      assert a[0] == b[0];
      MultisetTail(a);
      MultisetTail(b);
      DescendingTail(a);
      DescendingTail(b);
      DescendingUnique(a[1..], b[1..]);
    }
  }

  /** perform_player_death's table update. */
  function UpdateHighScores(t: seq<int>, score: int): (r: seq<int>)
    ensures Descending(r) && |r| == |t|
    ensures multiset(r) == multiset(ReplaceLowest(t, score))
  {
    SortDescending(ReplaceLowest(t, score))
  }

  /** The new score is on the table afterwards exactly when it beat some entry or
      equals one already there. */
  lemma ScoreEntersTable(t: seq<int>, score: int)
    ensures score in UpdateHighScores(t, score) <==> score in t || exists j :: 0 <= j < |t| && t[j] < score
  {
    var r := UpdateHighScores(t, score);
    var k := FindLowest(t, score);
    assert score in r <==> score in multiset(r);
    if k != -1 {
      assert score in multiset(ReplaceLowest(t, score));
    } else {
      assert score in r <==> score in multiset(t);
    }
  }

  /** Every entry that survives is at least the entry that was dropped: the table keeps
      the best |t| of the old entries and the score. */
  lemma DroppedIsLowest(t: seq<int>, score: int)
    requires FindLowest(t, score) != -1
    ensures forall x :: x in multiset(UpdateHighScores(t, score)) && x != score ==> t[FindLowest(t, score)] <= x
    ensures t[FindLowest(t, score)] < score
  {
    var k := FindLowest(t, score);
    forall x | x in multiset(UpdateHighScores(t, score)) && x != score
      ensures t[k] <= x
    {
      assert x in multiset(t);
      var j :| 0 <= j < |t| && t[j] == x;
    }
  }
}
