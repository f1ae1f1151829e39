/** The ranking step of the recommender: `sorted(list(enumerate(row)), reverse=True,
    key=lambda x: x[1])`.

    Python's sort is stable, and `reverse=True` keeps that stability, so pairs of equal score
    stay in their input order, which for `enumerate` is ascending index. The result is
    therefore the pairs ordered by `Before`: higher score first, equal scores by lower index.
    `SortDescending` is an insertion sort under that order; `RankIsStableSort` shows that it
    is the only permutation of the pairs with that order, so it is what Python returns.
    Scores are only compared, so they are integers here. */
module Ranking {

  /** One `(index, score)` pair of `enumerate(row)`. */
  datatype Scored = Scored(index: nat, score: int)

  function Enumerate(row: seq<int>): (pairs: seq<Scored>)
    ensures |pairs| == |row|
    ensures forall k :: 0 <= k < |row| ==> pairs[k] == Scored(k, row[k])
  {
    seq(|row|, k requires 0 <= k < |row| => Scored(k, row[k]))
  }

  /** `a` precedes `b` in the stable descending sort of `enumerate(row)`. */
  predicate Before(a: Scored, b: Scored)
  {
    a.score > b.score || (a.score == b.score && a.index < b.index)
  }

  /** Non-increasing by score, and equal scores in ascending index (input) order. */
  predicate Ranked(s: seq<Scored>)
  {
    forall i, j :: 0 <= i < j < |s| ==> Before(s[i], s[j])
  }

  predicate DistinctIndices(s: seq<Scored>)
  {
    forall i, j :: 0 <= i < j < |s| ==> s[i].index != s[j].index
  }

  function Insert(x: Scored, s: seq<Scored>): (r: seq<Scored>)
    ensures multiset(r) == multiset(s) + multiset{x}
  {
    if s == [] then [x]
    else if Before(x, s[0]) then [x] + s
    else
      assert s == [s[0]] + s[1..];
      [s[0]] + Insert(x, s[1..])
  }

  function SortDescending(s: seq<Scored>): (r: seq<Scored>)
    ensures multiset(r) == multiset(s)
  {
    if s == [] then []
    else
      assert s == [s[0]] + s[1..];
      Insert(s[0], SortDescending(s[1..]))
  }

  lemma {:induction false} InsertRanked(x: Scored, s: seq<Scored>)
    requires Ranked(s)
    requires forall y :: y in s ==> y.index != x.index
    ensures Ranked(Insert(x, s))
  {
    if s == [] {
    } else if Before(x, s[0]) {
      var r := [x] + s;
      forall i, j | 0 <= i < j < |r|
        ensures Before(r[i], r[j])
      {
        if i == 0 && j > 1 {
          assert Before(s[0], s[j - 1]);
        }
      }
    } else {
      InsertRanked(x, s[1..]);
      var tail := Insert(x, s[1..]);
      var r := [s[0]] + tail;
      forall j | 0 <= j < |tail|
        ensures Before(s[0], tail[j])
      {
        assert tail[j] in multiset(tail);
        if tail[j] != x {
          assert tail[j] in multiset(s[1..]);
          var m :| 0 <= m < |s[1..]| && s[1..][m] == tail[j];
          assert s[1 + m] == tail[j];
        }
      }
      assert forall i, j :: 0 <= i < j < |r| ==> Before(r[i], r[j]) by {
        forall i, j | 0 <= i < j < |r|
          ensures Before(r[i], r[j])
        {
          if i == 0 {
            assert r[j] == tail[j - 1];
          } else {
            assert r[i] == tail[i - 1] && r[j] == tail[j - 1];
          }
        }
      }
    }
  }

  lemma {:induction false} SortDescendingRanked(s: seq<Scored>)
    requires DistinctIndices(s)
    ensures Ranked(SortDescending(s))
  {
    if s != [] {
      var tail := s[1..];
      assert DistinctIndices(tail) by {
        forall i, j | 0 <= i < j < |tail|
          ensures tail[i].index != tail[j].index
        {
          assert tail[i] == s[i + 1] && tail[j] == s[j + 1];
        }
      }
      SortDescendingRanked(tail);
      var sorted := SortDescending(tail);
      forall y | y in sorted
        ensures y.index != s[0].index
      {
        assert y in multiset(tail);
        var m :| 0 <= m < |tail| && tail[m] == y;
        assert s[m + 1] == y;
      }
      InsertRanked(s[0], sorted);
    }
  }

  /** The ranking of a similarity row: `sorted(list(enumerate(row)), reverse=True, key=score)`. */
  function Rank(row: seq<int>): (r: seq<Scored>)
    ensures |r| == |row|
    ensures multiset(r) == multiset(Enumerate(row))
    ensures Ranked(r)
    ensures forall k :: 0 <= k < |r| ==> r[k].index < |row| && r[k].score == row[r[k].index]
    ensures forall j :: 0 <= j < |row| ==> Scored(j, row[j]) in r
  {
    var pairs := Enumerate(row);
    var r := SortDescending(pairs);
    SortDescendingRanked(pairs);
    RankFacts(row, r);
    r
  }

  /** Any permutation of `enumerate(row)` consists of genuine pairs of the row and holds each. */
  lemma RankFacts(row: seq<int>, r: seq<Scored>)
    requires multiset(r) == multiset(Enumerate(row))
    ensures |r| == |row|
    ensures forall k :: 0 <= k < |r| ==> r[k].index < |row| && r[k].score == row[r[k].index]
    ensures forall j :: 0 <= j < |row| ==> Scored(j, row[j]) in r
  {
    var pairs := Enumerate(row);
    assert |r| == |multiset(r)| == |multiset(pairs)| == |pairs|;
    forall k | 0 <= k < |r|
      ensures r[k].index < |row| && r[k].score == row[r[k].index]
    {
      assert r[k] in multiset(pairs);
      var m :| 0 <= m < |pairs| && pairs[m] == r[k];
    }
    forall j | 0 <= j < |row|
      ensures Scored(j, row[j]) in r
    {
      assert pairs[j] in multiset(r);
    }
  }

  /** Before is a strict order: no two pairs precede each other. */
  lemma BeforeAsymmetric(a: Scored, b: Scored)
    ensures !(Before(a, b) && Before(b, a))
  {
  }

  /** The first element of a sequence ordered by Before is the Before-least of its elements. */
  lemma RankedHead(a: seq<Scored>, b: seq<Scored>)
    requires Ranked(a) && Ranked(b)
    requires multiset(a) == multiset(b)
    requires a != []
    ensures b != [] && a[0] == b[0]
  {
    assert a[0] in multiset(b);
    var j :| 0 <= j < |b| && b[j] == a[0];
    assert b[0] in multiset(a);
    var i :| 0 <= i < |a| && a[i] == b[0];
    if a[0] != b[0] {
      assert Before(b[0], a[0]) && Before(a[0], b[0]);
      BeforeAsymmetric(a[0], b[0]);
    }
  }

  lemma MultisetTail(a: seq<Scored>, b: seq<Scored>)
    requires multiset(a) == multiset(b)
    requires a != [] && b != [] && a[0] == b[0]
    ensures multiset(a[1..]) == multiset(b[1..])
  {
    assert a == [a[0]] + a[1..] && b == [b[0]] + b[1..];
    assert multiset(a) == multiset{a[0]} + multiset(a[1..]);
    assert multiset(b) == multiset{b[0]} + multiset(b[1..]);
    assert multiset(a[1..]) == multiset(a) - multiset{a[0]};
    assert multiset(b[1..]) == multiset(b) - multiset{b[0]};
  }

  /** Two sequences ordered by Before with the same elements are the same sequence. */
  lemma {:induction false} RankedUnique(a: seq<Scored>, b: seq<Scored>)
    requires Ranked(a) && Ranked(b)
    requires multiset(a) == multiset(b)
    ensures a == b
    decreases |a|
  {
    if a == [] {
      assert |b| == |multiset(b)| == 0;
    } else {
      RankedHead(a, b);
      MultisetTail(a, b);
      assert Ranked(a[1..]) && Ranked(b[1..]);
      RankedUnique(a[1..], b[1..]);
      assert a == [a[0]] + a[1..] && b == [b[0]] + b[1..];
    }
  }

  /** Rank is the stable descending sort: every ordering of `enumerate(row)` that is
      non-increasing by score and keeps equal scores in input order equals it. */
  lemma RankIsStableSort(row: seq<int>, s: seq<Scored>)
    requires multiset(s) == multiset(Enumerate(row))
    requires Ranked(s)
    ensures s == Rank(row)
  {
    RankedUnique(s, Rank(row));
  }

  /** The first pair of the ranking is the maximum score at its lowest index. */
  lemma {:induction false} TopRanked(row: seq<int>, q: nat)
    requires q < |row|
    ensures (Rank(row)[0].index == q)
              <==> (forall j :: 0 <= j < |row| ==> row[j] <= row[q]) && (forall j :: 0 <= j < q ==> row[j] < row[q])
  {
    var r := Rank(row);
    var top := r[0];
    forall j | 0 <= j < |row| && j != top.index
      ensures Before(top, Scored(j, row[j]))
    {
      var m :| 0 <= m < |r| && r[m] == Scored(j, row[j]);
      assert m != 0;
    }
    if top.index != q {
      assert Before(top, Scored(q, row[q]));
    }
  }
}
