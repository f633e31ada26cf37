/**
 * `recommend_books`: clean the query title, find its row, rank every row by
 * its similarity score to that row (a stable sort, highest score first),
 * drop the first of the ranking and return the next `n` row numbers.
 *
 * The similarity matrix is an input: how it is computed is not modelled.
 */
module Recommend {
  import opened Wrappers
  import opened TextClean
  import opened Catalog

  /** One pair of `enumerate(cosine_sim[idx])`: a row number and its score. */
  datatype Scored = Scored(index: nat, score: real)

  /** `list(enumerate(row))`. */
  function Enumerate(row: seq<real>): (ps: seq<Scored>)
    ensures |ps| == |row|
    ensures forall k :: 0 <= k < |ps| ==> ps[k] == Scored(k, row[k])
  {
    seq(|row|, k requires 0 <= k < |row| => Scored(k, row[k]))
  }

  /** The ranking order: higher score first; on equal scores, the lower row number first. */
  predicate Before(p: Scored, q: Scored)
  {
    p.score > q.score || (p.score == q.score && p.index < q.index)
  }

  /** Every element comes `Before` every later one. */
  predicate Ranked(ps: seq<Scored>)
  {
    forall k, l :: 0 <= k < l < |ps| ==> Before(ps[k], ps[l])
  }

  /** The row numbers of `ps` increase from left to right, as `enumerate` makes them. */
  predicate IndicesIncrease(ps: seq<Scored>)
  {
    forall k, l :: 0 <= k < l < |ps| ==> ps[k].index < ps[l].index
  }

  /**
   * Put `x` in front of the first element that does not score more than it.
   * When `x` came before all of `ps` in the input, this keeps equal scores in
   * input order.
   */
  function Insert(x: Scored, ps: seq<Scored>): (r: seq<Scored>)
    ensures multiset(r) == multiset(ps) + multiset{x}
  {
    if ps == [] || ps[0].score <= x.score then [x] + ps
    else
      assert ps == [ps[0]] + ps[1..];
      [ps[0]] + Insert(x, ps[1..])
  }

  /** `sorted(ps, key=lambda x: x[1], reverse=True)`: a stable sort, highest score first. */
  function SortByScoreDesc(ps: seq<Scored>): (r: seq<Scored>)
    ensures multiset(r) == multiset(ps)
  {
    if ps == [] then []
    else
      assert ps == [ps[0]] + ps[1..];
      Insert(ps[0], SortByScoreDesc(ps[1..]))
  }

  lemma {:induction false} InsertRanked(x: Scored, ps: seq<Scored>)
    requires Ranked(ps)
    requires forall k :: 0 <= k < |ps| ==> x.index < ps[k].index
    ensures Ranked(Insert(x, ps))
  {
    if ps == [] || ps[0].score <= x.score {
      var r := [x] + ps;
      forall k, l | 0 <= k < l < |r| ensures Before(r[k], r[l]) {
        if k == 0 && l > 1 {
          assert Before(ps[0], ps[l - 1]);
        }
      }
    } else {
      var tail := Insert(x, ps[1..]);
      InsertRanked(x, ps[1..]);
      var r := [ps[0]] + tail;
      forall l | 0 < l < |r| ensures Before(ps[0], r[l]) {
        assert r[l] in multiset(tail);
        if r[l] != x {
          assert r[l] in multiset(ps[1..]);
          var j :| 0 <= j < |ps[1..]| && ps[1..][j] == r[l];
          assert Before(ps[0], ps[j + 1]);
        }
      }
    }
  }

  /**
   * On input whose row numbers increase (as `enumerate` produces), the sort
   * yields the ranking order: non-increasing scores, ties in ascending row
   * number. This is what a stable descending sort promises.
   */
  lemma {:induction false} SortRanked(ps: seq<Scored>)
    requires IndicesIncrease(ps)
    ensures Ranked(SortByScoreDesc(ps))
  {
    if ps != [] {
      SortRanked(ps[1..]);
      var rest := SortByScoreDesc(ps[1..]);
      forall k | 0 <= k < |rest| ensures ps[0].index < rest[k].index {
        assert rest[k] in multiset(ps[1..]);
        var j :| 0 <= j < |ps[1..]| && ps[1..][j] == rest[k];
        assert ps[0].index < ps[j + 1].index;
      }
      InsertRanked(ps[0], rest);
    }
  }

  /** The ranking of all rows by their score in `row`. */
  function Ranking(row: seq<real>): (ps: seq<Scored>)
    ensures multiset(ps) == multiset(Enumerate(row))
  {
    SortByScoreDesc(Enumerate(row))
  }

  /**
   * The ranking holds every row exactly once with its own score, in ranking
   * order.
   */
  lemma RankingFacts(row: seq<real>)
    ensures |Ranking(row)| == |row|
    ensures Ranked(Ranking(row))
    ensures forall k :: 0 <= k < |row| ==>
      Ranking(row)[k].index < |row| && Ranking(row)[k].score == row[Ranking(row)[k].index]
    ensures forall j :: 0 <= j < |row| ==> Scored(j, row[j]) in Ranking(row)
  {
    var ps := Ranking(row);
    var en := Enumerate(row);
    assert |ps| == |multiset(ps)| == |multiset(en)| == |row|;
    SortRanked(en);
    forall k | 0 <= k < |row|
      ensures ps[k].index < |row| && ps[k].score == row[ps[k].index]
    {
      assert ps[k] in multiset(en);
    }
    forall j | 0 <= j < |row| ensures Scored(j, row[j]) in ps {
      assert en[j] in multiset(ps);
    }
  }

  /** The index a Python slice bound `b` stands for in a sequence of length `len`. */
  function SliceBound(b: int, len: nat): (r: nat)
    ensures r <= len
    ensures 0 <= b ==> r == if b < len then b else len
  {
    if b < 0 then (if b + len < 0 then 0 else b + len)
    else if b < len then b else len
  }

  /**
   * Python's `s[lo:hi]`: bounds past the end are clamped, a negative `hi`
   * counts from the end, and crossed bounds give the empty slice.
   */
  function PySlice<T>(s: seq<T>, lo: int, hi: int): (r: seq<T>)
    ensures |r| <= |s|
    ensures 0 <= lo < |s| && lo <= hi ==> r == s[lo..Min(hi, |s|)]
    ensures 0 <= lo && (|s| <= lo || 0 <= hi <= lo) ==> r == []
    ensures 0 <= lo && hi < 0 ==> r == if lo < |s| + hi then s[lo..|s| + hi] else []
    ensures forall k :: 0 <= k < |r| ==> r[k] in s
  {
    var l, h := SliceBound(lo, |s|), SliceBound(hi, |s|);
    if l < h then s[l..h] else []
  }

  /** `[i[0] for i in ps]`. */
  function Indices(ps: seq<Scored>): (r: seq<nat>)
    ensures |r| == |ps|
    ensures forall k :: 0 <= k < |ps| ==> r[k] == ps[k].index
  {
    seq(|ps|, k requires 0 <= k < |ps| => ps[k].index)
  }

  /** The row the ranking puts first, which `recommend_books` skips. */
  function Dropped(row: seq<real>): (d: nat)
    requires |row| > 0
    ensures d < |row|
    ensures forall j :: 0 <= j < |row| ==> row[j] < row[d] || (row[j] == row[d] && d <= j)
  {
    RankingFacts(row);
    var d := Ranking(row)[0].index;
    assert forall j :: 0 <= j < |row| && j != d ==> Before(Ranking(row)[0], Scored(j, row[j])) by {
      forall j | 0 <= j < |row| && j != d ensures Before(Ranking(row)[0], Scored(j, row[j])) {
        var k :| 0 <= k < |Ranking(row)| && Ranking(row)[k] == Scored(j, row[j]);
        assert k != 0;
      }
    }
    d
  }

  /** `similarity_scores[1:n+1]`, as row numbers. */
  function TopSimilar(row: seq<real>, n: int): (r: seq<nat>)
    ensures forall k :: 0 <= k < |r| ==> r[k] < |row|
  {
    RankingFacts(row);
    var ps := Ranking(row);
    var slice := PySlice(ps, 1, n + 1);
    assert forall k :: 0 <= k < |slice| ==> slice[k].index < |row| by {
      forall k | 0 <= k < |slice| ensures slice[k].index < |row| {
        var p :| 0 <= p < |ps| && ps[p] == slice[k];
      }
    }
    Indices(slice)
  }

  function Min(a: int, b: int): int { if a < b then a else b }

  /** For `n >= 0`, `n` rows are returned, or every row but one when there are fewer. */
  lemma TopSimilarLength(row: seq<real>, n: int)
    requires n >= 0
    ensures |TopSimilar(row, n)| == if row == [] then 0 else Min(n, |row| - 1)
  {
    RankingFacts(row);
  }

  /** The returned rows follow the ranking at positions 1 .. |r|. */
  lemma TopSimilarIsRankingSlice(row: seq<real>, n: int)
    requires n >= 0
    ensures var r := TopSimilar(row, n);
      forall k :: 0 <= k < |r| ==> 1 + k < |Ranking(row)| && r[k] == Ranking(row)[1 + k].index
  {
    RankingFacts(row);
  }

  /**
   * The returned rows are in ranking order: scores never increase, and equal
   * scores come in ascending row number. In particular no row is returned
   * twice.
   */
  lemma TopSimilarOrdered(row: seq<real>, n: int)
    requires n >= 0
    ensures var r := TopSimilar(row, n);
      forall k, l :: 0 <= k < l < |r| ==>
        row[r[k]] > row[r[l]] || (row[r[k]] == row[r[l]] && r[k] < r[l])
  {
    RankingFacts(row);
    TopSimilarIsRankingSlice(row, n);
    var r := TopSimilar(row, n);
    var ps := Ranking(row);
    forall k, l | 0 <= k < l < |r|
      ensures row[r[k]] > row[r[l]] || (row[r[k]] == row[r[l]] && r[k] < r[l])
    {
      assert Before(ps[1 + k], ps[1 + l]);
    }
  }

  /**
   * The skipped row has the highest score, and is the lowest-numbered row
   * among those that share it; it is never returned.
   */
  lemma TopSimilarSkipsDropped(row: seq<real>, n: int)
    requires n >= 0 && |row| > 0
    ensures Dropped(row) !in TopSimilar(row, n)
  {
    RankingFacts(row);
    TopSimilarIsRankingSlice(row, n);
    var r := TopSimilar(row, n);
    var ps := Ranking(row);
    forall k | 0 <= k < |r| ensures r[k] != Dropped(row) {
      assert Before(ps[0], ps[1 + k]);
    }
  }

  /**
   * Every row that is neither skipped nor returned ranks after the last
   * returned row: it scores no higher, and on a tie has a higher row number.
   */
  lemma TopSimilarRestRanksLower(row: seq<real>, n: int)
    requires n >= 0
    ensures var r := TopSimilar(row, n);
      r != [] ==> forall j :: 0 <= j < |row| && j != Dropped(row) && j !in r ==>
        row[j] < row[r[|r| - 1]] || (row[j] == row[r[|r| - 1]] && j > r[|r| - 1])
  {
    RankingFacts(row);
    TopSimilarIsRankingSlice(row, n);
    var r := TopSimilar(row, n);
    var ps := Ranking(row);
    if r != [] {
      var last := |r| - 1;
      TopSimilarLength(row, n);
      assert ps[1 + last] == Scored(r[last], row[r[last]]);
      forall j | 0 <= j < |row| && j != Dropped(row) && j !in r
        ensures row[j] < row[r[last]] || (row[j] == row[r[last]] && j > r[last])
      {
        RankedPastPrefix(ps, r, Scored(j, row[j]));
      }
    }
  }

  /**
   * In a ranked list, an element that is neither the first nor one of the
   * `|r|` after it comes after position `|r|`.
   */
  lemma RankedPastPrefix(ps: seq<Scored>, r: seq<nat>, x: Scored)
    requires Ranked(ps) && r != [] && |r| < |ps|
    requires forall k :: 0 <= k < |r| ==> r[k] == ps[1 + k].index
    requires x in ps && x != ps[0] && x.index !in r
    ensures Before(ps[|r|], x)
  {
    forall q | 1 <= q <= |r| ensures ps[q] != x {
      assert r[q - 1] == ps[q].index && r[q - 1] in r;
    }
    var p :| 0 <= p < |ps| && ps[p] == x;
    assert p > |r|;
  }

  /**
   * When `n` covers the whole catalog, the query's own row is returned
   * exactly when it is not the skipped row: another row with an equal or
   * higher score and a lower row number pushes it into the result.
   */
  lemma QueryReturnedUnlessRankedFirst(row: seq<real>, idx: nat, n: int)
    requires idx < |row| && n >= |row| - 1
    ensures idx in TopSimilar(row, n) <==> idx != Dropped(row)
  {
    RankingFacts(row);
    TopSimilarIsRankingSlice(row, n);
    TopSimilarSkipsDropped(row, n);
    TopSimilarLength(row, n);
    var r := TopSimilar(row, n);
    var ps := Ranking(row);
    if idx != Dropped(row) {
      var p :| 0 <= p < |ps| && ps[p] == Scored(idx, row[idx]);
      assert p != 0;
      assert r[p - 1] == idx;
    }
  }

  /**
   * A two-book catalog whose rows score equally against the second book: the
   * first book is skipped and the query's own book is recommended.
   */
  lemma TiedQueryIsRecommended()
    ensures TopSimilar([1.0, 1.0], 5) == [1]
  {
    var row := [1.0, 1.0];
    TopSimilarLength(row, 5);
    QueryReturnedUnlessRankedFirst(row, 1, 5);
    assert Dropped(row) == 0;
  }

  /** The similarity matrix has one row and one column per catalog row. */
  predicate IsSimilarityMatrix(sim: seq<seq<real>>, size: nat)
  {
    |sim| == size && forall i :: 0 <= i < |sim| ==> |sim[i]| == size
  }

  /**
   * `recommend_books(title, n)`, returning row numbers instead of the
   * projected rows: `None` exactly when the cleaned title is no row's cleaned
   * title; otherwise distinct row numbers, `n` of them or every row but one.
   */
  function RecommendBooks(rows: seq<Row>, sim: seq<seq<real>>, title: Value, n: int): (r: Option<seq<nat>>)
    requires IsSimilarityMatrix(sim, |rows|)
    ensures r.None? <==> forall i :: 0 <= i < |rows| ==> rows[i].titleClean != CleanText(title)
    ensures r.Some? ==> forall k :: 0 <= k < |r.value| ==> r.value[k] < |rows|
    ensures r.Some? ==> forall k, l :: 0 <= k < l < |r.value| ==> r.value[k] != r.value[l]
    ensures r.Some? && n >= 0 ==> |r.value| == Min(n, |rows| - 1)
  {
    var key := CleanText(title);
    match Lookup(TitleColumn(rows), key)
    case None => None
    case Some(idx) =>
      var top := TopSimilar(sim[idx], n);
      TopSimilarLength(sim[idx], if n >= 0 then n else 0);
      DistinctTop(sim[idx], n);
      Some(top)
  }

  lemma DistinctTop(row: seq<real>, n: int)
    ensures var r := TopSimilar(row, n);
      forall k, l :: 0 <= k < l < |r| ==> r[k] != r[l]
  {
    RankingFacts(row);
    var r := TopSimilar(row, n);
    var ps := Ranking(row);
    var lo, hi := SliceBound(1, |ps|), SliceBound(n + 1, |ps|);
    forall k, l | 0 <= k < l < |r| ensures r[k] != r[l] {
      assert Before(ps[lo + k], ps[lo + l]);
    }
  }

  /**
   * A found title is answered from the first row carrying it: the result is
   * the top of that row's scores.
   */
  lemma RecommendUsesFirstRow(rows: seq<Row>, sim: seq<seq<real>>, title: Value, n: int, idx: nat)
    requires IsSimilarityMatrix(sim, |rows|)
    requires idx < |rows| && rows[idx].titleClean == CleanText(title)
    requires forall j :: 0 <= j < idx ==> rows[j].titleClean != CleanText(title)
    ensures RecommendBooks(rows, sim, title, n) == Some(TopSimilar(sim[idx], n))
  {
    var titles := TitleColumn(rows);
    LookupFindsFirst(titles, CleanText(title), idx);
  }
}
