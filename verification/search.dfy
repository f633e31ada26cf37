/**
 * The keyword search: the query is cleaned, and the rows whose cleaned title
 * contains it are kept, in row order.
 */
module Search {
  import opened TextClean
  import opened Catalog

  /** `pat` occurs in `text` starting at position `i`. */
  ghost predicate OccursAt(pat: string, text: string, i: nat)
  {
    i + |pat| <= |text| && text[i..i + |pat|] == pat
  }

  /** `pat` occurs in `text` at some position. */
  ghost predicate OccursIn(pat: string, text: string)
  {
    exists i: nat :: OccursAt(pat, text, i)
  }

  /**
   * `re.search(pat, text)` for a pattern without metacharacters: try every
   * start position from the left. A cleaned query holds only `[a-z0-9 ]`,
   * none of which is a metacharacter.
   */
  function Contains(text: string, pat: string): bool
    decreases |text|
  {
    if pat <= text then true
    else if text == [] then false
    else Contains(text[1..], pat)
  }

  /** The scan finds the pattern exactly when it occurs. */
  lemma {:induction false} ContainsIsOccurrence(text: string, pat: string)
    ensures Contains(text, pat) <==> OccursIn(pat, text)
    decreases |text|
  {
    if pat <= text {
      assert OccursAt(pat, text, 0);
    } else if text != [] {
      ContainsIsOccurrence(text[1..], pat);
      if OccursIn(pat, text) {
        var i: nat :| OccursAt(pat, text, i);
        assert i != 0;
        assert OccursAt(pat, text[1..], i - 1);
      }
      if OccursIn(pat, text[1..]) {
        var i: nat :| OccursAt(pat, text[1..], i);
        assert OccursAt(pat, text, i + 1);
      }
    }
  }

  /** `df[df["title_clean"].str.contains(clean_text(query))]`, as row numbers. */
  function SearchTitles(rows: seq<Row>, query: string): (r: seq<nat>)
    ensures forall k :: 0 <= k < |r| ==> r[k] < |rows|
    ensures forall k, l :: 0 <= k < l < |r| ==> r[k] < r[l]
    ensures forall i :: 0 <= i < |rows| ==>
      (i in r <==> OccursIn(CleanText(Str(query)), rows[i].titleClean))
  {
    var q := CleanText(Str(query));
    var mask := seq(|rows|, i requires 0 <= i < |rows| => Contains(rows[i].titleClean, q));
    SearchMaskMeaning(rows, q, mask);
    Positions(mask)
  }

  lemma SearchMaskMeaning(rows: seq<Row>, q: string, mask: seq<bool>)
    requires |mask| == |rows|
    requires forall i :: 0 <= i < |rows| ==> mask[i] == Contains(rows[i].titleClean, q)
    ensures forall i :: 0 <= i < |rows| ==> (mask[i] <==> OccursIn(q, rows[i].titleClean))
  {
    forall i | 0 <= i < |rows| ensures mask[i] <==> OccursIn(q, rows[i].titleClean) {
      ContainsIsOccurrence(rows[i].titleClean, q);
    }
  }

  /**
   * A query that cleans to "" occurs in every title, so every row is kept;
   * a non-empty query never cleans to "".
   */
  lemma SearchEmptyQuery(rows: seq<Row>, query: string)
    ensures query != [] ==> CleanText(Str(query)) != []
    ensures CleanText(Str(query)) == [] ==> |SearchTitles(rows, query)| == |rows|
  {
    NoTrim(query);
    if CleanText(Str(query)) == [] {
      var mask := seq(|rows|, i requires 0 <= i < |rows| => Contains(rows[i].titleClean, []));
      PositionsAllTrue(mask);
    }
  }
}
