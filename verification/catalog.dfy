/**
 * The catalog as the recommender prepares it: the text columns are cleaned,
 * the five cleaned fields are joined into one "bag of words" per book, and
 * cleaned titles are mapped to row numbers.
 */
module Catalog {
  import opened Wrappers
  import opened TextClean

  /** One row of the loaded table, every text column already converted to `str`. */
  datatype Book = Book(
    title: string,
    authors: string,
    publisher: string,
    languageCode: string,
    year: string,
    averageRating: real)

  /**
   * One row after preparation: `title` keeps the raw title, `titleClean` is
   * the new cleaned column, the other text columns are replaced by their
   * cleaned values, and `bagOfWords` is the composed document.
   */
  datatype Row = Row(
    title: string,
    titleClean: string,
    authors: string,
    publisher: string,
    languageCode: string,
    year: string,
    averageRating: real,
    bagOfWords: string)

  /** The five cleaned fields joined by single spaces, title first, year last. */
  function BagOfWords(title: string, authors: string, publisher: string, languageCode: string, year: string): (r: string)
    ensures |r| == |title| + |authors| + |publisher| + |languageCode| + |year| + 4
    ensures r[..|title|] == title && r[|title|] == ' '
    ensures (CleanAlphabet(title) && CleanAlphabet(authors) && CleanAlphabet(publisher)
             && CleanAlphabet(languageCode) && CleanAlphabet(year)) ==> CleanAlphabet(r)
  {
    title + " " + authors + " " + publisher + " " + languageCode + " " + year
  }

  /**
   * The tokens of the bag of words are the tokens of the five fields, in
   * field order: joining never merges or splits a field's words.
   */
  lemma BagOfWordsTokens(title: string, authors: string, publisher: string, languageCode: string, year: string)
    ensures Words(BagOfWords(title, authors, publisher, languageCode, year))
         == Words(title) + Words(authors) + Words(publisher) + Words(languageCode) + Words(year)
  {
    var d := title + " " + authors + " " + publisher + " " + languageCode;
    WordsJoin(d, year);
    var c := title + " " + authors + " " + publisher;
    WordsJoin(c, languageCode);
    var b := title + " " + authors;
    WordsJoin(b, publisher);
    WordsJoin(title, authors);
  }

  /** Cleaning the text columns of one book and composing its bag of words. */
  function PrepareRow(b: Book): (r: Row)
    ensures r.title == b.title && r.averageRating == b.averageRating
    ensures r.titleClean == CleanText(Str(b.title))
    ensures r.authors == CleanText(Str(b.authors)) && r.publisher == CleanText(Str(b.publisher))
    ensures r.languageCode == CleanText(Str(b.languageCode)) && r.year == CleanText(Str(b.year))
    ensures r.bagOfWords == BagOfWords(r.titleClean, r.authors, r.publisher, r.languageCode, r.year)
    ensures IsClean(r.titleClean) && IsClean(r.authors) && IsClean(r.publisher)
            && IsClean(r.languageCode) && IsClean(r.year)
    ensures Words(r.bagOfWords)
         == Words(r.titleClean) + Words(r.authors) + Words(r.publisher) + Words(r.languageCode) + Words(r.year)
    ensures CleanAlphabet(r.bagOfWords)
  {
    var t := CleanText(Str(b.title));
    var a := CleanText(Str(b.authors));
    var p := CleanText(Str(b.publisher));
    var l := CleanText(Str(b.languageCode));
    var y := CleanText(Str(b.year));
    BagOfWordsTokens(t, a, p, l, y);
    Row(b.title, t, a, p, l, y, b.averageRating, BagOfWords(t, a, p, l, y))
  }

  /** The whole table after preparation: one row per book, in order. */
  function PrepareCatalog(books: seq<Book>): (rows: seq<Row>)
    ensures |rows| == |books|
    ensures forall i :: 0 <= i < |rows| ==> rows[i] == PrepareRow(books[i])
  {
    seq(|books|, i requires 0 <= i < |books| => PrepareRow(books[i]))
  }

  /** The `title_clean` column. */
  function TitleColumn(rows: seq<Row>): (ts: seq<string>)
    ensures |ts| == |rows|
    ensures forall i :: 0 <= i < |rows| ==> ts[i] == rows[i].titleClean
  {
    seq(|rows|, i requires 0 <= i < |rows| => rows[i].titleClean)
  }

  // ---------------------------------------------------------------------------
  // The title index.
  // ---------------------------------------------------------------------------

  /**
   * Boolean-mask selection `df[mask]`, as row numbers: the positions where
   * the mask holds, in row order.
   */
  function Positions(mask: seq<bool>): (r: seq<nat>)
    ensures forall k :: 0 <= k < |r| ==> r[k] < |mask| && mask[r[k]]
    ensures forall i :: 0 <= i < |mask| && mask[i] ==> i in r
    ensures forall k, l :: 0 <= k < l < |r| ==> r[k] < r[l]
  {
    if mask == [] then []
    else
      var last := |mask| - 1;
      Positions(mask[..last]) + (if mask[last] then [last] else [])
  }

  /** A mask that holds everywhere selects every row. */
  lemma {:induction false} PositionsAllTrue(mask: seq<bool>)
    requires forall i :: 0 <= i < |mask| ==> mask[i]
    ensures |Positions(mask)| == |mask|
  {
    if mask != [] {
      PositionsAllTrue(mask[..|mask| - 1]);
    }
  }

  /**
   * What `pd.Series(df.index, index=title_clean)` yields for a key: the row
   * numbers of every row with that cleaned title, in row order.
   * `drop_duplicates()` looks at the values, which are distinct row numbers,
   * so it removes nothing.
   */
  function MatchingRows(titles: seq<string>, key: string): (r: seq<nat>)
    ensures forall k :: 0 <= k < |r| ==> r[k] < |titles| && titles[r[k]] == key
    ensures forall i :: 0 <= i < |titles| && titles[i] == key ==> i in r
    ensures forall k, l :: 0 <= k < l < |r| ==> r[k] < r[l]
  {
    Positions(seq(|titles|, i requires 0 <= i < |titles| => titles[i] == key))
  }

  /**
   * As written, a title shared by two rows selects both of them, so
   * `indices[title]` is not a single row number.
   */
  lemma DuplicateTitleSelectsSeveralRows(titles: seq<string>, i: nat, j: nat)
    requires i < j < |titles| && titles[i] == titles[j]
    ensures |MatchingRows(titles, titles[i])| >= 2
  {
    var r := MatchingRows(titles, titles[i]);
    assert i in r && j in r;
    var k :| 0 <= k < |r| && r[k] == i;
    var l :| 0 <= l < |r| && r[l] == j;
    assert k != l;
  }

  /**
   * The title index with the first row winning for a repeated title: a key
   * is present exactly when some row has it, and it maps to the lowest such
   * row.
   */
  function KeyIndex(titles: seq<string>): (m: map<string, nat>)
    ensures forall i :: 0 <= i < |titles| ==> titles[i] in m
    ensures forall t :: t in m ==> m[t] < |titles| && titles[m[t]] == t
    ensures forall t :: t in m ==> forall j :: 0 <= j < m[t] ==> titles[j] != t
  {
    if titles == [] then map[]
    else
      var last := |titles| - 1;
      var prefix := titles[..last];
      var m := KeyIndex(prefix);
      assert forall j :: 0 <= j < last ==> prefix[j] == titles[j];
      if titles[last] in m then m else m[titles[last] := last]
  }

  /** The first-wins index picks the first of the rows the as-written index selects. */
  lemma KeyIndexIsFirstMatch(titles: seq<string>, key: string)
    ensures var rows := MatchingRows(titles, key);
      && (key in KeyIndex(titles) <==> rows != [])
      && (rows != [] ==> KeyIndex(titles)[key] == rows[0])
  {
    var rows := MatchingRows(titles, key);
    var m := KeyIndex(titles);
    if key in m {
      assert m[key] in rows;
      assert titles[rows[0]] == key;
    }
    if rows != [] {
      assert titles[rows[0]] == key;
    }
  }

  /** `title not in indices` / `indices[title]`, resolved to the first row. */
  function Lookup(titles: seq<string>, key: string): (r: Option<nat>)
    ensures r.None? <==> forall i :: 0 <= i < |titles| ==> titles[i] != key
    ensures r.Some? ==> r.value < |titles| && titles[r.value] == key
                        && forall j :: 0 <= j < r.value ==> titles[j] != key
  {
    var m := KeyIndex(titles);
    if key in m then Some(m[key]) else None
  }

  /** A key carried first by row `idx` resolves to `idx`, whatever later rows carry it. */
  lemma LookupFindsFirst(titles: seq<string>, key: string, idx: nat)
    requires idx < |titles| && titles[idx] == key
    requires forall j :: 0 <= j < idx ==> titles[j] != key
    ensures Lookup(titles, key) == Some(idx)
  {
  }
}
