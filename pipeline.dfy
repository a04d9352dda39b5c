/** The run behind the "Get News" button in `main` (app.py:105-159): the
    keyword list, the search for every keyword, the classification of every
    article and the removal of rows with a repeated synopsis. */
module Pipeline {
  import opened Optional
  import opened Records
  import opened Dates
  import opened Classifier
  import opened NewsSearch
  import opened Dedup

  /** The keywords searched: the selection, then the custom keyword when it
      is not the empty string. */
  function Keywords(selected: seq<string>, custom: string): (r: seq<string>)
    ensures r == [] <==> selected == [] && custom == ""
    ensures |r| == |selected| + (if custom == "" then 0 else 1)
    ensures r[..|selected|] == selected
    ensures custom != "" ==> r[|r| - 1] == custom
  {
    if custom == "" then selected else selected + [custom]
  }

  /** The articles of every keyword, keyword after keyword. */
  function Collected(keywords: seq<string>, start: Date, end: Date, fetch: string -> Option<Page>): (r: seq<Article>)
    ensures forall a | a in r :: a.keyword in keywords
  {
    if keywords == [] then []
    else
      var n := |keywords| - 1;
      var prior := Collected(keywords[..n], start, end, fetch);
      var found := Search(keywords[n], start, end, fetch);
      assert forall a | a in prior :: a.keyword in keywords[..n];
      prior + found
  }

  lemma CollectedSnoc(keywords: seq<string>, keyword: string, start: Date, end: Date, fetch: string -> Option<Page>)
    ensures Collected(keywords + [keyword], start, end, fetch)
         == Collected(keywords, start, end, fetch) + Search(keyword, start, end, fetch)
  {
    assert (keywords + [keyword])[..|keywords|] == keywords;
  }

  lemma LastSplit<T>(a: seq<T>, b: seq<T>)
    requires b != []
    ensures a + b == (a + b[..|b| - 1]) + [b[|b| - 1]]
  {
  }

  lemma Regroup<T>(a: seq<T>, b: seq<T>, c: seq<T>)
    ensures (a + b) + c == a + (b + c)
  {
  }

  /** Collecting for two keyword lists in turn is collecting for both. */
  lemma {:induction false} CollectedAppend(first: seq<string>, second: seq<string>, start: Date, end: Date, fetch: string -> Option<Page>)
    ensures Collected(first + second, start, end, fetch)
         == Collected(first, start, end, fetch) + Collected(second, start, end, fetch)
    decreases |second|
  {
    if second == [] {
      assert first + second == first;
    } else {
      var n := |second| - 1;
      LastSplit(first, second);
      LastSplit([], second);
      assert [] + second == second && [] + second[..n] == second[..n];
      CollectedAppend(first, second[..n], start, end, fetch);
      CollectedSnoc(first + second[..n], second[n], start, end, fetch);
      CollectedSnoc(second[..n], second[n], start, end, fetch);
      Regroup(Collected(first, start, end, fetch), Collected(second[..n], start, end, fetch), Search(second[n], start, end, fetch));
    }
  }

  /** The articles collected for one keyword are the articles of its search. */
  lemma CollectedOne(keyword: string, start: Date, end: Date, fetch: string -> Option<Page>)
    ensures Collected([keyword], start, end, fetch) == Search(keyword, start, end, fetch)
  {
    assert [keyword][..0] == [];
  }

  /** A keyword whose request fails adds no article, wherever it stands in
      the list. */
  lemma FailedSearchAddsNothing(before: seq<string>, keyword: string, after: seq<string>,
                                start: Date, end: Date, fetch: string -> Option<Page>)
    requires fetch(SearchUrl(keyword, start, end)).None?
    ensures Collected(before + [keyword] + after, start, end, fetch)
         == Collected(before, start, end, fetch) + Collected(after, start, end, fetch)
  {
    CollectedAppend(before + [keyword], after, start, end, fetch);
    CollectedAppend(before, [keyword], start, end, fetch);
    CollectedOne(keyword, start, end, fetch);
  }

  /** The collection loop of app.py:134-138. */
  method CollectArticles(keywords: seq<string>, start: Date, end: Date, fetch: string -> Option<Page>)
      returns (all: seq<Article>)
    ensures all == Collected(keywords, start, end, fetch)
  {
    all := [];
    for i := 0 to |keywords|
      invariant all == Collected(keywords[..i], start, end, fetch)
    {
      var articles := SearchNaverNews(keywords[i], start, end, fetch);
      all := all + articles;
      assert keywords[..i + 1][..i] == keywords[..i];
    }
    assert keywords[..|keywords|] == keywords;
  }

  /** The row built for one article (app.py:148-153). */
  function ToRow(article: Article, ask: string -> Option<string>): Row
  {
    var summary := GetSummaryAndCategory(article.title, ask);
    Row(summary.category, article.media, article.journalist, summary.synopsis)
  }

  /** `row` takes the media and the journalist of `article` and the category
      and synopsis that classifying its title gives. */
  predicate RowOf(row: Row, article: Article, ask: string -> Option<string>)
  {
    row.media == article.media && row.journalist == article.journalist
    && Summary(row.category, row.synopsis) == GetSummaryAndCategory(article.title, ask)
  }

  /** The rows of the collected articles: row `i` takes the media and the
      journalist of article `i` and the category and synopsis of its
      title. */
  function Processed(articles: seq<Article>, ask: string -> Option<string>): (r: seq<Row>)
    ensures |r| == |articles|
    ensures forall i :: 0 <= i < |r| ==> RowOf(r[i], articles[i], ask)
  {
    if articles == [] then []
    else
      var n := |articles| - 1;
      var prior := Processed(articles[..n], ask);
      var row := ToRow(articles[n], ask);
      RowsOfSnoc(prior, articles, row, ask);
      prior + [row]
  }

  /** Adding the row of the last article keeps every row tied to its
      article. */
  lemma RowsOfSnoc(prior: seq<Row>, articles: seq<Article>, row: Row, ask: string -> Option<string>)
    requires |articles| >= 1 && |prior| == |articles| - 1
    requires forall i :: 0 <= i < |prior| ==> RowOf(prior[i], articles[..|prior|][i], ask)
    requires row == ToRow(articles[|prior|], ask)
    ensures forall i :: 0 <= i < |prior| + 1 ==> RowOf((prior + [row])[i], articles[i], ask)
  {
    var n := |prior|;
    forall i | 0 <= i < n + 1
      ensures RowOf((prior + [row])[i], articles[i], ask)
    {
      if i < n {
        assert articles[..n][i] == articles[i];
        assert (prior + [row])[i] == prior[i];
      } else {
        assert (prior + [row])[i] == row;
      }
    }
  }

  /** Classifying one more article appends its row. */
  lemma ProcessedNext(articles: seq<Article>, i: nat, ask: string -> Option<string>)
    requires i < |articles|
    ensures Processed(articles[..i + 1], ask) == Processed(articles[..i], ask) + [ToRow(articles[i], ask)]
  {
    assert articles[..i + 1][..i] == articles[..i];
  }

  /** The classification loop of app.py:142-155. */
  method ProcessArticles(articles: seq<Article>, ask: string -> Option<string>) returns (rows: seq<Row>)
    ensures rows == Processed(articles, ask)
  {
    rows := [];
    for i := 0 to |articles|
      invariant rows == Processed(articles[..i], ask)
    {
      var article := articles[i];
      var summary := GetSummaryAndCategory(article.title, ask);
      ProcessedNext(articles, i, ask);
      rows := rows + [Row(summary.category, article.media, article.journalist, summary.synopsis)];
    }
    assert articles[..|articles|] == articles;
  }

  /** The table shown for a keyword list. */
  function Report(keywords: seq<string>, start: Date, end: Date, fetch: string -> Option<Page>, ask: string -> Option<string>): seq<Row>
  {
    DropDuplicateSynopses(Processed(Collected(keywords, start, end, fetch), ask))
  }

  /** The run when the button is pressed: nothing when no keyword is given,
      and otherwise the table for the selection and the custom keyword. */
  method Run(selected: seq<string>, custom: string, start: Date, end: Date,
             fetch: string -> Option<Page>, ask: string -> Option<string>)
      returns (table: Option<seq<Row>>)
    ensures table.None? <==> selected == [] && custom == ""
    ensures table.Some? ==> table.value == Report(Keywords(selected, custom), start, end, fetch, ask)
  {
    var keywords := selected;
    if custom != "" {
      keywords := keywords + [custom];
    }
    if keywords == [] {
      return None;
    }
    var all := CollectArticles(keywords, start, end, fetch);
    var rows := ProcessArticles(all, ask);
    table := Some(DropDuplicateSynopses(rows));
  }

  /** Every row of the table is the row of a collected article, found for
      one of the keywords, and no two rows share a synopsis. */
  lemma ReportRows(keywords: seq<string>, start: Date, end: Date, fetch: string -> Option<Page>, ask: string -> Option<string>)
    ensures var articles := Collected(keywords, start, end, fetch);
      var table := Report(keywords, start, end, fetch, ask);
      |table| <= |articles|
      && DistinctSynopses(table)
      && forall row | row in table ::
           exists i :: 0 <= i < |articles| && articles[i].keyword in keywords
             && row.media == articles[i].media && row.journalist == articles[i].journalist
             && Summary(row.category, row.synopsis) == GetSummaryAndCategory(articles[i].title, ask)
  {
    var articles := Collected(keywords, start, end, fetch);
    var rows := Processed(articles, ask);
    forall row | row in Report(keywords, start, end, fetch, ask)
      ensures exists i :: (0 <= i < |articles| && articles[i].keyword in keywords
                && row.media == articles[i].media && row.journalist == articles[i].journalist
                && Summary(row.category, row.synopsis) == GetSummaryAndCategory(articles[i].title, ask))
    {
      var i :| 0 <= i < |rows| && rows[i] == row;
      assert articles[i] in articles;
    }
  }

  /** All articles whose classification failed share one row: the table
      holds exactly one row with the error synopsis when some classification
      failed, and at most one in any case. */
  lemma ErrorRowsCollapse(keywords: seq<string>, start: Date, end: Date, fetch: string -> Option<Page>, ask: string -> Option<string>)
    ensures var table := Report(keywords, start, end, fetch, ask);
      forall i, j | 0 <= i < |table| && 0 <= j < |table|
        && table[i].synopsis == ErrorSynopsis && table[j].synopsis == ErrorSynopsis :: i == j
    ensures var articles := Collected(keywords, start, end, fetch);
      var table := Report(keywords, start, end, fetch, ask);
      (exists k :: 0 <= k < |articles| && GetSummaryAndCategory(articles[k].title, ask) == Fallback) ==>
        exists i :: 0 <= i < |table| && table[i].synopsis == ErrorSynopsis
  {
    var articles := Collected(keywords, start, end, fetch);
    var rows := Processed(articles, ask);
    var table := Report(keywords, start, end, fetch, ask);
    forall i, j | 0 <= i < |table| && 0 <= j < |table|
      && table[i].synopsis == ErrorSynopsis && table[j].synopsis == ErrorSynopsis
      ensures i == j
    {
    }
    if k :| 0 <= k < |articles| && GetSummaryAndCategory(articles[k].title, ask) == Fallback {
      assert rows[k].synopsis == ErrorSynopsis;
      OneRowPerSynopsis(rows, ErrorSynopsis);
    }
  }
}
