/** `search_naver_news` (app.py:26-59): the search URL for a keyword and a
    date range, and the extraction of one article per news item from the
    result page. */
module NewsSearch {
  import opened Optional
  import opened PyStr
  import opened Records
  import opened Dates
  import opened Url

  /** One `.news_area` node of the result page as the HTML parser sees it:
      the text of its `.news_tit` node, of its first `.info_group a` node
      and of its `.info_group span.journalist` node, each `None` when the
      node is missing. */
  datatype Container = Container(title: Option<string>, media: Option<string>, journalist: Option<string>)

  /** The `.news_area` nodes of one result page, in document order. */
  type Page = seq<Container>

  const SearchEndpoint := "https://search.naver.com/search.naver"

  /** The `name=value` pairs of the query on app.py:31-33, in order. */
  function SearchPairs(keyword: string, start: Date, end: Date): seq<string>
  {
    ["where" + "=" + "news", "query" + "=" + keyword, "sort" + "=" + "1",
     "ds" + "=" + FormatDate(start), "de" + "=" + FormatDate(end)]
  }

  /** The URL as app.py:29-34 builds it: the pairs joined by `&` after the
      endpoint and a `?`, the keyword interpolated as it is, without
      escaping. */
  function SearchUrl(keyword: string, start: Date, end: Date): string
  {
    SearchEndpoint + "?" + Join(SearchPairs(keyword, start, end), "&")
  }

  /** The same URL with the keyword percent-encoded first. */
  function EncodedSearchUrl(keyword: string, start: Date, end: Date): string
  {
    SearchUrl(PercentEncode(keyword), start, end)
  }

  /** Looking past a pair with another name. */
  lemma LookupSkip(name: string, value: string, rest: seq<string>, wanted: string)
    requires '=' !in name && name != wanted
    ensures Lookup([name + "=" + value] + rest, wanted) == Lookup(rest, wanted)
  {
    FindCharAfter(name, '=', value);
    assert ([name + "=" + value] + rest)[1..] == rest;
    assert (name + "=" + value)[..|name|] == name;
  }

  /** Finding the pair with the wanted name. */
  lemma LookupHit(name: string, value: string, rest: seq<string>)
    requires '=' !in name
    ensures Lookup([name + "=" + value] + rest, name) == Some(FormDecode(value))
  {
    FindCharAfter(name, '=', value);
    assert (name + "=" + value)[..|name|] == name;
    assert (name + "=" + value)[|name| + 1..] == value;
  }

  lemma PairAvoids(name: string, value: string, c: char)
    requires c != '=' && c !in name && c !in value
    ensures c !in name + "=" + value
  {
  }

  /** A delimiter absent from the keyword is absent from every pair. */
  lemma PairsAvoid(keyword: string, start: Date, end: Date, c: char)
    requires c == '&' || c == '#'
    requires c !in keyword
    ensures forall k :: 0 <= k < |SearchPairs(keyword, start, end)| ==> c !in SearchPairs(keyword, start, end)[k]
  {
    FormatDateChars(start);
    FormatDateChars(end);
    assert c !in "where" && c !in "news" && c !in "query" && c !in "sort" && c !in "1" && c !in "ds" && c !in "de";
    PairAvoids("where", "news", c);
    PairAvoids("query", keyword, c);
    PairAvoids("sort", "1", c);
    PairAvoids("ds", FormatDate(start), c);
    PairAvoids("de", FormatDate(end), c);
  }

  /** With no `#` in the keyword, the query the endpoint receives is the
      joined pairs. */
  lemma SearchUrlQuery(keyword: string, start: Date, end: Date)
    requires '#' !in keyword
    ensures QueryOf(SearchUrl(keyword, start, end)) == Join(SearchPairs(keyword, start, end), "&")
  {
    var pieces := SearchPairs(keyword, start, end);
    PairsAvoid(keyword, start, end, '#');
    JoinHolds(pieces, "&", '#');
    assert '?' !in SearchEndpoint && '#' !in SearchEndpoint;
    QueryOfPlain(SearchEndpoint, Join(pieces, "&"));
  }

  /** With neither `&` nor `#` in the keyword, the endpoint splits the query
      back into the five pairs. */
  lemma SearchUrlPairs(keyword: string, start: Date, end: Date)
    requires '&' !in keyword && '#' !in keyword
    ensures Split(QueryOf(SearchUrl(keyword, start, end)), "&") == SearchPairs(keyword, start, end)
  {
    SearchUrlQuery(keyword, start, end);
    PairsAvoid(keyword, start, end, '&');
    SplitJoinedPieces(SearchPairs(keyword, start, end), '&');
  }

  /** The pairs of the query, as the head-and-rest shapes the lookup
      lemmas take. */
  lemma SearchPairsShape(keyword: string, start: Date, end: Date)
    ensures var pieces := SearchPairs(keyword, start, end);
      pieces == ["where" + "=" + "news"] + pieces[1..]
      && pieces[1..] == ["query" + "=" + keyword] + pieces[2..]
      && pieces[2..] == ["sort" + "=" + "1"] + pieces[3..]
      && pieces[3..] == ["ds" + "=" + FormatDate(start)] + pieces[4..]
      && pieces[4..] == ["de" + "=" + FormatDate(end)] + []
  {
  }

  /** The parameters read from any URL whose query splits into the five
      pairs, one parameter per lemma. */
  lemma PairsWhere(url: string, keyword: string, start: Date, end: Date)
    requires Split(QueryOf(url), "&") == SearchPairs(keyword, start, end)
    ensures Param(url, "where") == Some("news")
  {
    SearchPairsShape(keyword, start, end);
    var pieces := SearchPairs(keyword, start, end);
    LookupHit("where", "news", pieces[1..]);
    DecodePlain("news");
  }

  lemma PairsSort(url: string, keyword: string, start: Date, end: Date)
    requires Split(QueryOf(url), "&") == SearchPairs(keyword, start, end)
    ensures Param(url, "sort") == Some("1")
  {
    SearchPairsShape(keyword, start, end);
    var pieces := SearchPairs(keyword, start, end);
    LookupSkip("where", "news", pieces[1..], "sort");
    LookupSkip("query", keyword, pieces[2..], "sort");
    LookupHit("sort", "1", pieces[3..]);
    DecodePlain("1");
  }

  lemma PairsQuery(url: string, keyword: string, start: Date, end: Date)
    requires Split(QueryOf(url), "&") == SearchPairs(keyword, start, end)
    ensures Param(url, "query") == Some(FormDecode(keyword))
  {
    SearchPairsShape(keyword, start, end);
    var pieces := SearchPairs(keyword, start, end);
    LookupSkip("where", "news", pieces[1..], "query");
    LookupHit("query", keyword, pieces[2..]);
  }

  lemma PairsStart(url: string, keyword: string, start: Date, end: Date)
    requires Split(QueryOf(url), "&") == SearchPairs(keyword, start, end)
    ensures Param(url, "ds") == Some(FormatDate(start))
  {
    SearchPairsShape(keyword, start, end);
    var pieces := SearchPairs(keyword, start, end);
    LookupSkip("where", "news", pieces[1..], "ds");
    LookupSkip("query", keyword, pieces[2..], "ds");
    LookupSkip("sort", "1", pieces[3..], "ds");
    LookupHit("ds", FormatDate(start), pieces[4..]);
    FormatDateChars(start);
    DecodePlain(FormatDate(start));
  }

  lemma PairsEnd(url: string, keyword: string, start: Date, end: Date)
    requires Split(QueryOf(url), "&") == SearchPairs(keyword, start, end)
    ensures Param(url, "de") == Some(FormatDate(end))
  {
    SearchPairsShape(keyword, start, end);
    var pieces := SearchPairs(keyword, start, end);
    LookupSkip("where", "news", pieces[1..], "de");
    LookupSkip("query", keyword, pieces[2..], "de");
    LookupSkip("sort", "1", pieces[3..], "de");
    LookupSkip("ds", FormatDate(start), pieces[4..], "de");
    LookupHit("de", FormatDate(end), []);
    FormatDateChars(end);
    DecodePlain(FormatDate(end));
  }

  /** The parameters the endpoint reads from the URL, whenever the keyword
      holds neither `&` nor `#`: `where=news`, `sort=1`, the two dates in
      `YYYY.MM.DD` form, and the keyword as the form-decoding of what was
      interpolated. */
  lemma SearchUrlParams(keyword: string, start: Date, end: Date)
    requires '&' !in keyword && '#' !in keyword
    ensures var url := SearchUrl(keyword, start, end);
      Param(url, "where") == Some("news")
      && Param(url, "query") == Some(FormDecode(keyword))
      && Param(url, "sort") == Some("1")
      && Param(url, "ds") == Some(FormatDate(start))
      && Param(url, "de") == Some(FormatDate(end))
  {
    var url := SearchUrl(keyword, start, end);
    SearchUrlPairs(keyword, start, end);
    PairsWhere(url, keyword, start, end);
    PairsSort(url, keyword, start, end);
    PairsQuery(url, keyword, start, end);
    PairsStart(url, keyword, start, end);
    PairsEnd(url, keyword, start, end);
  }

  /** With the keyword percent-encoded, every keyword reaches the endpoint
      intact, and so do the other four parameters. */
  lemma EncodedSearchUrlParams(keyword: string, start: Date, end: Date)
    ensures var url := EncodedSearchUrl(keyword, start, end);
      Param(url, "where") == Some("news")
      && Param(url, "query") == Some(keyword)
      && Param(url, "sort") == Some("1")
      && Param(url, "ds") == Some(FormatDate(start))
      && Param(url, "de") == Some(FormatDate(end))
  {
    EncodedIsSafe(keyword);
    SearchUrlParams(PercentEncode(keyword), start, end);
    DecodeEncode(keyword);
  }

  /** Reading a parameter from a query whose second pair's value holds a
      `&`: the value ends at that `&`. */
  lemma LookupCutPair(name0: string, value0: string, name: string, before: string, after: string, rest: string)
    requires '=' !in name0 && '=' !in name && name0 != name
    requires '&' !in name0 && '&' !in value0 && '&' !in name && '&' !in before
    ensures Lookup(Split(name0 + "=" + value0 + "&" + (name + "=" + (before + "&" + after) + "&" + rest), "&"), name)
         == Some(FormDecode(before))
  {
    var first := name0 + "=" + value0;
    var second := name + "=" + before;
    var tail := after + "&" + rest;
    assert name + "=" + (before + "&" + after) + "&" + rest == second + "&" + tail;
    assert '&' !in first && '&' !in second;
    SplitAtChar(first, '&', second + "&" + tail);
    SplitAtChar(second, '&', tail);
    LookupSkip(name0, value0, [second] + Split(tail, "&"), name);
    LookupHit(name, before, Split(tail, "&"));
  }

  lemma ParamCut(url: string, before: string, after: string, rest: string)
    requires '&' !in before
    requires QueryOf(url) == "where" + "=" + "news" + "&" + ("query" + "=" + (before + "&" + after) + "&" + rest)
    ensures Param(url, "query") == Some(FormDecode(before))
  {
    assert '&' !in "where" && '&' !in "news" && '&' !in "query";
    LookupCutPair("where", "news", "query", before, after, rest);
  }

  /** The query as its first pair, its second pair and the rest. */
  lemma SearchQueryHead(keyword: string, start: Date, end: Date)
    requires '#' !in keyword
    ensures QueryOf(SearchUrl(keyword, start, end))
         == "where" + "=" + "news" + "&" + ("query" + "=" + keyword + "&" + Join(SearchPairs(keyword, start, end)[2..], "&"))
  {
    var pieces := SearchPairs(keyword, start, end);
    SearchUrlQuery(keyword, start, end);
    SearchPairsShape(keyword, start, end);
    assert Join(pieces[1..], "&") == pieces[1] + "&" + Join(pieces[2..], "&");
  }

  /** As written, a `&` in the keyword ends the `query` parameter: the
      endpoint searches for the text before it. */
  lemma UnescapedAmpersandCutsQuery(before: string, after: string, start: Date, end: Date)
    requires '&' !in before && '#' !in before && '#' !in after
    ensures Param(SearchUrl(before + "&" + after, start, end), "query") == Some(FormDecode(before))
  {
    var keyword := before + "&" + after;
    SearchQueryHead(keyword, start, end);
    ParamCut(SearchUrl(keyword, start, end), before, after, Join(SearchPairs(keyword, start, end)[2..], "&"));
  }

  /** The concrete case: the keyword "A&B" is searched as "A". */
  lemma UnescapedKeywordCutsQuery(start: Date, end: Date)
    ensures Param(SearchUrl("A&B", start, end), "query") == Some("A")
  {
    assert "A&B" == "A" + "&" + "B";
    UnescapedAmpersandCutsQuery("A", "B", start, end);
    DecodePlain("A");
  }

  /** As written, the URL for a keyword with a `#`: the endpoint, the first
      pair, the keyword up to its `#`, then everything else. */
  lemma SearchUrlAtHash(before: string, after: string, start: Date, end: Date)
    ensures var keyword := before + "#" + after;
      SearchUrl(keyword, start, end)
      == SearchEndpoint + "?" + ("where" + "=" + "news" + "&" + ("query" + "=" + before))
         + "#" + (after + "&" + Join(SearchPairs(keyword, start, end)[2..], "&"))
  {
    var keyword := before + "#" + after;
    var pieces := SearchPairs(keyword, start, end);
    SearchPairsShape(keyword, start, end);
    assert Join(pieces, "&") == pieces[0] + "&" + Join(pieces[1..], "&");
    assert Join(pieces[1..], "&") == pieces[1] + "&" + Join(pieces[2..], "&");
  }

  /** A query of two pairs has no parameter of a third name. */
  lemma LookupMissing(name0: string, value0: string, name1: string, value1: string, wanted: string)
    requires '=' !in name0 && '=' !in name1 && '&' !in name0 + "=" + value0 && '&' !in name1 + "=" + value1
    requires wanted != name0 && wanted != name1
    ensures Lookup(Split(name0 + "=" + value0 + "&" + (name1 + "=" + value1), "&"), wanted) == None
  {
    var first := name0 + "=" + value0;
    var second := name1 + "=" + value1;
    SplitAtChar(first, '&', second);
    SplitWithoutChar(second, '&');
    LookupSkip(name0, value0, [second], wanted);
    assert [second] == [second] + [];
    LookupSkip(name1, value1, [], wanted);
  }

  /** A character other than `=` and `&` that is in neither the first pair
      nor the keyword is not in the first two pairs. */
  lemma HeadAvoids(c: char, before: string)
    requires c != '=' && c != '&' && c !in "where" && c !in "news" && c !in "query" && c !in before
    ensures c !in "where" + "=" + "news" + "&" + ("query" + "=" + before)
  {
  }

  /** A URL whose query is `where` and a `query` value without `&` carries
      no sort order and no date range. */
  lemma ParamsOfTwoPairs(url: string, before: string)
    requires '&' !in before
    requires QueryOf(url) == "where" + "=" + "news" + "&" + ("query" + "=" + before)
    ensures Param(url, "ds") == None && Param(url, "de") == None && Param(url, "sort") == None
  {
    assert '&' !in "where" && '&' !in "news" && '&' !in "query";
    LookupMissing("where", "news", "query", before, "ds");
    LookupMissing("where", "news", "query", before, "de");
    LookupMissing("where", "news", "query", before, "sort");
  }

  /** A URL whose query is cut by a `#` right after the keyword text
      `before` carries no sort order and no date range. */
  lemma ParamsBeforeFragment(url: string, before: string, fragment: string)
    requires '#' !in before && '&' !in before
    requires url == SearchEndpoint + "?" + ("where" + "=" + "news" + "&" + ("query" + "=" + before)) + "#" + fragment
    ensures Param(url, "ds") == None && Param(url, "de") == None && Param(url, "sort") == None
  {
    assert '?' !in SearchEndpoint && '#' !in SearchEndpoint;
    assert '#' !in "where" && '#' !in "news" && '#' !in "query";
    HeadAvoids('#', before);
    QueryBeforeFragment(SearchEndpoint, "where" + "=" + "news" + "&" + ("query" + "=" + before), fragment);
    ParamsOfTwoPairs(url, before);
  }

  /** As written, a `#` in the keyword starts the URL's fragment, which is
      never sent: the endpoint receives only `where` and the text of the
      keyword before the `#`, and no sort order or date range. */
  lemma UnescapedHashDropsDates(before: string, after: string, start: Date, end: Date)
    requires '#' !in before && '&' !in before
    ensures var url := SearchUrl(before + "#" + after, start, end);
      Param(url, "ds") == None && Param(url, "de") == None && Param(url, "sort") == None
  {
    var keyword := before + "#" + after;
    SearchUrlAtHash(before, after, start, end);
    ParamsBeforeFragment(SearchUrl(keyword, start, end), before,
      after + "&" + Join(SearchPairs(keyword, start, end)[2..], "&"));
  }

  /** The concrete case: the keyword "C#" is searched without its date
      range. */
  lemma UnescapedHashKeywordDropsDates(start: Date, end: Date)
    ensures Param(SearchUrl("C#", start, end), "ds") == None
    ensures Param(SearchUrl("C#", start, end), "de") == None
  {
    assert "C#" == "C" + "#" + "";
    UnescapedHashDropsDates("C", "", start, end);
  }

  /** The parser can read a news item only when both its title node and its
      media node are present; a missing journalist node is tolerated. */
  predicate Complete(c: Container)
  {
    c.title.Some? && c.media.Some?
  }

  /** The article of a readable news item (app.py:50-55). */
  function ToArticle(c: Container, keyword: string): Article
    requires Complete(c)
  {
    Article(c.title.value, c.media.value, c.journalist.GetOr(NotAvailable), keyword)
  }

  /** The articles of a result page: one per news item, in page order, or
      `None` when some news item cannot be read (the attribute error on a
      missing node escapes the loop and the whole page is lost). */
  function Extracted(page: Page, keyword: string): (r: Option<seq<Article>>)
    ensures r.None? <==> exists i :: 0 <= i < |page| && !Complete(page[i])
    ensures r.Some? ==> |r.value| == |page|
    ensures r.Some? ==> forall i :: 0 <= i < |page| ==> Complete(page[i]) && r.value[i] == ToArticle(page[i], keyword)
  {
    if page == [] then Some([])
    else
      var last := page[|page| - 1];
      match Extracted(page[..|page| - 1], keyword)
      case None =>
        assert forall i :: 0 <= i < |page| - 1 ==> page[..|page| - 1][i] == page[i];
        None
      case Some(prefix) =>
        assert forall i :: 0 <= i < |page| - 1 ==> page[..|page| - 1][i] == page[i];
        if Complete(last) then Some(prefix + [ToArticle(last, keyword)]) else None
  }

  /** What `search_naver_news` returns for a keyword, fetching the URL as
      `SearchUrl` builds it: nothing when the request fails or some news item
      cannot be read, and otherwise one article per news item, in page order,
      tagged with the keyword, with "N/A" for a missing journalist. */
  function Search(keyword: string, start: Date, end: Date, fetch: string -> Option<Page>): (r: seq<Article>)
    ensures var response := fetch(SearchUrl(keyword, start, end));
      response.None? ==> r == []
    ensures var response := fetch(SearchUrl(keyword, start, end));
      response.Some? && (exists i :: 0 <= i < |response.value| && !Complete(response.value[i])) ==> r == []
    ensures var response := fetch(SearchUrl(keyword, start, end));
      response.Some? && (forall i :: 0 <= i < |response.value| ==> Complete(response.value[i])) ==>
        |r| == |response.value|
        && forall i :: 0 <= i < |r| ==>
          var item := response.value[i];
          r[i].title == item.title.value && r[i].media == item.media.value && r[i].keyword == keyword
          && r[i].journalist == (if item.journalist.None? then NotAvailable else item.journalist.value)
    ensures forall a | a in r :: a.keyword == keyword
  {
    match fetch(SearchUrl(keyword, start, end))
    case None => []
    case Some(page) => Extracted(page, keyword).GetOr([])
  }

  /** The loop of app.py:40-56 over the news items of the fetched page. */
  method SearchNaverNews(keyword: string, start: Date, end: Date, fetch: string -> Option<Page>)
      returns (articles: seq<Article>)
    ensures articles == Search(keyword, start, end, fetch)
  {
    var response := fetch(SearchUrl(keyword, start, end));
    if response.None? {
      return [];
    }
    var page := response.value;
    articles := [];
    for i := 0 to |page|
      invariant Extracted(page[..i], keyword) == Some(articles)
    {
      var item := page[i];
      if item.title.None? || item.media.None? {
        assert !Complete(page[i]);
        return [];
      }
      var journalist := if item.journalist.Some? then item.journalist.value else NotAvailable;
      articles := articles + [Article(item.title.value, item.media.value, journalist, keyword)];
      assert page[..i + 1][..i] == page[..i];
    }
    assert page[..|page|] == page;
  }
}
