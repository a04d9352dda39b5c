# News monitor: a Dafny model of the collection pipeline

The news monitor is a small dashboard (`app.py`). The user picks keywords and a
date range. For every keyword it searches Naver News and reads one article per
news item of the result page. It asks a language model for a category and a
synopsis of every article title. It then shows one row per distinct synopsis.

This project models that pipeline and proves properties of it. The network,
the HTML parser and the language model are parameters:

- `fetch: string -> Option<Page>` stands for the HTTP request, the parsing of
  the page and the selection of its `.news_area` nodes. `None` means the
  request or the parsing raised.
- `ask: string -> Option<string>` stands for the chat-completion call. `None`
  means the call raised or the reply held no text.

The modules are:

- `Optional`: the option type.
- `PyStr`: Python's `str.split`, `str.join` and `str.strip`, as the reply
  parser and the query string use them.
- `Records`: the article and the result row.
- `Dates`: the `%Y.%m.%d` date format, and its reading back.
- `Url`: how a query string is read back into parameters, following sections
  3.4 and 3.5 of RFC 3986, and the decoding of `+` and of `%XX` escapes of
  single characters. It also holds percent-encoding.
- `NewsSearch`: the search URL and the extraction of articles from a result
  page (`search_naver_news`).
- `Classifier`: the prompt, the parsing of the reply and its fallback
  (`get_summary_and_category`).
- `Dedup`: `drop_duplicates(subset=['Synopsis'])` with `keep='first'`.
- `Pipeline`: the run behind the "Get News" button in `main`.

Some behaviours of the code worth knowing:

- A news item without a title node or a media node raises inside the loop. The
  outer handler then returns `[]` for the whole keyword, so every article
  already read for that keyword is lost, not only that item.
- The synopsis is the text between the first and the second `Synopsis:`, not
  the rest of the reply.
- The custom keyword is appended whenever it is not the empty string. It is
  not trimmed, so a keyword of spaces is searched too.
- The keyword is put into the URL as it is, and the search fetches that URL;
  see "Findings".

## Model

| member | source | states |
|---|---|---|
| PyStr.Find | app.py:81-82 | The result is the first occurrence of the separator, or `None` exactly when the separator does not occur |
| PyStr.FindIsFirst | app.py:81-82 | An occurrence with none before it is the one found |
| PyStr.Split | app.py:81-82 | `str.split` gives at least one piece, and more than one exactly when the separator occurs, which is when index `[1]` does not raise |
| PyStr.SplitJoin | app.py:81-82 | Joining the pieces with the separator gives back the string |
| PyStr.SplitPiecesFree | app.py:81-82 | No piece contains the separator |
| PyStr.FirstPiece | app.py:81 | Piece 0 is a separator-free prefix, ending at the end of the string or at the first separator |
| PyStr.SecondPiece | app.py:81-82 | Piece 1 is the separator-free text right after the first separator, ending at the next separator or at the end |
| PyStr.SplitJoinedPieces | app.py:31-33 | Pieces free of a one-character separator, joined with it, split back into the same pieces |
| PyStr.JoinHolds | app.py:29-34 | A character absent from the pieces and the separator is absent from the join |
| PyStr.StripLeft | app.py:81-82 | The result is a suffix; the characters removed are whitespace; the result does not start with whitespace |
| PyStr.StripRight | app.py:81-82 | The result is a prefix; the characters removed are whitespace; the result does not end with whitespace |
| PyStr.Strip | app.py:81-82 | `strip()` with no argument; no contract of its own, characterised by `PyStr.StripIsTrimmedSlice` and `PyStr.StripIdempotent` |
| PyStr.StripIsTrimmedSlice | app.py:81-82 | `strip()` returns a slice of the input with whitespace only around it and none at its two ends |
| PyStr.StripIdempotent | app.py:81-82 | Stripping twice is stripping once |
| Dates.Digits | app.py:32-33 | Zero-padded decimal text of exactly the given width, all digits |
| Dates.ValueOfDigits | app.py:32-33 | Reading the padded digits back gives the number |
| Dates.FormatDate | app.py:32-33 | `strftime('%Y.%m.%d')`; no contract of its own, characterised by `Dates.FormatDateShape`, `Dates.ParseFormatDate` and `Dates.FormatDateChars` |
| Dates.FormatDateShape | app.py:32-33 | `%Y.%m.%d` is ten characters: four digits, a dot, two digits, a dot, two digits |
| Dates.ParseFormatDate | app.py:32-33 | The formatted date reads back as the same date |
| Dates.FormatDateChars | app.py:32-33 | A formatted date holds only digits and dots |
| Url.QueryOfPlain | app.py:29-30 | Behind an endpoint free of `?` and `#`, the query the server reads is the text after the `?` |
| Url.QueryBeforeFragment | app.py:29-34 | Everything from the first `#` on is the fragment and is not part of the query the server reads |
| Url.HexDigit | app.py:29-34 | The hex digit written for a value reads back as that value |
| Url.PercentEncode | app.py:31 | The encoded keyword holds no delimiter character other than `%` |
| Url.EncodedIsSafe | app.py:31 | The encoded keyword holds no `&`, `#`, `=` or `?` |
| Url.DecodeEncodedChar | app.py:31 | Decoding an encoded character gives the character back |
| Url.DecodeEncode | app.py:31 | Form-decoding the percent-encoded keyword gives the keyword back |
| Url.DecodePlain | app.py:31-33 | Text without `%` or `+` decodes to itself |
| NewsSearch.SearchUrl | app.py:29-34 | The URL as the f-string builds it; no contract of its own, characterised by `NewsSearch.SearchUrlQuery`, `NewsSearch.SearchUrlPairs`, `NewsSearch.SearchUrlParams` and `NewsSearch.UnescapedKeywordCutsQuery` |
| NewsSearch.SearchUrlQuery | app.py:29-34 | With no `#` in the keyword, the query the server reads is the five pairs joined by `&` |
| NewsSearch.SearchUrlPairs | app.py:29-34 | With neither `&` nor `#` in the keyword, the server splits the query back into the five pairs |
| NewsSearch.SearchUrlParams | app.py:29-34 | Such a URL carries `where=news`, `sort=1`, the keyword (form-decoded) as `query`, and the two dates as `ds` and `de` in `YYYY.MM.DD` form |
| NewsSearch.EncodedSearchUrlParams | app.py:29-34 | With the keyword percent-encoded, every keyword reaches the server intact as `query`, beside the four other parameters |
| NewsSearch.LookupCutPair | app.py:31 | In a query whose second pair's value holds a `&`, reading that parameter stops at the `&` |
| NewsSearch.UnescapedAmpersandCutsQuery | app.py:31 | As written, for a keyword `a&b` the server reads `query` as `a` |
| NewsSearch.UnescapedKeywordCutsQuery | app.py:31 | As written, the keyword `A&B` is searched as `A` |
| NewsSearch.UnescapedHashDropsDates | app.py:31 | As written, for a keyword `a#b` the server receives no `sort`, `ds` or `de` parameter |
| NewsSearch.UnescapedHashKeywordDropsDates | app.py:31 | As written, the keyword `C#` is searched without its date range |
| NewsSearch.ToArticle | app.py:50-55 | The article built from one complete news item; no contract of its own, characterised by `NewsSearch.Extracted` and `NewsSearch.Search` |
| NewsSearch.Extracted | app.py:40-56 | `None` exactly when some news item lacks its title or media node; otherwise one article per item, in order, made from that item and the keyword |
| NewsSearch.Search | app.py:26-59 | The URL as built on app.py:29-34 is fetched; `[]` when the request fails or some item cannot be read; otherwise one article per item, in page order, with the item's title and media, journalist `"N/A"` when the node is missing, and the searched keyword |
| NewsSearch.SearchNaverNews | app.py:40-56 | The loop over the news items returns exactly `Search` for the keyword |
| Classifier.Prompt | app.py:64-73 | The prompt text with the title put in; no contract of its own, characterised by `Classifier.PromptDeterminesTitle` |
| Classifier.ParseReply | app.py:80-82 | The two splits of the reply; no contract of its own, characterised by `Classifier.CategoryField`, `Classifier.SynopsisField`, `Classifier.ParseFailsIffMarkerMissing` and `Classifier.TemplateReplyParses` |
| Classifier.GetSummaryAndCategory | app.py:61-87 | `get_summary_and_category`; no contract of its own, characterised by `Classifier.AllOrNothing` |
| Classifier.PromptDeterminesTitle | app.py:64-73 | Different titles give different prompts |
| Classifier.CategoryTextUnique | app.py:81 | At most one text qualifies as the category text after the marker |
| Classifier.SynopsisTextUnique | app.py:82 | At most one text qualifies as the synopsis text after the marker |
| Classifier.CategoryLineIsCategoryText | app.py:81 | The first line of the piece after the first `Category:` runs to the next newline, the next `Category:` or the end |
| Classifier.CategoryField | app.py:81 | With both markers present, parsing succeeds, and the category is the stripped text after the first `Category:` up to the next newline, the next `Category:` or the end |
| Classifier.SynopsisField | app.py:82 | With both markers present, parsing succeeds, and the synopsis is the stripped text between the first `Synopsis:` and the next one or the end |
| Classifier.ParseFailsIffMarkerMissing | app.py:80-82 | Parsing fails exactly when `Category:` or `Synopsis:` is missing |
| Classifier.AllOrNothing | app.py:63-87 | A failed call or a reply missing a marker gives exactly `("N/A", "Error generating synopsis")`; otherwise both fields come from the parsed reply, never one of each |
| Classifier.TemplateReplyParses | app.py:70-72 | A reply in the requested format gives back the stripped category and synopsis it was written with |
| Dedup.DropDuplicateSynopses | app.py:159 | At most as many rows; the same set of synopses; pairwise distinct synopses; only rows of the input |
| Dedup.LastRowKept | app.py:159 | The last row stays exactly when no earlier row has its synopsis |
| Dedup.KeptAreFirst | app.py:159 | A row is kept exactly when it is the first row with its synopsis |
| Dedup.DropKeepsOrder | app.py:159 | The kept rows are a subsequence of the input |
| Dedup.DropDistinctIsIdentity | app.py:159 | A table with distinct synopses is unchanged |
| Dedup.DropIdempotent | app.py:159 | Dropping duplicates twice is dropping them once |
| Dedup.OneRowPerSynopsis | app.py:159 | Every synopsis of the input appears in exactly one kept row |
| Pipeline.Keywords | app.py:119-121 | The selection comes first, then the custom keyword when it is not empty; the list is empty exactly when both are |
| Pipeline.Collected | app.py:134-138 | Every collected article carries one of the searched keywords |
| Pipeline.CollectedAppend | app.py:134-138 | Collecting for two keyword lists in turn is collecting for their concatenation |
| Pipeline.CollectedOne | app.py:134-138 | The articles collected for one keyword are those of its search |
| Pipeline.FailedSearchAddsNothing | app.py:57-59 | A keyword whose request fails adds no article, wherever it stands |
| Pipeline.CollectArticles | app.py:134-138 | The loop returns the keywords' results concatenated in keyword order |
| Pipeline.ToRow | app.py:147-154 | The row built for one article; no contract of its own, characterised by `Pipeline.Processed` |
| Pipeline.Processed | app.py:142-155 | Same length as the articles; row `i` has the media and journalist of article `i` and the category and synopsis of its title |
| Pipeline.ProcessArticles | app.py:142-155 | The classification loop returns exactly `Processed` |
| Pipeline.Report | app.py:158-159 | The deduplicated rows of the processed articles; no contract of its own, characterised by `Pipeline.Run`, `Pipeline.ReportRows` and `Pipeline.ErrorRowsCollapse` |
| Pipeline.Run | app.py:119-159 | No table exactly when no keyword is selected and the custom keyword is empty; otherwise the deduplicated rows of all collected articles |
| Pipeline.ReportRows | app.py:134-159 | No more rows than articles; distinct synopses; every row comes from a collected article found for one of the keywords |
| Pipeline.ErrorRowsCollapse | app.py:85-87 | At most one row carries the error synopsis, and exactly one when some classification failed |

## Left out

- The Streamlit page is not modelled: page setup, sidebar widgets, warnings, error messages, progress bars and status text. The progress fractions are display values.
- Reading the API key from the secrets or from a text field is credential input. It is not modelled.
- The HTTP request, the HTML parsing and the CSS selection are the `fetch` parameter. The chat-completion call is the `ask` parameter. Both are functions, so the same prompt always gets the same reply. The real model may answer the same title differently on each call.
- The data frame, its display, and the CSV and Excel downloads are not modelled. The current-date defaults of the date inputs and the file names are not modelled either.
- The `googlesearch` import is unused. It is not modelled.
- Dates.Date: years run from 1 to 9999. Days run up to 31 in every month, so invalid calendar dates such as 31 February are not excluded.
- Dates.Digits: for years below 1000 the four-digit padding is assumed; the C library's `%Y` may not pad there.
- Url.FormDecode: an escape reads as the single character with that code, one byte per character. Escapes above `%7F` that together form a UTF-8 sequence are not combined into one character, so `%C3%A9` reads as two characters rather than `é`.
- NewsSearch.SearchUrlParams: the `query` value it states is `FormDecode` of the keyword, so it inherits the limit above for a keyword that itself holds escapes above `%7F`.
- The keyword selector's option list and its default of the first three options are interface. They are not modelled; `Pipeline.Run` takes any selection.
- Url.PercentEncode: characters outside ASCII are left as they are. Their UTF-8 percent-encoding, which the HTTP client adds, is not modelled.
- Classifier.ParseReply: nothing checks the category against the six offered categories, and neither does the model.
- Classifier.PromptDeterminesTitle: the exact prompt text is modelled. The message roles and the model name of the call are not.

## Findings

| source | as written | input that shows it | evidently intended | confidence | as-written member | corrected member |
|---|---|---|---|---|---|---|
| app.py:31 | The keyword is put into the query string without escaping | The keyword `A&B` is searched as `A`, and `B` becomes a parameter with no value | The keyword reaches the search endpoint intact | not executed | NewsSearch.UnescapedKeywordCutsQuery | NewsSearch.EncodedSearchUrlParams |
| app.py:31 | The keyword is put into the URL without escaping, so a `#` in it starts the fragment | For the keyword `C#` the sort order and both dates are never sent | The keyword and the date range reach the search endpoint intact | not executed | NewsSearch.UnescapedHashKeywordDropsDates | NewsSearch.EncodedSearchUrlParams |
