/** Classification of one article title by the language model: the prompt
    that is sent, and the parsing of the free-text reply into a category and
    a synopsis, with its all-or-nothing fallback (app.py:61-87). */
module Classifier {
  import opened Optional
  import opened PyStr
  import opened Records

  const CategoryMarker := "Category:"
  const SynopsisMarker := "Synopsis:"

  /** The synopsis returned when the call or the parsing fails. */
  const ErrorSynopsis := "Error generating synopsis"

  /** The closed list of categories the prompt offers the model. Nothing
      checks the reply against it. */
  const Categories := ["CIP", "Govt policy", "Local govt policy", "Stakeholders", "RE Industry", "Impact on"]

  /** The pair returned by `get_summary_and_category`. */
  datatype Summary = Summary(category: string, synopsis: string)

  const Fallback := Summary(NotAvailable, ErrorSynopsis)

  /** The prompt text before the title. */
  const PromptHead :=
    "Analyze this news article title and provide:\n"
    + "        1. A brief synopsis (2-3 sentences)\n"
    + "        2. A category from these options: " + Join(Categories, ", ") + "\n"
    + "        \n"
    + "        Title: "

  /** The prompt text after the title. */
  const PromptTail :=
    "\n"
    + "        \n"
    + "        Format response as:\n"
    + "        " + CategoryMarker + " [category]\n"
    + "        " + SynopsisMarker + " [synopsis]\n"
    + "        "

  /** The single user message sent to the model for one title. */
  function Prompt(title: string): string
  {
    PromptHead + title + PromptTail
  }

  /** Different titles give different requests: the title can be read back
      from the prompt. */
  lemma PromptDeterminesTitle(t1: string, t2: string)
    requires Prompt(t1) == Prompt(t2)
    ensures t1 == t2
  {
    var p := Prompt(t1);
    assert |t1| == |t2|;
    assert t1 == p[|PromptHead|..|PromptHead| + |t1|];
    assert t2 == Prompt(t2)[|PromptHead|..|PromptHead| + |t2|];
  }

  /** The parsing on app.py:80-82; `None` where Python raises `IndexError`
      because a marker is missing. */
  function ParseReply(reply: string): Option<Summary>
  {
    var byCategory := Split(reply, CategoryMarker);
    var bySynopsis := Split(reply, SynopsisMarker);
    if |byCategory| < 2 || |bySynopsis| < 2 then None
    else Some(Summary(Strip(Split(byCategory[1], "\n")[0]), Strip(bySynopsis[1])))
  }

  /** `get_summary_and_category(title)`. `ask` stands for the model call:
      `None` when the call raises or the reply has no text. Any failure gives
      the fallback pair. */
  function GetSummaryAndCategory(title: string, ask: string -> Option<string>): Summary
  {
    match ask(Prompt(title))
    case None => Fallback
    case Some(reply) => ParseReply(reply).GetOr(Fallback)
  }

  /** `t` is the category text at the start of `rest`: it runs up to the
      first newline, the next category marker, or the end. */
  ghost predicate CategoryText(rest: string, t: string)
  {
    t <= rest && '\n' !in t && !Contains(t, CategoryMarker)
    && (t == rest || rest[|t|] == '\n' || OccursAt(rest, CategoryMarker, |t|))
  }

  /** `t` is the synopsis text at the start of `rest`: it runs up to the next
      synopsis marker or the end. */
  ghost predicate SynopsisText(rest: string, t: string)
  {
    t <= rest && !Contains(t, SynopsisMarker)
    && (t == rest || OccursAt(rest, SynopsisMarker, |t|))
  }

  /** The last character of `m` occurs nowhere else in it, so two
      occurrences of `m` cannot overlap. */
  predicate LastCharUnique(m: string)
  {
    |m| > 0 && forall k :: 0 <= k < |m| - 1 ==> m[k] != m[|m| - 1]
  }

  /** No occurrence of such a marker starts inside another one. */
  lemma NoOverlapBefore(s: string, m: string, q: int)
    requires LastCharUnique(m) && OccursAt(s, m, q)
    ensures forall p :: q - |m| < p < q ==> !OccursAt(s, m, p)
  {
    forall p | q - |m| < p < q
      ensures !OccursAt(s, m, p)
    {
      if 0 <= p && p + |m| <= |s| {
        assert s[p..p + |m|][|m| - 1] == s[p + |m| - 1];
        assert s[q..q + |m|][p + |m| - 1 - q] == s[p + |m| - 1];
      }
    }
  }

  /** A proper prefix of the category text does not end at a stop. */
  lemma ShorterIsNotCategoryText(rest: string, t: string, u: string)
    requires CategoryText(rest, u) && t < u
    ensures !CategoryText(rest, t)
  {
    assert rest[|t|] == u[|t|];
    if |t| + |CategoryMarker| <= |u| {
      assert rest[|t|..|t| + |CategoryMarker|] == u[|t|..|t| + |CategoryMarker|];
      assert !OccursAt(u, CategoryMarker, |t|);
    } else if u != rest && rest[|u|] != '\n' {
      NoOverlapBefore(rest, CategoryMarker, |u|);
    }
  }

  /** A proper prefix of the synopsis text does not end at a stop. */
  lemma ShorterIsNotSynopsisText(rest: string, t: string, u: string)
    requires SynopsisText(rest, u) && t < u
    ensures !SynopsisText(rest, t)
  {
    if |t| + |SynopsisMarker| <= |u| {
      assert rest[|t|..|t| + |SynopsisMarker|] == u[|t|..|t| + |SynopsisMarker|];
      assert !OccursAt(u, SynopsisMarker, |t|);
    } else if u != rest {
      NoOverlapBefore(rest, SynopsisMarker, |u|);
    }
  }

  /** Of two prefixes of one text, the shorter is a prefix of the longer. */
  lemma PrefixesCompare(rest: string, t: string, u: string)
    requires t <= rest && u <= rest
    ensures t == u || t < u || u < t
  {
    if |t| <= |u| {
      assert t == u[..|t|];
    } else {
      assert u == t[..|u|];
    }
  }

  /** At most one text qualifies as the category text. */
  lemma CategoryTextUnique(rest: string, t: string, u: string)
    requires CategoryText(rest, t) && CategoryText(rest, u)
    ensures t == u
  {
    PrefixesCompare(rest, t, u);
    if t < u {
      ShorterIsNotCategoryText(rest, t, u);
    } else if u < t {
      ShorterIsNotCategoryText(rest, u, t);
    }
  }

  /** At most one text qualifies as the synopsis text. */
  lemma SynopsisTextUnique(rest: string, t: string, u: string)
    requires SynopsisText(rest, t) && SynopsisText(rest, u)
    ensures t == u
  {
    PrefixesCompare(rest, t, u);
    if t < u {
      ShorterIsNotSynopsisText(rest, t, u);
    } else if u < t {
      ShorterIsNotSynopsisText(rest, u, t);
    }
  }

  /** The first line of the piece after the first `Category:` is the
      category text. */
  lemma CategoryLineIsCategoryText(reply: string, i: nat)
    requires OccursAt(reply, CategoryMarker, i) && NoneBefore(reply, CategoryMarker, i)
    ensures |Split(reply, CategoryMarker)| >= 2
    ensures CategoryText(reply[i + |CategoryMarker|..], Split(Split(reply, CategoryMarker)[1], "\n")[0])
  {
    var rest := reply[i + |CategoryMarker|..];
    SecondPiece(reply, CategoryMarker, i);
    var piece := Split(reply, CategoryMarker)[1];
    FirstPiece(piece, "\n");
    var line := Split(piece, "\n")[0];
    ContainsChar(line, '\n');
    PrefixStaysFree(piece, line, CategoryMarker);
    if line != piece {
      assert rest[|line|] == piece[|line|];
    }
  }

  /** When both markers are present, the category is the stripped text after
      the first `Category:`, running to the first newline, the next
      `Category:` or the end; no other text qualifies. */
  lemma CategoryField(reply: string, i: nat)
    requires OccursAt(reply, CategoryMarker, i) && NoneBefore(reply, CategoryMarker, i)
    requires Contains(reply, SynopsisMarker)
    ensures ParseReply(reply).Some?
    ensures var rest := reply[i + |CategoryMarker|..];
      (exists t :: CategoryText(rest, t))
      && forall t :: CategoryText(rest, t) ==> ParseReply(reply).value.category == Strip(t)
  {
    var rest := reply[i + |CategoryMarker|..];
    CategoryLineIsCategoryText(reply, i);
    var line := Split(Split(reply, CategoryMarker)[1], "\n")[0];
    assert ParseReply(reply).value.category == Strip(line);
    forall t | CategoryText(rest, t)
      ensures ParseReply(reply).value.category == Strip(t)
    {
      CategoryTextUnique(rest, t, line);
    }
  }

  /** When both markers are present, the synopsis is the stripped text after
      the first `Synopsis:`, running to the second `Synopsis:` or the end;
      no other text qualifies. */
  lemma SynopsisField(reply: string, i: nat)
    requires OccursAt(reply, SynopsisMarker, i) && NoneBefore(reply, SynopsisMarker, i)
    requires Contains(reply, CategoryMarker)
    ensures ParseReply(reply).Some?
    ensures var rest := reply[i + |SynopsisMarker|..];
      (exists t :: SynopsisText(rest, t))
      && forall t :: SynopsisText(rest, t) ==> ParseReply(reply).value.synopsis == Strip(t)
  {
    var rest := reply[i + |SynopsisMarker|..];
    SecondPiece(reply, SynopsisMarker, i);
    var piece := Split(reply, SynopsisMarker)[1];
    assert SynopsisText(rest, piece);
    assert ParseReply(reply).value.synopsis == Strip(piece);
    forall t | SynopsisText(rest, t)
      ensures ParseReply(reply).value.synopsis == Strip(t)
    {
      SynopsisTextUnique(rest, t, piece);
    }
  }

  /** Parsing fails exactly when a marker is missing. */
  lemma ParseFailsIffMarkerMissing(reply: string)
    ensures ParseReply(reply).None? <==> !Contains(reply, CategoryMarker) || !Contains(reply, SynopsisMarker)
  {
  }

  /** A failed call or a reply without both markers gives exactly the
      fallback pair; otherwise both fields come from the parsed reply, never
      one of each. */
  lemma AllOrNothing(title: string, ask: string -> Option<string>)
    ensures var reply := ask(Prompt(title));
      var parsed := reply.Some? && Contains(reply.value, CategoryMarker) && Contains(reply.value, SynopsisMarker);
      var r := GetSummaryAndCategory(title, ask);
      (!parsed ==> r == Fallback) && (parsed ==> ParseReply(reply.value) == Some(r))
  {
  }

  /** A reply written in the requested format gives back the two fields it
      was written with, stripped: the category line and the synopsis after
      it. */
  lemma TemplateReplyParses(category: string, synopsis: string)
    requires '\n' !in category
    requires !Contains(category, CategoryMarker) && !Contains(category, SynopsisMarker)
    requires !Contains(synopsis, SynopsisMarker)
    ensures ParseReply(CategoryMarker + category + "\n" + SynopsisMarker + synopsis)
      == Some(Summary(Strip(category), Strip(synopsis)))
  {
    var reply := CategoryMarker + category + "\n" + SynopsisMarker + synopsis;
    var k := |CategoryMarker| + |category| + 1;
    assert reply[..9] == CategoryMarker && reply[k..k + 9] == SynopsisMarker;
    assert OccursAt(reply, CategoryMarker, 0) && OccursAt(reply, SynopsisMarker, k);
    forall j | 0 <= j < k ensures !OccursAt(reply, SynopsisMarker, j) {
      if j + 9 <= |reply| {
        if j < 9 || j == k - 1 {
          assert reply[j] != 'S' && reply[j..j + 9][0] == reply[j];
        } else if j + 9 <= k - 1 {
          assert reply[j..j + 9] == category[j - 9..j];
          assert !OccursAt(category, SynopsisMarker, j - 9);
        } else {
          assert reply[j..j + 9][k - 1 - j] == reply[k - 1] == '\n';
        }
      }
    }
    var rest := reply[9..];
    assert rest == category + "\n" + SynopsisMarker + synopsis;
    assert rest[..|category|] == category && rest[|category|] == '\n';
    assert CategoryText(rest, category);
    assert reply[k + 9..] == synopsis;
    assert SynopsisText(synopsis, synopsis);
    CategoryField(reply, 0);
    SynopsisField(reply, k);
  }
}
