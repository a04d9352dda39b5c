/** The Python `str` operations the pipeline is built from: `find`,
    `split(sep)` with an explicit separator, `sep.join`, and `strip()` with
    no argument. */
module PyStr {
  import opened Optional

  /** `sep` occurs in `s` starting at index `j`. */
  predicate OccursAt(s: string, sep: string, j: int)
  {
    0 <= j && j + |sep| <= |s| && s[j..j + |sep|] == sep
  }

  /** Python's `sep in s`. */
  predicate Contains(s: string, sep: string)
  {
    exists j :: 0 <= j <= |s| - |sep| && OccursAt(s, sep, j)
  }

  /** No occurrence of `sep` starts before index `i`. */
  predicate NoneBefore(s: string, sep: string, i: int)
  {
    forall j :: 0 <= j < i ==> !OccursAt(s, sep, j)
  }

  /** Python's `s.find(sep)`: the index of the leftmost occurrence, with
      `None` in place of -1. */
  function Find(s: string, sep: string): (r: Option<nat>)
    ensures r.Some? ==> OccursAt(s, sep, r.value) && NoneBefore(s, sep, r.value)
    ensures r.None? ==> !Contains(s, sep)
    decreases |s|
  {
    if |s| < |sep| then None
    else if s[..|sep|] == sep then Some(0)
    else
      ShiftOccurs(s, sep);
      match Find(s[1..], sep)
      case None => None
      case Some(i) => Some(i + 1)
  }

  /** Dropping the first character shifts every later occurrence by one. */
  lemma ShiftOccurs(s: string, sep: string)
    requires s != []
    ensures forall j {:trigger OccursAt(s, sep, j)} :: 1 <= j ==> (OccursAt(s, sep, j) <==> OccursAt(s[1..], sep, j - 1))
  {
    forall j | 1 <= j
      ensures OccursAt(s, sep, j) <==> OccursAt(s[1..], sep, j - 1)
    {
      if j + |sep| <= |s| {
        assert forall k :: j <= k < j + |sep| ==> s[k] == s[1..][k - 1];
        assert s[j..j + |sep|] == s[1..][j - 1..j - 1 + |sep|];
      }
    }
  }

  /** An occurrence with none before it is the one `Find` reports. */
  lemma FindIsFirst(s: string, sep: string, i: nat)
    requires OccursAt(s, sep, i) && NoneBefore(s, sep, i)
    ensures Find(s, sep) == Some(i)
  {
    assert 0 <= i <= |s| - |sep| && OccursAt(s, sep, i);
  }

  /** Python's `s.split(sep)` for a non-empty separator: the pieces between
      the leftmost non-overlapping occurrences of `sep`. */
  function Split(s: string, sep: string): (r: seq<string>)
    requires sep != []
    ensures |r| >= 1
    ensures |r| > 1 <==> Contains(s, sep)
    decreases |s|
  {
    match Find(s, sep)
    case None => [s]
    case Some(i) => [s[..i]] + Split(s[i + |sep|..], sep)
  }

  /** Python's `sep.join(pieces)`. */
  function Join(pieces: seq<string>, sep: string): string
  {
    if |pieces| == 0 then ""
    else if |pieces| == 1 then pieces[0]
    else pieces[0] + sep + Join(pieces[1..], sep)
  }

  /** Joining the pieces of a split with the same separator gives back the
      original text. */
  lemma {:induction false} SplitJoin(s: string, sep: string)
    requires sep != []
    ensures Join(Split(s, sep), sep) == s
    decreases |s|
  {
    match Find(s, sep)
    case None =>
    case Some(i) =>
      var rest := s[i + |sep|..];
      SplitJoin(rest, sep);
      var pieces := Split(s, sep);
      assert pieces[1..] == Split(rest, sep);
      assert s == s[..i] + sep + rest;
  }

  /** A prefix of the text before the first occurrence holds no occurrence. */
  lemma PrefixBeforeFirstIsFree(s: string, sep: string, i: nat)
    requires sep != [] && i <= |s| && NoneBefore(s, sep, i)
    ensures !Contains(s[..i], sep)
  {
    forall j | 0 <= j <= i - |sep|
      ensures !OccursAt(s[..i], sep, j)
    {
      assert s[..i][j..j + |sep|] == s[j..j + |sep|];
      assert !OccursAt(s, sep, j);
    }
  }

  /** No piece of a split contains the separator. */
  lemma {:induction false} SplitPiecesFree(s: string, sep: string)
    requires sep != []
    ensures forall k :: 0 <= k < |Split(s, sep)| ==> !Contains(Split(s, sep)[k], sep)
    decreases |s|
  {
    match Find(s, sep)
    case None =>
    case Some(i) =>
      PrefixBeforeFirstIsFree(s, sep, i);
      SplitPiecesFree(s[i + |sep|..], sep);
  }

  /** The first piece of a split: the text up to the first separator, or
      all of it when there is none. */
  lemma FirstPiece(s: string, sep: string)
    requires sep != []
    ensures var p := Split(s, sep)[0];
      p <= s && !Contains(p, sep) && (p == s || OccursAt(s, sep, |p|))
  {
    match Find(s, sep)
    case None =>
    case Some(i) =>
      PrefixBeforeFirstIsFree(s, sep, i);
  }

  /** The second piece of a split: the text after the first separator up to
      the next one, or up to the end. */
  lemma SecondPiece(s: string, sep: string, i: nat)
    requires sep != []
    requires OccursAt(s, sep, i) && NoneBefore(s, sep, i)
    ensures |Split(s, sep)| >= 2
    ensures var rest := s[i + |sep|..]; var p := Split(s, sep)[1];
      p <= rest && !Contains(p, sep) && (p == rest || OccursAt(rest, sep, |p|))
  {
    FindIsFirst(s, sep, i);
    FirstPiece(s[i + |sep|..], sep);
  }

  /** Text free of `sep` stays free of it when cut short. */
  lemma PrefixStaysFree(s: string, t: string, sep: string)
    requires t <= s && !Contains(s, sep)
    ensures !Contains(t, sep)
  {
    forall j | 0 <= j <= |t| - |sep|
      ensures !OccursAt(t, sep, j)
    {
      assert t[j..j + |sep|] == s[j..j + |sep|];
      assert !OccursAt(s, sep, j);
    }
  }

  /** A one-character separator occurs exactly where that character does. */
  lemma ContainsChar(s: string, c: char)
    ensures Contains(s, [c]) <==> c in s
  {
    if c in s {
      var j :| 0 <= j < |s| && s[j] == c;
      assert s[j..j + 1] == [c];
      assert OccursAt(s, [c], j);
    }
    forall j | 0 <= j <= |s| - 1 && OccursAt(s, [c], j)
      ensures c in s
    {
      assert s[j] == s[j..j + 1][0];
    }
  }

  /** A one-character separator occurs exactly at the positions of that
      character. */
  lemma OccursAtChar(s: string, c: char, j: int)
    ensures OccursAt(s, [c], j) <==> 0 <= j < |s| && s[j] == c
  {
    if 0 <= j < |s| {
      assert s[j..j + 1] == [s[j]];
    }
  }

  /** The leftmost occurrence of a character after a prefix that lacks it. */
  lemma FindCharAfter(a: string, c: char, b: string)
    requires c !in a
    ensures Find(a + [c] + b, [c]) == Some(|a|)
  {
    var s := a + [c] + b;
    forall j | 0 <= j < |a| ensures !OccursAt(s, [c], j) {
      OccursAtChar(s, c, j);
    }
    OccursAtChar(s, c, |a|);
    FindIsFirst(s, [c], |a|);
  }

  /** Splitting on a character that the first part does not hold peels that
      part off. */
  lemma SplitAtChar(a: string, c: char, b: string)
    requires c !in a
    ensures Split(a + [c] + b, [c]) == [a] + Split(b, [c])
  {
    var s := a + [c] + b;
    FindCharAfter(a, c, b);
    assert s[..|a|] == a;
    assert s[|a| + 1..] == b;
  }

  /** Splitting on a character that does not occur gives the text back whole. */
  lemma SplitWithoutChar(a: string, c: char)
    requires c !in a
    ensures Split(a, [c]) == [a]
  {
    ContainsChar(a, c);
  }

  /** Splitting a join of pieces that do not hold the separator character
      gives the pieces back. */
  lemma {:induction false} SplitJoinedPieces(pieces: seq<string>, c: char)
    requires |pieces| >= 1
    requires forall k :: 0 <= k < |pieces| ==> c !in pieces[k]
    ensures Split(Join(pieces, [c]), [c]) == pieces
    decreases |pieces|
  {
    if |pieces| == 1 {
      SplitWithoutChar(pieces[0], c);
    } else {
      SplitJoinedPieces(pieces[1..], c);
      SplitAtChar(pieces[0], c, Join(pieces[1..], [c]));
      assert pieces == [pieces[0]] + pieces[1..];
    }
  }

  /** A character found in none of the pieces nor in the separator is not
      in their join. */
  lemma {:induction false} JoinHolds(pieces: seq<string>, sep: string, c: char)
    requires c !in sep && forall k :: 0 <= k < |pieces| ==> c !in pieces[k]
    ensures c !in Join(pieces, sep)
    decreases |pieces|
  {
    if |pieces| > 1 {
      JoinHolds(pieces[1..], sep, c);
    }
  }

  /** Python's `str.isspace()` for one character: the characters `strip()`
      removes when called without an argument. */
  predicate IsSpace(c: char)
  {
    ('\t' <= c <= '\r') || ('\U{1C}' <= c <= '\U{1F}') || c == ' '
    || c == '\U{85}' || c == '\U{A0}' || c == '\U{1680}'
    || ('\U{2000}' <= c <= '\U{200A}') || c == '\U{2028}' || c == '\U{2029}'
    || c == '\U{202F}' || c == '\U{205F}' || c == '\U{3000}'
  }

  /** Python's `s.lstrip()`. */
  function StripLeft(s: string): (r: string)
    ensures |r| <= |s| && r == s[|s| - |r|..]
    ensures forall k :: 0 <= k < |s| - |r| ==> IsSpace(s[k])
    ensures r == [] || !IsSpace(r[0])
  {
    if s != [] && IsSpace(s[0]) then StripLeft(s[1..]) else s
  }

  /** Python's `s.rstrip()`. */
  function StripRight(s: string): (r: string)
    ensures |r| <= |s| && r == s[..|r|]
    ensures forall k :: |r| <= k < |s| ==> IsSpace(s[k])
    ensures r == [] || !IsSpace(r[|r| - 1])
  {
    if s != [] && IsSpace(s[|s| - 1]) then StripRight(s[..|s| - 1]) else s
  }

  /** Python's `s.strip()`: `s` without its leading and trailing whitespace. */
  function Strip(s: string): string
  {
    StripRight(StripLeft(s))
  }

  /** `r` is `s` from index `a` on, with only whitespace cut away on either
      side and no whitespace left at either end. */
  ghost predicate TrimmedSliceAt(s: string, r: string, a: int)
  {
    0 <= a <= |s| - |r| && r == s[a..a + |r|]
    && (forall k :: 0 <= k < a ==> IsSpace(s[k]))
    && (forall k :: a + |r| <= k < |s| ==> IsSpace(s[k]))
    && (r == [] || (!IsSpace(r[0]) && !IsSpace(r[|r| - 1])))
  }

  /** A left trim followed by a right trim, each as `StripLeft` and
      `StripRight` promise, leaves a trimmed slice. */
  lemma TrimmedSliceOfTrims(s: string, l: string, r: string)
    requires |l| <= |s| && l == s[|s| - |l|..]
    requires forall k :: 0 <= k < |s| - |l| ==> IsSpace(s[k])
    requires l == [] || !IsSpace(l[0])
    requires |r| <= |l| && r == l[..|r|]
    requires forall k :: |r| <= k < |l| ==> IsSpace(l[k])
    requires r == [] || !IsSpace(r[|r| - 1])
    ensures TrimmedSliceAt(s, r, |s| - |l|)
  {
    var a := |s| - |l|;
    assert r == s[a..a + |r|];
    forall k | a + |r| <= k < |s| ensures IsSpace(s[k]) {
      assert s[k] == l[k - a];
    }
    if r != [] {
      assert r[0] == l[0];
    }
  }

  /** What `strip()` returns: a slice of `s` that neither starts nor ends
      with whitespace, with only whitespace cut away on either side. */
  lemma StripIsTrimmedSlice(s: string)
    ensures exists a :: TrimmedSliceAt(s, Strip(s), a)
  {
    var l := StripLeft(s);
    TrimmedSliceOfTrims(s, l, StripRight(l));
    assert TrimmedSliceAt(s, Strip(s), |s| - |l|);
  }

  /** Stripping twice is stripping once. */
  lemma StripIdempotent(s: string)
    ensures Strip(Strip(s)) == Strip(s)
  {
    var r := Strip(s);
    StripIsTrimmedSlice(s);
    var a :| TrimmedSliceAt(s, r, a);
    assert TrimmedSliceAt(s, r, a);
    assert StripLeft(r) == r;
    assert StripRight(r) == r;
  }
}
