/** How the search endpoint reads the parameters of a request URL, and the
    percent-encoding that keeps a value intact inside one. The reading
    follows RFC 3986 (section 3.4, the query; section 3.5, the fragment,
    which is never sent) and the application/x-www-form-urlencoded
    convention for pairs (`&`-separated `name=value`, `+` for a space,
    `%XX` for a byte). */
module Url {
  import opened Optional
  import opened PyStr

  /** The query a server receives: after the first `?`, before the first
      `#`. */
  function QueryOf(url: string): string
  {
    var sent := Split(url, "#")[0];
    match Find(sent, "?")
    case None => ""
    case Some(i) => sent[i + 1..]
  }

  /** A URL with one `?` and no `#` carries everything after the `?` as its
      query. */
  lemma QueryOfPlain(base: string, query: string)
    requires '?' !in base && '#' !in base && '#' !in query
    ensures QueryOf(base + "?" + query) == query
  {
    var url := base + "?" + query;
    assert '#' !in url;
    SplitWithoutChar(url, '#');
    FindCharAfter(base, '?', query);
    assert url[|base| + 1..] == query;
  }

  /** Everything after the first `#` is the fragment, which is not part of
      the query. */
  lemma QueryBeforeFragment(base: string, query: string, fragment: string)
    requires '?' !in base && '#' !in base && '#' !in query
    ensures QueryOf(base + "?" + query + "#" + fragment) == query
  {
    var sent := base + "?" + query;
    assert '#' !in sent;
    SplitAtChar(sent, '#', fragment);
    FindCharAfter(base, '?', query);
    assert sent[|base| + 1..] == query;
  }

  /** The value of parameter `name`: that of the first pair with that name,
      decoded. A pair without `=` has an empty value. */
  function Param(url: string, name: string): Option<string>
  {
    Lookup(Split(QueryOf(url), "&"), name)
  }

  function Lookup(pairs: seq<string>, name: string): Option<string>
  {
    if pairs == [] then None
    else
      var pair := pairs[0];
      match Find(pair, "=")
      case None => if pair == name then Some("") else Lookup(pairs[1..], name)
      case Some(i) => if pair[..i] == name then Some(FormDecode(pair[i + 1..])) else Lookup(pairs[1..], name)
  }

  predicate IsHex(c: char)
  {
    '0' <= c <= '9' || 'A' <= c <= 'F' || 'a' <= c <= 'f'
  }

  function HexValue(c: char): (v: int)
    requires IsHex(c)
    ensures 0 <= v < 16
  {
    if c <= '9' then c as int - '0' as int
    else if c <= 'F' then c as int - 'A' as int + 10
    else c as int - 'a' as int + 10
  }

  function HexDigit(v: int): (c: char)
    requires 0 <= v < 16
    ensures IsHex(c) && HexValue(c) == v
  {
    "0123456789ABCDEF"[v]
  }

  /** Form-decoding of one value: `%XX` becomes the character with that
      code, one escape per character, `+` a space, anything else stays. */
  function FormDecode(s: string): string
    decreases |s|
  {
    if s == [] then ""
    else if s[0] == '%' && |s| >= 3 && IsHex(s[1]) && IsHex(s[2]) then
      [(16 * HexValue(s[1]) + HexValue(s[2])) as char] + FormDecode(s[3..])
    else if s[0] == '+' then " " + FormDecode(s[1..])
    else [s[0]] + FormDecode(s[1..])
  }

  /** The characters that stand for themselves in a query value
      (RFC 3986, section 2.3). */
  predicate Unreserved(c: char)
  {
    'A' <= c <= 'Z' || 'a' <= c <= 'z' || '0' <= c <= '9' || c == '-' || c == '.' || c == '_' || c == '~'
  }

  /** The characters that delimit a query or change its meaning. */
  predicate Delimiter(c: char)
  {
    c == '&' || c == '#' || c == '=' || c == '?' || c == '+' || c == '%'
  }

  /** Percent-encoding of one character: every ASCII character outside the
      unreserved set becomes `%XX`. Characters beyond ASCII are left to the
      HTTP client, which sends them as their UTF-8 bytes in `%XX` form. */
  function EncodeChar(c: char): string
  {
    if Unreserved(c) || c as int >= 128 then [c]
    else ['%', HexDigit(c as int / 16), HexDigit(c as int % 16)]
  }

  function PercentEncode(s: string): (r: string)
    ensures forall k :: 0 <= k < |r| && r[k] != '%' ==> !Delimiter(r[k])
  {
    if s == [] then "" else EncodeChar(s[0]) + PercentEncode(s[1..])
  }

  /** Encoded text holds none of the characters that split a query. */
  lemma EncodedIsSafe(s: string)
    ensures var r := PercentEncode(s); '&' !in r && '#' !in r && '=' !in r && '?' !in r
  {
  }

  /** Decoding one encoded character and then the rest. */
  lemma DecodeEncodedChar(c: char, rest: string)
    ensures FormDecode(EncodeChar(c) + rest) == [c] + FormDecode(rest)
  {
    var e := EncodeChar(c);
    if Unreserved(c) || c as int >= 128 {
      assert (e + rest)[1..] == rest;
    } else {
      var hi, lo := HexDigit(c as int / 16), HexDigit(c as int % 16);
      assert e == ['%', hi, lo];
      assert (e + rest)[0] == '%' && (e + rest)[1] == hi && (e + rest)[2] == lo;
      assert (e + rest)[3..] == rest;
      assert 16 * HexValue(hi) + HexValue(lo) == c as int;
    }
  }

  /** Decoding undoes encoding: the server reads back exactly the value
      that was encoded. */
  lemma {:induction false} DecodeEncode(s: string)
    ensures FormDecode(PercentEncode(s)) == s
  {
    if s != [] {
      DecodeEncode(s[1..]);
      DecodeEncodedChar(s[0], PercentEncode(s[1..]));
    }
  }

  /** Text without `%` and `+` decodes to itself. */
  lemma {:induction false} DecodePlain(s: string)
    requires '%' !in s && '+' !in s
    ensures FormDecode(s) == s
  {
    if s != [] {
      DecodePlain(s[1..]);
    }
  }
}
