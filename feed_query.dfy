/** The request to the news feed (src/App.jsx:50-52): the query string of
    `https://newsdata.io/api/1/news`, with `encodeURIComponent` for the search text. */
module FeedQuery {
  import opened Common
  import opened Text

  // ---------------------------------------------------------------------------------------
  // encodeURIComponent

  /** The characters `encodeURIComponent` leaves as they are: ASCII letters and digits and
      `- _ . ! ~ * ' ( )`. */
  predicate IsUnreserved(c: char)
  {
    'A' <= c <= 'Z' || 'a' <= c <= 'z' || '0' <= c <= '9' || c in "-_.!~*'()"
  }

  /** A digit or one of the capitals `A` to `F`. */
  predicate IsHexDigit(c: char)
  {
    '0' <= c <= '9' || 'A' <= c <= 'F'
  }

  /** The value of a hexadecimal digit. */
  function HexValue(c: char): nat
    requires IsHexDigit(c)
  {
    if c <= '9' then c as int - '0' as int else c as int - 'A' as int + 10
  }

  /** The upper-case hexadecimal digit of `n`, an unreserved character. */
  function HexDigit(n: nat): (c: char)
    requires n < 16
    ensures IsHexDigit(c) && HexValue(c) == n
    ensures IsUnreserved(c)
  {
    if n < 10 then ('0' as int + n) as char else ('A' as int + n - 10) as char
  }

  /** `%XX` for one byte: `%`, then the byte's high and low hexadecimal digits. */
  function PercentByte(b: nat): (r: string)
    requires b < 256
    ensures |r| == 3 && r[0] == '%' && IsUnreserved(r[1]) && IsUnreserved(r[2])
    ensures IsHexDigit(r[1]) && IsHexDigit(r[2]) && 16 * HexValue(r[1]) + HexValue(r[2]) == b
  {
    ['%', HexDigit(b / 16), HexDigit(b % 16)]
  }

  /** The UTF-8 encoding of one code point. */
  function Utf8(c: char): (bytes: seq<nat>)
    ensures 1 <= |bytes| <= 4 && forall k :: 0 <= k < |bytes| ==> bytes[k] < 256
  {
    var n := c as int;
    if n < 0x80 then [n]
    else if n < 0x800 then [0xC0 + n / 0x40, 0x80 + n % 0x40]
    else if n < 0x10000 then [0xE0 + n / 0x1000, 0x80 + n / 0x40 % 0x40, 0x80 + n % 0x40]
    else [0xF0 + n / 0x40000, 0x80 + n / 0x1000 % 0x40, 0x80 + n / 0x40 % 0x40, 0x80 + n % 0x40]
  }

  /** The percent-encoding of a sequence of bytes: the k-th three characters are `%XX` for
      the k-th byte. */
  function PercentBytes(bytes: seq<nat>): (r: string)
    requires forall k :: 0 <= k < |bytes| ==> bytes[k] < 256
    ensures |r| == 3 * |bytes|
    ensures forall k :: 0 <= k < |bytes| ==> r[3 * k..3 * k + 3] == PercentByte(bytes[k])
    ensures forall k :: 0 <= k < |r| ==> r[k] == '%' || IsUnreserved(r[k])
    ensures |bytes| > 0 ==> r[0] == '%'
  {
    if bytes == [] then []
    else
      var head, rest := PercentByte(bytes[0]), PercentBytes(bytes[1..]);
      forall k | 1 <= k < |bytes| ensures (head + rest)[3 * k..3 * k + 3] == PercentByte(bytes[k]) {
        TripleAfterHead(head, rest, k);
      }
      head + rest
  }

  lemma TripleAfterHead(head: string, rest: string, k: nat)
    requires |head| == 3 && 1 <= k && 3 * k <= |rest|
    ensures (head + rest)[3 * k..3 * k + 3] == rest[3 * (k - 1)..3 * (k - 1) + 3]
  {
  }

  /** One character as `encodeURIComponent` writes it. */
  function EncodeChar(c: char): (r: string)
    ensures IsUnreserved(c) ==> r == [c]
    ensures !IsUnreserved(c) ==> |r| >= 3 && r[0] == '%'
    ensures forall k :: 0 <= k < |r| ==> r[k] == '%' || IsUnreserved(r[k])
  {
    if IsUnreserved(c) then [c] else PercentBytes(Utf8(c))
  }

  /** `encodeURIComponent(s)`: the result is made of unreserved characters and `%`, so it can
      neither end a query parameter (`&`) nor start its value (`=`); it is never shorter than
      `s`, and equals `s` exactly when every character of `s` is unreserved. */
  function EncodeUriComponent(s: string): (r: string)
    ensures forall k :: 0 <= k < |r| ==> r[k] == '%' || IsUnreserved(r[k])
    ensures |r| >= |s|
    ensures r == s <==> forall k :: 0 <= k < |s| ==> IsUnreserved(s[k])
  {
    if s == [] then []
    else
      var rest := EncodeUriComponent(s[1..]);
      assert forall k :: 1 <= k < |s| ==> s[k] == s[1..][k - 1];
      EncodeChar(s[0]) + rest
  }

  // ---------------------------------------------------------------------------------------
  // The query string

  /** One `name=value` pair of a query string. */
  datatype Param = Param(name: string, value: string)

  /** The names of the parameters, in order. */
  function Names(ps: seq<Param>): (names: seq<string>)
    ensures |names| == |ps|
  {
    seq(|ps|, i requires 0 <= i < |ps| => ps[i].name)
  }

  /** `name=value&name=value...`. */
  function RenderQuery(ps: seq<Param>): string
  {
    Join(seq(|ps|, i requires 0 <= i < |ps| => ps[i].name + "=" + ps[i].value), "&")
  }

  /** One `name=value` piece read back: the name ends at the first `=`. */
  function ParsePair(piece: string): Param
  {
    match IndexOf(piece, "=")
    case None => Param(piece, "")
    case Some(k) => Param(piece[..k], piece[k + 1..])
  }

  /** A query string read back into its parameters, as a server reads it. */
  function ParseQuery(query: string): seq<Param>
  {
    var pieces := Split(query, "&");
    seq(|pieces|, i requires 0 <= i < |pieces| => ParsePair(pieces[i]))
  }

  /** A parameter that survives being written into a query string: its name contains no
      `=` and neither its name nor its value contains `&`. */
  predicate Separable(p: Param)
  {
    '=' !in p.name && '&' !in p.name && '&' !in p.value
  }

  lemma PairRoundTrip(p: Param)
    requires '=' !in p.name
    ensures ParsePair(p.name + "=" + p.value) == p
  {
    var piece := p.name + "=" + p.value;
    var n := |p.name|;
    assert OccursAt(piece, "=", n) by { assert piece[n..n + 1] == "="; }
    NoSeparatorBefore(piece, p.name, "=");
    match IndexOf(piece, "=")
    case None =>
      assert false;
    case Some(k) =>
      assert piece[..k] == p.name;
      assert piece[k + 1..] == p.value;
  }

  /** Round trip: a non-empty list of separable parameters, written as a query string and read
      back, gives the same parameters in the same order. */
  lemma QueryRoundTrip(ps: seq<Param>)
    requires |ps| >= 1
    requires forall i :: 0 <= i < |ps| ==> Separable(ps[i])
    ensures ParseQuery(RenderQuery(ps)) == ps
  {
    var pieces := seq(|ps|, i requires 0 <= i < |ps| => ps[i].name + "=" + ps[i].value);
    forall i | 0 <= i < |ps| ensures "&"[0] !in pieces[i] {
      assert pieces[i] == ps[i].name + "=" + ps[i].value;
    }
    SplitJoin(pieces, "&");
    forall i | 0 <= i < |ps| ensures ParsePair(pieces[i]) == ps[i] {
      PairRoundTrip(ps[i]);
    }
  }

  // ---------------------------------------------------------------------------------------
  // The feed request

  /** The feed endpoint. */
  const Endpoint := "https://newsdata.io/api/1/news"

  /** The parameters of the feed request, in the order the URL writes them: the key, country,
      language and lower-cased category always; then `q` with the encoded search text when the
      search is non-empty; then `page` with the cursor, verbatim, when continuing with a cursor. */
  function FeedParams(apiKey: string, country: string, language: string, category: string,
                      search: string, cursor: Option<string>, initial: bool): (ps: seq<Param>)
    ensures Names(ps) == ["apikey", "country", "language", "category"]
                         + (if search != "" then ["q"] else [])
                         + (if !initial && Truthy(cursor) then ["page"] else [])
    ensures ps[0].value == apiKey && ps[1].value == country && ps[2].value == language
    ensures ps[3].value == Lower(category)
    ensures search != "" ==> ps[4].value == EncodeUriComponent(search)
    ensures !initial && Truthy(cursor) ==> ps[|ps| - 1].value == cursor.value
  {
    var q := if search != "" then [Param("q", EncodeUriComponent(search))] else [];
    var page := if !initial && Truthy(cursor) then [Param("page", cursor.value)] else [];
    [Param("apikey", apiKey), Param("country", country), Param("language", language),
     Param("category", Lower(category))] + q + page
  }

  /** The URL `fetchNews` requests: the endpoint, `?`, and the rendered parameters. */
  function FeedUrl(apiKey: string, country: string, language: string, category: string,
                   search: string, cursor: Option<string>, initial: bool): (url: string)
    ensures Endpoint + "?" <= url
  {
    Endpoint + "?" + RenderQuery(FeedParams(apiKey, country, language, category, search, cursor, initial))
  }

  /** The feed URL is the endpoint followed by a query string that reads back as exactly the
      feed parameters, provided the values inserted without encoding (key, country, language,
      category and cursor) contain no `&`. */
  lemma FeedUrlCarriesParams(apiKey: string, country: string, language: string, category: string,
                             search: string, cursor: Option<string>, initial: bool)
    requires '&' !in apiKey && '&' !in country && '&' !in language && '&' !in category
    requires cursor.Some? ==> '&' !in cursor.value
    ensures var url := FeedUrl(apiKey, country, language, category, search, cursor, initial);
      url[..|Endpoint| + 1] == Endpoint + "?" &&
      ParseQuery(url[|Endpoint| + 1..]) == FeedParams(apiKey, country, language, category, search, cursor, initial)
  {
    var ps := FeedParams(apiKey, country, language, category, search, cursor, initial);
    ParamsSeparable(apiKey, country, language, category, search, cursor, initial);
    QueryRoundTrip(ps);
    var url := FeedUrl(apiKey, country, language, category, search, cursor, initial);
    assert url == (Endpoint + "?") + RenderQuery(ps);
  }

  lemma LowerKeepsAmpersandOut(s: string)
    requires '&' !in s
    ensures '&' !in Lower(s)
  {
  }

  lemma EncodedHasNoAmpersand(s: string)
    ensures '&' !in EncodeUriComponent(s)
  {
    var r := EncodeUriComponent(s);
    assert forall k :: 0 <= k < |r| ==> r[k] != '&';
  }

  /** Every parameter name the feed request uses. */
  const ParamNames: seq<string> := ["apikey", "country", "language", "category", "q", "page"]

  lemma ParamNamesPlain()
    ensures forall n :: n in ParamNames ==> '=' !in n && '&' !in n
  {
  }

  lemma ParamsSeparable(apiKey: string, country: string, language: string, category: string,
                        search: string, cursor: Option<string>, initial: bool)
    requires '&' !in apiKey && '&' !in country && '&' !in language && '&' !in category
    requires cursor.Some? ==> '&' !in cursor.value
    ensures var ps := FeedParams(apiKey, country, language, category, search, cursor, initial);
      |ps| >= 1 && forall i :: 0 <= i < |ps| ==> Separable(ps[i])
  {
    var ps := FeedParams(apiKey, country, language, category, search, cursor, initial);
    LowerKeepsAmpersandOut(category);
    EncodedHasNoAmpersand(search);
    ParamNamesPlain();
    forall i | 0 <= i < |ps| ensures Separable(ps[i]) {
      assert ps[i].name == Names(ps)[i];
      assert ps[i].name in ParamNames;
    }
  }

  /** A continuation without a cursor (`nextPage` null or empty) asks for exactly what an
      initial fetch asks for: the first page again. */
  lemma ContinuationWithoutCursor(apiKey: string, country: string, language: string, category: string,
                                  search: string, cursor: Option<string>)
    requires !Truthy(cursor)
    ensures FeedUrl(apiKey, country, language, category, search, cursor, false)
         == FeedUrl(apiKey, country, language, category, search, cursor, true)
  {
  }

  /** Two requests that differ in whether they carry a search are different URLs, provided the
      values inserted without encoding contain no `&`. */
  lemma SearchChangesRequest(apiKey: string, country: string, language: string, category: string,
                             search: string, cursor: Option<string>, initial: bool)
    requires '&' !in apiKey && '&' !in country && '&' !in language && '&' !in category
    requires cursor.Some? ==> '&' !in cursor.value
    requires search != ""
    ensures FeedUrl(apiKey, country, language, category, search, cursor, initial)
         != FeedUrl(apiKey, country, language, category, "", cursor, initial)
  {
    FeedUrlCarriesParams(apiKey, country, language, category, search, cursor, initial);
    FeedUrlCarriesParams(apiKey, country, language, category, "", cursor, initial);
    var with := FeedParams(apiKey, country, language, category, search, cursor, initial);
    var without := FeedParams(apiKey, country, language, category, "", cursor, initial);
    assert |Names(with)| != |Names(without)|;
  }
}
