/**
 * The callback tokens carried by the inline buttons: `nav|<quote_plus(query)>|<page>`
 * and `readme|<full_name>`, and how bot.py reads them back.
 */
module Tokens {
  import opened Optional
  import opened Strings

  /** The characters `quote_plus` leaves untouched: the unreserved set of
      section 2.3 of RFC 3986. */
  predicate Unreserved(c: char) {
    ('A' <= c <= 'Z') || ('a' <= c <= 'z') || ('0' <= c <= '9')
    || c == '_' || c == '.' || c == '-' || c == '~'
  }

  /** The characters that can appear in the output of `quote_plus`. */
  predicate QuotedChar(c: char) {
    Unreserved(c) || c == '+' || c == '%'
  }

  /** A query that survives the round trip: unreserved characters and spaces only. */
  predicate PlainQuery(q: string) {
    forall i :: 0 <= i < |q| ==> Unreserved(q[i]) || q[i] == ' '
  }

  /** The UTF-8 encoding of one character, as byte values. */
  function Utf8(c: char): (bytes: seq<int>)
    ensures 1 <= |bytes| <= 4
    ensures forall i :: 0 <= i < |bytes| ==> 0 <= bytes[i] < 256
  {
    var n := c as int;
    if n < 0x80 then [n]
    else if n < 0x800 then [0xC0 + n / 64, 0x80 + n % 64]
    else if n < 0x10000 then [0xE0 + n / 4096, 0x80 + (n / 64) % 64, 0x80 + n % 64]
    else [0xF0 + n / 262144, 0x80 + (n / 4096) % 64, 0x80 + (n / 64) % 64, 0x80 + n % 64]
  }

  /** An upper-case hexadecimal digit. */
  function HexDigit(n: nat): (c: char)
    requires n < 16
    ensures Unreserved(c)
  {
    "0123456789ABCDEF"[n]
  }

  /** `%XX` for each byte, upper-case hexadecimal. */
  function PercentEncode(bytes: seq<int>): (e: string)
    requires forall i :: 0 <= i < |bytes| ==> 0 <= bytes[i] < 256
    ensures |e| == 3 * |bytes|
    ensures forall i :: 0 <= i < |e| ==> QuotedChar(e[i])
    ensures |bytes| > 0 ==> e[0] == '%'
  {
    if bytes == [] then []
    else ['%', HexDigit(bytes[0] / 16), HexDigit(bytes[0] % 16)] + PercentEncode(bytes[1..])
  }

  /** How `quote_plus` writes one character. */
  function QuoteChar(c: char): (e: string)
    ensures forall i :: 0 <= i < |e| ==> QuotedChar(e[i])
    ensures Unreserved(c) ==> e == [c]
    ensures c == ' ' ==> e == "+"
    ensures !Unreserved(c) && c != ' ' ==> |e| >= 3 && e[0] == '%'
  {
    if Unreserved(c) then [c]
    else if c == ' ' then "+"
    else PercentEncode(Utf8(c))
  }

  /**
   * `quote_plus(s)`: the result uses only unreserved characters, `+` and `%`
   * (so never `|`); it is as long as `s` exactly when `s` is a plain query, and then
   * it differs from `s` only in writing each space as `+`.
   */
  function QuotePlus(s: string): (e: string)
    ensures forall i :: 0 <= i < |e| ==> QuotedChar(e[i])
    ensures |e| >= |s|
    ensures |e| == |s| <==> PlainQuery(s)
    ensures PlainQuery(s) ==> forall i :: 0 <= i < |s| ==> e[i] == (if s[i] == ' ' then '+' else s[i])
  {
    if s == [] then []
    else
      var head, tail := QuoteChar(s[0]), QuotePlus(s[1..]);
      assert PlainQuery(s) <==> (Unreserved(s[0]) || s[0] == ' ') && PlainQuery(s[1..]) by {
        if PlainQuery(s[1..]) && (Unreserved(s[0]) || s[0] == ' ') {
          forall i | 0 <= i < |s| ensures Unreserved(s[i]) || s[i] == ' ' {
            if i > 0 { assert s[i] == s[1..][i - 1]; }
          }
        }
      }
      head + tail
  }

  /** A query made only of unreserved characters is sent as it is. */
  lemma QuotePlusOfWord(q: string)
    requires forall i :: 0 <= i < |q| ==> Unreserved(q[i])
    ensures QuotePlus(q) == q
  {
    var e := QuotePlus(q);
    assert PlainQuery(q);
    assert forall i :: 0 <= i < |q| ==> e[i] == q[i];
  }

  /** What bot.py does to read a query back: `q_enc.replace('+', ' ')`, nothing more.
      No `+` is left, and every other character, `%` escapes included, is kept. */
  function DecodeQuery(encoded: string): (q: string)
    ensures |q| == |encoded| && '+' !in q
    ensures forall i :: 0 <= i < |encoded| && encoded[i] != '+' ==> q[i] == encoded[i]
  {
    ReplaceChar(encoded, '+', ' ')
  }

  /**
   * Reading the query back gives the original exactly when it is a plain query.
   * Any other character (a literal `+` or `|`, a non-ASCII letter) comes back as
   * its `%XX` escape, because the percent-escapes are never undone.
   */
  lemma QueryRoundTrip(q: string)
    ensures DecodeQuery(QuotePlus(q)) == q <==> PlainQuery(q)
  {
    if PlainQuery(q) {
      assert DecodeQuery(QuotePlus(q)) == q;
    }
  }

  /** A page-navigation request: the query to search again, and the page. */
  datatype NavRequest = NavRequest(query: string, page: int)

  /** `f'nav|{quote_plus(query)}|{page}'`: it starts with `nav|` and splits on `|`
      into exactly `nav`, the encoded query and the page number. */
  function NavToken(query: string, page: int): (t: string)
    ensures StartsWith(t, "nav|")
    ensures Split(t, '|') == ["nav", QuotePlus(query), IntToString(page)]
  {
    var e, n := QuotePlus(query), IntToString(page);
    QuotePlusHasNoSeparator(query);
    IntToStringCharacters(page, '|');
    assert "nav|" + e + "|" + n == "nav" + "|" + e + "|" + n by {
      assert "nav|" == "nav" + "|";
    }
    SplitThreeFields("nav", e, n);
    "nav|" + e + "|" + n
  }

  /**
   * `_, q_enc, page_str = data.split('|')`, `int(page_str)` and the `+` replacement:
   * a token is read only if it has exactly two `|` and an integer after the last one.
   */
  function DecodeNav(data: string): (r: Option<NavRequest>)
    ensures Occurrences(data, '|') != 2 ==> r.None?
    ensures r.Some? ==> '|' !in r.value.query && '+' !in r.value.query
  {
    var fields := Split(data, '|');
    if |fields| != 3 then None
    else
      match ParseInt(fields[2])
      case None => None
      case Some(page) => Some(NavRequest(DecodeQuery(fields[1]), page))
  }

  lemma JoinThree(a: string, b: string, c: string)
    ensures Join([a, b, c], "|") == a + "|" + b + "|" + c
  {
    var parts := [a, b, c];
    assert parts[1..] == [b, c];
    assert parts[1..][1..] == [c];
    assert Join([c], "|") == c;
    assert Join([b, c], "|") == b + "|" + c;
    assert Join(parts, "|") == a + "|" + Join([b, c], "|");
  }

  /** A token of three fields without `|` splits back into those fields. */
  lemma SplitThreeFields(a: string, b: string, c: string)
    requires '|' !in a && '|' !in b && '|' !in c
    ensures Split(a + "|" + b + "|" + c, '|') == [a, b, c]
  {
    var parts := [a, b, c];
    assert forall k :: 0 <= k < |parts| ==> '|' !in parts[k];
    SplitJoin(parts, '|');
    JoinThree(a, b, c);
  }

  /** The encoded query never holds the field separator. */
  lemma QuotePlusHasNoSeparator(query: string)
    ensures '|' !in QuotePlus(query)
  {
    var e := QuotePlus(query);
    assert forall i :: 0 <= i < |e| ==> e[i] != '|';
  }

  /**
   * How `cb_handler` reads any text of three `|`-free fields: it is accepted exactly
   * when `int()` accepts the third field, and then gives the `+`-replaced second field
   * and that integer.
   */
  lemma DecodeNavFields(a: string, b: string, c: string)
    requires '|' !in a && '|' !in b && '|' !in c
    ensures DecodeNav(a + "|" + b + "|" + c)
      == if ParseInt(c).Some? then Some(NavRequest(DecodeQuery(b), ParseInt(c).value)) else None
  {
    SplitThreeFields(a, b, c);
  }

  /** Every navigation token the keyboard builds is read back with its page, and with
      its query as far as the `+` replacement restores it. */
  lemma NavTokenDecodes(query: string, page: int)
    ensures DecodeNav(NavToken(query, page)) == Some(NavRequest(DecodeQuery(QuotePlus(query)), page))
  {
    IntToStringRoundTrip(page);
  }

  /** The navigation round trip: `(query, page)` comes back exactly when the query is plain. */
  lemma NavRoundTrip(query: string, page: int)
    ensures DecodeNav(NavToken(query, page)) == Some(NavRequest(query, page)) <==> PlainQuery(query)
  {
    NavTokenDecodes(query, page);
    QueryRoundTrip(query);
  }

  /** `quote_plus('+')` is `%2B`. */
  lemma QuotePlusOfPlus()
    ensures QuoteChar('+') == "%2B"
  {
    assert Utf8('+') == [0x2B];
    assert PercentEncode([0x2B]) == "%2B" by {
      assert HexDigit(2) == '2' && HexDigit(11) == 'B';
    }
  }

  /** `quote_plus` writes a text one character at a time. */
  lemma QuotePlusCons(c: char, s: string)
    ensures QuotePlus([c] + s) == QuoteChar(c) + QuotePlus(s)
  {
    assert ([c] + s)[1..] == s;
  }

  /** `quote_plus('c++')` is `c%2B%2B`. */
  lemma QuotePlusOfCpp()
    ensures QuotePlus("c++") == "c%2B%2B"
  {
    QuotePlusOfPlus();
    assert QuoteChar('c') == "c";
    QuotePlusCons('+', []);
    QuotePlusCons('+', "+");
    QuotePlusCons('c', "++");
    assert "+" == ['+'] + [] && "++" == ['+'] + "+" && "c++" == ['c'] + "++";
  }

  /** Nothing in `c%2B%2B` is undone by the `+` replacement. */
  lemma DecodeEscapedCpp()
    ensures DecodeQuery("c%2B%2B") == "c%2B%2B"
  {
    var s := "c%2B%2B";
    assert forall i :: 0 <= i < |s| ==> s[i] != '+';
  }

  /** The query `c++` comes back from its navigation token as `c%2B%2B`, on any page. */
  lemma PlusInQueryIsLost(page: int)
    ensures DecodeNav(NavToken("c++", page)) == Some(NavRequest("c%2B%2B", page))
  {
    QuotePlusOfCpp();
    DecodeEscapedCpp();
    NavTokenDecodes("c++", page);
  }

  /** `f'readme|{full_name}'`: it starts with `readme|`, and reading it back gives
      every repository name unchanged, even one holding `|`. */
  function ReadmeToken(fullName: string): (t: string)
    ensures StartsWith(t, "readme|")
    ensures DecodeReadme(t) == Some(fullName)
  {
    var t := "readme|" + fullName;
    ReadmeTokenPrefix(t);
    assert t[7..] == fullName;
    t
  }

  /**
   * `_, full_name = data.split('|', 1)`: everything after the first `|`; a text
   * without `|` cannot be unpacked into two fields.
   */
  function DecodeReadme(data: string): (r: Option<string>)
    ensures r.Some? <==> '|' in data
    ensures r.Some? ==> exists k :: 0 <= k < |data| && data[k] == '|' && '|' !in data[..k] && r.value == data[k + 1..]
  {
    var k := FirstIndex(data, '|');
    if k == |data| then None else Some(data[k + 1..])
  }

  /** Any text after the `readme|` prefix is the repository name, even one holding `|`. */
  lemma ReadmeTokenPrefix(data: string)
    requires StartsWith(data, "readme|")
    ensures DecodeReadme(data) == Some(data[7..])
  {
    var k := FirstIndex(data, '|');
    assert data[6] == '|';
    assert data[..6] == "readme";
  }
}
