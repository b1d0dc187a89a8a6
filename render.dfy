/**
 * Message text built by bot.py: the HTML-escaped repository line, the results
 * header and block, and the README preview that fetch_readme returns.
 */
module Render {
  import opened Optional
  import opened Strings

  /** One entry of the search API's `items`; absent JSON keys are `None`. */
  datatype Repo = Repo(
    fullName: string,
    description: Option<string>,
    stars: Option<int>,
    language: Option<string>,
    htmlUrl: string)

  /** The five characters `html.escape(s)` (with `quote=True`) replaces. */
  predicate MarkupChar(c: char) {
    c == '&' || c == '<' || c == '>' || c == '"' || c == '\''
  }

  function EscapeChar(c: char): (e: string)
    ensures |e| >= 1
    ensures '<' !in e && '>' !in e && '"' !in e && '\'' !in e
    ensures !MarkupChar(c) ==> e == [c]
  {
    match c
    case '&' => "&amp;"
    case '<' => "&lt;"
    case '>' => "&gt;"
    case '"' => "&quot;"
    case '\'' => "&#x27;"
    case _ => [c]
  }

  /**
   * `html.escape(s)`: the result holds no raw `<`, `>`, `"` or `'`, and text
   * without markup characters comes back unchanged.
   */
  function HtmlEscape(s: string): (e: string)
    ensures '<' !in e && '>' !in e && '"' !in e && '\'' !in e
    ensures |e| >= |s|
    ensures (forall i :: 0 <= i < |s| ==> !MarkupChar(s[i])) ==> e == s
  {
    if s == [] then []
    else
      var head, tail := EscapeChar(s[0]), HtmlEscape(s[1..]);
      assert (forall i :: 0 <= i < |s| ==> !MarkupChar(s[i])) ==> head + tail == s by {
        if forall i :: 0 <= i < |s| ==> !MarkupChar(s[i]) {
          assert forall i :: 0 <= i < |s[1..]| ==> !MarkupChar(s[1..][i]) by {
            forall i | 0 <= i < |s[1..]| ensures !MarkupChar(s[1..][i]) {
              assert s[1..][i] == s[i + 1];
            }
          }
          assert [s[0]] + s[1..] == s;
        }
      }
      head + tail
  }

  /** The character an HTML reader sees at the start of `s`, and how many characters
      of `s` spell it: one of the five entities `html.escape` produces, or a plain character. */
  function FirstCharacter(s: string): (r: (char, nat))
    requires s != []
    ensures 1 <= r.1 <= |s|
  {
    if "&amp;" <= s then ('&', 5)
    else if "&lt;" <= s then ('<', 4)
    else if "&gt;" <= s then ('>', 4)
    else if "&quot;" <= s then ('"', 6)
    else if "&#x27;" <= s then ('\'', 6)
    else (s[0], 1)
  }

  /** What an HTML reader makes of the entities `html.escape` produces. */
  function HtmlUnescape(s: string): string
    decreases |s|
  {
    if s == [] then []
    else
      var (c, n) := FirstCharacter(s);
      [c] + HtmlUnescape(s[n..])
  }

  lemma FirstCharacterOfEscape(c: char, rest: string)
    ensures FirstCharacter(EscapeChar(c) + rest) == (c, |EscapeChar(c)|)
  {
    var e := EscapeChar(c) + rest;
    if c == '&' {
      assert e[..5] == "&amp;";
    } else if c == '<' {
      assert e[..4] == "&lt;";
      assert e[1] == 'l';
    } else if c == '>' {
      assert e[..4] == "&gt;";
      assert e[1] == 'g' && e[2] == 't';
    } else if c == '"' {
      assert e[..6] == "&quot;";
      assert e[1] == 'q';
    } else if c == '\'' {
      assert e[..6] == "&#x27;";
      assert e[1] == '#';
    } else {
      assert e[0] == c;
    }
  }

  /** Escaping loses nothing: the reader of the message sees the original text. */
  lemma {:induction false} EscapeRoundTrip(s: string)
    ensures HtmlUnescape(HtmlEscape(s)) == s
  {
    if s != [] {
      var c, rest := s[0], HtmlEscape(s[1..]);
      var e := EscapeChar(c) + rest;
      assert HtmlEscape(s) == e;
      FirstCharacterOfEscape(c, rest);
      assert e[|EscapeChar(c)|..] == rest;
      EscapeRoundTrip(s[1..]);
      assert [c] + s[1..] == s;
    }
  }

  /** `item.get('description') or ''` */
  function DescriptionText(r: Repo): (d: string)
    ensures d == "" <==> r.description.None? || r.description == Some("")
    ensures d != "" ==> r.description == Some(d)
  {
    r.description.GetOr("")
  }

  /** `item.get('language') or 'Unknown'`: an absent or empty language reads "Unknown". */
  function LanguageText(r: Repo): (l: string)
    ensures l != ""
    ensures r.language.None? || r.language == Some("") ==> l == "Unknown"
    ensures r.language.Some? && r.language.value != "" ==> l == r.language.value
  {
    match r.language
    case Some(l) => if l == "" then "Unknown" else l
    case None => "Unknown"
  }

  /** `item.get('stargazers_count', 0)`: the count when present, 0 when absent. */
  function StarsValue(r: Repo): (n: int)
    ensures r.stars.Some? ==> n == r.stars.value
    ensures r.stars.None? ==> n == 0
  {
    r.stars.GetOr(0)
  }

  /** A tag `<name>` holds one `<` and one `>`. */
  lemma TagOccurrences(name: string, c: char)
    requires c == '<' || c == '>'
    requires '<' !in name && '>' !in name
    ensures Occurrences("<" + name + ">", c) == 1
  {
    OccurrencesConcat("<" + name, ">", c);
    OccurrencesConcat("<", name, c);
    NoOccurrences(name, c);
  }

  /**
   * `make_repo_line(item)`: the bold escaped name, the escaped description, the
   * stars and language, and the URL. The name and description add no raw angle
   * bracket: every `<` and `>` of the line is one of the two of `<b>...</b>` or
   * comes from the language or the URL, which bot.py does not escape.
   */
  function RepoLine(r: Repo): (line: string)
    ensures Occurrences(line, '<') == 2 + Occurrences(LanguageText(r), '<') + Occurrences(r.htmlUrl, '<')
    ensures Occurrences(line, '>') == 2 + Occurrences(LanguageText(r), '>') + Occurrences(r.htmlUrl, '>')
  {
    RepoLinePieces(r, '<');
    RepoLinePieces(r, '>');
    "<b>" + HtmlEscape(r.fullName) + "</b> \U{2014} " + HtmlEscape(DescriptionText(r))
      + "\n\U{2B50} " + IntToString(StarsValue(r)) + " \U{2014} " + LanguageText(r)
      + "\n" + r.htmlUrl
  }

  /** Occurrences of a bracket in a tag, then some bracket-free text. */
  lemma TagThenText(name: string, text: string, c: char)
    requires c == '<' || c == '>'
    requires '<' !in name && '>' !in name && c !in text
    ensures Occurrences("<" + name + ">" + text, c) == 1
  {
    TagOccurrences(name, c);
    NoOccurrences(text, c);
    OccurrencesConcat("<" + name + ">", text, c);
  }

  /** The count over the pieces of a repository line, with the tags given by their names. */
  lemma LineOccurrences(bold: string, name: string, unbold: string, dash: string, desc: string, star: string,
                        stars: string, lang: string, newline: string, url: string, c: char)
    requires c == '<' || c == '>'
    requires '<' !in bold && '>' !in bold && '<' !in unbold && '>' !in unbold
    requires c !in name && c !in dash && c !in desc && c !in star && c !in stars && c !in newline
    ensures Occurrences("<" + bold + ">" + name + ("<" + unbold + ">" + dash) + desc + star + stars + dash + lang
                        + newline + url, c)
      == 2 + Occurrences(lang, c) + Occurrences(url, c)
  {
    TagThenText(bold, name, c);
    TagThenText(unbold, dash, c);
    NoOccurrences(desc, c);
    NoOccurrences(star, c);
    NoOccurrences(stars, c);
    NoOccurrences(dash, c);
    NoOccurrences(newline, c);
    var p1 := "<" + bold + ">" + name;
    var close := "<" + unbold + ">" + dash;
    var p2 := p1 + close;
    OccurrencesConcat(p1, close, c);
    var p3 := p2 + desc;
    OccurrencesConcat(p2, desc, c);
    var p4 := p3 + star;
    OccurrencesConcat(p3, star, c);
    var p5 := p4 + stars;
    OccurrencesConcat(p4, stars, c);
    var p6 := p5 + dash;
    OccurrencesConcat(p5, dash, c);
    var p7 := p6 + lang;
    OccurrencesConcat(p6, lang, c);
    var p8 := p7 + newline;
    OccurrencesConcat(p7, newline, c);
    OccurrencesConcat(p8, url, c);
  }

  /** The bracket count of a repository line, over its pieces. */
  lemma RepoLinePieces(r: Repo, c: char)
    requires c == '<' || c == '>'
    ensures Occurrences("<b>" + HtmlEscape(r.fullName) + "</b> \U{2014} " + HtmlEscape(DescriptionText(r))
                        + "\n\U{2B50} " + IntToString(StarsValue(r)) + " \U{2014} " + LanguageText(r)
                        + "\n" + r.htmlUrl, c)
      == 2 + Occurrences(LanguageText(r), c) + Occurrences(r.htmlUrl, c)
  {
    var name := HtmlEscape(r.fullName);
    var desc := HtmlEscape(DescriptionText(r));
    var stars := IntToString(StarsValue(r));
    var dash, star := " \U{2014} ", "\n\U{2B50} ";
    assert "<b>" == "<" + "b" + ">" && "</b> \U{2014} " == "<" + "/b" + ">" + dash;
    assert "<b>" + name + "</b> \U{2014} " + desc + star + stars + dash + LanguageText(r) + "\n" + r.htmlUrl
        == "<" + "b" + ">" + name + ("<" + "/b" + ">" + dash) + desc + star + stars + dash
                          + LanguageText(r) + "\n" + r.htmlUrl;
    IntToStringCharacters(StarsValue(r), c);
    LineOccurrences("b", name, "/b", dash, desc, star, stars, LanguageText(r), "\n", r.htmlUrl, c);
  }

  /** The header of a results message. Whatever the query, it holds exactly the `<`
      and `>` of its four tags. */
  function Header(query: string, total: int): (h: string)
    ensures Occurrences(h, '<') == 4 && Occurrences(h, '>') == 4
  {
    HeaderPieces(query, total, '<');
    HeaderPieces(query, total, '>');
    "<b>Results for</b> <code>" + HtmlEscape(query) + "</code> \U{2014} " + IntToString(total) + " repositories\n\n"
  }

  /** The count over the pieces of a header: four tagged pieces and three bracket-free ones. */
  lemma HeaderOccurrences(p1: string, p2: string, p3: string, q: string, p4: string, count: string, tail: string,
                          c: char)
    requires Occurrences(p1, c) == 1 && Occurrences(p2, c) == 1 && Occurrences(p3, c) == 1 && Occurrences(p4, c) == 1
    requires c !in q && c !in count && c !in tail
    ensures Occurrences(p1 + p2 + p3 + q + p4 + count + tail, c) == 4
  {
    NoOccurrences(q, c);
    NoOccurrences(count, c);
    NoOccurrences(tail, c);
    OccurrencesConcat(p1, p2, c);
    OccurrencesConcat(p1 + p2, p3, c);
    OccurrencesConcat(p1 + p2 + p3, q, c);
    OccurrencesConcat(p1 + p2 + p3 + q, p4, c);
    OccurrencesConcat(p1 + p2 + p3 + q + p4, count, c);
    OccurrencesConcat(p1 + p2 + p3 + q + p4 + count, tail, c);
  }

  /** The bracket count of a header, over its pieces. */
  lemma HeaderPieces(query: string, total: int, c: char)
    requires c == '<' || c == '>'
    ensures Occurrences("<b>Results for</b> <code>" + HtmlEscape(query) + "</code> \U{2014} " + IntToString(total)
                        + " repositories\n\n", c) == 4
  {
    OpeningTags();
    ClosingTag();
    TagNames();
    HeaderWords(c);
    TagThenText("b", "Results for", c);
    TagThenText("/b", " ", c);
    TagOccurrences("code", c);
    TagThenText("/code", " \U{2014} ", c);
    IntToStringCharacters(total, c);
    HeaderOccurrences("<" + "b" + ">" + "Results for", "<" + "/b" + ">" + " ", "<" + "code" + ">", HtmlEscape(query),
                      "<" + "/code" + ">" + " \U{2014} ", IntToString(total), " repositories\n\n", c);
  }

  /** The tag names of the results message hold no bracket. */
  lemma TagNames()
    ensures '<' !in "b" && '>' !in "b" && '<' !in "/b" && '>' !in "/b"
    ensures '<' !in "code" && '>' !in "code" && '<' !in "/code" && '>' !in "/code"
  {
  }

  /** The fixed words of the header hold no bracket. */
  lemma HeaderWords(c: char)
    requires c == '<' || c == '>'
    ensures c !in "Results for" && c !in " " && c !in " \U{2014} " && c !in " repositories\n\n"
  {
  }

  lemma OpeningTags()
    ensures "<b>Results for</b> <code>" == ("<" + "b" + ">" + "Results for") + ("<" + "/b" + ">" + " ") + ("<" + "code" + ">")
  {
    assert "<b>Results for</b> <code>"[..14] == "<" + "b" + ">" + "Results for";
  }

  lemma ClosingTag()
    ensures "</code> \U{2014} " == "<" + "/code" + ">" + " \U{2014} "
  {
  }

  function RepoLines(items: seq<Repo>): (lines: seq<string>)
    ensures |lines| == |items|
    ensures forall i :: 0 <= i < |items| ==> lines[i] == RepoLine(items[i])
  {
    if items == [] then [] else [RepoLine(items[0])] + RepoLines(items[1..])
  }

  /** The text of a results message: the header, then the repository lines separated by blank lines. */
  function ResultsText(query: string, total: int, items: seq<Repo>): (text: string)
    ensures Header(query, total) <= text
  {
    Header(query, total) + Join(RepoLines(items), "\n\n")
  }

  /** Items whose language and URL carry no angle brackets. */
  predicate PlainFields(items: seq<Repo>) {
    forall i :: 0 <= i < |items| ==>
      '<' !in LanguageText(items[i]) && '>' !in LanguageText(items[i])
      && '<' !in items[i].htmlUrl && '>' !in items[i].htmlUrl
  }

  lemma MulPred(k: nat, m: nat)
    requires m >= 1
    ensures k * m == k * (m - 1) + k
  {
  }

  lemma {:induction false} JoinOccurrences(parts: seq<string>, sep: string, c: char, k: nat)
    requires forall i :: 0 <= i < |parts| ==> Occurrences(parts[i], c) == k
    requires Occurrences(sep, c) == 0
    ensures Occurrences(Join(parts, sep), c) == k * |parts|
  {
    if |parts| == 0 {
      assert k * |parts| == 0;
    } else if |parts| == 1 {
      assert k * |parts| == k;
    } else {
      var rest := parts[1..];
      assert forall i :: 0 <= i < |rest| ==> Occurrences(rest[i], c) == k by {
        forall i | 0 <= i < |rest| ensures Occurrences(rest[i], c) == k {
          assert rest[i] == parts[i + 1];
        }
      }
      JoinOccurrences(rest, sep, c, k);
      assert Join(parts, sep) == parts[0] + sep + Join(rest, sep);
      OccurrencesConcat(parts[0], sep, c);
      OccurrencesConcat(parts[0] + sep, Join(rest, sep), c);
      MulPred(k, |parts|);
    }
  }

  /**
   * No query, repository name or description can add a tag to a results message:
   * when languages and URLs are free of angle brackets, the text holds exactly the
   * tags of the header and of one `<b>...</b>` per repository.
   */
  lemma ResultsMarkup(query: string, total: int, items: seq<Repo>, c: char)
    requires c == '<' || c == '>'
    requires PlainFields(items)
    ensures Occurrences(ResultsText(query, total, items), c) == 4 + 2 * |items|
  {
    var lines := RepoLines(items);
    forall i | 0 <= i < |lines|
      ensures Occurrences(lines[i], c) == 2
    {
      NoOccurrences(LanguageText(items[i]), c);
      NoOccurrences(items[i].htmlUrl, c);
    }
    NoOccurrences("\n\n", c);
    JoinOccurrences(lines, "\n\n", c, 2);
    OccurrencesConcat(Header(query, total), Join(lines, "\n\n"), c);
  }

  /** The maximum number of README characters shown. */
  const ReadmeLimit := 1500

  /**
   * `decoded[:1500] + ("..." if len(decoded) > 1500 else "")`: short text is kept
   * as it is; longer text is cut to its first 1500 characters and marked with
   * "...", giving exactly 1503 characters.
   */
  function Truncate(decoded: string): (r: string)
    ensures |decoded| <= ReadmeLimit ==> r == decoded
    ensures |decoded| > ReadmeLimit ==> |r| == ReadmeLimit + 3 && r[..ReadmeLimit] == decoded[..ReadmeLimit] && r[ReadmeLimit..] == "..."
  {
    var keep := if |decoded| < ReadmeLimit then |decoded| else ReadmeLimit;
    decoded[..keep] + (if |decoded| > ReadmeLimit then "..." else "")
  }

  /** What the content API answered for a README request. */
  datatype ReadmeBody =
    | NoContent                    // the JSON has no `content` key
    | Undecodable                  // base64 or UTF-8 decoding raised
    | Decoded(text: string)        // the decoded text

  datatype ReadmeResponse = ReadmeResponse(status: int, body: ReadmeBody)

  /**
   * `fetch_readme`: a preview exists exactly when the status is 200 and the
   * content decoded; it is then the truncated text.
   */
  function FetchReadme(resp: ReadmeResponse): (r: Option<string>)
    ensures r.Some? <==> resp.status == 200 && resp.body.Decoded?
    ensures r.Some? ==> |r.value| <= ReadmeLimit + 3
    ensures r.Some? && |resp.body.text| <= ReadmeLimit ==> r.value == resp.body.text
  {
    if resp.status != 200 then None
    else
      match resp.body
      case NoContent => None
      case Undecodable => None
      case Decoded(text) => Some(Truncate(text))
  }
}
