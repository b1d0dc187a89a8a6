/** Concrete exchanges with the bot, stated over the model. */
module Scenarios {
  import opened Optional
  import opened Strings
  import opened Render
  import opened Tokens
  import opened Controls
  import opened Handlers

  lemma FastapiQuery()
    ensures SearchQuery("/search fastapi") == Some("fastapi")
  {
    assert "/search fastapi" == "/search" + " " + "fastapi";
    SearchQueryOfCommand("/search", " ", "fastapi");
    StripUnchanged("fastapi");
  }

  lemma FastapiQuoted()
    ensures QuotePlus("fastapi") == "fastapi"
  {
    QuotePlusOfWord("fastapi");
  }

  lemma FastapiEscaped()
    ensures HtmlEscape("fastapi") == "fastapi"
  {
    var s := "fastapi";
    assert forall i :: 0 <= i < |s| ==> !MarkupChar(s[i]);
  }

  lemma Count120000()
    ensures IntToString(120000) == "120000"
  {
    assert NatToString(12) == "12";
    assert NatToString(120) == "120";
    assert NatToString(1200) == "1200";
    assert NatToString(12000) == "12000";
  }

  lemma NavTokenSpelled(query: string, page: int, encoded: string, number: string)
    requires QuotePlus(query) == encoded && IntToString(page) == number
    ensures NavToken(query, page) == "nav|" + encoded + "|" + number
  {
  }

  lemma FastapiToken()
    ensures NavToken("fastapi", 2) == "nav|fastapi|2"
  {
    FastapiQuoted();
    assert IntToString(2) == "2";
    NavTokenSpelled("fastapi", 2, "fastapi", "2");
    FastapiTokenSpelled();
  }

  lemma FastapiTokenSpelled()
    ensures "nav|" + "fastapi" + "|" + "2" == "nav|fastapi|2"
  {
  }

  lemma HeaderSpelled(query: string, total: int, escaped: string, number: string)
    requires HtmlEscape(query) == escaped && IntToString(total) == number
    ensures Header(query, total) == "<b>Results for</b> <code>" + escaped + "</code> \U{2014} " + number + " repositories\n\n"
  {
  }

  lemma FastapiHeader()
    ensures Header("fastapi", 120000)
      == "<b>Results for</b> <code>" + "fastapi" + "</code> \U{2014} " + "120000" + " repositories\n\n"
  {
    FastapiEscaped();
    Count120000();
    HeaderSpelled("fastapi", 120000, "fastapi", "120000");
  }

  /**
   * `/search fastapi` with 120000 results and five on the first page: the text
   * starts with the header naming the query and the count, and the keyboard ends
   * with a navigation row holding Next (to page 2) and no Prev.
   */
  lemma FastapiFirstPage(search: SearchApi, items: seq<Repo>)
    requires |items| == 5
    requires search("fastapi", 1) == SearchOk(120000, items)
    ensures SearchCommand("/search fastapi", search).Results?
    ensures "<b>Results for</b> <code>" + "fastapi" + "</code> \U{2014} " + "120000" + " repositories\n\n"
      <= SearchCommand("/search fastapi", search).text
    ensures |SearchCommand("/search fastapi", search).keyboard| == 6
    ensures SearchCommand("/search fastapi", search).keyboard[5] == [Callback(NextLabel, "nav|fastapi|2")]
  {
    FastapiQuery();
    assert SearchCommand("/search fastapi", search)
      == Results(ResultsText("fastapi", 120000, items), Keyboard("fastapi", 1, 120000, items));
    FastapiText(items);
    FastapiKeyboard(items);
  }

  lemma FastapiText(items: seq<Repo>)
    ensures "<b>Results for</b> <code>" + "fastapi" + "</code> \U{2014} " + "120000" + " repositories\n\n"
      <= ResultsText("fastapi", 120000, items)
  {
    FastapiHeader();
  }

  lemma FastapiKeyboard(items: seq<Repo>)
    requires |items| == 5
    ensures |Keyboard("fastapi", 1, 120000, items)| == 6
    ensures Keyboard("fastapi", 1, 120000, items)[5] == [Callback(NextLabel, "nav|fastapi|2")]
  {
    FastapiToken();
    assert NavRow("fastapi", 1, 120000) == [Callback(NextLabel, NavToken("fastapi", 2))];
  }

  /** `nav|fastapi|2` when the search finds nothing on page 2: "No results on this page", no edit. */
  lemma EmptySecondPage(search: SearchApi, readmes: ReadmeApi, editRejected: bool, markdownRejected: bool)
    requires search("fastapi", 2) == SearchOk(120000, [])
    ensures HandleCallback(Some("nav|fastapi|2"), search, readmes, editRejected, markdownRejected) == NoResultsOnPage
  {
    FastapiToken();
    assert PlainQuery("fastapi");
    NavigationRoundTrip("fastapi", 2, search, readmes, editRejected, markdownRejected);
  }

  /** `readme|octocat/Hello-World` when the content API answers 404: "README not found". */
  lemma ReadmeMissing(search: SearchApi, readmes: ReadmeApi, editRejected: bool, markdownRejected: bool)
    requires readmes("octocat/Hello-World").status == 404
    ensures HandleCallback(Some("readme|octocat/Hello-World"), search, readmes, editRejected, markdownRejected)
      == ReadmeNotFound
  {
    OctocatToken();
    ReadmeButtonRoundTrip("octocat/Hello-World", search, readmes, editRejected, markdownRejected);
  }

  lemma ReadmeTokenSpelled(name: string)
    ensures ReadmeToken(name) == "readme|" + name
  {
  }

  lemma OctocatToken()
    ensures ReadmeToken("octocat/Hello-World") == "readme|octocat/Hello-World"
  {
    ReadmeTokenSpelled("octocat/Hello-World");
    OctocatSpelled();
  }

  lemma OctocatSpelled()
    ensures "readme|" + "octocat/Hello-World" == "readme|octocat/Hello-World"
  {
  }

  /** When the platform rejects the Markdown, the same preview goes out as plain text. */
  lemma MarkdownFallback(fullName: string, text: string, search: SearchApi, readmes: ReadmeApi, editRejected: bool)
    requires readmes(fullName) == ReadmeResponse(200, Decoded(text))
    requires text != ""
    ensures HandleCallback(Some(ReadmeToken(fullName)), search, readmes, editRejected, true)
      == ReadmeSent("README preview for " + HtmlEscape(fullName) + ":\n\n" + Truncate(text), false)
  {
    ReadmeButtonRoundTrip(fullName, search, readmes, editRejected, true);
    assert Truncate(text) != "" by {
      if |text| <= ReadmeLimit {
        assert Truncate(text) == text;
      } else {
        assert |Truncate(text)| == ReadmeLimit + 3;
      }
    }
  }

  /** `/search` with no argument gets the usage text. */
  lemma SearchWithoutQuery(search: SearchApi)
    ensures SearchCommand("/search", search).Text() == "Usage: /search <query>"
  {
    CommandAloneIsUsage("/search", "");
    assert "/search" + "" == "/search";
  }

  /** Prev or Next on a page of results for `c++` searches `c%2B%2B` on the other page. */
  lemma CppNavigation(page: int, search: SearchApi, readmes: ReadmeApi, editRejected: bool, markdownRejected: bool)
    ensures HandleCallback(Some(NavToken("c++", page)), search, readmes, editRejected, markdownRejected)
      == NavigationReply(NavRequest("c%2B%2B", page), search, editRejected)
  {
    PlusInQueryIsLost(page);
  }
}
