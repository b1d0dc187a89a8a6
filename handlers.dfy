/**
 * The two chat handlers of bot.py, `search_cmd` and `cb_handler`, as functions from
 * the incoming text and the upstream answers to the reply the bot makes. The search
 * API, the content API and the chat platform's refusals are parameters.
 */
module Handlers {
  import opened Optional
  import opened Strings
  import opened Render
  import opened Tokens
  import opened Controls

  /** What `github_search(q, page)` gives back: the exception it raised, or the
      response's `total_count` (0 when absent) and `items` (empty when absent). */
  datatype SearchResponse = SearchRaised(message: string) | SearchOk(totalCount: int, items: seq<Repo>)

  type SearchApi = (string, int) -> SearchResponse
  type ReadmeApi = string -> ReadmeResponse

  /**
   * The query of a `/search` message (`text.split(maxsplit=1)`, then `strip()`), or
   * None when the bot answers with the usage text. A query is never empty and never
   * starts or ends with whitespace.
   */
  function SearchQuery(text: string): (q: Option<string>)
    ensures q.Some? ==> q.value != "" && !IsSpace(q.value[0]) && !IsSpace(q.value[|q.value| - 1])
  {
    var parts := SplitFirstWord(text);
    if |parts| < 2 then None
    else
      var arg := Strip(parts[1]);
      if arg == "" then None else Some(arg)
  }

  lemma FirstSpaceAfterWord(command: string, rest: string)
    requires forall i :: 0 <= i < |command| ==> !IsSpace(command[i])
    requires rest != [] && IsSpace(rest[0])
    ensures FirstSpace(command + rest) == |command|
  {
    var s := command + rest;
    assert s[|command|] == rest[0];
  }

  /** `split(maxsplit=1)` of a command word, a run of whitespace and an argument. */
  lemma SplitCommandLine(command: string, sep: string, arg: string)
    requires command != [] && forall i :: 0 <= i < |command| ==> !IsSpace(command[i])
    requires sep != [] && forall i :: 0 <= i < |sep| ==> IsSpace(sep[i])
    ensures SplitFirstWord(command + sep + arg) == if LStrip(arg) == [] then [command] else [command, LStrip(arg)]
  {
    var text := command + (sep + arg);
    assert command + sep + arg == text;
    assert LeadingSpaces(text) == 0 by {
      assert text[0] == command[0];
    }
    FirstSpaceAfterWord(command, sep + arg);
    assert text[|command|..] == sep + arg;
    assert text[..|command|] == command;
    LStripPastSpaces(sep, arg);
  }

  /**
   * A command word, a run of whitespace and an argument: the query is the stripped
   * argument, and a blank argument gets the usage text.
   */
  lemma SearchQueryOfCommand(command: string, sep: string, arg: string)
    requires command != [] && forall i :: 0 <= i < |command| ==> !IsSpace(command[i])
    requires sep != [] && forall i :: 0 <= i < |sep| ==> IsSpace(sep[i])
    ensures SearchQuery(command + sep + arg) == if Strip(arg) == [] then None else Some(Strip(arg))
  {
    SplitCommandLine(command, sep, arg);
    StripAfterLStrip(arg);
    assert LStrip(arg) == [] <==> Strip(arg) == [];
  }

  /** A command with nothing but whitespace after it gets the usage text. */
  lemma CommandAloneIsUsage(command: string, trailing: string)
    requires command != [] && forall i :: 0 <= i < |command| ==> !IsSpace(command[i])
    requires forall i :: 0 <= i < |trailing| ==> IsSpace(trailing[i])
    ensures SearchQuery(command + trailing) == None
  {
    var text := command + trailing;
    assert LeadingSpaces(text) == 0 by {
      assert text[0] == command[0];
    }
    if trailing == [] {
      assert FirstSpace(text) == |text| by {
        assert text == command;
      }
    } else {
      FirstSpaceAfterWord(command, trailing);
      assert text[|command|..] == trailing;
      LStripPastSpaces(trailing, []);
      assert trailing + [] == trailing;
    }
  }

  /**
   * The remainder `split(maxsplit=1)` returns never strips to nothing, so the
   * `not parts[1].strip()` test of search_cmd never decides anything on its own.
   */
  lemma RemainderNeverBlank(text: string)
    requires |SplitFirstWord(text)| == 2
    ensures Strip(SplitFirstWord(text)[1]) != []
  {
    var rest := SplitFirstWord(text)[1];
    assert !IsSpace(rest[0]);
  }

  /** The replies of `search_cmd`. */
  datatype SearchReply =
    | Usage
    | SearchFailed(message: string)
    | NoRepositories
    | Results(text: string, keyboard: InlineKeyboard)
  {
    /** The message text the bot sends: the fixed usage and empty-result texts, the
        failure notice ending with the exception's text, or the results text. */
    function Text(): (t: string)
      ensures Usage? ==> t == "Usage: /search <query>"
      ensures NoRepositories? ==> t == "No repositories found."
      ensures SearchFailed? ==> |t| == 22 + |message| && t[..22] == "GitHub search failed: " && t[22..] == message
      ensures Results? ==> t == text
    {
      match this
      case Usage => "Usage: /search <query>"
      case SearchFailed(message) => "GitHub search failed: " + message
      case NoRepositories => "No repositories found."
      case Results(text, _) => text
    }
  }

  /**
   * `search_cmd`: the usage text exactly when there is no query; otherwise page 1 of
   * the search, or its failure, or "No repositories found." when the total is 0 or
   * the page is empty.
   */
  function SearchCommand(text: string, search: SearchApi): (r: SearchReply)
    ensures r.Usage? <==> SearchQuery(text).None?
    ensures r.NoRepositories? <==>
      (&& SearchQuery(text).Some?
       && search(SearchQuery(text).value, 1).SearchOk?
       && (search(SearchQuery(text).value, 1).totalCount == 0 || search(SearchQuery(text).value, 1).items == []))
    ensures r.SearchFailed? <==> SearchQuery(text).Some? && search(SearchQuery(text).value, 1).SearchRaised?
    ensures r.SearchFailed? ==> r.message == search(SearchQuery(text).value, 1).message
    ensures r.Results? <==>
      (&& SearchQuery(text).Some?
       && search(SearchQuery(text).value, 1).SearchOk?
       && search(SearchQuery(text).value, 1).totalCount != 0
       && search(SearchQuery(text).value, 1).items != [])
    ensures r.Results? ==>
      var query := SearchQuery(text).value;
      var total, items := search(query, 1).totalCount, search(query, 1).items;
      r == Results(ResultsText(query, total, items), Keyboard(query, 1, total, items))
  {
    match SearchQuery(text)
    case None => Usage
    case Some(query) =>
      match search(query, 1)
      case SearchRaised(message) => SearchFailed(message)
      case SearchOk(total, items) =>
        if total == 0 || items == [] then NoRepositories
        else Results(ResultsText(query, total, items), Keyboard(query, 1, total, items))
  }

  /** The first page of results never offers Prev. */
  lemma FirstPageHasNoPrev(text: string, search: SearchApi)
    requires SearchCommand(text, search).Results?
    ensures var kb := SearchCommand(text, search).keyboard;
      forall i, j :: 0 <= i < |kb| && 0 <= j < |kb[i]| ==> kb[i][j].text != PrevLabel
  {
    var query := SearchQuery(text).value;
    match search(query, 1)
    case SearchOk(total, items) =>
      assert SearchCommand(text, search).keyboard == Keyboard(query, 1, total, items);
      FirstKeyboardHasNoPrev(query, total, items);
  }

  /** What `cb_handler` does with one callback query. */
  datatype CallbackOutcome =
    | InvalidNavigation                  // answer('Invalid navigation')
    | NavigationSearchFailed             // answer('GitHub search failed')
    | NoResultsOnPage                    // answer('No results on this page'), no edit
    | PageShown(request: NavRequest, text: string, keyboard: InlineKeyboard, edited: bool)
    | ReadmeNotFound                     // answer('README not found', show_alert=True)
    | ReadmeSent(text: string, markdown: bool)
    | SilentAck                          // answer() and nothing else

  predicate IsNavigation(o: CallbackOutcome) {
    o.InvalidNavigation? || o.NavigationSearchFailed? || o.NoResultsOnPage? || o.PageShown?
  }

  /** The README message: Markdown first, plain text if the platform rejects the Markdown. */
  function ReadmeMessage(fullName: string, readme: string, markdown: bool): (m: string)
    ensures |m| > |readme| && m[|m| - |readme|..] == readme
    ensures markdown <==> m[0] == '*'
    ensures var h, k := "README preview for " + HtmlEscape(fullName), if markdown then 1 else 0;
      k + |h| <= |m| && m[k..k + |h|] == h
  {
    var header := "README preview for " + HtmlEscape(fullName);
    if markdown then
      Framed("*", header, "*\n\n", readme);
      "*" + header + "*\n\n" + readme
    else
      Framed("", header, ":\n\n", readme);
      assert "" + header == header;
      header + ":\n\n" + readme
  }

  /** Where the pieces of a framed text sit. */
  lemma Framed(before: string, middle: string, after: string, tail: string)
    requires after != []
    ensures var m := before + middle + after + tail;
      && |m| > |tail| && m[|m| - |tail|..] == tail
      && |before| + |middle| <= |m| && m[|before|..|before| + |middle|] == middle
      && (before != [] ==> m[0] == before[0])
      && (before == [] && middle != [] ==> m[0] == middle[0])
  {
  }

  /** The README branch: an absent or empty preview is "not found". */
  function ReadmeReply(fullName: string, readmes: ReadmeApi, markdownRejected: bool): (o: CallbackOutcome)
    ensures o.ReadmeNotFound? || o.ReadmeSent?
    ensures o.ReadmeNotFound? <==> FetchReadme(readmes(fullName)) in {None, Some("")}
  {
    match FetchReadme(readmes(fullName))
    case None => ReadmeNotFound
    case Some(readme) =>
      if readme == "" then ReadmeNotFound
      else ReadmeSent(ReadmeMessage(fullName, readme, !markdownRejected), !markdownRejected)
  }

  /** The navigation branch, once the token has been read. */
  function NavigationReply(request: NavRequest, search: SearchApi, editRejected: bool): (o: CallbackOutcome)
    ensures IsNavigation(o) && !o.InvalidNavigation?
    ensures o.NavigationSearchFailed? <==> search(request.query, request.page).SearchRaised?
    ensures o.NoResultsOnPage? <==> search(request.query, request.page).SearchOk? && search(request.query, request.page).items == []
    ensures o.PageShown? ==> o.request == request && o.edited == !editRejected
    ensures o.PageShown? ==>
      var resp := search(request.query, request.page);
      && o.text == ResultsText(request.query, resp.totalCount, resp.items)
      && o.keyboard == Keyboard(request.query, request.page, resp.totalCount, resp.items)
  {
    match search(request.query, request.page)
    case SearchRaised(_) => NavigationSearchFailed
    case SearchOk(total, items) =>
      if items == [] then NoResultsOnPage
      else
        PageShown(request, ResultsText(request.query, total, items),
                  Keyboard(request.query, request.page, total, items), !editRejected)
  }

  /**
   * `cb_handler`: dispatch on the prefix of `query.data or ''`. A `nav|` token is
   * navigation, rejected exactly when it cannot be read; a `readme|` token asks for
   * a README; anything else is acknowledged silently.
   */
  function HandleCallback(data: Option<string>, search: SearchApi, readmes: ReadmeApi,
                          editRejected: bool, markdownRejected: bool): (o: CallbackOutcome)
    ensures StartsWith(data.GetOr(""), "nav|") <==> IsNavigation(o)
    ensures !StartsWith(data.GetOr(""), "nav|") && StartsWith(data.GetOr(""), "readme|")
      <==> o.ReadmeNotFound? || o.ReadmeSent?
    ensures !StartsWith(data.GetOr(""), "nav|") && !StartsWith(data.GetOr(""), "readme|") <==> o.SilentAck?
    ensures o.InvalidNavigation? <==> StartsWith(data.GetOr(""), "nav|") && DecodeNav(data.GetOr("")).None?
    ensures StartsWith(data.GetOr(""), "nav|") && DecodeNav(data.GetOr("")).Some?
      ==> o == NavigationReply(DecodeNav(data.GetOr("")).value, search, editRejected)
    ensures !StartsWith(data.GetOr(""), "nav|") && StartsWith(data.GetOr(""), "readme|")
      ==> o == ReadmeReply(data.GetOr("")[7..], readmes, markdownRejected)
  {
    var token := data.GetOr("");
    if StartsWith(token, "nav|") then
      match DecodeNav(token)
      case None => InvalidNavigation
      case Some(request) => NavigationReply(request, search, editRejected)
    else if StartsWith(token, "readme|") then
      ReadmeTokenPrefix(token);
      ReadmeReply(DecodeReadme(token).value, readmes, markdownRejected)
    else SilentAck
  }

  /**
   * Pressing Prev or Next with a plain query searches that very query and page, and
   * the reply follows the search: a failure notice, "No results on this page" with
   * no edit, or the page with its keyboard, edited in place unless the platform
   * refuses the edit.
   */
  lemma NavigationRoundTrip(query: string, page: int, search: SearchApi, readmes: ReadmeApi,
                            editRejected: bool, markdownRejected: bool)
    requires PlainQuery(query)
    ensures var o := HandleCallback(Some(NavToken(query, page)), search, readmes, editRejected, markdownRejected);
      && (search(query, page).SearchRaised? ==> o == NavigationSearchFailed)
      && (search(query, page).SearchOk? && search(query, page).items == [] ==> o == NoResultsOnPage)
      && (search(query, page).SearchOk? && search(query, page).items != [] ==>
            o == PageShown(NavRequest(query, page),
                           ResultsText(query, search(query, page).totalCount, search(query, page).items),
                           Keyboard(query, page, search(query, page).totalCount, search(query, page).items),
                           !editRejected))
  {
    NavRoundTrip(query, page);
    assert StartsWith(NavToken(query, page), "nav|");
  }

  /**
   * Pressing README asks the content API for that very repository, even one whose
   * name holds `|`; an absent or empty preview is "README not found".
   */
  lemma ReadmeButtonRoundTrip(fullName: string, search: SearchApi, readmes: ReadmeApi,
                              editRejected: bool, markdownRejected: bool)
    ensures var o := HandleCallback(Some(ReadmeToken(fullName)), search, readmes, editRejected, markdownRejected);
      && (FetchReadme(readmes(fullName)) in {None, Some("")} ==> o == ReadmeNotFound)
      && (FetchReadme(readmes(fullName)).Some? && FetchReadme(readmes(fullName)).value != "" ==>
            o == ReadmeSent(ReadmeMessage(fullName, FetchReadme(readmes(fullName)).value, !markdownRejected),
                            !markdownRejected))
  {
    var token := ReadmeToken(fullName);
    assert !StartsWith(token, "nav|") by {
      assert token[0] == 'r';
    }
    assert StartsWith(token, "readme|");
  }

  /** Any navigation token the bot builds is read back, whatever the query. */
  lemma NavButtonIsNavigation(query: string, page: int, search: SearchApi, readmes: ReadmeApi,
                              editRejected: bool, markdownRejected: bool)
    ensures var o := HandleCallback(Some(NavToken(query, page)), search, readmes, editRejected, markdownRejected);
      IsNavigation(o) && !o.InvalidNavigation?
  {
    NavTokenDecodes(query, page);
    assert StartsWith(NavToken(query, page), "nav|");
  }

  /** Every button the bot builds is understood by its callback handler: none is
      rejected as invalid navigation and none is silently ignored. */
  lemma KeyboardButtonsAreHandled(query: string, page: int, total: int, items: seq<Repo>, i: int, j: int,
                                  search: SearchApi, readmes: ReadmeApi, editRejected: bool, markdownRejected: bool)
    requires 0 <= i < |Keyboard(query, page, total, items)|
    requires 0 <= j < |Keyboard(query, page, total, items)[i]|
    requires Keyboard(query, page, total, items)[i][j].Callback?
    ensures var o := HandleCallback(Some(Keyboard(query, page, total, items)[i][j].data), search, readmes,
                                    editRejected, markdownRejected);
      !o.InvalidNavigation? && !o.SilentAck?
  {
    var data := Keyboard(query, page, total, items)[i][j].data;
    KeyboardTokens(query, page, total, items, i, j);
    if i < |items| {
      ReadmeButtonRoundTrip(items[i].fullName, search, readmes, editRejected, markdownRejected);
    } else if data == NavToken(query, page - 1) {
      NavButtonIsNavigation(query, page - 1, search, readmes, editRejected, markdownRejected);
    } else {
      NavButtonIsNavigation(query, page + 1, search, readmes, editRejected, markdownRejected);
    }
  }
}
