# GitHub repository search bot — a Dafny model

This project models `bot.py`, a Telegram bot that searches GitHub repositories.
It covers:

- what `/search <query>` answers;
- how a page of results is written (`make_repo_line`, the header, the joined text);
- the inline keyboard built by `make_keyboard`: one Open/README row per repository
  and an optional Prev/Next row;
- the two callback tokens `nav|<quote_plus(query)>|<page>` and `readme|<full_name>`,
  and how `cb_handler` reads them back;
- how `fetch_readme` turns the content API's answer into a preview.

The two upstream calls are parameters of the handlers:

- `SearchApi` stands for `github_search`: an answer, or the exception it raised;
- `ReadmeApi` stands for the README request: a status and a decoded body.

When the chat platform refuses an edit or a Markdown message, that refusal enters
as a boolean.

Modules, one per file:

- `Optional`: the `Option` type.
- `Strings`: the Python built-ins the bot relies on:
  - `str.isspace`, `strip`, `lstrip`;
  - `split(maxsplit=1)` and `split('|')`;
  - `replace`, `str(int)` and `int(str)`.
- `Render`: `html.escape`, `make_repo_line`, the results header and text, and `fetch_readme`.
- `Tokens`: `quote_plus`, and building and reading the two callback tokens.
- `Controls`: `make_keyboard`, as a loop (`MakeKeyboard`) proved equal to its specification (`Keyboard`).
- `Handlers`: `search_cmd` and `cb_handler`.
- `Scenarios`: concrete exchanges. These are `/search fastapi` with 120000 results, an empty second page, a missing README, and the Markdown fallback.

Behaviour of `bot.py` worth knowing, all of it stated in the model:

- **Next button.** Next appears when `page * 5 < total_count`, the code's
  `end_idx < total_count`; the number of items on the page plays no part.
- **README truncation.** A README longer than 1500 characters keeps its first 1500
  and gains `...`, so the preview is 1503 characters long.
- **Query decoding.** A navigation token is decoded only by `replace('+', ' ')`;
  percent-escapes are not undone. The query comes back unchanged exactly when it
  consists of unreserved characters and spaces; `c++` comes back as `c%2B%2B`
  (`Tokens.PlusInQueryIsLost`).
- **Repository names.** A name containing `|` is read back whole, because only the
  first `|` is split on (`Tokens.ReadmeToken`).
- **Results text.** The text starts with the HTML markup
  `<b>Results for</b> <code>…</code>` (`Scenarios.FastapiFirstPage`).
- **Page numbers.** `int()` skips only ASCII tab, line feed, vertical tab, form feed,
  carriage return and space, plus non-ASCII whitespace; the separators U+001C to
  U+001F, which `str.isspace` accepts, make it fail (`Strings.IntKeepsSeparators`).

## Model

| member | source | states |
|---|---|---|
| Strings.Strip | bot.py:91-94 | `strip()` removes whitespace only, and only at the two ends: the result is the infix of the input that starts after its leading whitespace and is followed only by whitespace; it neither starts nor ends with whitespace, and it is empty exactly when the input is all whitespace |
| Strings.StripUnchanged | bot.py:94 | text whose first and last characters are not whitespace is left unchanged by `strip` and `lstrip` |
| Strings.StripAfterLStrip | bot.py:91-94 | stripping the remainder that `split(maxsplit=1)` left-stripped gives the same query as stripping the raw argument |
| Strings.LStripPastSpaces | bot.py:90 | a run of whitespace in front of a text adds to its leading whitespace and is removed by a left strip |
| Strings.SplitFirstWord | bot.py:90 | `split(maxsplit=1)` gives at most two parts; it gives none exactly when the text is all whitespace; every part is nonempty and starts with a non-space; the first part holds no whitespace |
| Strings.Split | bot.py:121 | `split('\|')` gives one more piece than there are separators; no piece holds the separator; joining the pieces with it gives the text back |
| Strings.SplitJoin | bot.py:121 | splitting undoes joining when no piece holds the separator |
| Strings.FirstIndex | bot.py:149 | the position of the first `\|`: none occurs before it, and it is `\|` unless it is the end |
| Strings.ReplaceChar | bot.py:123 | `replace('+', ' ')` keeps the length and changes exactly the `+` characters |
| Strings.IntToString | bot.py:75-77 | `str(page)` is nonempty, starts with `-` exactly for negative numbers, and is otherwise all decimal digits |
| Strings.IntToStringCharacters | bot.py:75-77 | `str(n)` never holds `\|`, `<`, `>` or any other character that is neither a digit nor `-` |
| Strings.ParseInt | bot.py:122 | `int()` succeeds only on text whose form without the whitespace `int()` skips ends in a digit; a negative result needs a leading `-` |
| Strings.IntStrip | bot.py:122 | the text `int()` reads is the input less the whitespace `int()` skips at each end: an infix preceded and followed only by such whitespace, with neither end such whitespace, empty exactly when the input is all such whitespace |
| Strings.IntSkipsBlanks | bot.py:122 | `int(' 7\n')` is 7 |
| Strings.IntKeepsSeparators | bot.py:122 | `int()` of U+001C followed by `7` fails, although `isspace` holds for U+001C |
| Strings.IntToStringRoundTrip | bot.py:122 | `int(str(n)) == n` for every integer |
| Render.EscapeChar | bot.py:55-57 | one character escaped by `html.escape` holds no raw markup character; a character that is not markup is kept as it is |
| Render.HtmlEscape | bot.py:55-57 | the escaped text holds no raw `<`, `>`, `"` or `'`; it is never shorter than the input; text without markup characters is unchanged |
| Render.EscapeRoundTrip | bot.py:55-57 | reading the entities back gives the original text, so escaping loses nothing |
| Render.DescriptionText | bot.py:56 | the description is empty exactly when it is absent or empty; otherwise it is the item's own |
| Render.LanguageText | bot.py:59 | an absent or empty language reads `Unknown`; any other language is shown as given |
| Render.StarsValue | bot.py:58 | the star count is the item's own when present and 0 when absent |
| Render.RepoLine | bot.py:54-61 | a repository line holds the two brackets of each of `<b>` and `</b>`, plus whatever the unescaped language and URL carry; the name and description add none |
| Render.Header | bot.py:109 | whatever the query, the header holds exactly the `<` and `>` of its four tags |
| Render.RepoLines | bot.py:108 | one line per item, in order |
| Render.ResultsText | bot.py:108-110 | the header is a prefix of the results text |
| Render.ResultsMarkup | bot.py:108-110 | with bracket-free languages and URLs, the text holds 4 + 2·(number of items) of each of `<` and `>`, so no query, name or description can add a tag |
| Render.Truncate | bot.py:48 | text of at most 1500 characters is unchanged; longer text keeps its first 1500 characters and ends with `...`, 1503 characters in all |
| Render.FetchReadme | bot.py:39-51 | there is a preview exactly when the status is 200 and the content decoded; it is at most 1503 characters long, and a short README is shown whole |
| Tokens.QuoteChar | bot.py:75 | `quote_plus` keeps an unreserved character, writes a space as `+`, and writes anything else as `%XX` escapes; only unreserved characters, `+` and `%` come out |
| Tokens.QuotePlus | bot.py:75-77 | the output uses only unreserved characters, `+` and `%`; it is at least as long as the input, and exactly as long when the query is plain; a plain query differs only in writing spaces as `+` |
| Tokens.QuotePlusOfWord | bot.py:75-77 | a query made only of unreserved characters is embedded unchanged |
| Tokens.QuotePlusHasNoSeparator | bot.py:75-77 | the encoded query never holds the `\|` separator |
| Tokens.DecodeQuery | bot.py:123 | reading a query back leaves no `+`, keeps the length and keeps every other character, `%` escapes included |
| Tokens.QueryRoundTrip | bot.py:123 | `replace('+', ' ')` after `quote_plus` gives the query back exactly when it is a plain query |
| Tokens.NavToken | bot.py:75-77 | a navigation token starts with `nav\|` and splits on `\|` into exactly `nav`, the encoded query and the page number |
| Tokens.DecodeNav | bot.py:120-126 | a token without exactly two `\|` is invalid; a decoded query holds no `\|` and no `+` |
| Tokens.DecodeNavFields | bot.py:120-126 | any text of three `\|`-free fields is accepted exactly when `int()` accepts the third field, and then gives the `+`-replaced second field and that integer |
| Tokens.NavTokenDecodes | bot.py:121-123 | every navigation token the keyboard builds is read back, with its page and with its query after the `+` replacement |
| Tokens.NavRoundTrip | bot.py:121-123 | a navigation token gives back exactly its query and page if and only if the query is plain |
| Tokens.PlusInQueryIsLost | bot.py:123 | on any page, the query `c++` comes back as `c%2B%2B` |
| Tokens.DecodeReadme | bot.py:149 | `split('\|', 1)` unpacks into two fields exactly when the text holds a `\|`; the name is everything after the first `\|` |
| Tokens.ReadmeTokenPrefix | bot.py:148-149 | after the `readme\|` prefix, the rest of the data is the repository name, even when it holds `\|` |
| Tokens.ReadmeToken | bot.py:69 | a README token starts with `readme\|`, and reading it back as at bot.py:149 gives the repository name unchanged, even one holding `\|` |
| Controls.NavRow | bot.py:71-77 | Prev is present exactly when `page > 1`, comes first and points to `page - 1`; Next is present exactly when `page * 5 < total`, comes last and points to `page + 1` |
| Controls.Keyboard | bot.py:64-80 | the keyboard has one row per item, in order, each the item's Open/README row; then one more row, the navigation row, exactly when Prev or Next applies |
| Controls.MakeKeyboard | bot.py:64-80 | the loop builds exactly the specified keyboard `Controls.Keyboard`: one row per item in order, then the navigation row when it is not empty |
| Controls.NavigationIgnoresItems | bot.py:71-79 | the rows after the repository rows depend only on query, page and total, never on the items |
| Controls.FirstKeyboardHasNoPrev | bot.py:74-75 | no button of a page-1 keyboard is Prev |
| Controls.KeyboardTokens | bot.py:69-77 | every callback button carries a README token for its own row's repository, or a navigation token for the previous or next page |
| Handlers.SearchQuery | bot.py:90-94 | a query, when there is one, is nonempty and neither starts nor ends with whitespace |
| Handlers.SearchQueryOfCommand | bot.py:90-94 | for a command word, whitespace and an argument, the query is the stripped argument; a blank argument gives the usage text |
| Handlers.CommandAloneIsUsage | bot.py:90-93 | a command followed only by whitespace gives the usage text |
| Handlers.RemainderNeverBlank | bot.py:91 | the second part of `split(maxsplit=1)` never strips to nothing, so the `not parts[1].strip()` test never decides on its own |
| Handlers.SearchCommand | bot.py:89-113 | usage text exactly when there is no query; the failure message, carrying the exception's text, exactly when the search raises; "No repositories found." exactly when the search succeeds with total 0 or no items; results exactly when it succeeds with a nonzero total and items, and then the reply is the results text and the page-1 keyboard for that query, total and items |
| Handlers.SearchReply.Text | bot.py:91-105 | the texts `search_cmd` sends: the usage text, "No repositories found.", the results text, or `GitHub search failed: ` followed by the exception's own text |
| Handlers.FirstPageHasNoPrev | bot.py:112 | the keyboard `/search` sends never offers Prev |
| Handlers.ReadmeReply | bot.py:149-162 | the README branch reports "not found" exactly when there is no preview or the preview is empty, and otherwise sends it |
| Handlers.ReadmeMessage | bot.py:154-161 | both forms name the repository: `README preview for` and the escaped name, right at the start of the plain form and after the opening `*` of the Markdown form; the message ends with the preview itself, and starts with `*` exactly in its Markdown form |
| Handlers.NavigationReply | bot.py:127-147 | a decoded navigation request fails exactly when the search raises; it reports "No results on this page" exactly when there are no items; otherwise it shows the results text and the keyboard of that query, page and response, edited in place unless the edit is refused |
| Handlers.HandleCallback | bot.py:117-164 | data starting with `nav\|` leads to navigation: "Invalid navigation" exactly when the token cannot be read, and otherwise the navigation reply for the decoded request, whatever the query; data starting with `readme\|` gets the README reply for everything after that prefix; anything else, including no data, is acknowledged silently |
| Handlers.NavigationRoundTrip | bot.py:119-147 | pressing Prev or Next with a plain query searches that query and page, and the reply follows the search's answer |
| Handlers.ReadmeButtonRoundTrip | bot.py:148-162 | pressing README asks for that very repository and sends its preview, Markdown first; "not found" when there is no preview |
| Handlers.NavButtonIsNavigation | bot.py:119-126 | any navigation token the bot builds is taken as navigation and never rejected as invalid |
| Handlers.KeyboardButtonsAreHandled | bot.py:117-164 | no callback button of a keyboard is rejected as invalid or silently ignored |
| Scenarios.FastapiQuery | bot.py:90-94 | `/search fastapi` has the query `fastapi` |
| Scenarios.FastapiFirstPage | bot.py:102-113 | 120000 results with five items: the reply is results whose text starts with the header for `fastapi` and 120000, and whose keyboard has five repository rows and then one row holding only Next with `nav\|fastapi\|2` |
| Scenarios.EmptySecondPage | bot.py:133-137 | `nav\|fastapi\|2` with no items on page 2 gives "No results on this page", without editing |
| Scenarios.ReadmeMissing | bot.py:150-153 | `readme\|octocat/Hello-World` with a 404 gives "README not found" |
| Scenarios.MarkdownFallback | bot.py:154-161 | when Markdown is refused, the same preview goes out as plain text |
| Scenarios.SearchWithoutQuery | bot.py:90-92 | `/search` alone gets the usage text |
| Scenarios.CppNavigation | bot.py:119-141 | Prev or Next on a `c++` results page searches `c%2B%2B` on the requested page and replies accordingly |

## Left out

- HTTP requests: the query parameters, headers, token and timeouts of `github_search` and `fetch_readme` are not modelled. The upstream APIs are parameters of the handlers.
- Base64 and UTF-8 decoding with `errors='ignore'`: `ReadmeBody` records only the outcome. The outcome is no `content` key, a decoding error, or the decoded text.
- Exceptions that escape the handlers are not modelled:
  - the README request raising, or `resp.json()` failing;
  - `make_repo_line` or `make_keyboard` meeting an item without `full_name` or `html_url`;
  - the plain-text fallback send failing as well.

  In these cases `bot.py` does not acknowledge the callback. The model's replies cover only the paths that `bot.py` handles.
- Repository fields present but `null`: Python would print `None` for a null `stargazers_count` or `html_url`. `Repo` models these fields as absent or as strings.
- The `/start` handler's fixed greeting is not modelled, nor are the environment configuration, logging and `app.run()`.
- Telegram's limits are not modelled. These are the 64-byte `callback_data` limit, message length, and the `disable_web_page_preview` and `parse_mode` rendering.
- Concurrency between handlers is not modelled, because none of them shares state.
- Strings.ParseInt: does not accept the non-ASCII decimal digits that Python's `int()` also accepts. Its contract gives only necessary conditions for a value (a `Some` result implies a digit at the end of the text `int()` reads, and a negative value implies a leading `-`), not when parsing succeeds; the exact round trip with `str()` is `Strings.IntToStringRoundTrip`.
- `Strings.IsSpace`: follows CPython's whitespace table for the code points listed; a future Unicode version could differ.
