/**
 * The inline keyboard of a results message (`make_keyboard`): one row per
 * repository, then an optional navigation row.
 */
module Controls {
  import opened Strings
  import opened Render
  import opened Tokens

  /** `RESULTS_PER_PAGE` */
  const PerPage := 5

  const OpenLabel := "\U{1F310} Open"
  const ReadmeLabel := "\U{1F4D6} README"
  const PrevLabel := "\U{2B05}\U{FE0F} Prev"
  const NextLabel := "Next \U{27A1}\U{FE0F}"

  /** An inline button: a link, or a button that sends its callback data back to the bot. */
  datatype Button = Link(text: string, url: string) | Callback(text: string, data: string)

  type InlineKeyboard = seq<seq<Button>>

  /** The row of one repository: open its page, or ask for its README. */
  function ItemRow(r: Repo): seq<Button> {
    [Link(OpenLabel, r.htmlUrl), Callback(ReadmeLabel, ReadmeToken(r.fullName))]
  }

  function Min(a: int, b: int): int {
    if a <= b then a else b
  }

  /**
   * The navigation buttons, computed as bot.py does from the 1-based indices of the
   * page's first and last result. Prev is present exactly when `page > 1` and asks
   * for `page - 1`; Next is present exactly when `page * 5 < total` and asks for
   * `page + 1`; when both are present Prev comes first. The number of items shown
   * on the page plays no part.
   */
  function NavRow(query: string, page: int, total: int): (row: seq<Button>)
    ensures |row| == (if page > 1 then 1 else 0) + (if page * PerPage < total then 1 else 0)
    ensures page > 1 ==> row[0] == Callback(PrevLabel, NavToken(query, page - 1))
    ensures page * PerPage < total ==> row[|row| - 1] == Callback(NextLabel, NavToken(query, page + 1))
  {
    var startIdx := (page - 1) * PerPage + 1;
    var endIdx := Min(startIdx + PerPage - 1, total);
    (if page > 1 then [Callback(PrevLabel, NavToken(query, page - 1))] else [])
      + (if endIdx < total then [Callback(NextLabel, NavToken(query, page + 1))] else [])
  }

  /**
   * The keyboard: one row per repository, in order, holding its link and its README
   * trigger; then one more row, the navigation row, exactly when Prev or Next applies.
   */
  function Keyboard(query: string, page: int, total: int, items: seq<Repo>): (kb: InlineKeyboard)
    ensures |kb| == |items| + (if page > 1 || page * PerPage < total then 1 else 0)
    ensures forall i :: 0 <= i < |items| ==> kb[i] == ItemRow(items[i])
    ensures page > 1 || page * PerPage < total ==> kb[|items|] == NavRow(query, page, total)
  {
    var nav := NavRow(query, page, total);
    seq(|items|, i requires 0 <= i < |items| => ItemRow(items[i])) + (if nav == [] then [] else [nav])
  }

  /** `make_keyboard`: builds the rows one repository at a time, then the navigation row. */
  method MakeKeyboard(query: string, page: int, total: int, items: seq<Repo>) returns (kb: InlineKeyboard)
    ensures kb == Keyboard(query, page, total, items)
  {
    kb := [];
    for i := 0 to |items|
      invariant |kb| == i
      invariant forall j :: 0 <= j < i ==> kb[j] == ItemRow(items[j])
    {
      kb := kb + [ItemRow(items[i])];
    }
    var nav := [];
    var startIdx := (page - 1) * PerPage + 1;
    var endIdx := Min(startIdx + PerPage - 1, total);
    if page > 1 {
      nav := nav + [Callback(PrevLabel, NavToken(query, page - 1))];
    }
    if endIdx < total {
      nav := nav + [Callback(NextLabel, NavToken(query, page + 1))];
    }
    assert nav == NavRow(query, page, total);
    if nav != [] {
      kb := kb + [nav];
    }
  }

  /** Whatever the items, the rows after the repository rows are the same. */
  lemma NavigationIgnoresItems(query: string, page: int, total: int, items1: seq<Repo>, items2: seq<Repo>)
    ensures Keyboard(query, page, total, items1)[|items1|..] == Keyboard(query, page, total, items2)[|items2|..]
  {
    var nav := NavRow(query, page, total);
    var k1, k2 := Keyboard(query, page, total, items1), Keyboard(query, page, total, items2);
    assert k1[|items1|..] == (if nav == [] then [] else [nav]);
    assert k2[|items2|..] == (if nav == [] then [] else [nav]);
  }

  /** The keyboard of page 1 never offers Prev. */
  lemma FirstKeyboardHasNoPrev(query: string, total: int, items: seq<Repo>)
    ensures var kb := Keyboard(query, 1, total, items);
      forall i, j :: 0 <= i < |kb| && 0 <= j < |kb[i]| ==> kb[i][j].text != PrevLabel
  {
    var kb: InlineKeyboard := Keyboard(query, 1, total, items);
    var nav := NavRow(query, 1, total);
    forall i, j | 0 <= i < |kb| && 0 <= j < |kb[i]|
      ensures kb[i][j].text != PrevLabel
    {
      if i < |items| {
        assert kb[i] == ItemRow(items[i]);
      } else {
        assert kb[i] == nav;
      }
    }
  }

  /** Every callback button of a keyboard is one of the two token shapes. */
  lemma KeyboardTokens(query: string, page: int, total: int, items: seq<Repo>, i: int, j: int)
    requires 0 <= i < |Keyboard(query, page, total, items)|
    requires 0 <= j < |Keyboard(query, page, total, items)[i]|
    requires Keyboard(query, page, total, items)[i][j].Callback?
    ensures var data := Keyboard(query, page, total, items)[i][j].data;
      || (i < |items| && data == ReadmeToken(items[i].fullName))
      || (i == |items| && (data == NavToken(query, page - 1) || data == NavToken(query, page + 1)))
  {
    var nav := NavRow(query, page, total);
    if i == |items| {
      assert Keyboard(query, page, total, items)[i] == nav;
    }
  }
}
