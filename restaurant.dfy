/** The text handling of `do_restaurant` (lunchbot.py:403-453): clean the
    scraped menu, keep it for the JSON dump, then escape it for the shell
    command that posts it. */
module Restaurant {
  import opened Text
  import opened Squeeze
  import opened ShellQuote

  /** What a `lunch_*` function returns: (title, emoji, menu, url). */
  datatype Scraped = Scraped(title: string, emoji: string, menu: string, url: string)

  /** The `output` dictionary of one restaurant. */
  datatype MenuOutput = MenuOutput(title: string, menu: string, url: string)

  /** The attachment field that is posted: its title and its value. */
  datatype Field = Field(heading: string, value: string)

  /** Reference definition of the stored menu: every non-breaking space
      deleted, then every run of newlines shrunk to one newline. */
  function CleanMenu(menu: string): (r: string)
    ensures |r| <= |menu|
    ensures NBSP !in r
    ensures !Contains(r, "\n\n")
  {
    var w := Without(menu, NBSP);
    CollapseKeepsChars('\n', w);
    ContainsPair(Collapse('\n', w), '\n');
    assert "\n\n" == ['\n', '\n'];
    Collapse('\n', w)
  }

  /** `do_restaurant`. `ret` is `None` when the scraper returned `None` or
      raised `AttributeError`; the source then returns `None` and posts
      nothing. */
  method DoRestaurant(ret: Option<Scraped>) returns (output: Option<MenuOutput>, field: Option<Field>)
    ensures ret.None? ==> output.None? && field.None?
    ensures ret.Some? ==> output == Some(MenuOutput(ret.value.title, CleanMenu(ret.value.menu), ret.value.url))
    ensures ret.Some? ==> NBSP !in output.value.menu && !Contains(output.value.menu, "\n\n")
    ensures ret.Some? ==> field == Some(Field(ret.value.emoji + " " + ret.value.title,
                                              Escape(output.value.menu) + "\n" + ret.value.url))
  {
    if ret.None? {
      return None, None;
    }
    var Scraped(title, emoji, menu, url) := ret.value;
    ReplaceByNothing(menu, NBSP);
    menu := ReplaceAll(menu, [NBSP], []);
    menu := Squeeze.Squeeze('\n', menu);
    output := Some(MenuOutput(title, menu, url));
    menu := ReplaceAll(menu, "'", QuoteEscape);
    menu := menu + "\n" + url;
    field := Some(Field(emoji + " " + title, menu));
  }

  /** Cleaning twice is cleaning once. */
  lemma CleanMenuIdempotent(menu: string)
    ensures CleanMenu(CleanMenu(menu)) == CleanMenu(menu)
  {
    var w := Without(menu, NBSP);
    CollapseKeepsChars('\n', w);
    WithoutAbsent(Collapse('\n', w), NBSP);
    CollapseIdempotent('\n', w);
  }

  /** With a url free of `'`, the posted value, placed between single
      quotes, is one shell word that stands for the cleaned menu, a newline
      and the url. */
  lemma PostedValueDecodes(menu: string, url: string)
    requires '\'' !in url
    ensures Decode("'" + (Escape(menu) + "\n" + url) + "'") == Some(menu + "\n" + url)
  {
    var rest := "\n" + url;
    var w := "'" + (Escape(menu) + "\n" + url) + "'";
    assert w[1..] == Escape(menu) + (rest + "'");
    EscapedBody(menu, rest + "'");
    assert '\'' !in rest;
    PlainBody(rest, "'");
    assert ReadWord(InSingle, "'") == Some([]);
    assert rest + [] == rest;
    assert menu + rest == menu + "\n" + url;
  }
}
