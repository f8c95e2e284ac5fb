# lunchbot text core in Dafny

lunchbot scrapes the lunch menus of restaurants near the office and posts
them to a Slack channel. This project models the part of `lunchbot.py` that
turns scraped text into the posted message and proves what that part
promises. The HTML fetching, the markup selectors and the Slack call around
it are not modelled.

- `get_submenu` (module `Submenu`). It walks the text blocks of a weekly menu page. It skips empty and boilerplate blocks. It starts at the first remaining block that matches `start`. From that block on, the start block included, it stops before the first block that matches `end`; an `end` match before the start block does not stop it. It drops a block equal to the one kept just before it. The markers are parameters: Kaarti passes today's and tomorrow's Finnish day names, and lunchbot.py:286 passes "viikon burgerit:" and Monday's name.
  - It is a `method` with the source's loop, its `started` flag and its accumulator.
  - It is proved equal to `Slice`, a reference definition built from four stages: keep candidates, drop up to the start, cut at the end, de-duplicate.
  - The properties of `Slice` are proved as lemmas.
- `squeeze` (module `Squeeze`). It is the source's `while` loop of pair replacements. It is proved equal to `Collapse`, a one-pass definition of "shrink every run of `c` to one `c`".
- `day_name_fi` and the rule that picks tomorrow's day number (module `Days`).
- The menu handling of `do_restaurant` (modules `Restaurant` and `ShellQuote`): delete non-breaking spaces, squeeze newlines, store, escape `'`, append the url.
  - The escaping is stated against a decoder for one word of the POSIX shell command language. The decoder follows section 2.2 ("Quoting") of the POSIX.1-2017 Shell Command Language and the quote removal of its section 2.6.7.
- The emoji name of the lounaat.info restaurants and Kaarti's sentence casing of its submenu (module `Extractors`).

Python's string operations are modelled in module `Text`:

- `in` on strings is `Contains`. It is true for the empty pattern, as in Python.
- `str.replace` is `ReplaceAll`: a left-to-right, non-overlapping replacement.
- `lower` and `capitalize` are `Lower` and `Capitalize`, over ASCII letters.

A child element of the HTML page is modelled by the string its `get_text()` returns.

## Model

| member | source | states |
|---|---|---|
| Submenu.Slice | lunchbot.py:170-196 | The reference definition of the result, built from `Candidates`, `FromStart`, `UntilEnd` and `Dedup`. Its own contract bounds its length by the number of children; the properties of its entries are proved in `SliceBlocks` and the lemmas after it. |
| Submenu.GetSubmenu | lunchbot.py:170-196 | The loop computes exactly `Slice(children, start, end)`: skip blocks that are not `Relevant` (empty, or holding the boilerplate phrase, lines 182-185), start at the first block that `Matches` `start` (`start.lower() in child_text.lower()`, line 187), stop before the first block from there on that `Matches` `end` (lines 189-190), drop a block equal to the last kept one. |
| Submenu.Candidates | lunchbot.py:182-187 | Keeping only the non-empty, non-boilerplate blocks never lengthens the sequence. |
| Submenu.FromStart | lunchbot.py:186-187 | The collected part begins at a block matching `start` case-insensitively, and every block before it fails to match `start`. |
| Submenu.FromStartSuffix | lunchbot.py:186-187 | What is collected is a suffix of the candidates. |
| Submenu.UntilEnd | lunchbot.py:188-189 | The kept part is a prefix in which no block matches `end`; when it is shorter than its input, the next block matches `end`. |
| Submenu.Dedup | lunchbot.py:193-194 | De-duplication keeps the first and last block and leaves no two equal entries side by side. |
| Submenu.SliceBlocks | lunchbot.py:178-194 | Every returned entry is one of the children, is non-empty, holds no "Lounas maanantaista perjantaihin" (even when it also names `start` or `end`) and does not match `end`. A non-empty result begins with a block matching `start`. No two adjacent entries are equal. |
| Submenu.StartIndex | lunchbot.py:186-187 | The index of the first non-empty, non-boilerplate block that matches `start`, or the length of the input when there is none. |
| Submenu.FromStartCandidates | lunchbot.py:177-187 | Dropping up to the start is the same as taking the candidates of the children from `StartIndex` on. |
| Submenu.SliceStartsAtStartBlock | lunchbot.py:177-194 | The result is non-empty exactly when a start block exists and does not itself match `end`; it then begins with that very block. |
| Submenu.SliceEmptyWithoutStart | lunchbot.py:177-196 | When no non-empty, non-boilerplate block matches `start`, the result is empty. |
| Submenu.SliceSubsequence | lunchbot.py:178-194 | The result is an order-preserving subsequence of the children. |
| Submenu.CandidatesAppend | lunchbot.py:178-187 | Candidate selection works block by block. |
| Submenu.FromStartAppend | lunchbot.py:186-187 | Once started, the scan stays started (the flag is never reset). |
| Submenu.UntilEndAppend | lunchbot.py:188-189 | After a block matching `end`, nothing later is kept. |
| Submenu.DedupSnoc | lunchbot.py:193-194 | A block is appended exactly when it differs from the last kept one. |
| Submenu.SliceOfThree | lunchbot.py:177-196 | With a block before the start, today's block and tomorrow's block, the result is today's block alone. Nothing is required of the first block against `end`, so an `end` match before the start block does not stop the scan (every Friday, Monday's block precedes Friday's). |
| Submenu.SliceExample | lunchbot.py:177-196 | On `["intro", "MONDAY: soup", "TUESDAY: salad"]` from "monday" to "tuesday", the result is `["MONDAY: soup"]`. |
| Squeeze.Collapse | lunchbot.py:146-152 | The one-pass reference definition: every run of `c` shrinks to one `c`. The result is no longer than the text and has no `c` twice in a row. |
| Squeeze.Squeeze | lunchbot.py:146-152 | The loop terminates (the text shrinks on each round). It returns `Collapse(c, text)`, which has no `c` twice in a row. |
| Squeeze.ReplacePairKeepsCollapse | lunchbot.py:150-151 | One round of `replace(c * 2, c)` does not change the collapsed form, which is the loop invariant. |
| Squeeze.CollapseFixedIff | lunchbot.py:150-152 | A text is returned unchanged if and only if it has no doubled `c`. |
| Squeeze.CollapseIdempotent | lunchbot.py:146-152 | Squeezing twice gives the same text as squeezing once. |
| Squeeze.CollapseKeepsChars | lunchbot.py:146-152 | Squeezing keeps exactly the characters that occur in the text. |
| Text.Contains | lunchbot.py:150 | Python's `p in s`, here `char * 2 in text` (line 150) and the marker tests at lines 182-189. The empty pattern occurs in every string, and a pattern occurs only in a string at least as long as it. `ContainsIff` ties it to an occurrence at some index. |
| Text.Lower | lunchbot.py:186-189 | `str.lower()` on ASCII: the length is kept, no upper-case letter is left, and every character that is not an upper-case letter is kept. |
| Text.ReplaceAll | lunchbot.py:151 | `str.replace`, here at line 151 and also at lines 418 and 429: a text without the pattern comes back unchanged, and so does any text when the replacement equals the pattern. |
| Text.ContainsPair | lunchbot.py:150 | `char * 2 in text` holds exactly when two `char`s stand side by side. |
| Text.ReplaceShrinks | lunchbot.py:151 | Replacing a pattern by text no longer than it never lengthens a text, and replacing it by shorter text shortens every text that contains it. |
| Text.Without | lunchbot.py:418 | Deleting a character removes every occurrence of it and keeps every other character with its count. |
| Text.ReplaceByNothing | lunchbot.py:418 | `replace(x, "")` is the deletion of every `x`. |
| Text.Capitalize | lunchbot.py:235 | `capitalize` keeps the length, upper-cases the first letter and lower-cases the rest. |
| Text.CapitalizeSameLower | lunchbot.py:235 | Capitalizing does not change the lower-cased text, so it does not change which markers a line matches. |
| Days.DayNameFi | lunchbot.py:117-134 | Each of the seven Finnish day names is already lower case and has 7 to 11 letters. The domain is 0..6, outside which the source returns `None`. |
| Days.DayNamesDistinct | lunchbot.py:117-134 | The seven names are pairwise different. |
| Days.TomorrowNumber | lunchbot.py:497-500 | Gives the next working day exactly on Monday to Friday, so Friday gives Monday. It is inside the day table exactly when today is not Sunday. Saturday gives 6 (Sunday, not a working day) and Sunday gives 7, which is outside the table. |
| Days.TomorrowFi | lunchbot.py:497-501 | Tomorrow's name from the day table, which is missing exactly on Sunday. |
| Days.TodayDoesNotNameTomorrow | lunchbot.py:496-501 | From Monday to Saturday, today's name does not contain tomorrow's. So a block whose text is only today's name starts the submenu without ending it. |
| ShellQuote.Escape | lunchbot.py:429 | `menu.replace("'", "'\"'\"'")`: a menu without `'` is left as it is. |
| ShellQuote.EscapeLength | lunchbot.py:429 | The escaped text is longer than the menu by four characters for each `'`, and without `'` it is the menu itself. |
| ShellQuote.EscapeRoundTrip | lunchbot.py:426-429 | An escaped text inside `'…'` is one shell word whose value is the original text. |
| ShellQuote.EscapedBody | lunchbot.py:429 | Inside single quotes, the escaped text reads back as the text itself, whatever follows it. |
| ShellQuote.QuoteEscapeReads | lunchbot.py:429 | Each `'"'"'` inside single quotes stands for one `'`. |
| ShellQuote.EscapeQuotesOnlyEscaped | lunchbot.py:429 | Every `'` in the escaped text is part of a `'"'"'` group. |
| ShellQuote.UnescapeEscape | lunchbot.py:429 | Replacing each `'"'"'` by `'` again gives back the original text. |
| Restaurant.CleanMenu | lunchbot.py:417-420 | The reference definition of the stored menu: non-breaking spaces deleted, then newline runs shrunk. It is no longer than the scraped menu and holds no non-breaking space and no "\n\n". |
| Restaurant.DoRestaurant | lunchbot.py:403-431 | With no scraped result, nothing is stored or posted. The stored menu is the scraped menu without non-breaking spaces and with newline runs shrunk; it holds no non-breaking space and no "\n\n". The posted field is titled "emoji title", and its value is the escaped stored menu, a newline and the url. |
| Restaurant.CleanMenuIdempotent | lunchbot.py:417-420 | Cleaning an already cleaned menu changes nothing. |
| Restaurant.PostedValueDecodes | lunchbot.py:426-431 | When the url holds no `'`, the posted value inside single quotes is one shell word whose value is the cleaned menu, a newline and the url. |
| Text.WithoutAbsent | lunchbot.py:418 | Deleting a character that does not occur changes nothing. |
| Extractors.EmojiName | lunchbot.py:343 | The emoji name is the restaurant name with its spaces deleted, between colons, and holds no space. Line 388 builds it the same way. |
| Extractors.KaartiLines | lunchbot.py:232-235 | Kaarti's lines are the submenu, each capitalized. There are as many lines as the submenu has, and each line differs from its submenu entry in case only: their lower-cased texts are equal. |
| Extractors.CapitalizeAllSameLower | lunchbot.py:235 | Capitalizing each line of a list leaves its lower-cased text unchanged. |
| Extractors.KaartiLinesKeepMarkers | lunchbot.py:232-235 | Sentence-casing Kaarti's submenu keeps its length, keeps a first line that names today, and adds no line that names tomorrow. |

## Left out

- Fetching pages (`get_soup`, `HTMLSession`, `urllib`, the `LOUNAAT_RESPONSE` cache) is network I/O.
- The selector logic of each `lunch_*` scraper is not modelled, because it depends on page markup and library APIs. Only the `get_submenu` call and the `capitalize` map of Kaarti are modelled; `get_text()` is taken as given.
- The `"\n".join` that assembles a scraper's lines is not modelled, because it belongs to the scrapers.
- `dopplr` is not modelled, because it depends on SHA-224.
- `pause` is not modelled, because it depends on the clock.
- `day_name_en` is a wrapper over the `calendar` module.
- The Slack post through `os.system`, `random.choice` of the bot icon and `random.shuffle` of the restaurants are a subprocess and randomness.
- `DoRestaurant` returns the attachment field it would post as a second result, instead of posting it.
- `DoRestaurant`: the `AttributeError` raised by a scraper is folded into the `None` result, and the `print` calls are not modelled.
- `json.dumps` of the attachment is not modelled. It runs after the escaping and turns each `"` into `\"`, so the shell sees `'\"'\"'` rather than `'"'"'`. Only the escaping itself is proved against the shell's quoting rules.
- `PostedValueDecodes` requires a url without `'`, because the source does not escape the url.
- The command line handling is not modelled: argparse, the `locals()` dispatch by restaurant name, the retry on `HTTPError` and the write of `lunch.json`. In that code a `--user` target is replaced by `-c lunch` whenever `--channel` is absent (lunchbot.py:513-518).
- `Text.Lower` and `Text.Capitalize` map ASCII letters only. Python's Unicode case mapping is not modelled; the day names and markers are ASCII.
- `Squeeze.Squeeze` takes a single `char`, where Python accepts any string. The source only calls it with `"\n"`.
- `Days.DayNameFi` requires 0..6. On Sundays the source calls `day_name_fi` with 7 (lunchbot.py:500-501). It gets `None`, and `.lower()` then raises `AttributeError` at module level, outside any `try`, so the run stops before any restaurant is processed. `Days.TomorrowFi` returning `None` stands for that crash.
- Running `get_submenu` twice on the same input gives the same result. This needs no lemma, because the method is proved equal to the function `Slice`.
