/** The two pieces of logic in the `lunch_*` scrapers that do not depend on
    page markup: the emoji name of the lounaat.info restaurants and Kaarti's
    sentence-casing of its submenu. */
module Extractors {
  import opened Text
  import opened Submenu

  /** `f':{restaurant.replace(" ", "")}:'` (lunchbot.py:343, lunchbot.py:388):
      the restaurant name without spaces, between colons. */
  function EmojiName(restaurant: string): (r: string)
    ensures r == ":" + Without(restaurant, ' ') + ":"
    ensures ' ' !in r
  {
    ReplaceByNothing(restaurant, ' ');
    ":" + ReplaceAll(restaurant, " ", "") + ":"
  }

  /** `[line.capitalize() for line in get_submenu(children, today_fi,
      tomorrow_fi)]` (lunchbot.py:232-235). */
  function KaartiLines(children: seq<string>, today: string, tomorrow: string): (r: seq<string>)
    ensures var lines := Slice(children, today, tomorrow);
      |r| == |lines| && forall k :: 0 <= k < |r| ==> Lower(r[k]) == Lower(lines[k])
  {
    var lines := Slice(children, today, tomorrow);
    CapitalizeAllSameLower(lines);
    seq(|lines|, i requires 0 <= i < |lines| => Capitalize(lines[i]))
  }

  /** Capitalizing every line changes the case of each line and nothing else. */
  lemma CapitalizeAllSameLower(lines: seq<string>)
    ensures forall k :: 0 <= k < |lines| ==> Lower(Capitalize(lines[k])) == Lower(lines[k])
  {
    forall k | 0 <= k < |lines| ensures Lower(Capitalize(lines[k])) == Lower(lines[k]) {
      CapitalizeSameLower(lines[k]);
    }
  }

  /** Capitalizing keeps the submenu's guarantees about the markers: the
      first line still names today and no line names tomorrow. */
  lemma KaartiLinesKeepMarkers(children: seq<string>, today: string, tomorrow: string)
    ensures var r := KaartiLines(children, today, tomorrow);
      |r| == |Slice(children, today, tomorrow)| &&
      (r != [] ==> Matches(r[0], today)) &&
      forall k :: 0 <= k < |r| ==> !Matches(r[k], tomorrow)
  {
    SliceBlocks(children, today, tomorrow);
  }
}
