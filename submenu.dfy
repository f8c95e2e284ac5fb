/** `get_submenu(children, start, end)` (lunchbot.py:170-196). Each child
    element is represented by the text its `get_text()` returns.

    The reference definition `Slice` reads the scan as a pipeline:
    keep the non-empty blocks that are not boilerplate, drop those before the
    first one that mentions `start`, cut at the first one that mentions `end`,
    and collapse adjacent duplicates. `GetSubmenu` is the loop of the source,
    proved equal to `Slice`. */
module Submenu {
  import opened Text

  /** Block text that the scan always ignores (lunchbot.py:182). */
  const Boilerplate: string := "Lounas maanantaista perjantaihin"

  /** A block the scan looks at: non-empty and not boilerplate. */
  predicate Relevant(t: string) {
    t != [] && !Contains(t, Boilerplate)
  }

  /** Case-insensitive marker test, `marker.lower() in t.lower()`. */
  predicate Matches(t: string, marker: string) {
    Contains(Lower(t), Lower(marker))
  }

  predicate NoAdjacentDuplicates(s: seq<string>) {
    forall i :: 0 <= i < |s| - 1 ==> s[i] != s[i + 1]
  }

  /** `a` can be obtained from `b` by deleting elements: order is kept. */
  predicate IsSubsequence(a: seq<string>, b: seq<string>)
    decreases |b|
  {
    if a == [] then true
    else if b == [] then false
    else (a[0] == b[0] && IsSubsequence(a[1..], b[1..])) || IsSubsequence(a, b[1..])
  }

  /** The blocks the scan looks at, in order. */
  function Candidates(children: seq<string>): (r: seq<string>)
    ensures |r| <= |children|
  {
    if children == [] then []
    else if Relevant(children[0]) then [children[0]] + Candidates(children[1..])
    else Candidates(children[1..])
  }

  /** The suffix of `bs` that begins with the first block mentioning `start`. */
  function FromStart(bs: seq<string>, start: string): (r: seq<string>)
    ensures |r| <= |bs|
    ensures r != [] ==> Matches(r[0], start)
    ensures forall k :: 0 <= k < |bs| - |r| ==> !Matches(bs[k], start)
  {
    if bs == [] then []
    else if Matches(bs[0], start) then bs
    else FromStart(bs[1..], start)
  }

  /** FromStart only drops blocks from the front. */
  lemma {:induction false} FromStartSuffix(bs: seq<string>, start: string)
    ensures FromStart(bs, start) == bs[|bs| - |FromStart(bs, start)|..]
    decreases |bs|
  {
    if bs != [] && !Matches(bs[0], start) {
      FromStartSuffix(bs[1..], start);
      assert bs[1..][|bs| - 1 - |FromStart(bs, start)|..] == bs[|bs| - |FromStart(bs, start)|..];
    }
  }

  /** The prefix of `bs` before the first block mentioning `end`. */
  function UntilEnd(bs: seq<string>, end: string): (r: seq<string>)
    ensures |r| <= |bs| && r == bs[..|r|]
    ensures forall k :: 0 <= k < |r| ==> !Matches(r[k], end)
    ensures |r| < |bs| ==> Matches(bs[|r|], end)
  {
    if bs == [] then []
    else if Matches(bs[0], end) then []
    else [bs[0]] + UntilEnd(bs[1..], end)
  }

  /** Collapse each run of equal adjacent blocks to one block. */
  function Dedup(s: seq<string>): (r: seq<string>)
    ensures |r| <= |s|
    ensures s != [] ==> r != [] && r[0] == s[0] && r[|r| - 1] == s[|s| - 1]
    ensures NoAdjacentDuplicates(r)
  {
    if |s| <= 1 then s
    else if s[0] == s[1] then Dedup(s[1..])
    else [s[0]] + Dedup(s[1..])
  }

  /** Reference definition of what `get_submenu` returns. */
  function Slice(children: seq<string>, start: string, end: string): (r: seq<string>)
    ensures |r| <= |children|
  {
    Dedup(UntilEnd(FromStart(Candidates(children), start), end))
  }

  /** Loop invariant of the scan: `submenu` and `started` are what the scan
      has built from `prefix`, and no block of the slice so far mentions `end`. */
  ghost predicate Scanned(prefix: seq<string>, start: string, end: string, started: bool, submenu: seq<string>) {
    var d := FromStart(Candidates(prefix), start);
    (started <==> d != []) && UntilEnd(d, end) == d && submenu == Dedup(d)
  }

  /** The loop of lunchbot.py:176-196: a `started` flag and a list that is
      only appended to. */
  method GetSubmenu(children: seq<string>, start: string, end: string) returns (submenu: seq<string>)
    ensures submenu == Slice(children, start, end)
  {
    submenu := [];
    var started := false;
    ghost var stopped := false;
    for i := 0 to |children|
      invariant !stopped && Scanned(children[..i], start, end, started, submenu)
    {
      var text := children[i];
      assert children[..i + 1] == children[..i] + [text];
      if Contains(text, Boilerplate) {
        ScanSkips(children[..i], text, start, end, started, submenu);
        continue;
      }
      if text != [] {
        ghost var wasStarted, was := started, submenu;
        if Contains(Lower(text), Lower(start)) {
          started := true;
        }
        if started && Contains(Lower(text), Lower(end)) {
          ScanStops(children, i, start, end, wasStarted, was);
          stopped := true;
          break;
        }
        if started {
          if submenu == [] || submenu[|submenu| - 1] != text {
            submenu := submenu + [text];
          }
        }
        ScanKeeps(children[..i], text, start, end, wasStarted, was);
      } else {
        ScanSkips(children[..i], text, start, end, started, submenu);
      }
    }
    if !stopped {
      assert children[..|children|] == children;
      ScanFinishes(children, start, end, started, submenu);
    }
  }

  /** An empty or boilerplate block changes nothing (lunchbot.py:182-186). */
  lemma ScanSkips(prefix: seq<string>, x: string, start: string, end: string, started: bool, submenu: seq<string>)
    requires Scanned(prefix, start, end, started, submenu) && !Relevant(x)
    ensures Scanned(prefix + [x], start, end, started, submenu)
  {
    CandidatesAppend(prefix, [x]);
    assert Candidates(prefix + [x]) == Candidates(prefix);
  }

  /** A relevant block that does not end the scan: the flag is raised if it
      mentions `start`, and once raised the block is appended unless it
      repeats the last one (lunchbot.py:187-194). */
  lemma ScanKeeps(prefix: seq<string>, x: string, start: string, end: string, started: bool, submenu: seq<string>)
    requires Scanned(prefix, start, end, started, submenu) && Relevant(x)
    requires !((started || Matches(x, start)) && Matches(x, end))
    ensures var started' := started || Matches(x, start);
      Scanned(prefix + [x], start, end, started',
              if started' && (submenu == [] || submenu[|submenu| - 1] != x) then submenu + [x] else submenu)
  {
    var c := Candidates(prefix);
    var d := FromStart(c, start);
    CandidatesAppend(prefix, [x]);
    assert Candidates([x]) == [x];
    FromStartAppend(c, [x], start);
    if started || Matches(x, start) {
      assert FromStart(c + [x], start) == d + [x];
      SliceGrows(d, x, end);
    } else {
      assert FromStart([x], start) == [];
    }
  }

  /** Appending a block that does not mention `end` to a slice without
      such a block: the block is kept unless it repeats the last one. */
  lemma SliceGrows(d: seq<string>, x: string, end: string)
    requires UntilEnd(d, end) == d && !Matches(x, end)
    ensures UntilEnd(d + [x], end) == d + [x]
    ensures Dedup(d + [x]) == if Dedup(d) != [] && Dedup(d)[|Dedup(d)| - 1] == x then Dedup(d) else Dedup(d) + [x]
  {
    UntilEndAppend(d, [x], end);
    assert UntilEnd([x], end) == [x];
    DedupSnoc(d, x);
  }

  /** A relevant block that mentions `end` once the flag is raised ends the
      scan, and nothing after it can change the result (lunchbot.py:189-190). */
  lemma ScanStops(children: seq<string>, i: int, start: string, end: string, started: bool, submenu: seq<string>)
    requires 0 <= i < |children| && Scanned(children[..i], start, end, started, submenu)
    requires Relevant(children[i]) && (started || Matches(children[i], start)) && Matches(children[i], end)
    ensures Slice(children, start, end) == submenu
  {
    var x := children[i];
    var c := Candidates(children[..i]);
    var d := FromStart(c, start);
    assert children[..i + 1] == children[..i] + [x];
    CandidatesAppend(children[..i], [x]);
    assert Candidates([x]) == [x];
    assert Candidates(children[..i + 1]) == c + [x];
    FromStartAppend(c, [x], start);
    assert FromStart([x], start) == (if Matches(x, start) then [x] else []);
    var d' := FromStart(c + [x], start);
    assert d' == d + [x];
    UntilEndAppend(d, [x], end);
    assert UntilEnd([x], end) == [];
    assert UntilEnd(d', end) == UntilEnd(d, end) == d;
    CutAfter(children, i + 1, start, end);
  }

  /** If the first `n` children already hold a block that cuts the slice,
      the remaining children do not matter. */
  lemma CutAfter(children: seq<string>, n: int, start: string, end: string)
    requires 0 <= n <= |children|
    requires var d := FromStart(Candidates(children[..n]), start); d != [] && UntilEnd(d, end) != d
    ensures Slice(children, start, end) == Dedup(UntilEnd(FromStart(Candidates(children[..n]), start), end))
  {
    var head, tail := children[..n], children[n..];
    assert children == head + tail;
    CandidatesAppend(head, tail);
    var c := Candidates(head);
    FromStartAppend(c, Candidates(tail), start);
    UntilEndAppend(FromStart(c, start), Candidates(tail), end);
  }

  /** When the loop runs off the end, the invariant is the result. */
  lemma ScanFinishes(children: seq<string>, start: string, end: string, started: bool, submenu: seq<string>)
    requires Scanned(children, start, end, started, submenu)
    ensures Slice(children, start, end) == submenu
  {
  }

  lemma {:induction false} CandidatesAppend(a: seq<string>, b: seq<string>)
    ensures Candidates(a + b) == Candidates(a) + Candidates(b)
    decreases |a|
  {
    if a != [] {
      assert (a + b)[1..] == a[1..] + b;
      CandidatesAppend(a[1..], b);
    } else {
      assert a + b == b;
    }
  }

  lemma {:induction false} FromStartAppend(a: seq<string>, b: seq<string>, start: string)
    ensures FromStart(a + b, start) == if FromStart(a, start) != [] then FromStart(a, start) + b else FromStart(b, start)
    decreases |a|
  {
    if a != [] {
      assert (a + b)[1..] == a[1..] + b;
      FromStartAppend(a[1..], b, start);
    } else {
      assert a + b == b;
    }
  }

  lemma {:induction false} UntilEndAppend(a: seq<string>, b: seq<string>, end: string)
    ensures UntilEnd(a + b, end) == if UntilEnd(a, end) == a then a + UntilEnd(b, end) else UntilEnd(a, end)
    decreases |a|
  {
    if a != [] {
      assert (a + b)[1..] == a[1..] + b;
      UntilEndAppend(a[1..], b, end);
      if !Matches(a[0], end) {
        assert UntilEnd(a, end) == a <==> UntilEnd(a[1..], end) == a[1..];
      }
    } else {
      assert a + b == b;
    }
  }

  /** Appending one block to the input of Dedup appends it to the output
      unless it repeats the last block (lunchbot.py:193). */
  lemma {:induction false} DedupSnoc(a: seq<string>, x: string)
    ensures Dedup(a + [x]) == if a != [] && a[|a| - 1] == x then Dedup(a) else Dedup(a) + [x]
    decreases |a|
  {
    if |a| == 1 {
      assert a + [x] == [a[0], x];
    } else if |a| > 1 {
      var b := a + [x];
      assert b[0] == a[0] && b[1] == a[1] && b[1..] == a[1..] + [x];
      assert a[1..][|a[1..]| - 1] == a[|a| - 1];
      DedupSnoc(a[1..], x);
      if a[0] != a[1] {
        assert [a[0]] + (Dedup(a[1..]) + [x]) == ([a[0]] + Dedup(a[1..])) + [x];
      }
    }
  }

  lemma {:induction false} CandidatesBlocks(children: seq<string>)
    ensures forall k :: 0 <= k < |Candidates(children)| ==>
      Candidates(children)[k] in children && Relevant(Candidates(children)[k])
    decreases |children|
  {
    if children != [] {
      CandidatesBlocks(children[1..]);
    }
  }

  lemma {:induction false} DedupBlocks(s: seq<string>)
    ensures forall k :: 0 <= k < |Dedup(s)| ==> Dedup(s)[k] in s
    decreases |s|
  {
    if |s| > 1 {
      DedupBlocks(s[1..]);
    }
  }

  /** Every block of the result is a child text that is non-empty, is not
      boilerplate and does not mention `end`; the first one mentions
      `start`; no block repeats the one before it. */
  lemma SliceBlocks(children: seq<string>, start: string, end: string)
    ensures var r := Slice(children, start, end);
      forall k :: 0 <= k < |r| ==> r[k] in children && Relevant(r[k]) && !Matches(r[k], end)
    ensures var r := Slice(children, start, end); r != [] ==> Matches(r[0], start)
    ensures NoAdjacentDuplicates(Slice(children, start, end))
  {
    var c := Candidates(children);
    var f := FromStart(c, start);
    var u := UntilEnd(f, end);
    CandidatesBlocks(children);
    FromStartSuffix(c, start);
    DedupBlocks(u);
    forall k | 0 <= k < |Dedup(u)|
      ensures Dedup(u)[k] in children && Relevant(Dedup(u)[k]) && !Matches(Dedup(u)[k], end)
    {
      var j :| 0 <= j < |u| && u[j] == Dedup(u)[k];
      assert u[j] == f[j] == c[|c| - |f| + j];
    }
  }

  /** The first block mentioning `start` among the blocks the scan looks at
      (`|children|` when there is none). */
  function StartIndex(children: seq<string>, start: string): (k: nat)
    ensures k <= |children|
    ensures k < |children| ==> Relevant(children[k]) && Matches(children[k], start)
    ensures forall j :: 0 <= j < k && Relevant(children[j]) ==> !Matches(children[j], start)
  {
    if children == [] then 0
    else if Relevant(children[0]) && Matches(children[0], start) then 0
    else 1 + StartIndex(children[1..], start)
  }

  lemma {:induction false} FromStartCandidates(children: seq<string>, start: string)
    ensures FromStart(Candidates(children), start) == Candidates(children[StartIndex(children, start)..])
    decreases |children|
  {
    if children != [] && !(Relevant(children[0]) && Matches(children[0], start)) {
      FromStartCandidates(children[1..], start);
      assert children[1..][StartIndex(children[1..], start)..] == children[StartIndex(children, start)..];
    }
  }

  /** The slice is non-empty exactly when some block the scan looks at
      mentions `start` and the first such block does not also mention `end`;
      it then begins with that block. */
  lemma SliceStartsAtStartBlock(children: seq<string>, start: string, end: string)
    ensures var k := StartIndex(children, start);
      Slice(children, start, end) != [] <==> k < |children| && !Matches(children[k], end)
    ensures var k := StartIndex(children, start);
      Slice(children, start, end) != [] ==> Slice(children, start, end)[0] == children[k]
  {
  }

  /** Without a block that mentions `start`, the result is empty. */
  lemma SliceEmptyWithoutStart(children: seq<string>, start: string, end: string)
    requires forall k :: 0 <= k < |children| && Relevant(children[k]) ==> !Matches(children[k], start)
    ensures Slice(children, start, end) == []
  {
    SliceStartsAtStartBlock(children, start, end);
  }

  lemma {:induction false} SubsequenceRefl(a: seq<string>)
    ensures IsSubsequence(a, a)
    decreases |a|
  {
    if a != [] {
      SubsequenceRefl(a[1..]);
    }
  }

  lemma {:induction false} SubsequenceTrans(a: seq<string>, b: seq<string>, c: seq<string>)
    requires IsSubsequence(a, b) && IsSubsequence(b, c)
    ensures IsSubsequence(a, c)
    decreases |c|
  {
    if a != [] {
      if b[0] == c[0] && IsSubsequence(b[1..], c[1..]) {
        if a[0] == b[0] && IsSubsequence(a[1..], b[1..]) {
          SubsequenceTrans(a[1..], b[1..], c[1..]);
        } else {
          SubsequenceTrans(a, b[1..], c[1..]);
        }
      } else {
        SubsequenceTrans(a, b, c[1..]);
      }
    }
  }

  lemma {:induction false} SuffixSubsequence(s: seq<string>, k: nat)
    requires k <= |s|
    ensures IsSubsequence(s[k..], s)
    decreases k
  {
    if k == 0 {
      SubsequenceRefl(s);
    } else {
      SuffixSubsequence(s[1..], k - 1);
      assert s[1..][k - 1..] == s[k..];
      if s[k..] != [] {
        assert IsSubsequence(s[k..], s[1..]);
      }
    }
  }

  lemma {:induction false} PrefixSubsequence(s: seq<string>, k: nat)
    requires k <= |s|
    ensures IsSubsequence(s[..k], s)
    decreases |s|
  {
    if k > 0 {
      PrefixSubsequence(s[1..], k - 1);
      assert s[1..][..k - 1] == s[..k][1..];
    }
  }

  lemma {:induction false} CandidatesSubsequence(children: seq<string>)
    ensures IsSubsequence(Candidates(children), children)
    decreases |children|
  {
    if children != [] {
      CandidatesSubsequence(children[1..]);
    }
  }

  lemma {:induction false} DedupSubsequence(s: seq<string>)
    ensures IsSubsequence(Dedup(s), s)
    decreases |s|
  {
    if |s| <= 1 {
      SubsequenceRefl(s);
    } else {
      DedupSubsequence(s[1..]);
    }
  }

  /** The result keeps the blocks in the order the page has them. */
  lemma SliceSubsequence(children: seq<string>, start: string, end: string)
    ensures IsSubsequence(Slice(children, start, end), children)
  {
    var c := Candidates(children);
    var f := FromStart(c, start);
    var u := UntilEnd(f, end);
    CandidatesSubsequence(children);
    FromStartSuffix(c, start);
    SuffixSubsequence(c, |c| - |f|);
    PrefixSubsequence(f, |u|);
    DedupSubsequence(u);
    SubsequenceTrans(f, c, children);
    SubsequenceTrans(u, f, children);
    SubsequenceTrans(Dedup(u), u, children);
  }

  /** A start block between a leading block and a block that ends the
      slice: the slice is the start block alone. */
  lemma SliceOfThree(a: string, b: string, c: string, start: string, end: string)
    requires Relevant(a) && Relevant(b) && Relevant(c)
    requires !Matches(a, start) && Matches(b, start) && !Matches(b, end) && Matches(c, end)
    ensures Slice([a, b, c], start, end) == [b]
  {
    var blocks := [a, b, c];
    assert blocks[1..] == [b, c] && blocks[1..][1..] == [c] && blocks[1..][1..][1..] == [];
    assert Candidates([c]) == [c];
    assert Candidates([b, c]) == [b, c];
    assert Candidates(blocks) == blocks;
    assert FromStart(blocks, start) == [b, c];
    assert UntilEnd([b, c], end) == [b];
  }

  /** A non-empty block shorter than the boilerplate phrase is looked at. */
  lemma ShortIsRelevant(t: string)
    requires 0 < |t| < |Boilerplate|
    ensures Relevant(t)
  {
    ContainsNeedsRoom(t, Boilerplate);
  }

  lemma ExampleIntro()
    ensures Relevant("intro") && !Matches("intro", "monday")
  {
  }

  lemma ExampleMondayStarts()
    ensures Matches("MONDAY: soup", "monday")
  {
    assert Lower("MONDAY: soup") == "monday: soup";
    assert StartsWith("monday: soup", "monday");
  }

  lemma ExampleMondayDoesNotEnd()
    ensures !Matches("MONDAY: soup", "tuesday")
  {
    var low := Lower("MONDAY: soup");
    assert low == "monday: soup";
    assert Lower("tuesday") == "tuesday";
    assert 't' !in low;
    ContainsNeedsRoom(low, "tuesday");
  }

  lemma ExampleTuesdayEnds()
    ensures Matches("TUESDAY: salad", "tuesday")
  {
    assert Lower("TUESDAY: salad") == "tuesday: salad";
    assert StartsWith("tuesday: salad", "tuesday");
  }

  /** The worked example of the extractor: the block for Monday, cut before
      the block for Tuesday. */
  lemma SliceExample()
    ensures Slice(["intro", "MONDAY: soup", "TUESDAY: salad"], "monday", "tuesday") == ["MONDAY: soup"]
  {
    ExampleIntro();
    ShortIsRelevant("MONDAY: soup");
    ExampleMondayStarts();
    ExampleMondayDoesNotEnd();
    ShortIsRelevant("TUESDAY: salad");
    ExampleTuesdayEnds();
    SliceOfThree("intro", "MONDAY: soup", "TUESDAY: salad", "monday", "tuesday");
  }
}
