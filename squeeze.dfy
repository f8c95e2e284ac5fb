/** `squeeze(char, text)` (lunchbot.py:146-152): replace a doubled character
    by a single one until no doubled pair is left. */
module Squeeze {
  import opened Text

  /** No two adjacent positions of `s` both hold `c`. */
  predicate NoDoubled(c: char, s: string) {
    forall i :: 0 <= i < |s| - 1 ==> !(s[i] == c && s[i + 1] == c)
  }

  /** Reference definition: every maximal run of `c` shrinks to one `c`.
      `prev` records that the character just emitted was `c`. */
  function CollapseAfter(c: char, prev: bool, s: string): (r: string)
    ensures |r| <= |s|
    decreases |s|
  {
    if s == [] then []
    else if s[0] == c && prev then CollapseAfter(c, true, s[1..])
    else [s[0]] + CollapseAfter(c, s[0] == c, s[1..])
  }

  function Collapse(c: char, s: string): (r: string)
    ensures |r| <= |s|
    ensures NoDoubled(c, r)
  {
    CollapseAfterNoDoubled(c, false, s);
    CollapseAfter(c, false, s)
  }

  /** The loop of `squeeze`. Each round is one `text.replace(c * 2, c)`;
      the text strictly shrinks in each round, so the loop ends. */
  method Squeeze(c: char, text: string) returns (r: string)
    ensures r == Collapse(c, text)
    ensures NoDoubled(c, r)
  {
    r := text;
    while Contains(r, [c, c])
      invariant Collapse(c, r) == Collapse(c, text)
      decreases |r|
    {
      ReplaceShrinks(r, [c, c], [c]);
      ReplacePairKeepsCollapse(c, false, r);
      r := ReplaceAll(r, [c, c], [c]);
    }
    ContainsPair(r, c);
    CollapseFixedIff(c, r);
  }

  /** One round of pair replacement never changes what the runs collapse to. */
  lemma {:induction false} ReplacePairKeepsCollapse(c: char, prev: bool, s: string)
    ensures CollapseAfter(c, prev, ReplaceAll(s, [c, c], [c])) == CollapseAfter(c, prev, s)
    decreases |s|
  {
    if s == [] {
    } else if StartsWith(s, [c, c]) {
      var t := s[2..];
      assert ReplaceAll(s, [c, c], [c]) == [c] + ReplaceAll(t, [c, c], [c]);
      ReplacePairKeepsCollapse(c, true, t);
      assert s[1..][1..] == t;
      assert CollapseAfter(c, true, s[1..]) == CollapseAfter(c, true, t);
    } else {
      assert ReplaceAll(s, [c, c], [c]) == [s[0]] + ReplaceAll(s[1..], [c, c], [c]);
      ReplacePairKeepsCollapse(c, s[0] == c, s[1..]);
      ReplacePairKeepsCollapse(c, true, s[1..]);
    }
  }

  lemma {:induction false} CollapseAfterNoDoubled(c: char, prev: bool, s: string)
    ensures NoDoubled(c, CollapseAfter(c, prev, s))
    ensures prev && CollapseAfter(c, prev, s) != [] ==> CollapseAfter(c, prev, s)[0] != c
    decreases |s|
  {
    if s != [] {
      if s[0] == c && prev {
        CollapseAfterNoDoubled(c, true, s[1..]);
      } else {
        CollapseAfterNoDoubled(c, s[0] == c, s[1..]);
        var rest := CollapseAfter(c, s[0] == c, s[1..]);
        var r := [s[0]] + rest;
        forall i | 0 <= i < |r| - 1 ensures !(r[i] == c && r[i + 1] == c) {
          if i > 0 {
            assert r[i] == rest[i - 1] && r[i + 1] == rest[i];
          }
        }
      }
    }
  }

  lemma {:induction false} CollapseAfterFixed(c: char, prev: bool, s: string)
    requires NoDoubled(c, s)
    requires prev ==> s == [] || s[0] != c
    ensures CollapseAfter(c, prev, s) == s
    decreases |s|
  {
    if s != [] {
      assert NoDoubled(c, s[1..]) by {
        forall i | 0 <= i < |s[1..]| - 1 ensures !(s[1..][i] == c && s[1..][i + 1] == c) {
          assert s[1..][i] == s[i + 1] && s[1..][i + 1] == s[i + 2];
        }
      }
      if |s| > 1 {
        assert !(s[0] == c && s[1] == c);
      }
      CollapseAfterFixed(c, s[0] == c, s[1..]);
    }
  }

  /** The text is left alone exactly when it has no doubled `c`. */
  lemma CollapseFixedIff(c: char, s: string)
    ensures Collapse(c, s) == s <==> NoDoubled(c, s)
  {
    if NoDoubled(c, s) {
      CollapseAfterFixed(c, false, s);
    }
  }

  /** Squeezing twice changes nothing more. */
  lemma CollapseIdempotent(c: char, s: string)
    ensures Collapse(c, Collapse(c, s)) == Collapse(c, s)
  {
    CollapseFixedIff(c, Collapse(c, s));
  }

  lemma {:induction false} CollapseAfterKeepsChars(c: char, prev: bool, s: string, x: char)
    ensures (x in CollapseAfter(c, prev, s) || (prev && x == c)) <==> (x in s || (prev && x == c))
    decreases |s|
  {
    if s != [] {
      assert x in s <==> x == s[0] || x in s[1..];
      if s[0] == c && prev {
        CollapseAfterKeepsChars(c, true, s[1..], x);
      } else {
        CollapseAfterKeepsChars(c, s[0] == c, s[1..], x);
      }
    }
  }

  /** Squeezing removes duplicates only: a character occurs in the result
      exactly when it occurs in the input. */
  lemma CollapseKeepsChars(c: char, s: string)
    ensures forall x :: x in Collapse(c, s) <==> x in s
  {
    forall x {
      CollapseAfterKeepsChars(c, false, s, x);
    }
  }
}
