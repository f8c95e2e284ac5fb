/** String primitives with the meaning Python gives them in lunchbot.py:
    substring test (`p in s`), `str.lower`, `str.replace`, `str.capitalize`.
    Case mapping is ASCII only. */
module Text {

  datatype Option<T> = None | Some(value: T)

  /** The non-breaking space that the menu cleaning deletes. */
  const NBSP: char := '\U{00A0}'

  predicate StartsWith(s: string, p: string) {
    |p| <= |s| && s[..|p|] == p
  }

  /** Python's `p in s`; the empty pattern occurs in every string. */
  predicate Contains(s: string, p: string)
    ensures p == [] ==> Contains(s, p)
    ensures Contains(s, p) ==> |p| <= |s|
    decreases |s|
  {
    StartsWith(s, p) || (s != [] && Contains(s[1..], p))
  }

  /** `p` occurs in `s` starting at index `i`. */
  predicate OccursAt(s: string, p: string, i: int) {
    0 <= i <= |s| - |p| && s[i..i + |p|] == p
  }

  /** Contains agrees with the positional reading "s has p at some index". */
  lemma {:induction false} ContainsIff(s: string, p: string)
    ensures Contains(s, p) <==> exists i :: OccursAt(s, p, i)
    decreases |s|
  {
    if StartsWith(s, p) {
      assert OccursAt(s, p, 0);
    } else if s == [] {
    } else {
      ContainsIff(s[1..], p);
      if exists i :: OccursAt(s, p, i) {
        var i :| OccursAt(s, p, i);
        assert i != 0;
        assert OccursAt(s[1..], p, i - 1);
      }
      if Contains(s[1..], p) {
        var j :| OccursAt(s[1..], p, j);
        assert OccursAt(s, p, j + 1);
      }
    }
  }

  /** A non-empty pattern can only occur where its first character does, and
      never in a shorter string. */
  lemma {:induction false} ContainsNeedsRoom(s: string, p: string)
    ensures |p| > |s| ==> !Contains(s, p)
    ensures p != [] && p[0] !in s ==> !Contains(s, p)
    decreases |s|
  {
    if s != [] {
      ContainsNeedsRoom(s[1..], p);
      if p != [] && StartsWith(s, p) {
        assert s[0] == p[0];
      }
    }
  }

  /** A doubled character occurs exactly when two adjacent positions hold it. */
  lemma ContainsPair(s: string, x: char)
    ensures Contains(s, [x, x]) <==> exists i :: 0 <= i < |s| - 1 && s[i] == x && s[i + 1] == x
  {
    ContainsIff(s, [x, x]);
    if exists i :: 0 <= i < |s| - 1 && s[i] == x && s[i + 1] == x {
      var i :| 0 <= i < |s| - 1 && s[i] == x && s[i + 1] == x;
      assert OccursAt(s, [x, x], i);
    }
    if Contains(s, [x, x]) {
      var i :| OccursAt(s, [x, x], i);
      assert s[i] == s[i..i + 2][0] && s[i + 1] == s[i..i + 2][1];
    }
  }

  function LowerChar(ch: char): char {
    if 'A' <= ch <= 'Z' then (ch as int + 32) as char else ch
  }

  function UpperChar(ch: char): char {
    if 'a' <= ch <= 'z' then (ch as int - 32) as char else ch
  }

  /** `str.lower()`, character by character. */
  function Lower(s: string): (r: string)
    ensures |r| == |s|
    ensures forall i :: 0 <= i < |r| ==> !('A' <= r[i] <= 'Z')
    ensures forall i :: 0 <= i < |s| && !('A' <= s[i] <= 'Z') ==> r[i] == s[i]
  {
    seq(|s|, i requires 0 <= i < |s| => LowerChar(s[i]))
  }

  /** `str.capitalize()`: the first character upper-cased, the rest lower-cased. */
  function Capitalize(s: string): (r: string)
    ensures |r| == |s|
    ensures s != [] ==> r[0] == UpperChar(s[0])
    ensures forall i :: 1 <= i < |s| ==> r[i] == LowerChar(s[i])
  {
    if s == [] then [] else [UpperChar(s[0])] + Lower(s[1..])
  }

  /** Capitalizing changes case only, so every case-insensitive comparison
      sees the same text before and after. */
  lemma CapitalizeSameLower(s: string)
    ensures Lower(Capitalize(s)) == Lower(s)
  {
  }

  /** Python's `s.replace(pat, rep)` for a non-empty `pat`: occurrences are
      replaced from left to right and never overlap. */
  function ReplaceAll(s: string, pat: string, rep: string): (r: string)
    requires pat != []
    ensures !Contains(s, pat) ==> r == s
    ensures rep == pat ==> r == s
    decreases |s|
  {
    if s == [] then []
    else if StartsWith(s, pat) then
      assert s == s[..|pat|] + s[|pat|..];
      rep + ReplaceAll(s[|pat|..], pat, rep)
    else
      assert s == [s[0]] + s[1..];
      [s[0]] + ReplaceAll(s[1..], pat, rep)
  }

  /** A replacement no longer than its pattern never grows the text, and a
      strictly shorter one shrinks any text in which the pattern occurs. */
  lemma {:induction false} ReplaceShrinks(s: string, pat: string, rep: string)
    requires pat != [] && |rep| <= |pat|
    ensures |ReplaceAll(s, pat, rep)| <= |s|
    ensures |rep| < |pat| && Contains(s, pat) ==> |ReplaceAll(s, pat, rep)| < |s|
    decreases |s|
  {
    if s == [] {
    } else if StartsWith(s, pat) {
      ReplaceShrinks(s[|pat|..], pat, rep);
    } else {
      ReplaceShrinks(s[1..], pat, rep);
    }
  }

  /** Reference definition of deleting every `x` from `s`. */
  function Without(s: string, x: char): (r: string)
    ensures x !in r
    ensures |r| <= |s|
    ensures multiset(r) == multiset(s)[x := 0]
  {
    if s == [] then []
    else
      assert s == [s[0]] + s[1..];
      if s[0] == x then Without(s[1..], x) else [s[0]] + Without(s[1..], x)
  }

  /** `s.replace(x, "")` deletes every `x` and keeps everything else in order. */
  lemma {:induction false} ReplaceByNothing(s: string, x: char)
    ensures ReplaceAll(s, [x], []) == Without(s, x)
    decreases |s|
  {
    if s != [] {
      var pat: string := [x];
      var t := s[1..];
      ReplaceByNothing(t, x);
      assert s[|pat|..] == t;
      if s[0] == x {
        assert StartsWith(s, pat);
        assert ReplaceAll(s, pat, []) == ReplaceAll(t, pat, []);
        assert Without(s, x) == Without(t, x);
      } else {
        assert !StartsWith(s, pat);
        assert ReplaceAll(s, pat, []) == [s[0]] + ReplaceAll(t, pat, []);
        assert Without(s, x) == [s[0]] + Without(t, x);
      }
    }
  }


  /** Deleting a character that does not occur changes nothing. */
  lemma {:induction false} WithoutAbsent(s: string, x: char)
    requires x !in s
    ensures Without(s, x) == s
    decreases |s|
  {
    if s != [] {
      WithoutAbsent(s[1..], x);
      assert s == [s[0]] + s[1..];
    }
  }
}
