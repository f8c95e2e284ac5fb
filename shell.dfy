/** The quote escaping of `do_restaurant` (lunchbot.py:426-429), stated
    against a decoder for one word of the POSIX shell command language
    (POSIX.1-2017, Shell Command Language, section 2.2 "Quoting" and the
    quote removal of section 2.6.7). */
module ShellQuote {
  import opened Text

  /** What each `'` of the menu becomes: close the single quotes, a
      double-quoted `'`, reopen the single quotes. */
  const QuoteEscape: string := "'\"'\"'"

  /** `menu.replace("'", "'\"'\"'")` */
  function Escape(s: string): (r: string)
    ensures '\'' !in s ==> r == s
  {
    EscapeLength(s);
    ReplaceAll(s, "'", QuoteEscape)
  }

  /** Each `'` grows by the four characters around it, and a text without
      `'` is left as it is. */
  lemma {:induction false} EscapeLength(s: string)
    ensures |ReplaceAll(s, "'", QuoteEscape)| == |s| + 4 * multiset(s)['\'']
    ensures '\'' !in s ==> ReplaceAll(s, "'", QuoteEscape) == s
    decreases |s|
  {
    if s != [] {
      EscapeLength(s[1..]);
      assert s == [s[0]] + s[1..];
      assert StartsWith(s, "'") <==> s[0] == '\'';
    }
  }

  datatype Mode = Unquoted | InSingle | InDouble

  /** Characters that, unquoted, end a word or start an expansion; the
      decoder does not follow those and rejects the word instead. */
  const Special: string := " \t\n|&;<>()$`*?[#~"

  /** Characters a backslash escapes inside double quotes (section 2.2.3). */
  const DoubleEscapable: string := "$`\"\\\n"

  function Prepend(c: char, r: Option<string>): (q: Option<string>)
    ensures q.Some? <==> r.Some?
  {
    if r.Some? then Some([c] + r.value) else None
  }

  function PrependAll(p: string, r: Option<string>): (q: Option<string>)
    ensures q.Some? <==> r.Some?
  {
    if r.Some? then Some(p + r.value) else None
  }

  lemma PrependNothing(r: Option<string>)
    ensures PrependAll([], r) == r
  {
    if r.Some? {
      assert [] + r.value == r.value;
    }
  }

  lemma PrependCons(c: char, p: string, r: Option<string>)
    ensures Prepend(c, PrependAll(p, r)) == PrependAll([c] + p, r)
  {
    if r.Some? {
      assert [c] + (p + r.value) == ([c] + p) + r.value;
    }
  }

  /** Quote removal over the rest `s` of a word, reading in `mode`: the
      literal text the word stands for, or `None` when the word is
      unterminated or relies on something this decoder does not model. */
  function ReadWord(mode: Mode, s: string): Option<string>
    decreases |s|
  {
    if s == [] then (if mode == Unquoted then Some([]) else None)
    else
      var c, rest := s[0], s[1..];
      match mode
      case InSingle =>
        // section 2.2.2: everything up to the next ' is literal
        if c == '\'' then ReadWord(Unquoted, rest) else Prepend(c, ReadWord(InSingle, rest))
      case InDouble =>
        // section 2.2.3
        if c == '"' then ReadWord(Unquoted, rest)
        else if c == '\\' && rest != [] && rest[0] in DoubleEscapable then
          if rest[0] == '\n' then ReadWord(InDouble, rest[1..])
          else Prepend(rest[0], ReadWord(InDouble, rest[1..]))
        else if c == '$' || c == '`' then None
        else Prepend(c, ReadWord(InDouble, rest))
      case Unquoted =>
        if c == '\'' then ReadWord(InSingle, rest)
        else if c == '"' then ReadWord(InDouble, rest)
        else if c == '\\' then
          // section 2.2.1
          if rest == [] then None
          else if rest[0] == '\n' then ReadWord(Unquoted, rest[1..])
          else Prepend(rest[0], ReadWord(Unquoted, rest[1..]))
        else if c in Special then None
        else Prepend(c, ReadWord(Unquoted, rest))
  }

  /** The value of a complete word. */
  function Decode(word: string): Option<string> {
    ReadWord(Unquoted, word)
  }

  /** Text without `'` reads literally inside single quotes. */
  lemma {:induction false} PlainBody(t: string, tail: string)
    requires '\'' !in t
    ensures ReadWord(InSingle, t + tail) == PrependAll(t, ReadWord(InSingle, tail))
    decreases |t|
  {
    if t == [] {
      assert t + tail == tail;
      PrependNothing(ReadWord(InSingle, tail));
    } else {
      assert (t + tail)[0] == t[0] && (t + tail)[1..] == t[1..] + tail;
      assert t == [t[0]] + t[1..];
      assert t[0] != '\'' && '\'' !in t[1..];
      PlainBody(t[1..], tail);
      assert ReadWord(InSingle, t + tail) == Prepend(t[0], ReadWord(InSingle, t[1..] + tail));
      PrependCons(t[0], t[1..], ReadWord(InSingle, tail));
    }
  }

  /** Inside single quotes, `'"'"'` reads as one `'`: the quotes close, a
      double-quoted `'` follows, and the quotes reopen. */
  lemma QuoteEscapeReads(x: string)
    ensures ReadWord(InSingle, QuoteEscape + x) == Prepend('\'', ReadWord(InSingle, x))
  {
    var w := QuoteEscape + x;
    assert w[0] == '\'' && w[1] == '"' && w[2] == '\'' && w[3] == '"' && w[4] == '\'';
    assert w[1..][1..] == w[2..] && w[2..][1..] == w[3..] && w[3..][1..] == w[4..] && w[4..][1..] == w[5..];
    assert w[5..] == x;
    assert ReadWord(InDouble, w[3..]) == ReadWord(Unquoted, w[4..]) == ReadWord(InSingle, x);
    assert ReadWord(InDouble, w[2..]) == Prepend('\'', ReadWord(InDouble, w[3..]));
    assert ReadWord(Unquoted, w[1..]) == ReadWord(InDouble, w[2..]);
  }

  /** Escaping works character by character. */
  lemma EscapeCons(m: string)
    requires m != []
    ensures Escape(m) == (if m[0] == '\'' then QuoteEscape else [m[0]]) + Escape(m[1..])
  {
    assert StartsWith(m, "'") <==> m[0] == '\'';
  }

  /** Inside single quotes, an escaped text reads back as the text itself. */
  lemma {:induction false} EscapedBody(m: string, tail: string)
    ensures ReadWord(InSingle, Escape(m) + tail) == PrependAll(m, ReadWord(InSingle, tail))
    decreases |m|
  {
    if m == [] {
      assert Escape(m) + tail == tail;
      PrependNothing(ReadWord(InSingle, tail));
    } else {
      var x := Escape(m[1..]) + tail;
      EscapedBody(m[1..], tail);
      EscapeCons(m);
      if m[0] == '\'' {
        assert Escape(m) + tail == QuoteEscape + x;
        QuoteEscapeReads(x);
      } else {
        var w := Escape(m) + tail;
        assert w[0] == m[0] && w[1..] == x;
      }
      PrependCons(m[0], m[1..], ReadWord(InSingle, tail));
      assert [m[0]] + m[1..] == m;
    }
  }

  /** Wrapped in single quotes, the escaped text is one shell word whose
      value is exactly the original text. */
  lemma EscapeRoundTrip(m: string)
    ensures Decode("'" + Escape(m) + "'") == Some(m)
  {
    var w := "'" + Escape(m) + "'";
    assert w[1..] == Escape(m) + "'";
    EscapedBody(m, "'");
    assert ReadWord(InSingle, "'") == Some([]);
    assert m + [] == m;
  }

  /** Every `'` of an escaped text is part of a `'"'"'` group. */
  predicate QuotesOnlyEscaped(e: string)
    decreases |e|
  {
    e == [] ||
    (StartsWith(e, QuoteEscape) && QuotesOnlyEscaped(e[|QuoteEscape|..])) ||
    (e[0] != '\'' && QuotesOnlyEscaped(e[1..]))
  }

  lemma {:induction false} EscapeQuotesOnlyEscaped(m: string)
    ensures QuotesOnlyEscaped(Escape(m))
    decreases |m|
  {
    if m != [] {
      EscapeQuotesOnlyEscaped(m[1..]);
      if m[0] == '\'' {
        assert StartsWith(m, "'");
        var e := Escape(m);
        assert e == QuoteEscape + Escape(m[1..]);
        assert e[|QuoteEscape|..] == Escape(m[1..]);
      } else {
        assert !StartsWith(m, "'");
        assert Escape(m)[1..] == Escape(m[1..]);
      }
    }
  }

  /** Replacing each `'"'"'` group by `'` again undoes the escaping. */
  lemma {:induction false} UnescapeEscape(m: string)
    ensures ReplaceAll(Escape(m), QuoteEscape, "'") == m
    decreases |m|
  {
    if m != [] {
      UnescapeEscape(m[1..]);
      assert m == [m[0]] + m[1..];
      if m[0] == '\'' {
        assert StartsWith(m, "'");
        var e := Escape(m);
        assert e == QuoteEscape + Escape(m[1..]);
        assert StartsWith(e, QuoteEscape);
        assert e[|QuoteEscape|..] == Escape(m[1..]);
      } else {
        assert !StartsWith(m, "'");
        var e := Escape(m);
        assert e == [m[0]] + Escape(m[1..]);
        assert e[0] != QuoteEscape[0];
        assert !StartsWith(e, QuoteEscape);
        assert e[1..] == Escape(m[1..]);
      }
    }
  }
}
