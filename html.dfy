/** HTML escaping of the five characters `& < > " '`, as the calendar, the quizzer and the
    notepad each do it; they differ only in the entity used for the apostrophe. */
module Html {
  import opened Text

  /** The characters that are replaced by entities. */
  const Special: set<char> := {'&', '<', '>', '"', '\''}

  /** The two spellings of the apostrophe entity that occur. */
  const AposDecimal: string := "&#39;"
  const AposPadded: string := "&#039;"

  predicate ValidApos(apos: string) {
    apos == AposDecimal || apos == AposPadded
  }

  /** What one character becomes. */
  function Entity(c: char, apos: string): string {
    if c == '&' then "&amp;"
    else if c == '<' then "&lt;"
    else if c == '>' then "&gt;"
    else if c == '"' then "&quot;"
    else if c == '\'' then apos
    else [c]
  }

  /** Single-pass escaping: every special character replaced by its entity, every other
      character kept, in order. */
  function Escape(s: string, apos: string): (r: string)
    requires ValidApos(apos)
    ensures NoneIn(r, {'<', '>', '"', '\''})
    ensures NoneIn(s, Special) ==> r == s
    ensures |r| >= |s|
  {
    if s == [] then [] else Entity(s[0], apos) + Escape(s[1..], apos)
  }

  /** Decoding of the five entities (the reference inverse of `Escape`). */
  function Unescape(s: string, apos: string): string
    decreases |s|
  {
    if s == [] then []
    else if s[0] != '&' then [s[0]] + Unescape(s[1..], apos)
    else if |s| >= 5 && s[..5] == "&amp;" then "&" + Unescape(s[5..], apos)
    else if |s| >= 4 && s[..4] == "&lt;" then "<" + Unescape(s[4..], apos)
    else if |s| >= 4 && s[..4] == "&gt;" then ">" + Unescape(s[4..], apos)
    else if |s| >= 6 && s[..6] == "&quot;" then "\"" + Unescape(s[6..], apos)
    else if |s| >= |apos| > 0 && s[..|apos|] == apos then "'" + Unescape(s[|apos|..], apos)
    else [s[0]] + Unescape(s[1..], apos)
  }

  lemma UnescapeEntity(c: char, rest: string, apos: string)
    requires ValidApos(apos)
    ensures Unescape(Entity(c, apos) + rest, apos) == [c] + Unescape(rest, apos)
  {
    var e := Entity(c, apos);
    var s := e + rest;
    assert s[..|e|] == e && s[|e|..] == rest;
    if c == '&' {
      assert s[..5] == "&amp;";
    } else if c == '<' {
      assert s[..4] == "&lt;" && s[1] == 'l';
    } else if c == '>' {
      assert s[..4] == "&gt;" && s[1] == 'g';
      assert !(|s| >= 5 && s[..5] == "&amp;");
      assert !(s[..4] == "&lt;");
    } else if c == '"' {
      assert s[..6] == "&quot;" && s[1] == 'q';
      assert !(s[..5] == "&amp;");
      assert !(s[..4] == "&lt;");
      assert !(s[..4] == "&gt;");
    } else if c == '\'' {
      assert s[0] == '&' && s[..|apos|] == apos;
      assert s[1] == '#';
      assert !(|s| >= 5 && s[..5] == "&amp;");
      assert !(|s| >= 4 && s[..4] == "&lt;");
      assert !(|s| >= 4 && s[..4] == "&gt;");
      assert !(|s| >= 6 && s[..6] == "&quot;");
    } else {
      assert s[0] == c && s[1..] == rest;
    }
  }

  lemma ReplaceAllOne(x: char, c: char, rep: string)
    ensures ReplaceAll([x], c, rep) == if x == c then rep else [x]
  {
    assert [x][1..] == [];
  }

  /** Escaping loses nothing: unescaping its output gives the input back. */
  lemma {:induction false} UnescapeEscape(s: string, apos: string)
    requires ValidApos(apos)
    ensures Unescape(Escape(s, apos), apos) == s
  {
    if s != [] {
      UnescapeEscape(s[1..], apos);
      UnescapeEntity(s[0], Escape(s[1..], apos), apos);
      assert [s[0]] + s[1..] == s;
    }
  }

  /** Escaping is injective: different texts never render alike. */
  lemma EscapeInjective(s: string, t: string, apos: string)
    requires ValidApos(apos) && Escape(s, apos) == Escape(t, apos)
    ensures s == t
  {
    UnescapeEscape(s, apos);
    UnescapeEscape(t, apos);
  }

  /** JavaScript `s.replaceAll(c, rep)` for a one-character pattern. */
  function ReplaceAll(s: string, c: char, rep: string): string {
    if s == [] then [] else (if s[0] == c then rep else [s[0]]) + ReplaceAll(s[1..], c, rep)
  }

  lemma {:induction false} ReplaceAllConcat(a: string, b: string, c: char, rep: string)
    ensures ReplaceAll(a + b, c, rep) == ReplaceAll(a, c, rep) + ReplaceAll(b, c, rep)
  {
    if a == [] {
      AppendEmpty(b);
    } else {
      ReplaceAllConcat(a[1..], b, c, rep);
      AppendHeadTail(a, b);
      AppendAssoc(if a[0] == c then rep else [a[0]], ReplaceAll(a[1..], c, rep), ReplaceAll(b, c, rep));
    }
  }

  lemma {:induction false} ReplaceAllAbsent(s: string, c: char, rep: string)
    requires NoneIn(s, {c})
    ensures ReplaceAll(s, c, rep) == s
  {
    if s != [] {
      ReplaceAllAbsent(s[1..], c, rep);
      assert [s[0]] + s[1..] == s;
    }
  }

  /** The calendar's escaping: five `replaceAll` passes, ampersand first. */
  function ReplaceChain(s: string): string {
    ReplaceAll(ReplaceAll(ReplaceAll(ReplaceAll(ReplaceAll(s,
      '&', "&amp;"), '<', "&lt;"), '>', "&gt;"), '"', "&quot;"), '\'', AposPadded)
  }

  lemma ReplaceChainConcat(a: string, b: string)
    ensures ReplaceChain(a + b) == ReplaceChain(a) + ReplaceChain(b)
  {
    var a1, b1 := ReplaceAll(a, '&', "&amp;"), ReplaceAll(b, '&', "&amp;");
    ReplaceAllConcat(a, b, '&', "&amp;");
    var a2, b2 := ReplaceAll(a1, '<', "&lt;"), ReplaceAll(b1, '<', "&lt;");
    ReplaceAllConcat(a1, b1, '<', "&lt;");
    var a3, b3 := ReplaceAll(a2, '>', "&gt;"), ReplaceAll(b2, '>', "&gt;");
    ReplaceAllConcat(a2, b2, '>', "&gt;");
    var a4, b4 := ReplaceAll(a3, '"', "&quot;"), ReplaceAll(b3, '"', "&quot;");
    ReplaceAllConcat(a3, b3, '"', "&quot;");
    ReplaceAllConcat(a4, b4, '\'', AposPadded);
  }

  /** On one character the five passes produce that character's entity: no later pass
      touches what an earlier pass wrote. */
  lemma ReplaceChainChar(x: char)
    ensures ReplaceChain([x]) == Entity(x, AposPadded)
  {
    ReplaceAllOne(x, '&', "&amp;");
    if x == '&' {
      AbsentAfter("&amp;", '<', '>', '"', "&lt;", "&gt;", "&quot;");
    } else {
      ReplaceAllOne(x, '<', "&lt;");
      if x == '<' {
        AbsentAfter("&lt;", '>', '"', '\'', "&gt;", "&quot;", AposPadded);
      } else {
        ReplaceChainTail(x);
      }
    }
  }

  /** The last three passes on a character that is neither `&` nor `<`. */
  lemma ReplaceChainTail(x: char)
    requires x != '&' && x != '<'
    ensures ReplaceAll(ReplaceAll(ReplaceAll([x], '>', "&gt;"), '"', "&quot;"), '\'', AposPadded) ==
      Entity(x, AposPadded)
  {
    ReplaceAllOne(x, '>', "&gt;");
    if x == '>' {
      ReplaceAllAbsent("&gt;", '"', "&quot;");
      ReplaceAllAbsent("&gt;", '\'', AposPadded);
    } else {
      ReplaceAllOne(x, '"', "&quot;");
      if x == '"' {
        ReplaceAllAbsent("&quot;", '\'', AposPadded);
      } else {
        ReplaceAllOne(x, '\'', AposPadded);
      }
    }
  }

  /** Passes whose characters do not occur in `s` leave it alone. */
  lemma AbsentAfter(s: string, c1: char, c2: char, c3: char, r1: string, r2: string, r3: string)
    requires NoneIn(s, {c1, c2, c3, '\''})
    ensures ReplaceAll(ReplaceAll(ReplaceAll(s, c1, r1), c2, r2), c3, r3) == s
    ensures ReplaceAll(s, '\'', AposPadded) == s
  {
    ReplaceAllAbsent(s, c1, r1);
    ReplaceAllAbsent(s, c2, r2);
    ReplaceAllAbsent(s, c3, r3);
    ReplaceAllAbsent(s, '\'', AposPadded);
  }

  /** The chained passes of the calendar and the single pass of the notepad agree. */
  lemma {:induction false} ReplaceChainIsEscape(s: string)
    ensures ReplaceChain(s) == Escape(s, AposPadded)
  {
    if s != [] {
      ReplaceChainIsEscape(s[1..]);
      ReplaceChainConcat([s[0]], s[1..]);
      ReplaceChainChar(s[0]);
      assert [s[0]] + s[1..] == s;
    }
  }
}
