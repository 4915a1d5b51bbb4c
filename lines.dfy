/** Lines and words of a text: JavaScript `split(/\r?\n/)`, the runs that `match(/\S+/g)`
    finds, and the characters `replace(/\s/g, '')` keeps. */
module Lines {
  import opened Text

  /** `Split` on a string with a known first character. */
  lemma SplitCons(x: char, rest: string, seps: set<char>)
    ensures Split([x] + rest, seps) ==
      if x in seps then [[]] + Split(rest, seps)
      else [[x] + Split(rest, seps)[0]] + Split(rest, seps)[1..]
  {
    ConsParts(x, rest);
  }

  /** Cutting at a separator splits the parts of the two sides apart. */
  lemma {:induction false} SplitConcat(a: string, b: string, c: char, seps: set<char>)
    requires c in seps
    ensures Split(a + [c] + b, seps) == Split(a, seps) + Split(b, seps)
  {
    AppendAssoc(a, [c], b);
    if a == [] {
      AppendEmpty([c] + b);
      SplitCons(c, b, seps);
      assert Split(a, seps) == [[]];
    } else {
      var x, r := a[0], a[1..];
      SplitConcat(r, b, c, seps);
      AppendAssoc(r, [c], b);
      ConsAppend(a, [c] + b);
      SplitCons(x, r + [c] + b, seps);
      SplitCons(x, r, seps);
      var u, v := Split(r, seps), Split(b, seps);
      if x in seps {
        AppendAssoc([[]], u, v);
      } else {
        AppendHeadTail(u, v);
        AppendAssoc([[x] + u[0]], u[1..], v);
      }
    }
  }

  /** Joining separator-free parts with one separator and splitting again gives the parts back. */
  lemma {:induction false} SplitJoinWith(parts: seq<string>, c: char, seps: set<char>)
    requires |parts| >= 1 && c in seps
    requires forall k :: 0 <= k < |parts| ==> NoneIn(parts[k], seps)
    ensures Split(Join(parts, [c]), seps) == parts
  {
    if |parts| == 1 {
      SplitOfSeparatorFree(parts[0], seps);
    } else {
      SplitJoinWith(parts[1..], c, seps);
      SplitPrefix(parts[0], Join(parts[1..], [c]), c, seps);
      assert [parts[0]] + parts[1..] == parts;
    }
  }

  /** Joining two non-empty runs of parts is joining each and putting a separator between. */
  lemma {:induction false} JoinAppend(a: seq<string>, b: seq<string>, sep: string)
    requires |a| >= 1 && |b| >= 1
    ensures Join(a + b, sep) == Join(a, sep) + sep + Join(b, sep)
  {
    if |a| > 1 {
      JoinAppend(a[1..], b, sep);
      assert (a + b)[1..] == a[1..] + b;
    } else {
      assert (a + b)[1..] == b;
    }
  }

  // ---- lines ----

  /** One `\r` removed from the end, if there is one. */
  function DropCR(p: string): (r: string)
    ensures p != [] && p[|p| - 1] == '\r' ==> r + "\r" == p
    ensures (p == [] || p[|p| - 1] != '\r') ==> r == p
  {
    if p != [] && p[|p| - 1] == '\r' then p[..|p| - 1] else p
  }

  /** Each part but the last with one `\r` removed from its end. */
  function DropCRs(parts: seq<string>): (r: seq<string>)
    ensures |r| == |parts|
    ensures |parts| >= 1 ==> r[|r| - 1] == parts[|parts| - 1]
    ensures forall k :: 0 <= k < |parts| - 1 ==> r[k] == DropCR(parts[k])
  {
    if |parts| <= 1 then parts else [DropCR(parts[0])] + DropCRs(parts[1..])
  }

  /** `s.split(/\r?\n/)`: cut at every `\n`, a `\r` just before it belonging to the cut. */
  function SplitLines(s: string): (r: seq<string>)
    ensures |r| == |Split(s, {'\n'})| && |r| >= 1
    ensures forall k :: 0 <= k < |r| ==> NoneIn(r[k], {'\n'})
  {
    var parts := Split(s, {'\n'});
    SplitPartsFree(s, {'\n'});
    var r := DropCRs(parts);
    assert forall k :: 0 <= k < |r| - 1 ==> r[k] == parts[k][..|r[k]|];
    r
  }

  /** There is one line more than there are `\n` characters. */
  lemma LineCount(s: string)
    ensures |SplitLines(s)| == Occurrences(s, '\n') + 1
  {
    SplitCount(s, '\n');
  }

  /** Lines that hold no `\n`, and of which only the last may end with `\r`. */
  predicate LinesLF(lines: seq<string>) {
    (forall k :: 0 <= k < |lines| ==> NoneIn(lines[k], {'\n'})) &&
    (forall k :: 0 <= k < |lines| - 1 ==> lines[k] == [] || lines[k][|lines[k]| - 1] != '\r')
  }

  /** Lines joined with `\n` split back into themselves. */
  lemma JoinLF(lines: seq<string>)
    requires |lines| >= 1 && LinesLF(lines)
    ensures SplitLines(Join(lines, "\n")) == lines
  {
    SplitJoinWith(lines, '\n', {'\n'});
    DropCRsNoCR(lines);
  }

  /** Parts of which only the last may end with `\r` lose nothing. */
  lemma {:induction false} DropCRsNoCR(parts: seq<string>)
    requires forall k :: 0 <= k < |parts| - 1 ==> parts[k] == [] || parts[k][|parts[k]| - 1] != '\r'
    ensures DropCRs(parts) == parts
  {
    if |parts| > 1 {
      DropCRsNoCR(parts[1..]);
      assert DropCR(parts[0]) == parts[0];
      assert [parts[0]] + parts[1..] == parts;
    }
  }

  /** Each line but the last with a `\r` appended. */
  function WithCR(lines: seq<string>): (r: seq<string>)
    ensures |r| == |lines|
    ensures |lines| >= 1 ==> r[|r| - 1] == lines[|lines| - 1]
    ensures forall k :: 0 <= k < |lines| - 1 ==> r[k] == lines[k] + "\r"
  {
    if |lines| <= 1 then lines else [lines[0] + "\r"] + WithCR(lines[1..])
  }

  lemma {:induction false} JoinWithCR(lines: seq<string>)
    ensures Join(lines, "\r\n") == Join(WithCR(lines), "\n")
  {
    if |lines| > 1 {
      JoinWithCR(lines[1..]);
      var w := WithCR(lines);
      ConsParts(lines[0] + "\r", WithCR(lines[1..]));
      assert "\r\n" == "\r" + "\n";
      AppendAssoc(lines[0], "\r", "\n");
    }
  }

  lemma {:induction false} DropCRsWithCR(lines: seq<string>)
    ensures DropCRs(WithCR(lines)) == lines
  {
    if |lines| > 1 {
      DropCRsWithCR(lines[1..]);
      assert WithCR(lines)[1..] == WithCR(lines[1..]);
      assert DropCR(lines[0] + "\r") == lines[0];
      assert [lines[0]] + lines[1..] == lines;
    }
  }

  lemma WithCRNoNewline(lines: seq<string>)
    requires forall k :: 0 <= k < |lines| ==> NoneIn(lines[k], {'\n'})
    ensures forall k :: 0 <= k < |lines| ==> NoneIn(WithCR(lines)[k], {'\n'})
  {
    var w := WithCR(lines);
    forall k | 0 <= k < |w| - 1
      ensures NoneIn(w[k], {'\n'})
    {
      assert w[k] == lines[k] + "\r";
    }
  }

  /** Lines joined with `\r\n` (Windows line ends) split back into themselves as well. */
  lemma JoinCRLF(lines: seq<string>)
    requires |lines| >= 1
    requires forall k :: 0 <= k < |lines| ==> NoneIn(lines[k], {'\n'})
    ensures SplitLines(Join(lines, "\r\n")) == lines
  {
    var w := WithCR(lines);
    var s := Join(lines, "\r\n");
    JoinWithCR(lines);
    WithCRNoNewline(lines);
    SplitJoinWith(w, '\n', {'\n'});
    assert Split(s, {'\n'}) == w;
    DropCRsWithCR(lines);
  }

  // ---- words and non-space characters ----

  /** The non-empty strings of `parts`, in order. */
  function NonEmpty(parts: seq<string>): (r: seq<string>)
    ensures |r| <= |parts|
    ensures forall k :: 0 <= k < |r| ==> r[k] != []
  {
    if parts == [] then []
    else if parts[0] == [] then NonEmpty(parts[1..])
    else [parts[0]] + NonEmpty(parts[1..])
  }

  /** Every string the filter keeps comes from its input. */
  lemma {:induction false} NonEmptyMembers(parts: seq<string>)
    ensures forall k :: 0 <= k < |NonEmpty(parts)| ==> NonEmpty(parts)[k] in parts
  {
    if parts != [] {
      NonEmptyMembers(parts[1..]);
      assert parts == [parts[0]] + parts[1..];
    }
  }

  /** A string is kept exactly when it is in the input and not empty. */
  lemma {:induction false} NonEmptyKeeps(parts: seq<string>, x: string)
    ensures x in NonEmpty(parts) <==> x in parts && x != []
  {
    if parts != [] {
      NonEmptyKeeps(parts[1..], x);
      assert parts == [parts[0]] + parts[1..];
    }
  }

  lemma NonEmptyCons(x: string, rest: seq<string>)
    ensures NonEmpty([x] + rest) == (if x == [] then [] else [x]) + NonEmpty(rest)
  {
    ConsParts(x, rest);
  }

  lemma {:induction false} NonEmptyConcat(a: seq<string>, b: seq<string>)
    ensures NonEmpty(a + b) == NonEmpty(a) + NonEmpty(b)
  {
    if a == [] {
      AppendEmpty(b);
    } else {
      var x, r := a[0], a[1..];
      NonEmptyConcat(r, b);
      ConsAppend(a, b);
      NonEmptyCons(x, r + b);
      NonEmptyCons(x, r);
      AppendAssoc(if x == [] then [] else [x], NonEmpty(r), NonEmpty(b));
    }
  }

  lemma {:induction false} NonEmptyOfNonEmpty(parts: seq<string>)
    requires forall k :: 0 <= k < |parts| ==> parts[k] != []
    ensures NonEmpty(parts) == parts
  {
    if parts != [] {
      NonEmptyOfNonEmpty(parts[1..]);
      assert [parts[0]] + parts[1..] == parts;
    }
  }

  /** The lines longer than `n` characters, in order. */
  function LongerThan(lines: seq<string>, n: nat): (r: seq<string>)
    ensures |r| <= |lines|
    ensures forall k :: 0 <= k < |r| ==> |r[k]| > n && r[k] in lines
  {
    if lines == [] then []
    else if |lines[0]| > n then [lines[0]] + LongerThan(lines[1..], n)
    else LongerThan(lines[1..], n)
  }

  lemma LongerThanCons(x: string, rest: seq<string>, n: nat)
    ensures LongerThan([x] + rest, n) == (if |x| > n then [x] else []) + LongerThan(rest, n)
  {
    ConsParts(x, rest);
  }

  /** The length filter works line by line, so the kept lines stay in input order. */
  lemma {:induction false} LongerThanConcat(a: seq<string>, b: seq<string>, n: nat)
    ensures LongerThan(a + b, n) == LongerThan(a, n) + LongerThan(b, n)
  {
    if a == [] {
      AppendEmpty(b);
    } else {
      var x, r := a[0], a[1..];
      LongerThanConcat(r, b, n);
      ConsAppend(a, b);
      LongerThanCons(x, r + b, n);
      LongerThanCons(x, r, n);
      AppendAssoc(if |x| > n then [x] else [], LongerThan(r, n), LongerThan(b, n));
    }
  }

  /** A line is kept exactly when it is in the input and longer than `n`. */
  lemma {:induction false} LongerThanKeeps(lines: seq<string>, n: nat, x: string)
    ensures x in LongerThan(lines, n) <==> x in lines && |x| > n
  {
    if lines != [] {
      LongerThanKeeps(lines[1..], n, x);
      assert lines == [lines[0]] + lines[1..];
    }
  }

  /** The maximal runs of non-space characters (`s.match(/\S+/g) || []`). */
  function Words(s: string): (r: seq<string>)
    ensures forall k :: 0 <= k < |r| ==> r[k] != [] && NoneIn(r[k], JsSpace)
  {
    var parts := Split(s, JsSpace);
    SplitPartsFree(s, JsSpace);
    var r := NonEmpty(parts);
    NonEmptyMembers(parts);
    r
  }

  /** Space-free words joined by single blanks are found again as they are. */
  lemma WordsOfJoin(ws: seq<string>)
    requires forall k :: 0 <= k < |ws| ==> ws[k] != [] && NoneIn(ws[k], JsSpace)
    ensures Words(Join(ws, " ")) == ws
  {
    if ws == [] {
      assert Split([], JsSpace) == [[]];
    } else {
      SplitJoinWith(ws, ' ', JsSpace);
      NonEmptyOfNonEmpty(ws);
    }
  }

  /** White space at either end holds no word. */
  lemma {:induction false} WordsStripStart(s: string)
    ensures Words(StripStart(s, JsSpace)) == Words(s)
  {
    if s != [] && s[0] in JsSpace {
      WordsStripStart(s[1..]);
      assert Split(s, JsSpace) == [[]] + Split(s[1..], JsSpace);
    }
  }

  lemma {:induction false} WordsStripEnd(s: string)
    ensures Words(StripEnd(s, JsSpace)) == Words(s)
  {
    if s != [] && s[|s| - 1] in JsSpace {
      var t := s[..|s| - 1];
      WordsStripEnd(t);
      assert s == t + [s[|s| - 1]] + [];
      SplitConcat(t, [], s[|s| - 1], JsSpace);
      NonEmptyConcat(Split(t, JsSpace), [[]]);
    }
  }

  /** Trimming first, as the counters do, finds the same words. */
  lemma WordsTrim(s: string)
    ensures Words(Trim(s)) == Words(s)
  {
    WordsStripStart(s);
    WordsStripEnd(StripStart(s, JsSpace));
  }

  /** The characters of `s` that are not in `cs`, in order (`s.replace(/[cs]/g, '')`). */
  function Squeeze(s: string, cs: set<char>): (r: string)
    ensures |r| <= |s| && NoneIn(r, cs)
  {
    if s == [] then [] else (if s[0] in cs then [] else [s[0]]) + Squeeze(s[1..], cs)
  }

  /** All parts glued together with nothing between. */
  function Concat(parts: seq<string>): string {
    if parts == [] then [] else parts[0] + Concat(parts[1..])
  }

  lemma {:induction false} ConcatNonEmpty(parts: seq<string>)
    ensures Concat(NonEmpty(parts)) == Concat(parts)
  {
    if parts != [] {
      ConcatNonEmpty(parts[1..]);
    }
  }

  lemma {:induction false} ConcatSplit(s: string, cs: set<char>)
    ensures Concat(Split(s, cs)) == Squeeze(s, cs)
  {
    if s != [] {
      ConcatSplit(s[1..], cs);
      if s[0] !in cs {
        var t := Split(s[1..], cs);
        assert ([[s[0]] + t[0]] + t[1..])[1..] == t[1..];
        assert Concat(t) == t[0] + Concat(t[1..]);
      }
    }
  }

  /** The non-space characters are exactly the characters of the words, in order. */
  lemma WordsAreSqueeze(s: string)
    ensures Concat(Words(s)) == Squeeze(s, JsSpace)
  {
    ConcatNonEmpty(Split(s, JsSpace));
    ConcatSplit(s, JsSpace);
  }

  /** Every word has at least one character, so there are no more words than characters. */
  lemma {:induction false} WordsAtMostChars(ws: seq<string>)
    requires forall k :: 0 <= k < |ws| ==> ws[k] != []
    ensures |ws| <= |Concat(ws)|
  {
    if ws != [] {
      WordsAtMostChars(ws[1..]);
    }
  }
}
