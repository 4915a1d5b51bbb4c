/** The string work of the notepad: the word and character counters, indenting and
    unindenting the first text of each selected block, wrapping an imported plain-text file
    into paragraphs, and HTML escaping. */
module Notepad {
  import opened Wrappers
  import opened Text
  import opened Lines
  import opened Html

  // ---- updateCounts ----

  /** `updateCounts`: the words of the trimmed text and its characters other than white space. */
  function Counts(text: string): (r: (nat, nat)) {
    (|Words(Trim(text))|, |Squeeze(text, JsSpace)|)
  }

  /** The word count is the number of maximal runs of non-space characters, the character
      count is the number of characters in those runs, and so there are never more words than
      characters. */
  lemma CountsMeaning(text: string)
    ensures Counts(text).0 == |Words(text)|
    ensures Counts(text).1 == |Concat(Words(text))|
    ensures Counts(text).0 <= Counts(text).1
  {
    WordsTrim(text);
    WordsAreSqueeze(text);
    WordsAtMostChars(Words(text));
  }

  // ---- indent / unindent ----

  /** INDENT: four blanks in front. */
  function Indent(v: string): (r: string)
    ensures |r| == |v| + 4 && r[4..] == v && AllIn(r[..4], {' '})
  {
    "    " + v
  }

  /** The number of leading blanks, counting at most `limit`: the length of the match of
      `^ {1,limit}`, or 0. */
  function LeadingBlanks(v: string, limit: nat): (k: nat)
    ensures k <= limit && k <= |v| && AllIn(v[..k], {' '})
    ensures k < limit ==> k == |v| || v[k] != ' '
  {
    if limit == 0 || v == [] || v[0] != ' ' then 0
    else
      var k := 1 + LeadingBlanks(v[1..], limit - 1);
      assert v[..k] == [v[0]] + v[1..][..k - 1];
      k
  }

  /** UNINDENT: up to four leading blanks removed, and nothing else. */
  function Unindent(v: string): (r: string)
    ensures var k := |v| - |r|; 0 <= k <= 4 && r == v[k..] && AllIn(v[..k], {' '})
    ensures |v| - |r| < 4 ==> r == [] || r[0] != ' '
  {
    v[LeadingBlanks(v, 4)..]
  }

  /** Unindenting an indented value gives the value back. */
  lemma UnindentIndent(v: string)
    ensures Unindent(Indent(v)) == v
  {
    var w := Indent(v);
    assert w[0] == ' ' && w[1] == ' ' && w[2] == ' ' && w[3] == ' ';
    assert LeadingBlanks(w, 4) == 4 by {
      assert w[1..][1..][1..][1..] == v;
    }
  }

  /** ... and indenting an unindented value that had four blanks in front gives it back. */
  lemma IndentUnindent(v: string)
    requires |v| >= 4 && AllIn(v[..4], {' '})
    ensures Indent(Unindent(v)) == v
  {
    assert v[..4] == "    ";
    var r := Unindent(v);
    assert |v| - |r| == 4;
    assert v == v[..4] + v[4..];
  }

  /** What the key press does to one text value. */
  function Transform(v: string, unindent: bool): string {
    if unindent then Unindent(v) else Indent(v)
  }

  /** The `forEach` over the selected blocks: `nodes[i]` is the value of block `i`'s first text
      node, or `None` when it has none; every value is indented or unindented in place, and a
      block without text is skipped. */
  method IndentBlocks(nodes: array<Option<string>>, unindent: bool)
    modifies nodes
    ensures forall i :: 0 <= i < nodes.Length ==>
      nodes[i] == if old(nodes[i]).None? then None else Some(Transform(old(nodes[i]).value, unindent))
  {
    var i := 0;
    while i < nodes.Length
      invariant 0 <= i <= nodes.Length
      invariant forall j :: 0 <= j < i ==>
        nodes[j] == if old(nodes[j]).None? then None else Some(Transform(old(nodes[j]).value, unindent))
      invariant forall j :: i <= j < nodes.Length ==> nodes[j] == old(nodes[j])
    {
      var tn := nodes[i];
      if tn.Some? {
        if unindent {
          var remove := LeadingBlanks(tn.value, 4);
          if remove > 0 {
            nodes[i] := Some(tn.value[remove..]);
          }
        } else {
          nodes[i] := Some("    " + tn.value);
        }
      }
      i := i + 1;
    }
  }

  // ---- plain-text import ----

  /** The notepad's `escapeHtml`: the apostrophe becomes `&#039;`. */
  function EscapeHtml(s: string): (r: string)
    ensures Unescape(r, AposPadded) == s
    ensures NoneIn(s, Special) ==> r == s
    ensures NoneIn(r, {'<', '>', '"', '\''})
  {
    UnescapeEscape(s, AposPadded);
    Escape(s, AposPadded)
  }

  /** An empty line becomes `<p><br></p>`, any other `<p>` + escaped line + `</p>`. */
  function Paragraph(line: string): string {
    if line == [] then "<p><br></p>" else "<p>" + EscapeHtml(line) + "</p>"
  }

  function Paragraphs(lines: seq<string>): string {
    if lines == [] then [] else Paragraph(lines[0]) + Paragraphs(lines[1..])
  }

  /** The editor content for an imported plain-text file. */
  function ImportPlainText(text: string): string {
    Paragraphs(SplitLines(text))
  }

  /** The longest prefix without `<`. */
  function UntilTag(s: string): (r: string)
    ensures |r| <= |s| && r == s[..|r|] && NoneIn(r, {'<'})
    ensures |r| < |s| ==> s[|r|] == '<'
  {
    if s == [] || s[0] == '<' then []
    else
      var r := [s[0]] + UntilTag(s[1..]);
      assert s[..|r|] == [s[0]] + s[1..][..|r| - 1];
      r
  }

  /** A reader for what the import writes: the lines back from a run of paragraphs. */
  function ReadParagraphs(s: string): seq<string>
    decreases |s|
  {
    if |s| < 3 || s[..3] != "<p>" then []
    else
      var body := UntilTag(s[3..]);
      var rest := s[3 + |body|..];
      if body == [] && |rest| >= 8 && rest[..8] == "<br></p>" then [""] + ReadParagraphs(rest[8..])
      else if |rest| >= 4 && rest[..4] == "</p>" then [Unescape(body, AposPadded)] + ReadParagraphs(rest[4..])
      else []
  }

  lemma UntilTagPrefix(a: string, b: string)
    requires NoneIn(a, {'<'}) && b != [] && b[0] == '<'
    ensures UntilTag(a + b) == a
    decreases |a|
  {
    if a != [] {
      AppendHeadTail(a, b);
      UntilTagPrefix(a[1..], b);
      ConsAppend(a, b);
    } else {
      AppendEmpty(b);
    }
  }

  /** Reading one paragraph gives its line. */
  lemma ReadParagraph(line: string, rest: string)
    ensures ReadParagraphs(Paragraph(line) + rest) == [line] + ReadParagraphs(rest)
  {
    if line == [] {
      ReadEmptyParagraph(rest);
    } else {
      ReadTextParagraph(line, rest);
    }
  }

  lemma ReadEmptyParagraph(rest: string)
    ensures ReadParagraphs("<p><br></p>" + rest) == [""] + ReadParagraphs(rest)
  {
    var s := "<p><br></p>" + rest;
    assert s[..3] == "<p>";
    var t := s[3..];
    assert t == "<br></p>" + rest;
    assert UntilTag(t) == [];
    assert s[3 + 0..] == t;
    assert t[..8] == "<br></p>" && t[8..] == rest;
  }

  lemma ReadTextParagraph(line: string, rest: string)
    requires line != []
    ensures ReadParagraphs("<p>" + EscapeHtml(line) + "</p>" + rest) == [line] + ReadParagraphs(rest)
  {
    var e := EscapeHtml(line);
    var tail := "</p>" + rest;
    var s := "<p>" + e + "</p>" + rest;
    assert e != [] by {
      assert |Escape(line, AposPadded)| >= |line|;
    }
    assert s == "<p>" + (e + tail);
    assert s[..3] == "<p>" && s[3..] == e + tail;
    UntilTagPrefix(e, tail);
    assert s[3 + |e|..] == tail;
    assert tail[..4] == "</p>" && tail[4..] == rest;
  }

  lemma {:induction false} ReadParagraphsOf(lines: seq<string>)
    ensures ReadParagraphs(Paragraphs(lines)) == lines
  {
    if lines != [] {
      ReadParagraphsOf(lines[1..]);
      ReadParagraph(lines[0], Paragraphs(lines[1..]));
      assert [lines[0]] + lines[1..] == lines;
    }
  }

  /** The import writes one paragraph per line of the file, in order, from which each line can
      be read back exactly. */
  lemma ImportReadsBack(text: string)
    ensures ReadParagraphs(ImportPlainText(text)) == SplitLines(text)
    ensures |ReadParagraphs(ImportPlainText(text))| == Occurrences(text, '\n') + 1
  {
    ReadParagraphsOf(SplitLines(text));
    LineCount(text);
  }
}
