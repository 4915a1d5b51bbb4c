/** The browser side of the quizzer: how many questions a text deserves, the cache hash of the
    notes, the offline fallback questions, the plain-text export and HTML escaping. */
module Quizzer {
  import opened Wrappers
  import opened Text
  import opened Lines
  import opened Html

  // ---- decideNumQuestions ----

  /** The word counts at which one more question is asked. */
  const Thresholds: seq<nat> := [120, 260, 420, 640]

  /** The number of questions for a word count: one, and one more for every threshold reached. */
  function Tier(words: nat): (r: nat)
    ensures 1 <= r <= 5
    ensures forall k :: 0 <= k < |Thresholds| ==> (r > k + 1 <==> words >= Thresholds[k])
  {
    if words < 120 then 1
    else if words < 260 then 2
    else if words < 420 then 3
    else if words < 640 then 4
    else 5
  }

  /** More words never mean fewer questions. */
  lemma TierMonotone(a: nat, b: nat)
    requires a <= b
    ensures Tier(a) <= Tier(b)
  {
  }

  /** `decideNumQuestions(text)`: the tier of the number of words of the trimmed text. */
  function DecideNumQuestions(text: string): (r: nat)
    ensures 1 <= r <= 5
  {
    Tier(|Words(Trim(text))|)
  }

  /** Trimming does not change the count: the tier is that of the words of the text itself. */
  lemma DecideCountsWords(text: string)
    ensures DecideNumQuestions(text) == Tier(|Words(text)|)
  {
    WordsTrim(text);
  }

  /** Appending a word after a blank adds exactly that word, so it never lowers the count. */
  lemma DecideMoreWords(text: string, w: string)
    requires w != [] && NoneIn(w, JsSpace)
    ensures Words(text + " " + w) == Words(text) + [w]
    ensures DecideNumQuestions(text + " " + w) >= DecideNumQuestions(text)
  {
    assert text + " " + w == text + [' '] + w;
    SplitConcat(text, w, ' ', JsSpace);
    SplitOfSeparatorFree(w, JsSpace);
    NonEmptyConcat(Split(text, JsSpace), [w]);
    assert NonEmpty([w]) == [w] by {
      assert [w][1..] == [];
    }
    DecideCountsWords(text);
    DecideCountsWords(text + " " + w);
    TierMonotone(|Words(text)|, |Words(text)| + 1);
  }

  // ---- simpleHash ----

  /** 2^32: `>>> 0` keeps a number modulo this. */
  const Modulus: nat := 0x1_0000_0000

  /** One step of `h = (h * 31 + s.charCodeAt(i)) >>> 0`. */
  function HashStep(h: nat, c: char): (r: nat)
    ensures r < Modulus
  {
    (h * 31 + c as int) % Modulus
  }

  /** The hash of a prefix, step by step from 0 as the loop computes it. */
  function HornerHash(s: string): (r: nat)
    ensures r < Modulus
  {
    if s == [] then 0 else HashStep(HornerHash(s[..|s| - 1]), s[|s| - 1])
  }

  function Pow31(k: nat): nat {
    if k == 0 then 1 else 31 * Pow31(k - 1)
  }

  /** The polynomial `sum of c_i * 31^(n-1-i)` over the character codes, without any wrapping. */
  function PolySum(s: string): int {
    if s == [] then 0 else (s[0] as int) * Pow31(|s| - 1) + PolySum(s[1..])
  }

  /** The polynomial grows by one Horner step when a character is appended. */
  lemma {:induction false} PolySumAppend(s: string, c: char)
    ensures PolySum(s + [c]) == PolySum(s) * 31 + c as int
    decreases |s|
  {
    if s == [] {
      assert s + [c] == [c];
      assert [c][1..] == [];
    } else {
      var t := s + [c];
      assert t[0] == s[0] && t[1..] == s[1..] + [c];
      PolySumAppend(s[1..], c);
      assert Pow31(|t| - 1) == 31 * Pow31(|s| - 1);
      assert (s[0] as int) * (31 * Pow31(|s| - 1)) == ((s[0] as int) * Pow31(|s| - 1)) * 31;
    }
  }

  /** Reducing modulo 2^32 before a step gives what reducing after it gives. */
  lemma ModStep(a: int, c: int)
    ensures ((a % Modulus) * 31 + c) % Modulus == (a * 31 + c) % Modulus
  {
    var q := a / Modulus;
    assert a == Modulus * q + a % Modulus;
    assert a * 31 + c == Modulus * (31 * q) + ((a % Modulus) * 31 + c);
  }

  /** `simpleHash` computes the polynomial hash modulo 2^32: wrapping at every step loses
      nothing that wrapping once at the end would keep. */
  lemma {:induction false} HornerIsPolynomial(s: string)
    ensures HornerHash(s) == PolySum(s) % Modulus
    decreases |s|
  {
    if s != [] {
      var t, c := s[..|s| - 1], s[|s| - 1];
      HornerIsPolynomial(t);
      assert s == t + [c];
      PolySumAppend(t, c);
      ModStep(PolySum(t), c as int);
    }
  }

  function Pow16(k: nat): nat {
    if k == 0 then 1 else 16 * Pow16(k - 1)
  }

  /** A number below 16^k has at most k hexadecimal digits. */
  lemma {:induction false} HexLength(n: nat, k: nat)
    requires 1 <= k && n < Pow16(k)
    ensures |ToBase(n, 16)| <= k
  {
    if n >= 16 {
      assert k > 1;
      assert n / 16 < Pow16(k - 1);
      HexLength(n / 16, k - 1);
    }
  }

  /** `simpleHash(s)`: the loop keeps `h` below 2^32, and the result is the polynomial hash
      modulo 2^32 in lower-case hexadecimal, at most eight digits. */
  method SimpleHash(s: string) returns (hex: string)
    ensures hex == ToBase(HornerHash(s), 16)
    ensures 1 <= |hex| <= 8 && AllDigits(hex, 16)
    ensures ParseBase(hex, 16) == PolySum(s) % Modulus
  {
    var h: nat := 0;
    var i := 0;
    while i < |s|
      invariant 0 <= i <= |s|
      invariant h < Modulus && h == HornerHash(s[..i])
    {
      assert s[..i + 1][..i] == s[..i];
      h := (h * 31 + s[i] as int) % Modulus;
      i := i + 1;
    }
    assert s[..i] == s;
    hex := ToBase(h, 16);
    assert Pow16(8) == Modulus;
    HexLength(h, 8);
    ParseToBase(h, 16);
    HornerIsPolynomial(s);
  }

  // ---- fallbackQuestionsFrom ----

  /** Every line trimmed. */
  function TrimAll(lines: seq<string>): (r: seq<string>)
    ensures |r| == |lines|
  {
    seq(|lines|, k requires 0 <= k < |lines| => Trim(lines[k]))
  }

  /** The candidate seeds: trimmed, non-empty, longer than ten characters, in text order. */
  function Candidates(text: string): (r: seq<string>)
    ensures forall k :: 0 <= k < |r| ==> |r[k]| > 10
  {
    LongerThan(NonEmpty(TrimAll(SplitLines(text))), 10)
  }

  /** A string is a candidate exactly when it is some trimmed line of the text and is longer
      than ten characters. */
  lemma CandidatesKeeps(text: string, x: string)
    ensures x in Candidates(text) <==>
      |x| > 10 && exists j :: 0 <= j < |SplitLines(text)| && Trim(SplitLines(text)[j]) == x
  {
    var lines := SplitLines(text);
    var t := TrimAll(lines);
    LongerThanKeeps(NonEmpty(t), 10, x);
    NonEmptyKeeps(t, x);
    if |x| > 10 && exists j :: 0 <= j < |lines| && Trim(lines[j]) == x {
      var j :| 0 <= j < |lines| && Trim(lines[j]) == x;
      assert t[j] == x;
    }
  }

  /** The first ten candidates (all of them when there are fewer). */
  function Seeds(text: string): (r: seq<string>)
    ensures |r| <= 10 && |r| <= |Candidates(text)| && r == Candidates(text)[..|r|]
    ensures |r| < 10 ==> r == Candidates(text)
    ensures forall k :: 0 <= k < |r| ==> |r[k]| > 10
  {
    var c := Candidates(text);
    if |c| <= 10 then c else c[..10]
  }

  /** A seed is a line of the text with its white space trimmed off. */
  lemma SeedIsTrimmedLine(text: string, k: nat)
    requires k < |Seeds(text)|
    ensures exists j :: 0 <= j < |SplitLines(text)| && Trim(SplitLines(text)[j]) == Seeds(text)[k]
  {
    var lines := SplitLines(text);
    var t := TrimAll(lines);
    var s := Seeds(text)[k];
    assert s in Candidates(text);
    NonEmptyMembers(t);
    assert s in NonEmpty(t);
    var j :| 0 <= j < |t| && t[j] == s;
  }

  /** `Explain: ${base.replace(/[:.;]+$/, '')}?` */
  function Question(seed: string): (q: string)
    ensures |q| >= 10 && q[..9] == "Explain: " && q[|q| - 1] == '?'
    ensures |q| <= |seed| + 10
  {
    "Explain: " + StripEnd(seed, {':', '.', ';'}) + "?"
  }

  /** The trailing run of colons, stops and semicolons is gone from what the question quotes. */
  lemma QuestionQuotesSeed(seed: string)
    ensures var body := Question(seed)[9..|Question(seed)| - 1];
      body == seed[..|body|] && AllIn(seed[|body|..], {':', '.', ';'}) &&
      (body != [] ==> body[|body| - 1] !in {':', '.', ';'})
  {
    var q := Question(seed);
    StripEndSpec(seed, {':', '.', ';'});
    assert q[9..|q| - 1] == StripEnd(seed, {':', '.', ';'});
  }

  /** `fallbackQuestionsFrom(text, n)`: the seeds of the text, then the question loop. */
  method FallbackQuestionsFrom(text: string, n: int) returns (r: Result<seq<string>, string>)
    ensures r == QuestionsFrom(Seeds(text), n)
  {
    var seeds := Seeds(text);
    r := AskSeeds(seeds, n);
  }

  /** What the loop yields for a list of seeds: nothing for `n <= 0`; a failure for `n >= 1`
      and no seed; otherwise `n` questions. */
  function QuestionsFrom(seeds: seq<string>, n: int): (r: Result<seq<string>, string>)
    ensures n <= 0 ==> r == Success([])
    ensures n >= 1 && seeds == [] ==> r.Failure?
    ensures seeds != [] ==> r.Success? && |r.value| == if n < 0 then 0 else n
    ensures r.Success? ==>
      forall i :: 0 <= i < |r.value| ==> r.value[i] == Question(seeds[i % |seeds|])
  {
    if n <= 0 then Success([])
    else if seeds == [] then Failure("TypeError: base is undefined")
    else Success(Cycle(seeds, n))
  }

  /** `n` questions going round the seeds. */
  function Cycle(seeds: seq<string>, n: nat): (r: seq<string>)
    requires seeds != []
    ensures |r| == n
  {
    seq(n, i requires 0 <= i < n => Question(seeds[i % |seeds|]))
  }

  /** The question loop. With no seed the first round reads `seeds[0]`, which is `undefined`,
      and `.replace` throws. Otherwise question `i` is built from seed `i mod |seeds|`. */
  method AskSeeds(seeds: seq<string>, n: int) returns (r: Result<seq<string>, string>)
    ensures r == QuestionsFrom(seeds, n)
  {
    var qs: seq<string> := [];
    var i := 0;
    while i < n
      invariant 0 <= i <= (if n < 0 then 0 else n) && |qs| == i
      invariant seeds != [] || i == 0
      invariant forall j :: 0 <= j < i ==> qs[j] == Question(seeds[j % |seeds|])
    {
      if seeds == [] {
        return Failure("TypeError: base is undefined");
      }
      var base := seeds[i % |seeds|];
      qs := qs + [Question(base)];
      i := i + 1;
    }
    if n > 0 {
      assert qs == Cycle(seeds, n);
    }
    r := Success(qs);
  }

  // ---- formatExport ----

  /** `i+1) q` for every question. */
  function Numbered(questions: seq<string>): (r: seq<string>)
    ensures |r| == |questions|
    ensures forall i :: 0 <= i < |r| ==> r[i] == NatToString(i + 1) + ") " + questions[i]
  {
    seq(|questions|, i requires 0 <= i < |questions| => NatToString(i + 1) + ") " + questions[i])
  }

  /** `AI Quizzer Export\nDate: ${date}\n\n`: the head lines, each ended by a newline. */
  function Header(date: string): string {
    Join(HeadLines(date), "\n") + "\n"
  }

  /** `formatExport(questions, answersText)`, with the formatted date as a parameter. */
  function FormatExport(questions: seq<string>, answers: string, date: string): string {
    ExportText(questions, Trim(answers), date)
  }

  /** The export once the answers are trimmed to `a`. */
  function ExportText(questions: seq<string>, a: string, date: string): string {
    Header(date) + Join(Numbered(questions), "\n") +
    (if a != [] then "\n\nAnswers:\n" + a + "\n" else "\n")
  }

  /** The first lines of every export. */
  function HeadLines(date: string): seq<string> {
    ["AI Quizzer Export", "Date: " + date, ""]
  }

  predicate NewlineFree(lines: seq<string>) {
    forall k :: 0 <= k < |lines| ==> NoneIn(lines[k], {'\n'})
  }

  lemma NumberedNewlineFree(questions: seq<string>)
    requires NewlineFree(questions)
    ensures NewlineFree(Numbered(questions))
  {
    var r := Numbered(questions);
    forall k | 0 <= k < |r|
      ensures NoneIn(r[k], {'\n'})
    {
      var d := NatToString(k + 1);
      assert r[k] == d + ") " + questions[k];
      assert forall i :: 0 <= i < |d| ==> IsDigitOf(d[i], 10);
    }
  }

  /** The export written as lines joined by newlines, up to the answers block. */
  lemma ExportPrefix(questions: seq<string>, date: string, tail: seq<string>)
    requires |questions| >= 1 && |tail| >= 1
    ensures Header(date) + Join(Numbered(questions), "\n") + "\n" + Join(tail, "\n") ==
      Join(HeadLines(date) + Numbered(questions) + tail, "\n")
  {
    var h, q := HeadLines(date), Numbered(questions);
    JoinAppend(h + q, tail, "\n");
    JoinAppend(h, q, "\n");
  }

  /** Read line by line, an export without answers is the head, one numbered line per
      question, and one empty line (the text ends with a single newline). */
  lemma ExportWithoutAnswers(questions: seq<string>, answers: string, date: string)
    requires |questions| >= 1 && NewlineFree(questions) && NoneIn(date, {'\n'})
    requires Trim(answers) == []
    ensures Split(FormatExport(questions, answers, date), {'\n'}) ==
      HeadLines(date) + Numbered(questions) + [""]
  {
    ExportLinesBare(questions, date);
  }

  lemma ExportLinesBare(questions: seq<string>, date: string)
    requires |questions| >= 1 && NewlineFree(questions) && NoneIn(date, {'\n'})
    ensures Split(ExportText(questions, [], date), {'\n'}) == HeadLines(date) + Numbered(questions) + [""]
  {
    var lines := HeadLines(date) + Numbered(questions) + [""];
    ExportPrefix(questions, date, [""]);
    assert Join([""], "\n") == "";
    assert ExportText(questions, [], date) == Join(lines, "\n");
    ExportLinesFree(questions, date, [""]);
    SplitJoinWith(lines, '\n', {'\n'});
  }

  /** The lines of the export before any answers hold no newline. */
  lemma ExportLinesFree(questions: seq<string>, date: string, tail: seq<string>)
    requires NewlineFree(questions) && NoneIn(date, {'\n'}) && NewlineFree(tail)
    ensures NewlineFree(HeadLines(date) + Numbered(questions) + tail)
  {
    NumberedNewlineFree(questions);
    assert NoneIn("Date: " + date, {'\n'});
  }

  /** With answers, a blank line, `Answers:`, the lines of the trimmed answers and a final
      empty line follow the questions. */
  lemma ExportWithAnswers(questions: seq<string>, answers: string, date: string)
    requires |questions| >= 1 && NewlineFree(questions) && NoneIn(date, {'\n'})
    requires Trim(answers) != []
    ensures Split(FormatExport(questions, answers, date), {'\n'}) ==
      HeadLines(date) + Numbered(questions) + ["", "Answers:"] + Split(Trim(answers), {'\n'}) + [""]
  {
    ExportLinesAnswered(questions, Trim(answers), date);
  }

  lemma ExportLinesAnswered(questions: seq<string>, a: string, date: string)
    requires |questions| >= 1 && NewlineFree(questions) && NoneIn(date, {'\n'})
    requires a != []
    ensures Split(ExportText(questions, a, date), {'\n'}) ==
      HeadLines(date) + Numbered(questions) + ["", "Answers:"] + Split(a, {'\n'}) + [""]
  {
    var p := HeadLines(date) + Numbered(questions) + ["", "Answers:"];
    ExportPrefix(questions, date, ["", "Answers:"]);
    var front := Join(p, "\n");
    AnswersBlock(Header(date) + Join(Numbered(questions), "\n"), a);
    ExportLinesFree(questions, date, ["", "Answers:"]);
    SplitJoinWith(p, '\n', {'\n'});
    SplitConcat(front, a + "\n" + "", '\n', {'\n'});
    SplitConcat(a, "", '\n', {'\n'});
  }

  /** The answers block read as a newline, the tail lines `""` and `Answers:`, a newline, the
      answers and a final newline. */
  lemma AnswersBlock(h: string, a: string)
    ensures h + ("\n\nAnswers:\n" + a + "\n") == (h + "\n" + Join(["", "Answers:"], "\n")) + "\n" + (a + "\n" + "")
  {
    assert Join(["", "Answers:"], "\n") == "\nAnswers:";
    assert "\n\nAnswers:\n" == "\n" + "\nAnswers:" + "\n";
  }

  // ---- escapeHtml ----

  /** The quizzer's `escapeHtml`: the apostrophe becomes `&#39;`. Nothing is lost, and text
      without special characters is left as it is. */
  function EscapeHtml(s: string): (r: string)
    ensures Unescape(r, AposDecimal) == s
    ensures NoneIn(s, Special) ==> r == s
    ensures NoneIn(r, {'<', '>', '"', '\''})
  {
    UnescapeEscape(s, AposDecimal);
    Escape(s, AposDecimal)
  }
}
