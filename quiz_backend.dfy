/** The quiz service's request handling without the network: the clamp of the requested
    number of questions, the blank-notes guard, the clean-up of the generator's reply and the
    offline fallback questions. */
module QuizBackend {
  import opened Wrappers
  import opened Text
  import opened Lines

  /** `max(1, min(5, int(req.n or 3)))`: a request for 0 questions counts as one for 3. */
  function EffectiveN(n: int): (r: int)
    ensures 1 <= r <= 5
    ensures n == 0 ==> r == 3
    ensures 1 <= n <= 5 ==> r == n
    ensures n < 0 ==> r == 1
    ensures n > 5 ==> r == 5
  {
    var m := if n == 0 then 3 else n;
    if m > 5 then 5 else if m < 1 then 1 else m
  }

  /** The characters `strip("-â€¢ ")` removes: the bytes of a bullet `•` mis-read as
      Windows-1252 text, with the hyphen and the blank. */
  const Bullets: set<char> := {'-', '\U{E2}', '\U{20AC}', '\U{A2}', ' '}

  /** The non-blank lines, with white space and then bullet characters stripped from both
      ends. The pieces come from cutting at every line boundary; the extra empty piece that
      this gives inside `\r\n`, and a trailing one, are blank and filtered out, so the result
      is what `splitlines()` would give. */
  function CleanLines(pieces: seq<string>): (r: seq<string>)
    ensures |r| <= |pieces|
  {
    if pieces == [] then []
    else
      var t := Strip(pieces[0], PySpace);
      if t == [] then CleanLines(pieces[1..]) else [Strip(t, Bullets)] + CleanLines(pieces[1..])
  }

  /** `line` is a non-blank piece stripped of white space and then of bullet characters. */
  ghost predicate CleanedFrom(pieces: seq<string>, line: string) {
    exists j :: 0 <= j < |pieces| && Strip(pieces[j], PySpace) != [] && line == Strip(Strip(pieces[j], PySpace), Bullets)
  }

  /** Every cleaned line comes from a non-blank piece, stripped of white space and then of
      bullet characters. */
  lemma {:induction false} CleanLinesFrom(pieces: seq<string>)
    ensures forall k :: 0 <= k < |CleanLines(pieces)| ==> CleanedFrom(pieces, CleanLines(pieces)[k])
  {
    if pieces != [] {
      var r, t := CleanLines(pieces), CleanLines(pieces[1..]);
      CleanLinesFrom(pieces[1..]);
      forall k | 0 <= k < |r| ensures CleanedFrom(pieces, r[k]) {
        if Strip(pieces[0], PySpace) == [] {
          CleanedFromTail(pieces, r[k]);
        } else if k == 0 {
          assert r[0] == Strip(Strip(pieces[0], PySpace), Bullets);
        } else {
          assert r[k] == t[k - 1];
          CleanedFromTail(pieces, r[k]);
        }
      }
    }
  }

  lemma CleanedFromTail(pieces: seq<string>, line: string)
    requires pieces != [] && CleanedFrom(pieces[1..], line)
    ensures CleanedFrom(pieces, line)
  {
    var j :| 0 <= j < |pieces[1..]| && Strip(pieces[1..][j], PySpace) != [] &&
      line == Strip(Strip(pieces[1..][j], PySpace), Bullets);
    assert pieces[j + 1] == pieces[1..][j];
  }

  lemma CleanLinesCons(x: string, rest: seq<string>)
    ensures CleanLines([x] + rest) ==
      (if Strip(x, PySpace) == [] then [] else [Strip(Strip(x, PySpace), Bullets)]) + CleanLines(rest)
  {
    ConsParts(x, rest);
  }

  /** Cleaning works piece by piece, so the lines keep the order of their pieces. */
  lemma {:induction false} CleanLinesConcat(a: seq<string>, b: seq<string>)
    ensures CleanLines(a + b) == CleanLines(a) + CleanLines(b)
  {
    if a == [] {
      AppendEmpty(b);
    } else {
      var x, r := a[0], a[1..];
      CleanLinesConcat(r, b);
      ConsAppend(a, b);
      CleanLinesCons(x, r + b);
      CleanLinesCons(x, r);
      AppendAssoc(if Strip(x, PySpace) == [] then [] else [Strip(Strip(x, PySpace), Bullets)],
        CleanLines(r), CleanLines(b));
    }
  }

  const DefaultSeed: string := "Summarize the main idea."

  /** The first ten cleaned lines longer than ten characters, or the default seed when there
      is none. */
  function BackendSeeds(notes: string): (r: seq<string>)
    ensures 1 <= |r| <= 10
    ensures forall k :: 0 <= k < |r| ==> |r[k]| > 10
    ensures var c := LongerThan(CleanLines(Split(notes, PyLineBreaks)), 10);
      if c == [] then r == [DefaultSeed] else |r| <= |c| && r == c[..|r|] && (|r| < 10 ==> r == c)
  {
    var c := LongerThan(CleanLines(Split(notes, PyLineBreaks)), 10);
    if c == [] then [DefaultSeed] else if |c| <= 10 then c else c[..10]
  }

  /** Unless there is no candidate at all, every seed is a line of the notes longer than ten
      characters, stripped of white space and then of bullet characters. */
  lemma BackendSeedIsCleanLine(notes: string, k: nat)
    requires k < |BackendSeeds(notes)|
    ensures var pieces := Split(notes, PyLineBreaks);
      LongerThan(CleanLines(pieces), 10) != [] ==>
        CleanedFrom(pieces, BackendSeeds(notes)[k]) && |BackendSeeds(notes)[k]| > 10
  {
    var pieces := Split(notes, PyLineBreaks);
    var lines := CleanLines(pieces);
    var c := LongerThan(lines, 10);
    if c != [] {
      var s := BackendSeeds(notes)[k];
      assert s == c[k];
      assert s in lines;
      var i :| 0 <= i < |lines| && lines[i] == s;
      CleanLinesFrom(pieces);
    }
  }

  /** `f"Explain: {base.rstrip(':.?;')}"` */
  function BackendQuestion(seed: string): (q: string)
    ensures 9 <= |q| <= |seed| + 9 && q[..9] == "Explain: "
  {
    "Explain: " + StripEnd(seed, {':', '.', '?', ';'})
  }

  /** The question quotes the seed less its trailing run of `: . ? ;`, and without a final
      question mark of its own. */
  lemma BackendQuestionQuotesSeed(seed: string)
    ensures var q := BackendQuestion(seed);
      q[9..] == seed[..|q| - 9] && AllIn(seed[|q| - 9..], {':', '.', '?', ';'}) &&
      (|q| > 9 ==> q[|q| - 1] !in {':', '.', '?', ';'})
  {
    StripEndSpec(seed, {':', '.', '?', ';'});
  }

  /** `fallback_questions(notes, n)`: exactly `n` questions (none for `n <= 0`), going round
      the seeds. */
  method FallbackQuestions(notes: string, n: int) returns (qs: seq<string>)
    ensures |qs| == if n < 0 then 0 else n
    ensures forall i :: 0 <= i < |qs| ==>
      qs[i] == BackendQuestion(BackendSeeds(notes)[i % |BackendSeeds(notes)|])
  {
    var seeds := BackendSeeds(notes);
    qs := [];
    var i := 0;
    while i < n
      invariant 0 <= i <= (if n < 0 then 0 else n) && |qs| == i
      invariant forall j :: 0 <= j < i ==> qs[j] == BackendQuestion(seeds[j % |seeds|])
    {
      var base := seeds[i % |seeds|];
      qs := qs + [BackendQuestion(base)];
      i := i + 1;
    }
  }

  /** `[str(q).strip() for q in qs][:5]`. */
  function Normalise(raw: seq<string>): (r: seq<string>)
    ensures |r| == if |raw| < 5 then |raw| else 5
    ensures forall i :: 0 <= i < |r| ==> r[i] == Strip(raw[i], PySpace)
  {
    var k := if |raw| < 5 then |raw| else 5;
    seq(k, i requires 0 <= i < k => Strip(raw[i], PySpace))
  }

  /** `make_quiz` after the call to the generator: `reply` is the list of questions it
      returned, or `None` when the call or the parsing of its answer raised. Blank notes give
      no questions and no call; a non-empty reply gives its first five questions stripped;
      anything else gives the fallback for the stripped notes and the clamped count. */
  method MakeQuiz(notes: string, n: int, reply: Option<seq<string>>) returns (qs: seq<string>)
    ensures Strip(notes, PySpace) == [] ==> qs == []
    ensures Strip(notes, PySpace) != [] && reply.Some? && reply.value != [] ==> qs == Normalise(reply.value)
    ensures Strip(notes, PySpace) != [] && (reply.None? || reply.value == []) ==>
      |qs| == EffectiveN(n) &&
      forall i :: 0 <= i < |qs| ==>
        qs[i] == BackendQuestion(BackendSeeds(Strip(notes, PySpace))[i % |BackendSeeds(Strip(notes, PySpace))|])
    ensures Strip(notes, PySpace) != [] ==> 1 <= |qs| <= 5
    ensures qs == [] <==> AllIn(notes, PySpace)
  {
    StripEmptyIff(notes, PySpace);
    var text := Strip(notes, PySpace);
    var count := EffectiveN(n);
    if text == [] {
      return [];
    }
    if reply.Some? && reply.value != [] {
      qs := Normalise(reply.value);
    } else {
      qs := FallbackQuestions(text, count);
    }
  }
}
