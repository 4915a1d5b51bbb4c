/** Strings as sequences of characters: the whitespace classes of JavaScript and Python,
    stripping, splitting and joining, and the decimal / hexadecimal renderings of numbers
    (JavaScript `String(n)`, `n.toString(16)`, `padStart`, Python f-strings). */
module Text {

  // ---- sequence facts, stated once for any element type ----

  lemma AppendAssoc<T>(p: seq<T>, u: seq<T>, v: seq<T>)
    ensures p + (u + v) == (p + u) + v
  {
  }

  lemma ConsAppend<T>(a: seq<T>, b: seq<T>)
    requires a != []
    ensures a == [a[0]] + a[1..] && a + b == [a[0]] + (a[1..] + b)
  {
  }

  lemma ConsParts<T>(x: T, rest: seq<T>)
    ensures ([x] + rest)[0] == x && ([x] + rest)[1..] == rest
  {
  }

  lemma AppendHeadTail<T>(u: seq<T>, v: seq<T>)
    requires u != []
    ensures (u + v)[0] == u[0] && (u + v)[1..] == u[1..] + v
  {
  }

  lemma SliceThree<T>(s: seq<T>, i: int, j: int)
    requires 0 <= i <= j <= |s|
    ensures s == s[..i] + s[i..j] + s[j..]
  {
  }

  lemma AppendEmpty<T>(a: seq<T>)
    ensures a + [] == a && [] + a == a
  {
  }

  /** The characters JavaScript's `\s` and `String.prototype.trim` treat as white space
      (WhiteSpace and LineTerminator of ECMA-262). */
  const JsSpace: set<char> := {
    '\t', '\n', '\U{B}', '\U{C}', '\r', ' ', '\U{A0}', '\U{1680}',
    '\U{2000}', '\U{2001}', '\U{2002}', '\U{2003}', '\U{2004}', '\U{2005}',
    '\U{2006}', '\U{2007}', '\U{2008}', '\U{2009}', '\U{200A}',
    '\U{2028}', '\U{2029}', '\U{202F}', '\U{205F}', '\U{3000}', '\U{FEFF}'
  }

  /** The characters Python's `str.strip()` with no argument removes (`str.isspace`). */
  const PySpace: set<char> := {
    '\t', '\n', '\U{B}', '\U{C}', '\r', '\U{1C}', '\U{1D}', '\U{1E}', '\U{1F}',
    ' ', '\U{85}', '\U{A0}', '\U{1680}',
    '\U{2000}', '\U{2001}', '\U{2002}', '\U{2003}', '\U{2004}', '\U{2005}',
    '\U{2006}', '\U{2007}', '\U{2008}', '\U{2009}', '\U{200A}',
    '\U{2028}', '\U{2029}', '\U{202F}', '\U{205F}', '\U{3000}'
  }

  /** The line boundaries at which Python's `str.splitlines` cuts. */
  const PyLineBreaks: set<char> := {
    '\n', '\r', '\U{B}', '\U{C}', '\U{1C}', '\U{1D}', '\U{1E}', '\U{85}', '\U{2028}', '\U{2029}'
  }

  predicate AllIn(s: string, cs: set<char>) {
    forall i :: 0 <= i < |s| ==> s[i] in cs
  }

  predicate NoneIn(s: string, cs: set<char>) {
    forall i :: 0 <= i < |s| ==> s[i] !in cs
  }

  /** `s` with its longest prefix of characters from `cs` removed (see `StripStartSpec`). */
  function StripStart(s: string, cs: set<char>): (r: string)
    ensures |r| <= |s|
  {
    if s == [] || s[0] !in cs then s else StripStart(s[1..], cs)
  }

  /** What was removed is a prefix of characters from `cs`, and what is left does not start
      with one. */
  lemma {:induction false} StripStartSpec(s: string, cs: set<char>)
    ensures var r := StripStart(s, cs);
      r == s[|s| - |r|..] && AllIn(s[..|s| - |r|], cs) && (r != [] ==> r[0] !in cs)
  {
    if s != [] && s[0] in cs {
      StripStartSpec(s[1..], cs);
      var r := StripStart(s, cs);
      assert s[..|s| - |r|] == [s[0]] + s[1..][..|s| - 1 - |r|];
    }
  }

  /** `s` with its longest suffix of characters from `cs` removed (Python `rstrip(chars)`, a
      regular expression `[chars]+$` replaced by nothing; see `StripEndSpec`). */
  function StripEnd(s: string, cs: set<char>): (r: string)
    ensures |r| <= |s|
  {
    if s == [] || s[|s| - 1] !in cs then s else StripEnd(s[..|s| - 1], cs)
  }

  /** What was removed is a suffix of characters from `cs`, and what is left does not end
      with one. */
  lemma {:induction false} StripEndSpec(s: string, cs: set<char>)
    ensures var r := StripEnd(s, cs);
      r == s[..|r|] && AllIn(s[|r|..], cs) && (r != [] ==> r[|r| - 1] !in cs)
  {
    if s != [] && s[|s| - 1] in cs {
      StripEndSpec(s[..|s| - 1], cs);
      var r := StripEnd(s, cs);
      assert s[|r|..] == s[..|s| - 1][|r|..] + [s[|s| - 1]];
    }
  }

  /** Both ends stripped (JavaScript `trim()` with `cs == JsSpace`, Python `strip(chars)`). */
  function Strip(s: string, cs: set<char>): string {
    StripEnd(StripStart(s, cs), cs)
  }

  function Trim(s: string): string {
    Strip(s, JsSpace)
  }

  lemma StripStartIdempotent(s: string, cs: set<char>)
    ensures StripStart(StripStart(s, cs), cs) == StripStart(s, cs)
  {
  }

  lemma StripStartOfEnd(s: string, cs: set<char>)
    requires s == [] || s[0] !in cs
    ensures StripStart(StripEnd(s, cs), cs) == StripEnd(s, cs)
  {
    StripEndSpec(s, cs);
  }

  /** Stripping twice is stripping once: a stored, already trimmed value trims to itself. */
  lemma StripIdempotent(s: string, cs: set<char>)
    ensures Strip(Strip(s, cs), cs) == Strip(s, cs)
  {
    var a := StripStart(s, cs);
    StripStartSpec(s, cs);
    StripStartOfEnd(a, cs);
    StripEndSpec(a, cs);
  }

  /** A string strips to nothing exactly when all of its characters are strippable. */
  lemma {:induction false} StripEmptyIff(s: string, cs: set<char>)
    ensures Strip(s, cs) == [] <==> AllIn(s, cs)
  {
    var a := StripStart(s, cs);
    StripStartSpec(s, cs);
    if a == [] {
      assert s[..|s|] == s;
    } else {
      assert a[0] == s[|s| - |a|];
      StripEndKeepsFirst(a, cs);
    }
  }

  lemma {:induction false} StripEndKeepsFirst(a: string, cs: set<char>)
    requires a != [] && a[0] !in cs
    ensures StripEnd(a, cs) != []
  {
    if |a| > 1 && a[|a| - 1] in cs {
      StripEndKeepsFirst(a[..|a| - 1], cs);
    }
  }

  /** The parts of `s` between the characters of `seps` (JavaScript `split`, with every
      separator cut, an empty string giving one empty part). */
  function Split(s: string, seps: set<char>): (r: seq<string>)
    ensures |r| >= 1
  {
    if s == [] then [[]]
    else if s[0] in seps then [[]] + Split(s[1..], seps)
    else
      var t := Split(s[1..], seps);
      [[s[0]] + t[0]] + t[1..]
  }

  /** No part holds a separator. */
  lemma {:induction false} SplitPartsFree(s: string, seps: set<char>)
    ensures forall k :: 0 <= k < |Split(s, seps)| ==> NoneIn(Split(s, seps)[k], seps)
  {
    if s != [] {
      SplitPartsFree(s[1..], seps);
      if s[0] !in seps {
        var t := Split(s[1..], seps);
        assert NoneIn([s[0]] + t[0], seps);
      }
    }
  }

  /** The parts glued together with `sep` between neighbours (JavaScript `join`). */
  function Join(parts: seq<string>, sep: string): string {
    if |parts| == 0 then []
    else if |parts| == 1 then parts[0]
    else parts[0] + sep + Join(parts[1..], sep)
  }

  lemma {:induction false} SplitOfSeparatorFree(s: string, seps: set<char>)
    requires NoneIn(s, seps)
    ensures Split(s, seps) == [s]
  {
    if s != [] {
      SplitOfSeparatorFree(s[1..], seps);
      assert [s[0]] + s[1..] == s;
    }
  }

  lemma {:induction false} SplitPrefix(a: string, b: string, c: char, seps: set<char>)
    requires NoneIn(a, seps) && c in seps
    ensures Split(a + [c] + b, seps) == [a] + Split(b, seps)
  {
    if a == [] {
      assert a + [c] + b == [c] + b;
      assert ([c] + b)[1..] == b;
    } else {
      var s := a + [c] + b;
      assert s[0] == a[0] && s[1..] == a[1..] + [c] + b;
      SplitPrefix(a[1..], b, c, seps);
      assert [a[0]] + a[1..] == a;
    }
  }

  /** Splitting at one character and joining with it again gives the string back. */
  lemma {:induction false} JoinSplit(s: string, c: char)
    ensures Join(Split(s, {c}), [c]) == s
  {
    if s != [] {
      JoinSplit(s[1..], c);
      var t := Split(s[1..], {c});
      if s[0] != c {
        if |t| == 1 {
          assert Join(t, [c]) == t[0];
        } else {
          assert Join(t, [c]) == t[0] + [c] + Join(t[1..], [c]);
          assert ([[s[0]] + t[0]] + t[1..])[1..] == t[1..];
        }
      }
      assert [s[0]] + s[1..] == s;
    }
  }

  /** The number of characters of `s` that are equal to `c`. */
  function Occurrences(s: string, c: char): nat {
    if s == [] then 0 else (if s[0] == c then 1 else 0) + Occurrences(s[1..], c)
  }

  /** There is one part more than there are separators. */
  lemma {:induction false} SplitCount(s: string, c: char)
    ensures |Split(s, {c})| == Occurrences(s, c) + 1
  {
    if s != [] {
      SplitCount(s[1..], c);
    }
  }

  function Repeat(c: char, n: nat): (r: string)
    ensures |r| == n && forall i :: 0 <= i < n ==> r[i] == c
  {
    if n == 0 then [] else [c] + Repeat(c, n - 1)
  }

  /** JavaScript `s.padStart(width, c)` for a one-character pad. */
  function PadStart(s: string, width: nat, c: char): (r: string)
    ensures |r| == if |s| >= width then |s| else width
    ensures r[|r| - |s|..] == s
    ensures forall i :: 0 <= i < |r| - |s| ==> r[i] == c
  {
    if |s| >= width then s else Repeat(c, width - |s|) + s
  }

  // ---- digits ----

  predicate IsDigitOf(c: char, base: nat) {
    ('0' <= c <= '9' && (c as int) - ('0' as int) < base) ||
    ('a' <= c <= 'z' && (c as int) - ('a' as int) + 10 < base)
  }

  /** The lower-case digit for `d`, as JavaScript's `Number.prototype.toString(radix)` writes it. */
  function DigitChar(d: nat): (c: char)
    requires d < 36
    ensures IsDigitOf(c, d + 1)
  {
    if d < 10 then (('0' as int) + d) as char else (('a' as int) + d - 10) as char
  }

  function DigitValue(c: char): nat {
    if '0' <= c <= '9' then (c as int) - ('0' as int)
    else if 'a' <= c <= 'z' then (c as int) - ('a' as int) + 10
    else 0
  }

  lemma DigitRoundTrip(d: nat)
    requires d < 36
    ensures DigitValue(DigitChar(d)) == d
  {
  }

  predicate AllDigits(s: string, base: nat) {
    forall i :: 0 <= i < |s| ==> IsDigitOf(s[i], base)
  }

  /** `n` in base `base`, most significant digit first, without leading zeros. */
  function ToBase(n: nat, base: nat): (r: string)
    requires 2 <= base <= 36
    ensures |r| >= 1 && AllDigits(r, base)
    ensures |r| > 1 ==> r[0] != '0'
    decreases n
  {
    if n < base then [DigitChar(n)]
    else
      DivMod(n, base);
      var d := DigitChar(n % base);
      assert IsDigitOf(d, base);
      ToBase(n / base, base) + [d]
  }

  lemma DivMod(n: nat, base: nat)
    requires 2 <= base <= n
    ensures n == (n / base) * base + n % base
    ensures 0 <= n % base < base && 1 <= n / base < n
  {
  }

  /** The value of a string of digits in base `base` (leading zeros allowed). */
  function ParseBase(s: string, base: nat): nat {
    if s == [] then 0 else ParseBase(s[..|s| - 1], base) * base + DigitValue(s[|s| - 1])
  }

  /** Reading back what `ToBase` wrote gives the number: the rendering is faithful. */
  lemma {:induction false} ParseToBase(n: nat, base: nat)
    requires 2 <= base <= 36
    ensures ParseBase(ToBase(n, base), base) == n
    decreases n
  {
    if n < base {
      DigitRoundTrip(n);
      assert [DigitChar(n)][..0] == [];
    } else {
      var r := ToBase(n, base);
      DivMod(n, base);
      ParseToBase(n / base, base);
      DigitRoundTrip(n % base);
      assert r[..|r| - 1] == ToBase(n / base, base);
      assert r[|r| - 1] == DigitChar(n % base);
    }
  }

  /** Leading zeros do not change the value of a digit string. */
  lemma {:induction false} ParseLeadingZeros(k: nat, t: string, base: nat)
    ensures ParseBase(Repeat('0', k) + t, base) == ParseBase(t, base)
    decreases |t|
  {
    var s := Repeat('0', k) + t;
    if t == [] {
      assert s == Repeat('0', k);
      ParseZeros(k, base);
    } else {
      assert s[..|s| - 1] == Repeat('0', k) + t[..|t| - 1];
      ParseLeadingZeros(k, t[..|t| - 1], base);
    }
  }

  lemma {:induction false} ParseZeros(k: nat, base: nat)
    ensures ParseBase(Repeat('0', k), base) == 0
  {
    if k > 0 {
      var z := Repeat('0', k);
      assert z[..k - 1] == Repeat('0', k - 1);
      ParseZeros(k - 1, base);
    }
  }

  /** JavaScript `String(n)` / Python `str(n)` for a non-negative integer. */
  function NatToString(n: nat): (r: string)
    ensures |r| >= 1 && AllDigits(r, 10)
  {
    ToBase(n, 10)
  }

  /** JavaScript `String(i)` / Python `str(i)` for any integer. */
  function IntToString(i: int): string {
    if i < 0 then "-" + NatToString(-i) else NatToString(i)
  }

  function ParseInt(s: string): int {
    if s != [] && s[0] == '-' then 0 - (ParseBase(s[1..], 10) as int) else ParseBase(s, 10)
  }

  lemma ParseIntToString(i: int)
    ensures ParseInt(IntToString(i)) == i
  {
    if i < 0 {
      assert IntToString(i)[1..] == NatToString(-i);
      ParseToBase(-i, 10);
    } else {
      ParseToBase(i, 10);
    }
  }

  /** The decimal rendering of a number of two or more digits ends in its last digit. */
  lemma LastDigit(n: nat)
    requires n >= 10
    ensures NatToString(n) == NatToString(n / 10) + [DigitChar(n % 10)]
  {
  }

  /** A number below 100 padded to two digits, digit by digit. */
  lemma Pad2Digits(n: nat)
    requires n < 100
    ensures Pad2(n) == [DigitChar(n / 10), DigitChar(n % 10)]
  {
    if n < 10 {
      var s := NatToString(n);
      assert s == [DigitChar(n)];
      assert Pad2(n) == Repeat('0', 1) + s;
      assert Repeat('0', 1) == ['0'];
      assert n / 10 == 0 && n % 10 == n;
    } else {
      LastDigit(n);
      assert NatToString(n / 10) == [DigitChar(n / 10)];
      assert Pad2(n) == NatToString(n);
    }
  }

  /** A rendered natural number reads back as itself. */
  lemma ParseNatToString(n: nat)
    ensures ParseInt(NatToString(n)) == n
  {
    ParseIntToString(n);
    assert IntToString(n) == NatToString(n);
  }

  /** Different integers are rendered differently. */
  lemma IntToStringInjective(i: int, j: int)
    requires IntToString(i) == IntToString(j)
    ensures i == j
  {
    ParseIntToString(i);
    ParseIntToString(j);
  }

  /** `String(n).padStart(2, "0")`: a two-digit field for the numbers below 100. */
  function Pad2(n: nat): (r: string)
    ensures n < 100 ==> |r| == 2
    ensures n >= 10 ==> r == NatToString(n)
    ensures AllDigits(r, 10)
  {
    assert n >= 10 ==> NatToString(n) == ToBase(n / 10, 10) + [DigitChar(n % 10)];
    PadStart(NatToString(n), 2, '0')
  }

  /** The padded field reads back as the number. */
  lemma ParsePad2(n: nat)
    ensures ParseBase(Pad2(n), 10) == n
  {
    var s := NatToString(n);
    ParseToBase(n, 10);
    if |s| < 2 {
      ParseLeadingZeros(2 - |s|, s, 10);
    }
  }
}
