/** Python string operations that the parsers and the bot rely on:
    `str.strip`, `str.split()`, `str.replace(c, '')`, `str.lower()`,
    the last segment of `str.split(sep)`, `int()` and `float()` on text. */
module Text {
  import opened Wrappers

  /** Python's `str.isspace()`: the characters `str.split()` and `str.strip()` treat as whitespace. */
  predicate IsSpace(c: char) {
    var n := c as int;
    (9 <= n <= 13) || (28 <= n <= 32) || n == 0x85 || n == 0xA0 || n == 0x1680
    || (0x2000 <= n <= 0x200A) || n == 0x2028 || n == 0x2029 || n == 0x202F
    || n == 0x205F || n == 0x3000
  }

  predicate IsDigit(c: char) { '0' <= c <= '9' }

  predicate AllDigits(s: string) { forall i :: 0 <= i < |s| ==> IsDigit(s[i]) }

  // ---------------------------------------------------------------- strip

  /** Drops the leading characters that satisfy `drop`. */
  function TrimLeft(s: string, drop: char -> bool): (r: string)
    ensures |r| <= |s| && r == s[|s| - |r|..]
    ensures forall i :: 0 <= i < |s| - |r| ==> drop(s[i])
    ensures |r| > 0 ==> !drop(r[0])
  {
    if |s| > 0 && drop(s[0]) then TrimLeft(s[1..], drop) else s
  }

  /** Drops the trailing characters that satisfy `drop`. */
  function TrimRight(s: string, drop: char -> bool): (r: string)
    ensures |r| <= |s| && r == s[..|r|]
    ensures forall i :: |r| <= i < |s| ==> drop(s[i])
    ensures |r| > 0 ==> !drop(r[|r| - 1])
  {
    if |s| > 0 && drop(s[|s| - 1]) then TrimRight(s[..|s| - 1], drop) else s
  }

  /** `s.strip(chars)`: both ends trimmed of characters satisfying `drop`. */
  function Strip(s: string, drop: char -> bool): string {
    TrimRight(TrimLeft(s, drop), drop)
  }

  lemma {:induction false} TrimLeftFrame(pre: string, rest: string, drop: char -> bool)
    requires forall i :: 0 <= i < |pre| ==> drop(pre[i])
    requires |rest| > 0 && !drop(rest[0])
    ensures TrimLeft(pre + rest, drop) == rest
  {
    if |pre| > 0 {
      assert (pre + rest)[1..] == pre[1..] + rest;
      TrimLeftFrame(pre[1..], rest, drop);
    } else {
      assert pre + rest == rest;
    }
  }

  lemma {:induction false} TrimRightFrame(core: string, post: string, drop: char -> bool)
    requires forall i :: 0 <= i < |post| ==> drop(post[i])
    requires |core| > 0 && !drop(core[|core| - 1])
    ensures TrimRight(core + post, drop) == core
  {
    if |post| > 0 {
      assert (core + post)[..|core + post| - 1] == core + post[..|post| - 1];
      TrimRightFrame(core, post[..|post| - 1], drop);
    } else {
      assert core + post == core;
    }
  }

  /** Stripping undoes padding: whatever is added around a text whose two ends
      are kept is removed again, and nothing more. */
  lemma StripFrame(pre: string, core: string, post: string, drop: char -> bool)
    requires forall i :: 0 <= i < |pre| ==> drop(pre[i])
    requires forall i :: 0 <= i < |post| ==> drop(post[i])
    requires |core| > 0 && !drop(core[0]) && !drop(core[|core| - 1])
    ensures Strip(pre + core + post, drop) == core
  {
    assert pre + core + post == pre + (core + post);
    TrimLeftFrame(pre, core + post, drop);
    TrimRightFrame(core, post, drop);
  }

  /** Stripping twice is stripping once. */
  lemma StripIdempotent(s: string, drop: char -> bool)
    ensures Strip(Strip(s, drop), drop) == Strip(s, drop)
  {
    var t := Strip(s, drop);
    if |t| > 0 {
      StripFrame([], t, [], drop);
      assert [] + t + [] == t;
    }
  }

  // ---------------------------------------------------------------- split()

  /** Length of the run of non-whitespace characters at the front of `s`. */
  function WordLength(s: string): (n: nat)
    ensures n <= |s|
    ensures forall i :: 0 <= i < n ==> !IsSpace(s[i])
    ensures n < |s| ==> IsSpace(s[n])
  {
    if |s| == 0 || IsSpace(s[0]) then 0 else 1 + WordLength(s[1..])
  }

  predicate IsWord(w: string) {
    |w| > 0 && forall i :: 0 <= i < |w| ==> !IsSpace(w[i])
  }

  /** `s.split()` with no argument: the maximal runs of non-whitespace characters. */
  function Split(s: string): (r: seq<string>)
    ensures forall k :: 0 <= k < |r| ==> IsWord(r[k])
    decreases |s|
  {
    var t := TrimLeft(s, IsSpace);
    if |t| == 0 then []
    else
      var n := WordLength(t);
      [t[..n]] + Split(t[n..])
  }

  /** `' '.join(ws)`. */
  function JoinSpaced(ws: seq<string>): string {
    if |ws| == 0 then ""
    else if |ws| == 1 then ws[0]
    else ws[0] + " " + JoinSpaced(ws[1..])
  }

  lemma {:induction false} WordLengthOfWord(w: string, rest: string)
    requires IsWord(w)
    requires |rest| == 0 || IsSpace(rest[0])
    ensures WordLength(w + rest) == |w|
  {
    if |w| > 1 {
      assert (w + rest)[1..] == w[1..] + rest;
      WordLengthOfWord(w[1..], rest);
    } else {
      assert (w + rest)[1..] == rest;
    }
  }

  lemma SplitAfterSpace(rest: string)
    ensures Split(" " + rest) == Split(rest)
  {
    var s := " " + rest;
    assert s[1..] == rest;
    SplitSameTrim(s, rest);
  }

  /** Two texts that agree once their leading whitespace is dropped split alike. */
  lemma SplitSameTrim(a: string, b: string)
    requires |a| > 0 && IsSpace(a[0]) && a[1..] == b
    ensures Split(a) == Split(b)
  {
    assert TrimLeft(a, IsSpace) == TrimLeft(b, IsSpace);
  }

  lemma SplitWord(w: string, rest: string)
    requires IsWord(w)
    requires |rest| == 0 || IsSpace(rest[0])
    ensures Split(w + rest) == [w] + Split(rest)
  {
    var s := w + rest;
    assert s[0] == w[0];
    assert TrimLeft(s, IsSpace) == s;
    WordLengthOfWord(w, rest);
    assert s[..|w|] == w;
    assert s[|w|..] == rest;
  }

  /** Splitting a space-joined list of words gives the words back. */
  lemma {:induction false} SplitJoinSpaced(ws: seq<string>)
    requires forall k :: 0 <= k < |ws| ==> IsWord(ws[k])
    ensures Split(JoinSpaced(ws)) == ws
    decreases |ws|
  {
    if |ws| == 0 {
      assert JoinSpaced(ws) == "";
      SplitEmpty();
    } else if |ws| == 1 {
      assert JoinSpaced(ws) == ws[0] + "";
      SplitWord(ws[0], "");
      SplitEmpty();
      ConsTail(ws);
    } else {
      assert IsWord(ws[0]);
      assert forall k :: 0 <= k < |ws[1..]| ==> ws[1..][k] == ws[k + 1];
      SplitJoinSpaced(ws[1..]);
      JoinSpacedCons(ws);
      SplitSpacedWord(ws[0], JoinSpaced(ws[1..]));
      ConsTail(ws);
    }
  }

  /** Stated for any element type, so that the solver does not look inside the elements. */
  lemma ConsTail<T>(s: seq<T>)
    requires |s| > 0
    ensures [s[0]] + s[1..] == s
    ensures |s| == 1 ==> [s[0]] + [] == s
  {
  }

  lemma AppendAssoc<T>(a: seq<T>, b: seq<T>, c: seq<T>)
    ensures a + (b + c) == a + b + c
  {
  }

  lemma SplitEmpty()
    ensures Split("") == []
  {
    assert TrimLeft("", IsSpace) == "";
  }

  /** A word followed by a space and more text splits into the word and the rest's words. */
  lemma SplitSpacedWord(w: string, rest: string)
    requires IsWord(w)
    ensures Split(w + (" " + rest)) == [w] + Split(rest)
  {
    SplitWord(w, " " + rest);
    SplitAfterSpace(rest);
  }

  lemma JoinSpacedCons(ws: seq<string>)
    requires |ws| > 1
    ensures JoinSpaced(ws) == ws[0] + (" " + JoinSpaced(ws[1..]))
  {
    assert ws[0] + " " + JoinSpaced(ws[1..]) == ws[0] + (" " + JoinSpaced(ws[1..]));
  }

  // ---------------------------------------------------------------- replace(c, '')

  /** `s.replace(c, '')`. */
  function Without(s: string, c: char): (r: string)
    ensures c !in r
    ensures forall x :: x != c ==> multiset(r)[x] == multiset(s)[x]
    ensures c !in s ==> r == s
  {
    if |s| == 0 then ""
    else
      assert s == [s[0]] + s[1..];
      if s[0] == c then Without(s[1..], c) else [s[0]] + Without(s[1..], c)
  }

  /** Removing a character works piece by piece. */
  lemma {:induction false} WithoutAppend(a: string, b: string, c: char)
    ensures Without(a + b, c) == Without(a, c) + Without(b, c)
  {
    if |a| == 0 {
      assert a + b == b;
    } else {
      assert (a + b)[0] == a[0];
      assert (a + b)[1..] == a[1..] + b;
      WithoutAppend(a[1..], b, c);
    }
  }

  // ---------------------------------------------------------------- lower()

  function LowerChar(c: char): char {
    if 'A' <= c <= 'Z' then (c as int + 32) as char else c
  }

  function UpperChar(c: char): char {
    if 'a' <= c <= 'z' then (c as int - 32) as char else c
  }

  /** `s.lower()` on ASCII letters. */
  function Lower(s: string): (r: string)
    ensures |r| == |s|
  {
    if |s| == 0 then "" else [LowerChar(s[0])] + Lower(s[1..])
  }

  /** `s.upper()` on ASCII letters. */
  function Upper(s: string): (r: string)
    ensures |r| == |s|
  {
    if |s| == 0 then "" else [UpperChar(s[0])] + Upper(s[1..])
  }

  /** Comparing lower-cased text does not see the case the text was written in. */
  lemma {:induction false} LowerOfUpper(s: string)
    ensures Lower(Upper(s)) == Lower(s)
  {
    if |s| > 0 {
      LowerOfUpper(s[1..]);
    }
  }

  // ---------------------------------------------------------------- split(sep)[-1]

  /** `s.split(sep)[-1]`: the text after the last `sep`, or all of `s` when there is none. */
  function LastSegment(s: string, sep: char): (r: string)
    ensures |r| <= |s| && r == s[|s| - |r|..]
    ensures sep !in r
    ensures |r| < |s| ==> s[|s| - |r| - 1] == sep
  {
    if |s| == 0 || s[|s| - 1] == sep then ""
    else LastSegment(s[..|s| - 1], sep) + [s[|s| - 1]]
  }

  /** The last segment after a separator is the text written after it. */
  lemma {:induction false} LastSegmentAfter(prefix: string, sep: char, w: string)
    requires sep !in w
    ensures LastSegment(prefix + [sep] + w, sep) == w
  {
    var s := prefix + [sep] + w;
    if |w| > 0 {
      var w', c := w[..|w| - 1], w[|w| - 1];
      assert w' + [c] == w;
      assert c in w;
      assert s == (prefix + [sep] + w') + [c];
      LastSegmentSnoc(prefix + [sep] + w', c, sep);
      LastSegmentAfter(prefix, sep, w');
    } else {
      assert s == prefix + [sep];
    }
  }

  lemma LastSegmentSnoc(t: string, c: char, sep: char)
    requires c != sep
    ensures LastSegment(t + [c], sep) == LastSegment(t, sep) + [c]
  {
    assert (t + [c])[..|t|] == t;
  }

  // ---------------------------------------------------------------- int() and float()

  function DigitValue(c: char): nat
    requires IsDigit(c)
  {
    c as int - '0' as int
  }

  /** The value of a string of decimal digits, most significant first. */
  function DigitsValue(s: string): nat
    requires AllDigits(s)
  {
    if |s| == 0 then 0 else 10 * DigitsValue(s[..|s| - 1]) + DigitValue(s[|s| - 1])
  }

  function DigitChar(d: nat): char
    requires d < 10
  {
    ('0' as int + d) as char
  }

  /** `str(n)` for a natural number. */
  function Decimal(n: nat): (s: string)
    ensures |s| > 0 && AllDigits(s)
  {
    if n < 10 then [DigitChar(n)] else Decimal(n / 10) + [DigitChar(n % 10)]
  }

  /** Reading back what `str(n)` wrote gives `n`. */
  lemma {:induction false} DigitsValueOfDecimal(n: nat)
    ensures DigitsValue(Decimal(n)) == n
  {
    var s := Decimal(n);
    if n >= 10 {
      assert s[..|s| - 1] == Decimal(n / 10);
      DigitsValueOfDecimal(n / 10);
    }
  }

  predicate IsSign(c: char) { c == '+' || c == '-' }

  /** The text `int()` accepts once whitespace is stripped: an optional leading
      sign, then one or more decimal digits and nothing else. */
  predicate IntText(t: string) {
    && |t| > 0 && IsDigit(t[|t| - 1])
    && forall i :: 0 <= i < |t| ==> IsDigit(t[i]) || (i == 0 && IsSign(t[i]))
  }

  /** The text `float()` accepts in plain decimal notation once whitespace is
      stripped: digits and at most one `.`, an optional leading sign, and at
      least one digit. */
  predicate FloatText(t: string) {
    && (forall i :: 0 <= i < |t| ==> IsDigit(t[i]) || t[i] == '.' || (i == 0 && IsSign(t[i])))
    && (forall i, j :: 0 <= i < j < |t| && t[i] == '.' ==> t[j] != '.')
    && exists i :: 0 <= i < |t| && IsDigit(t[i])
  }

  /** A number's text after its sign: digits and at most one `.`, with at
      least one digit. */
  predicate UnsignedFloatText(b: string) {
    && (forall i :: 0 <= i < |b| ==> IsDigit(b[i]) || b[i] == '.')
    && (forall i, j :: 0 <= i < j < |b| && b[i] == '.' ==> b[j] != '.')
    && exists i :: 0 <= i < |b| && IsDigit(b[i])
  }

  /** Splits an optional leading sign off a number's text: (sign, rest). */
  function SignOf(s: string): (int, string) {
    if |s| > 0 && s[0] == '-' then (-1, s[1..])
    else if |s| > 0 && s[0] == '+' then (1, s[1..])
    else (1, s)
  }

  /** `int(s)`: surrounding whitespace, an optional sign, then at least one decimal digit. */
  function ParseInt(s: string): (r: Option<int>)
    ensures r.Some? <==> IntText(Strip(s, IsSpace))
    ensures r.Some? ==> Strip(s, IsSpace) != ""
    ensures r.Some? && r.value < 0 ==> Strip(s, IsSpace)[0] == '-'
    ensures |s| > 0 && AllDigits(s) ==> r == Some(DigitsValue(s))
  {
    DigitsUnsigned(s);
    IntTextSigned(Strip(s, IsSpace));
    var (sign, body) := SignOf(Strip(s, IsSpace));
    if |body| > 0 && AllDigits(body) then Some(sign * DigitsValue(body)) else None
  }

  /** A text ending in a character other than whitespace keeps that character
      last when stripped. */
  lemma StripKeepsLast(t: string)
    requires |t| > 0 && !IsSpace(t[|t| - 1])
    ensures |Strip(t, IsSpace)| > 0 && Strip(t, IsSpace)[|Strip(t, IsSpace)| - 1] == t[|t| - 1]
  {
    var l := TrimLeft(t, IsSpace);
    TrimLeftKeepsLast(t, IsSpace);
    TrimRightKept(l, IsSpace);
    assert Strip(t, IsSpace) == l;
  }

  lemma TrimLeftKeepsLast(t: string, drop: char -> bool)
    requires |t| > 0 && !drop(t[|t| - 1])
    ensures |TrimLeft(t, drop)| > 0 && TrimLeft(t, drop)[|TrimLeft(t, drop)| - 1] == t[|t| - 1]
  {
    var l := TrimLeft(t, drop);
    assert |l| > 0;
    assert l[|l| - 1] == t[|t| - |l|..][|l| - 1];
  }

  lemma TrimRightKept(s: string, drop: char -> bool)
    requires |s| > 0 && !drop(s[|s| - 1])
    ensures TrimRight(s, drop) == s
  {
  }

  /** Every character of a text that is not whitespace survives `strip()`. */
  lemma StripKeepsInner(t: string)
    ensures forall i :: 0 <= i < |t| && !IsSpace(t[i]) ==> t[i] in Strip(t, IsSpace)
  {
    forall i | 0 <= i < |t| && !IsSpace(t[i]) ensures t[i] in Strip(t, IsSpace) {
      StripKeepsAt(t, i, IsSpace);
    }
  }

  lemma StripKeepsAt(t: string, i: nat, drop: char -> bool)
    requires i < |t| && !drop(t[i])
    ensures t[i] in TrimRight(TrimLeft(t, drop), drop)
  {
    var l := TrimLeft(t, drop);
    var r := TrimRight(l, drop);
    var j := i - (|t| - |l|);
    assert 0 <= j < |l| && l[j] == t[i];
    assert j < |r|;
    assert r[j] == t[i];
  }

  /** A text is `int()`'s exactly when what follows its sign is a run of digits. */
  lemma IntTextSigned(t: string)
    ensures IntText(t) <==> |SignOf(t).1| > 0 && AllDigits(SignOf(t).1)
  {
    var b := SignOf(t).1;
    if |t| > 0 && IsSign(t[0]) {
      assert b == t[1..];
      assert forall i :: 1 <= i < |t| ==> t[i] == b[i - 1];
    } else {
      assert b == t;
    }
  }

  /** A text whose two ends are not whitespace is left alone by `strip()`. */
  lemma StripUnpadded(s: string)
    requires |s| > 0 && !IsSpace(s[0]) && !IsSpace(s[|s| - 1])
    ensures Strip(s, IsSpace) == s
  {
    assert TrimLeft(s, IsSpace) == s;
  }

  /** Reading back `str(n)` with `int()` gives `n`, and `-n` after a minus sign. */
  lemma ParseIntDecimal(n: nat)
    ensures ParseInt(Decimal(n)) == Some(n)
    ensures ParseInt("-" + Decimal(n)) == Some(-(n as int))
  {
    var s := Decimal(n);
    StripUnpadded(s);
    var m := "-" + s;
    assert m[0] == '-' && m[|m| - 1] == s[|s| - 1];
    StripUnpadded(m);
    assert m[1..] == s;
    DigitsValueOfDecimal(n);
  }

  /** Index of the first occurrence of `c` in `s`, or `|s|` when it does not occur. */
  function IndexOf(s: string, c: char): (k: nat)
    ensures k <= |s| && c !in s[..k]
    ensures k < |s| ==> s[k] == c
  {
    if |s| == 0 || s[0] == c then 0 else 1 + IndexOf(s[1..], c)
  }

  function Pow10(n: nat): (p: nat)
    ensures p >= 1
  {
    if n == 0 then 1 else 10 * Pow10(n - 1)
  }

  /** `float(s)` restricted to plain decimal notation: surrounding whitespace, an
      optional sign, digits with at most one `.`, and at least one digit. */
  function ParseFloat(s: string): (r: Option<real>)
    ensures r.Some? <==> FloatText(Strip(s, IsSpace))
    ensures r.Some? ==> Strip(s, IsSpace) != ""
    ensures r.Some? && r.value < 0.0 ==> Strip(s, IsSpace)[0] == '-'
  {
    var t := Strip(s, IsSpace);
    FloatTextSigned(t);
    match UnsignedValue(SignOf(t).1)
    case None => None
    case Some(m) => Some(if SignOf(t).0 < 0 then -m else m)
  }

  /** The value of a number's text after its sign, or `None` when it is not
      digits around at most one `.`. */
  function UnsignedValue(b: string): (r: Option<real>)
    ensures r.Some? <==> UnsignedFloatText(b)
    ensures r.Some? ==> r.value >= 0.0
  {
    DotSplit(b);
    var (whole, frac) := AroundDot(b);
    if |whole| + |frac| > 0 && AllDigits(whole) && AllDigits(frac) then Some(Magnitude(whole, frac))
    else None
  }

  /** The digits before and after the first `.`; the second part is empty when
      there is no `.`. */
  function AroundDot(b: string): (string, string) {
    var k := IndexOf(b, '.');
    (b[..k], if k < |b| then b[k + 1..] else "")
  }

  /** A text is `float()`'s exactly when what follows its sign is. */
  lemma FloatTextSigned(t: string)
    ensures FloatText(t) <==> UnsignedFloatText(SignOf(t).1)
  {
    var b := SignOf(t).1;
    if |t| > 0 && IsSign(t[0]) {
      assert b == t[1..];
      assert forall i :: 1 <= i < |t| ==> t[i] == b[i - 1];
      if FloatText(t) {
        var i :| 0 <= i < |t| && IsDigit(t[i]);
        assert IsDigit(b[i - 1]);
      }
      if UnsignedFloatText(b) {
        var i :| 0 <= i < |b| && IsDigit(b[i]);
        assert IsDigit(t[i + 1]);
      }
    } else {
      assert b == t;
    }
  }

  /** What follows the sign is accepted exactly when the parts around the first
      `.` are digits, not both empty. */
  lemma DotSplit(b: string)
    ensures UnsignedFloatText(b) <==>
      var (whole, frac) := AroundDot(b);
      |whole| + |frac| > 0 && AllDigits(whole) && AllDigits(frac)
  {
    var k := IndexOf(b, '.');
    var (whole, frac) := AroundDot(b);
    assert forall i :: 0 <= i < k ==> b[i] == whole[i];
    assert k < |b| ==> forall i :: k < i < |b| ==> b[i] == frac[i - k - 1];
    assert k == |b| ==> frac == "";
    if UnsignedFloatText(b) {
      var d :| 0 <= d < |b| && IsDigit(b[d]);
      assert d != k;
      assert forall i :: 0 <= i < k ==> b[i] != '.';
    }
    if |whole| + |frac| > 0 && AllDigits(whole) && AllDigits(frac) {
      assert forall i :: 0 <= i < |b| ==> IsDigit(b[i]) || b[i] == '.';
      if |whole| > 0 {
        assert IsDigit(b[0]);
      } else {
        assert IsDigit(b[k + 1]);
      }
    }
  }

  /** `float()` of `str(w) + '.' + f` is `w` plus the fraction the digits `f` write. */
  lemma {:induction false} ParseFloatFraction(w: nat, f: string)
    requires AllDigits(f)
    ensures ParseFloat(Decimal(w) + "." + f) == Some(Magnitude(Decimal(w), f))
    ensures Magnitude(Decimal(w), f) == w as real + DigitsValue(f) as real / Pow10(|f|) as real
  {
    var d := Decimal(w);
    AppendAssoc(d, ".", f);
    ParseFloatPoint(d, f);
    DigitsValueOfDecimal(w);
  }

  /** Digits, a `.` and digits read as the value of `whole.frac`. */
  lemma ParseFloatPoint(whole: string, frac: string)
    requires |whole| > 0 && AllDigits(whole) && AllDigits(frac)
    ensures ParseFloat(whole + ("." + frac)) == Some(Magnitude(whole, frac))
  {
    var s := whole + ("." + frac);
    PointText(whole, frac);
    assert UnsignedValue(s) == Some(Magnitude(whole, frac));
  }

  /** Digits around one `.` are unpadded, unsigned, and split at that `.`. */
  lemma PointText(whole: string, frac: string)
    requires |whole| > 0 && AllDigits(whole) && AllDigits(frac)
    ensures var s := whole + ("." + frac);
      Strip(s, IsSpace) == s && SignOf(s) == (1, s) && AroundDot(s) == (whole, frac)
  {
    var s := whole + ("." + frac);
    DigitsHaveNoDot(whole);
    IndexOfAppend(whole, "." + frac, '.');
    assert IndexOf(s, '.') == |whole|;
    assert s[..|whole|] == whole && s[|whole| + 1..] == frac;
    assert IsDigit(s[0]) && !IsSpace(s[|s| - 1]);
    StripUnpadded(s);
  }

  /** The first `c` of `a + b`, when `a` holds none, is the first `c` of `b`. */
  lemma {:induction false} IndexOfAppend(a: string, b: string, c: char)
    requires IndexOf(a, c) == |a|
    ensures IndexOf(a + b, c) == |a| + IndexOf(b, c)
  {
    if |a| > 0 {
      assert (a + b)[1..] == a[1..] + b;
      IndexOfAppend(a[1..], b, c);
    } else {
      assert a + b == b;
    }
  }

  /** The value of the digits `whole.frac`. */
  function Magnitude(whole: string, frac: string): (r: real)
    requires AllDigits(whole) && AllDigits(frac)
    ensures r >= 0.0
  {
    DigitsValue(whole) as real + DigitsValue(frac) as real / Pow10(|frac|) as real
  }

  /** Reading back `str(n)` with `float()` gives `n`. */
  lemma ParseFloatDecimal(n: nat)
    ensures ParseFloat(Decimal(n)) == Some(n as real)
  {
    ParseFloatDigits(Decimal(n));
    DigitsValueOfDecimal(n);
  }

  /** `float()` of a run of decimal digits is their value. */
  lemma ParseFloatDigits(s: string)
    requires |s| > 0 && AllDigits(s)
    ensures ParseFloat(s) == Some(DigitsValue(s) as real)
  {
    DigitsUnsigned(s);
    DigitsHaveNoDot(s);
    ParseFloatWhole(s, s);
  }

  /** An unsigned body without a decimal point reads as the value of its digits. */
  lemma ParseFloatWhole(s: string, body: string)
    requires SignOf(Strip(s, IsSpace)) == (1, body)
    requires |body| > 0 && AllDigits(body) && IndexOf(body, '.') == |body|
    ensures ParseFloat(s) == Some(DigitsValue(body) as real)
  {
    assert body[..|body|] == body;
    assert AroundDot(body) == (body, "");
    assert Magnitude(body, "") == DigitsValue(body) as real by {
      assert DigitsValue("") == 0 && Pow10(0) == 1;
    }
  }

  lemma DigitsUnsigned(s: string)
    ensures |s| > 0 && AllDigits(s) ==> SignOf(Strip(s, IsSpace)) == (1, s)
  {
    if |s| > 0 && AllDigits(s) {
      assert IsDigit(s[0]) && IsDigit(s[|s| - 1]);
      StripUnpadded(s);
    }
  }

  lemma DigitsHaveNoDot(s: string)
    requires AllDigits(s)
    ensures IndexOf(s, '.') == |s|
  {
    assert forall i :: 0 <= i < |s| ==> s[i] != '.';
  }
}
