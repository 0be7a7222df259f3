/**
 * The parts of java.lang.String and java.util.regex that the cleaning steps
 * rely on, for ASCII text: trim(), toLowerCase(), equalsIgnoreCase(),
 * contains(), replace(), lastIndexOf() and the run-collapsing replaceAll
 * calls, plus decimal rendering of integers.
 */
module Text {

  /** A character that String.trim() strips: any code point up to U+0020. */
  predicate IsControlOrSpace(c: char) {
    c <= ' '
  }

  /** The regular-expression class `\s`: space, tab, newline, vertical tab, form feed, return. */
  predicate IsRegexSpace(c: char) {
    c == ' ' || '\t' <= c <= '\r'
  }

  /** IsRegexSpace as a function value: the characters `\s+` matches. */
  function RegexSpace(): char -> bool {
    c => IsRegexSpace(c)
  }

  predicate IsAsciiDigit(c: char) {
    '0' <= c <= '9'
  }

  predicate IsAsciiLetter(c: char) {
    'a' <= c <= 'z' || 'A' <= c <= 'Z'
  }

  /** `[a-zA-Z0-9]` */
  predicate IsAsciiAlnum(c: char) {
    IsAsciiLetter(c) || IsAsciiDigit(c)
  }

  /** `[a-z0-9]` */
  predicate IsLowerAlnum(c: char) {
    'a' <= c <= 'z' || IsAsciiDigit(c)
  }

  predicate NotLowerAlnum(c: char) {
    !IsLowerAlnum(c)
  }

  /** NotLowerAlnum as a function value: the characters `[^a-z0-9]+` matches. */
  function NameBreak(): char -> bool {
    c => NotLowerAlnum(c)
  }

  predicate AllDigits(s: string) {
    forall i :: 0 <= i < |s| ==> IsAsciiDigit(s[i])
  }

  /** Drops the longest prefix whose characters satisfy `p`. */
  function DropWhile(s: string, p: char -> bool): (r: string)
    ensures |r| <= |s| && r == s[|s| - |r|..]
    ensures r == [] || !p(r[0])
    ensures forall i :: 0 <= i < |s| - |r| ==> p(s[i])
  {
    if s != [] && p(s[0]) then DropWhile(s[1..], p) else s
  }

  /** Drops the longest suffix whose characters satisfy `p`. */
  function DropWhileEnd(s: string, p: char -> bool): (r: string)
    ensures |r| <= |s| && r == s[..|r|]
    ensures r == [] || !p(r[|r| - 1])
    ensures forall i :: |r| <= i < |s| ==> p(s[i])
  {
    if s != [] && p(s[|s| - 1]) then DropWhileEnd(s[..|s| - 1], p) else s
  }

  /** The part of trim() that strips leading characters up to U+0020. */
  function TrimStart(s: string): (r: string)
    ensures |r| <= |s|
  {
    if s != [] && IsControlOrSpace(s[0]) then TrimStart(s[1..]) else s
  }

  /** The part of trim() that strips trailing characters up to U+0020. */
  function TrimEnd(s: string): (r: string)
    ensures |r| <= |s|
  {
    if s != [] && IsControlOrSpace(s[|s| - 1]) then TrimEnd(s[..|s| - 1]) else s
  }

  /** String.trim(): strip every leading and trailing character up to U+0020. */
  function Trim(s: string): string {
    TrimEnd(TrimStart(s))
  }

  /** Stripping the start keeps a suffix that starts with a non-blank, and drops only blanks. */
  lemma {:induction false} TrimStartShape(s: string)
    ensures |TrimStart(s)| <= |s| && TrimStart(s) == s[|s| - |TrimStart(s)|..]
    ensures TrimStart(s) == [] || !IsControlOrSpace(TrimStart(s)[0])
    ensures forall i :: 0 <= i < |s| - |TrimStart(s)| ==> IsControlOrSpace(s[i])
  {
    if s != [] && IsControlOrSpace(s[0]) {
      TrimStartShape(s[1..]);
      forall i | 1 <= i < |s| - |TrimStart(s)|
        ensures IsControlOrSpace(s[i])
      {
        assert s[1..][i - 1] == s[i];
      }
    }
  }

  /** Stripping the end keeps a prefix that ends with a non-blank, and drops only blanks. */
  lemma {:induction false} TrimEndShape(s: string)
    ensures |TrimEnd(s)| <= |s| && TrimEnd(s) == s[..|TrimEnd(s)|]
    ensures TrimEnd(s) == [] || !IsControlOrSpace(TrimEnd(s)[|TrimEnd(s)| - 1])
    ensures forall i :: |TrimEnd(s)| <= i < |s| ==> IsControlOrSpace(s[i])
  {
    if s != [] && IsControlOrSpace(s[|s| - 1]) {
      TrimEndShape(s[..|s| - 1]);
    }
  }

  /** Where the text that trim() keeps starts in its input. */
  function TrimOffset(s: string): nat {
    |s| - |TrimStart(s)|
  }

  /** What trim() keeps is a contiguous slice of its input whose two ends are not blanks. */
  lemma TrimShape(s: string)
    ensures TrimOffset(s) + |Trim(s)| <= |s| && Trim(s) == s[TrimOffset(s)..TrimOffset(s) + |Trim(s)|]
    ensures Trim(s) == [] || (!IsControlOrSpace(Trim(s)[0]) && !IsControlOrSpace(Trim(s)[|Trim(s)| - 1]))
  {
    var t := TrimStart(s);
    var r := TrimEnd(t);
    TrimStartShape(s);
    TrimEndShape(t);
    if r != [] {
      assert r[0] == t[0];
    }
  }

  /** trim() leaves a string alone exactly when neither end is blank. */
  lemma TrimIdentity(s: string)
    ensures Trim(s) == s <==> (s == [] || (!IsControlOrSpace(s[0]) && !IsControlOrSpace(s[|s| - 1])))
  {
    TrimShape(s);
  }

  /** trim() is idempotent. */
  lemma TrimIdempotent(s: string)
    ensures Trim(Trim(s)) == Trim(s)
  {
    TrimShape(s);
    TrimIdentity(Trim(s));
  }

  /** trim() yields the empty string exactly when every character is a blank. */
  lemma TrimEmpty(s: string)
    ensures Trim(s) == [] <==> forall i :: 0 <= i < |s| ==> IsControlOrSpace(s[i])
  {
    var t := TrimStart(s);
    TrimStartShape(s);
    TrimEndShape(t);
    if t != [] {
      assert !IsControlOrSpace(t[0]);
      assert TrimEnd(t) != [];
      assert t[0] == s[|s| - |t|];
    }
  }

  function ToLowerChar(c: char): char {
    if 'A' <= c <= 'Z' then (c as int + 32) as char else c
  }

  /** String.toLowerCase() on ASCII letters. */
  function ToLower(s: string): (r: string)
    ensures |r| == |s|
  {
    seq(|s|, i requires 0 <= i < |s| => ToLowerChar(s[i]))
  }

  /** String.equalsIgnoreCase() on ASCII text. */
  predicate EqualsIgnoreCase(a: string, b: string) {
    ToLower(a) == ToLower(b)
  }

  /** String.contains(): `sub` occurs somewhere in `s`. */
  predicate Contains(s: string, sub: string)
    decreases |s|
  {
    sub <= s || (s != [] && Contains(s[1..], sub))
  }

  /** String.lastIndexOf(c), with -1 when `c` does not occur. */
  function LastIndexOf(s: string, c: char): (r: int)
    ensures -1 <= r < |s|
    ensures r >= 0 ==> s[r] == c
    ensures forall i :: r < i < |s| ==> s[i] != c
  {
    if s == [] then -1
    else if s[|s| - 1] == c then |s| - 1
    else LastIndexOf(s[..|s| - 1], c)
  }

  /**
   * String.replace(target, replacement): every occurrence of `pat`,
   * scanning left to right without overlap, becomes `rep`.
   */
  function ReplaceAll(s: string, pat: string, rep: string): string
    requires pat != []
    decreases |s|
  {
    if |s| < |pat| then s
    else if s[..|pat|] == pat then rep + ReplaceAll(s[|pat|..], pat, rep)
    else [s[0]] + ReplaceAll(s[1..], pat, rep)
  }

  /**
   * `s.replaceAll("X+", [c])` where X is the character class `p`: each
   * maximal run of characters satisfying `p` becomes the single character `c`.
   */
  function CollapseRuns(s: string, p: char -> bool, c: char): (r: string)
    ensures |r| <= |s|
    decreases |s|
  {
    if s == [] then []
    else if p(s[0]) then [c] + CollapseRuns(DropWhile(s[1..], p), p, c)
    else [s[0]] + CollapseRuns(s[1..], p, c)
  }

  /**
   * The shape of collapsed text: a character of the class can only be the
   * replacement, and a replacement is never followed by another class character.
   */
  ghost predicate Collapsed(r: string, p: char -> bool, c: char) {
    forall i :: 0 <= i < |r| && p(r[i]) ==> r[i] == c && (i + 1 < |r| ==> !p(r[i + 1]))
  }

  /** CollapseRuns produces collapsed text. */
  lemma {:induction false} CollapseShape(s: string, p: char -> bool, c: char)
    ensures Collapsed(CollapseRuns(s, p, c), p, c)
    decreases |s|
  {
    if s == [] {
    } else if p(s[0]) {
      var t := DropWhile(s[1..], p);
      CollapseShape(t, p, c);
      var rest := CollapseRuns(t, p, c);
      assert rest == [] || !p(rest[0]) by {
        if t != [] {
          assert !p(t[0]);
        }
      }
      var r := [c] + rest;
      assert CollapseRuns(s, p, c) == r;
      forall i | 0 <= i < |r| && p(r[i])
        ensures r[i] == c && (i + 1 < |r| ==> !p(r[i + 1]))
      {
        if i > 0 {
          assert r[i] == rest[i - 1];
          assert p(rest[i - 1]);
        }
        if i + 1 < |r| {
          assert r[i + 1] == rest[i];
        }
      }
    } else {
      CollapseShape(s[1..], p, c);
      var rest := CollapseRuns(s[1..], p, c);
      var r := [s[0]] + rest;
      assert CollapseRuns(s, p, c) == r;
      forall i | 0 <= i < |r| && p(r[i])
        ensures r[i] == c && (i + 1 < |r| ==> !p(r[i + 1]))
      {
        assert i > 0;
        assert r[i] == rest[i - 1];
        assert p(rest[i - 1]);
        if i + 1 < |r| {
          assert r[i + 1] == rest[i];
        }
      }
    }
  }

  lemma CollapsedTail(s: string, p: char -> bool, c: char)
    requires s != [] && Collapsed(s, p, c)
    ensures Collapsed(s[1..], p, c)
  {
    var t := s[1..];
    forall i | 0 <= i < |t| && p(t[i]) ensures t[i] == c && (i + 1 < |t| ==> !p(t[i + 1])) {
      assert t[i] == s[i + 1];
      if i + 1 < |t| {
        assert t[i + 1] == s[i + 2];
      }
    }
  }

  /** Collapsed text is left unchanged by collapsing. */
  lemma {:induction false} CollapseFixed(s: string, p: char -> bool, c: char)
    requires Collapsed(s, p, c)
    ensures CollapseRuns(s, p, c) == s
    decreases |s|
  {
    if s != [] {
      CollapsedTail(s, p, c);
      CollapseFixed(s[1..], p, c);
      if p(s[0]) {
        assert s[0] == c;
        assert DropWhile(s[1..], p) == s[1..] by {
          if |s| > 1 {
            assert !p(s[1]);
          }
        }
        assert CollapseRuns(s, p, c) == [c] + CollapseRuns(s[1..], p, c);
      } else {
        assert CollapseRuns(s, p, c) == [s[0]] + CollapseRuns(s[1..], p, c);
      }
      assert s == [s[0]] + s[1..];
    }
  }

  /** Collapsing runs is idempotent. */
  lemma CollapseIdempotent(s: string, p: char -> bool, c: char)
    ensures CollapseRuns(CollapseRuns(s, p, c), p, c) == CollapseRuns(s, p, c)
  {
    CollapseShape(s, p, c);
    CollapseFixed(CollapseRuns(s, p, c), p, c);
  }

  /** Every character of the collapsed text is the replacement or a character of the input. */
  lemma {:induction false} CollapseChars(s: string, p: char -> bool, c: char)
    ensures forall x :: x in CollapseRuns(s, p, c) ==> x == c || (x in s && !p(x))
    decreases |s|
  {
    if s == [] {
    } else if p(s[0]) {
      var t := DropWhile(s[1..], p);
      CollapseChars(t, p, c);
      forall x | x in t ensures x in s {
        var j :| 0 <= j < |t| && t[j] == x;
        assert s[|s| - |t| + j] == x;
      }
    } else {
      CollapseChars(s[1..], p, c);
    }
  }

  /** A first or last character outside the class survives collapsing in place. */
  lemma {:induction false} CollapseEnds(s: string, p: char -> bool, c: char)
    requires s != []
    ensures !p(s[0]) ==> CollapseRuns(s, p, c) != [] && CollapseRuns(s, p, c)[0] == s[0]
    ensures !p(s[|s| - 1]) ==>
      CollapseRuns(s, p, c) != [] && CollapseRuns(s, p, c)[|CollapseRuns(s, p, c)| - 1] == s[|s| - 1]
    decreases |s|
  {
    if p(s[0]) {
      var t := DropWhile(s[1..], p);
      if !p(s[|s| - 1]) {
        assert t != [] && t[|t| - 1] == s[|s| - 1];
        CollapseEnds(t, p, c);
      }
    } else if |s| > 1 {
      CollapseEnds(s[1..], p, c);
    }
  }

  function DigitChar(d: nat): (c: char)
    requires d < 10
    ensures IsAsciiDigit(c)
  {
    ('0' as int + d) as char
  }

  function DigitValue(c: char): (d: nat)
    requires IsAsciiDigit(c)
    ensures d < 10
  {
    c as int - '0' as int
  }

  /** The decimal digits of a natural number, as Long.toString prints them. */
  function NatText(n: nat): (r: string)
    ensures r != [] && AllDigits(r)
  {
    if n < 10 then [DigitChar(n)] else NatText(n / 10) + [DigitChar(n % 10)]
  }

  predicate EndsWithDigit(s: string) {
    s != [] && IsAsciiDigit(s[|s| - 1])
  }

  /** Text that ends in a digit survives trim() and does not lower-case to a letter. */
  lemma EndsWithDigitNotBlank(s: string)
    requires EndsWithDigit(s)
    ensures Trim(s) != []
    ensures IsAsciiDigit(ToLower(s)[|s| - 1])
  {
    var d := TrimStart(s);
    TrimStartShape(s);
    assert d != [] && d[|d| - 1] == s[|s| - 1];
    assert TrimEnd(d) == d;
    assert ToLower(s)[|s| - 1] == ToLowerChar(s[|s| - 1]);
  }

  /** Integer.toString / Long.toString. */
  function IntText(i: int): (r: string)
    ensures EndsWithDigit(r)
  {
    if i < 0 then "-" + NatText(-i) else NatText(i)
  }

  /** The number a string of decimal digits denotes. */
  function DigitsValue(s: string): nat
    requires AllDigits(s)
  {
    if s == [] then 0 else DigitsValue(s[..|s| - 1]) * 10 + DigitValue(s[|s| - 1])
  }

  /** Reading back the digits of a number gives the number. */
  lemma {:induction false} NatTextRoundTrip(n: nat)
    ensures DigitsValue(NatText(n)) == n
  {
    if n >= 10 {
      NatTextRoundTrip(n / 10);
      var s := NatText(n);
      assert s[..|s| - 1] == NatText(n / 10);
    }
  }
}
