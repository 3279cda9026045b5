/** The handful of Rust `str` operations the backend relies on, over `seq<char>`:
    `split`, `join`, `trim`, `lines`, `split_whitespace`, `contains`,
    `starts_with`/`ends_with`, ASCII lower-casing, byte-wise ordering and
    decimal formatting. */
module Strs {

  /** Rust's `char::is_whitespace`: the Unicode White_Space property. */
  predicate IsWhitespace(c: char) {
    c == ' ' || ('\t' <= c <= '\r') || c == '\U{85}' || c == '\U{A0}' || c == '\U{1680}'
    || ('\U{2000}' <= c <= '\U{200A}') || c == '\U{2028}' || c == '\U{2029}'
    || c == '\U{202F}' || c == '\U{205F}' || c == '\U{3000}'
  }

  predicate IsSuffix(suffix: string, s: string) {
    |suffix| <= |s| && s[|s| - |suffix|..] == suffix
  }

  /** `needle` occurs in `s` starting at index `i`. */
  predicate OccursAt(s: string, needle: string, i: int) {
    0 <= i && i + |needle| <= |s| && s[i..i + |needle|] == needle
  }

  /** `s.contains(needle)`. */
  predicate Contains(s: string, needle: string) {
    exists i :: 0 <= i <= |s| - |needle| && OccursAt(s, needle, i)
  }

  lemma SuffixIsContained(suffix: string, s: string)
    requires IsSuffix(suffix, s)
    ensures Contains(s, suffix)
  {
    assert OccursAt(s, suffix, |s| - |suffix|);
  }

  // ---------------------------------------------------------------- split / join

  /** `s.split(c)`: always at least one part, none containing `c`. */
  function Split(s: string, c: char): (parts: seq<string>)
    ensures |parts| >= 1
    ensures forall i :: 0 <= i < |parts| ==> c !in parts[i]
    decreases |s|
  {
    if s == [] then [""]
    else
      var rest := Split(s[1..], c);
      if s[0] == c then [""] + rest
      else [[s[0]] + rest[0]] + rest[1..]
  }

  /** `parts.join(sep)`. */
  function Join(parts: seq<string>, sep: string): string
    decreases |parts|
  {
    if |parts| == 0 then ""
    else if |parts| == 1 then parts[0]
    else parts[0] + sep + Join(parts[1..], sep)
  }

  /** Splitting and re-joining on the same character gives back the input. */
  lemma {:induction false} JoinSplit(s: string, c: char)
    ensures Join(Split(s, c), [c]) == s
    decreases |s|
  {
    if s != [] {
      var rest := Split(s[1..], c);
      JoinSplit(s[1..], c);
      assert Join(rest, [c]) == s[1..];
      if s[0] == c {
        assert Split(s, c) == [""] + rest;
        assert s == [c] + s[1..];
      } else {
        if |rest| == 1 {
          assert s == [s[0]] + rest[0];
        } else {
          assert Join(rest, [c]) == rest[0] + [c] + Join(rest[1..], [c]);
          assert Split(s, c)[1..] == rest[1..];
        }
      }
    }
  }

  /** The last part of `s.split(c)`: what follows the last `c`, or all of `s`. */
  function LastSegment(s: string, c: char): (r: string)
    ensures c !in r
    ensures IsSuffix(r, s)
    ensures |r| < |s| ==> s[|s| - |r| - 1] == c
    ensures c !in s ==> r == s
    decreases |s|
  {
    if s == [] then ""
    else if s[|s| - 1] == c then ""
    else LastSegment(s[..|s| - 1], c) + [s[|s| - 1]]
  }

  /** Prepending a character: it joins the last segment only when `s` has no `c`. */
  lemma LastSegmentCons(x: char, s: string, c: char)
    ensures LastSegment([x] + s, c) == if c in s then LastSegment(s, c) else if x == c then s else [x] + s
  {
    if c in s {
      LastSegmentConsHit(x, s, c);
    } else if x == c {
      LastSegmentAfterSeparator(s, c);
    } else {
      assert c !in [x] + s;
    }
  }

  /** When `s` holds a `c`, a character before it does not reach the last segment. */
  lemma {:induction false} LastSegmentConsHit(x: char, s: string, c: char)
    requires c in s
    ensures LastSegment([x] + s, c) == LastSegment(s, c)
    decreases |s|
  {
    var t := [x] + s;
    var front, e := s[..|s| - 1], s[|s| - 1];
    assert s == front + [e];
    assert t[..|t| - 1] == [x] + front && t[|t| - 1] == e;
    if e != c {
      assert c in front;
      LastSegmentConsHit(x, front, c);
    }
  }

  /** The last segment of `c` followed by a string without `c` is that string. */
  lemma LastSegmentAfterSeparator(s: string, c: char)
    requires c !in s
    ensures LastSegment([c] + s, c) == s
  {
    var t := [c] + s;
    var r := LastSegment(t, c);
    assert |r| == |s|;
    assert r == t[1..] == s;
  }

  /** `s.split(c).last()` is the last segment. */
  lemma {:induction false} LastOfSplit(s: string, c: char)
    ensures Split(s, c)[|Split(s, c)| - 1] == LastSegment(s, c)
    decreases |s|
  {
    if s != [] {
      var t := s[1..];
      assert s == [s[0]] + t;
      LastSegmentCons(s[0], t, c);
      if c !in t {
        SplitWithout(t, c);
        var parts := Split(s, c);
        if s[0] == c {
          assert parts == [""] + [t];
        } else {
          assert parts == [[s[0]] + t];
        }
      } else {
        LastOfSplit(t, c);
        SplitLastUnchanged(s, c);
        assert LastSegment(s, c) == LastSegment(t, c);
      }
    }
  }

  /** When the rest of `s` holds a `c`, the first character does not reach the last part. */
  lemma SplitLastUnchanged(s: string, c: char)
    requires s != [] && c in s[1..]
    ensures var parts, rest := Split(s, c), Split(s[1..], c);
            parts[|parts| - 1] == rest[|rest| - 1]
  {
    var rest := Split(s[1..], c);
    SplitWith(s[1..], c);
    var n := |rest|;
    if s[0] != c {
      var parts := Split(s, c);
      assert parts == [[s[0]] + rest[0]] + rest[1..];
      assert |parts| == n;
      assert parts[n - 1] == rest[1..][n - 2];
    }
  }

  /** A separator at the end adds one empty part. */
  lemma {:induction false} SplitTrailing(s: string, c: char)
    ensures Split(s + [c], c) == Split(s, c) + [""]
    decreases |s|
  {
    if s == [] {
      assert s + [c] == [c];
      assert [c][1..] == [];
    } else {
      var t := s[1..];
      assert (s + [c])[1..] == t + [c];
      assert (s + [c])[0] == s[0];
      SplitTrailing(t, c);
    }
  }

  /** A leading run without the separator joins the first part of what follows. */
  lemma {:induction false} SplitPrefix(x: string, rest: string, c: char)
    requires c !in x
    ensures var r := Split(rest, c);
            Split(x + rest, c) == [x + r[0]] + r[1..]
    decreases |x|
  {
    var r := Split(rest, c);
    if x == [] {
      assert x + rest == rest;
      assert x + r[0] == r[0];
      assert r == [r[0]] + r[1..];
    } else {
      assert (x + rest)[0] == x[0];
      assert (x + rest)[1..] == x[1..] + rest;
      SplitPrefix(x[1..], rest, c);
      assert [x[0]] + (x[1..] + r[0]) == x + r[0];
    }
  }

  lemma {:induction false} SplitWithout(s: string, c: char)
    requires c !in s
    ensures Split(s, c) == [s]
    decreases |s|
  {
    if s != [] {
      SplitWithout(s[1..], c);
      assert s == [s[0]] + s[1..];
    }
  }

  lemma {:induction false} SplitWith(s: string, c: char)
    requires c in s
    ensures |Split(s, c)| >= 2
    decreases |s|
  {
    if s[0] != c {
      SplitWith(s[1..], c);
    }
  }

  /** `s.replace(a, b)` for single characters. */
  function ReplaceChar(s: string, a: char, b: char): (r: string)
    ensures |r| == |s|
    ensures forall i :: 0 <= i < |s| ==> r[i] == if s[i] == a then b else s[i]
  {
    seq(|s|, i requires 0 <= i < |s| => if s[i] == a then b else s[i])
  }

  // ---------------------------------------------------------------- trim

  function TrimStart(s: string): (r: string)
    ensures IsSuffix(r, s)
    ensures r == [] || !IsWhitespace(r[0])
    ensures forall i :: 0 <= i < |s| - |r| ==> IsWhitespace(s[i])
    decreases |s|
  {
    if s != [] && IsWhitespace(s[0]) then TrimStart(s[1..]) else s
  }

  function TrimEnd(s: string): (r: string)
    ensures r <= s
    ensures r == [] || !IsWhitespace(r[|r| - 1])
    ensures forall i :: |r| <= i < |s| ==> IsWhitespace(s[i])
    decreases |s|
  {
    if s != [] && IsWhitespace(s[|s| - 1]) then TrimEnd(s[..|s| - 1]) else s
  }

  /** `s.trim()`: leading and trailing White_Space removed. */
  function Trim(s: string): string {
    TrimEnd(TrimStart(s))
  }

  /** Trimming leaves a string alone when neither end is whitespace. */
  lemma TrimNoop(s: string)
    requires s != [] && !IsWhitespace(s[0]) && !IsWhitespace(s[|s| - 1])
    ensures Trim(s) == s
  {
  }

  /** Two blanks on each side of a word are trimmed away. */
  lemma TrimPadded(x: string)
    requires x != [] && !IsWhitespace(x[0]) && !IsWhitespace(x[|x| - 1])
    ensures Trim([' ', ' '] + x + [' ', ' ']) == x
  {
    var u := x + [' ', ' '];
    var s := [' ', ' '] + u;
    assert [' ', ' '] + x + [' ', ' '] == s;
    assert s[1..][1..] == u && s[0] == ' ' && s[1..][0] == ' ' && u[0] == x[0];
    assert TrimStart(s) == TrimStart(s[1..]) == TrimStart(u) == u;
    var v := x + [' '];
    assert u[..|u| - 1] == v && v[..|v| - 1] == x;
    assert TrimEnd(u) == TrimEnd(v) == TrimEnd(x) == x;
  }

  // ---------------------------------------------------------------- lines / words

  function StripCr(line: string): string {
    if |line| > 0 && line[|line| - 1] == '\r' then line[..|line| - 1] else line
  }

  /** `s.lines()`: split at `\n`, a `\r` before the `\n` dropped, no final empty line. */
  function Lines(s: string): seq<string> {
    var parts := Split(s, '\n');
    var n := |parts|;
    var terminated := seq(n - 1, i requires 0 <= i < n - 1 => StripCr(parts[i]));
    if parts[n - 1] == "" then terminated else terminated + [parts[n - 1]]
  }

  /** Number of leading characters of `s` that are not whitespace. */
  function WordLength(s: string): (k: nat)
    ensures k <= |s|
    ensures forall i :: 0 <= i < k ==> !IsWhitespace(s[i])
    ensures k < |s| ==> IsWhitespace(s[k])
    decreases |s|
  {
    if s == [] || IsWhitespace(s[0]) then 0 else 1 + WordLength(s[1..])
  }

  /** `s.split_whitespace()`: the maximal runs of non-whitespace characters. */
  function Words(s: string): (words: seq<string>)
    ensures forall i :: 0 <= i < |words| ==> words[i] != []
    ensures forall i, j :: 0 <= i < |words| && 0 <= j < |words[i]| ==> !IsWhitespace(words[i][j])
    decreases |s|
  {
    if s == [] then []
    else if IsWhitespace(s[0]) then Words(s[1..])
    else
      var k := WordLength(s);
      [s[..k]] + Words(s[k..])
  }

  // ---------------------------------------------------------------- case

  function LowerAscii(c: char): char {
    if 'A' <= c <= 'Z' then (c as int + 32) as char else c
  }

  /** `s.to_lowercase()`, restricted to ASCII letters. */
  function ToLowerAscii(s: string): (r: string)
    ensures |r| == |s|
    ensures forall i :: 0 <= i < |s| ==> r[i] == LowerAscii(s[i])
  {
    seq(|s|, i requires 0 <= i < |s| => LowerAscii(s[i]))
  }

  // ---------------------------------------------------------------- ordering

  /** `a < b` for Rust `String`s: byte-wise, which for UTF-8 is code-point-wise. */
  predicate StrLess(a: string, b: string)
    decreases |a|
  {
    if a == [] then b != []
    else b != [] && (a[0] < b[0] || (a[0] == b[0] && StrLess(a[1..], b[1..])))
  }

  lemma {:induction false} StrLessIrreflexive(a: string)
    ensures !StrLess(a, a)
    decreases |a|
  {
    if a != [] { StrLessIrreflexive(a[1..]); }
  }

  lemma {:induction false} StrLessTransitive(a: string, b: string, c: string)
    requires StrLess(a, b) && StrLess(b, c)
    ensures StrLess(a, c)
    decreases |a|
  {
    if a != [] && a[0] == b[0] && b[0] == c[0] {
      StrLessTransitive(a[1..], b[1..], c[1..]);
    }
  }

  lemma {:induction false} StrLessTotal(a: string, b: string)
    ensures a == b || StrLess(a, b) || StrLess(b, a)
    decreases |a|
  {
    if a != [] && b != [] && a[0] == b[0] {
      StrLessTotal(a[1..], b[1..]);
      if a[1..] == b[1..] {
        assert a == [a[0]] + a[1..] && b == [b[0]] + b[1..];
      }
    }
  }

  // ---------------------------------------------------------------- decimal

  predicate IsDigits(s: string) {
    forall i :: 0 <= i < |s| ==> '0' <= s[i] <= '9'
  }

  function DigitChar(d: nat): (c: char)
    requires d < 10
    ensures '0' <= c <= '9' && c as int - '0' as int == d
  {
    (d + '0' as int) as char
  }

  /** `format!("{}", n)` for an unsigned integer. */
  function NatToString(n: nat): (r: string)
    ensures |r| >= 1 && IsDigits(r)
    ensures r[0] == '0' ==> n == 0
    decreases n
  {
    if n < 10 then [DigitChar(n)] else NatToString(n / 10) + [DigitChar(n % 10)]
  }

  function ParseDigits(s: string): nat
    requires IsDigits(s)
    decreases |s|
  {
    if s == [] then 0 else ParseDigits(s[..|s| - 1]) * 10 + (s[|s| - 1] as int - '0' as int)
  }

  /** The decimal rendering reads back as the same number. */
  lemma {:induction false} NatToStringRoundTrip(n: nat)
    ensures ParseDigits(NatToString(n)) == n
    decreases n
  {
    if n >= 10 {
      NatToStringRoundTrip(n / 10);
      var s := NatToString(n);
      assert s[..|s| - 1] == NatToString(n / 10);
    }
  }

  /** Different numbers render differently. */
  lemma NatToStringInjective(m: nat, n: nat)
    requires NatToString(m) == NatToString(n)
    ensures m == n
  {
    NatToStringRoundTrip(m);
    NatToStringRoundTrip(n);
  }
}
