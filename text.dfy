/**
  The .NET string operations the conversion relies on, over `string` (`seq<char>`):
  `int.ToString()` and `int.Parse` for non-negative numbers, `Contains`, `EndsWith`,
  `Replace`, `string.IsNullOrWhiteSpace` and the extension of a file name.
 */
module Text {
  import opened Wrappers

  /** The largest C# `int`; `int.Parse` throws an overflow error above it. */
  const Int32Max: int := 0x7FFF_FFFF

  predicate IsDigit(c: char) { '0' <= c <= '9' }

  predicate AllDigits(s: string) { forall i :: 0 <= i < |s| ==> IsDigit(s[i]) }

  function DigitChar(d: nat): (c: char)
    requires d < 10
    ensures IsDigit(c)
  {
    ('0' as int + d) as char
  }

  function DigitValue(c: char): nat
    requires IsDigit(c)
  {
    c as int - '0' as int
  }

  /** Decimal text of a non-negative number, as `{index}` prints it in an interpolated string. */
  function NatToString(n: nat): (s: string)
    ensures |s| > 0 && AllDigits(s)
    decreases n
  {
    if n < 10 then [DigitChar(n)] else NatToString(n / 10) + [DigitChar(n % 10)]
  }

  /** The number a string of decimal digits denotes (leading zeros allowed). */
  function Value(s: string): nat
    requires AllDigits(s)
  {
    if s == [] then 0 else Value(s[..|s| - 1]) * 10 + DigitValue(s[|s| - 1])
  }

  /**
    `int.Parse` restricted to what file names here can hold: a non-empty run of decimal
    digits whose value fits a C# `int`; anything else is the exception it throws.
   */
  function ParseInt32(s: string): Option<int>
  {
    if |s| > 0 && AllDigits(s) && Value(s) <= Int32Max then Some(Value(s)) else None
  }

  lemma {:induction false} ValueOfNatToString(n: nat)
    ensures Value(NatToString(n)) == n
    decreases n
  {
    if n >= 10 {
      var s := NatToString(n / 10);
      ValueOfNatToString(n / 10);
      var t := s + [DigitChar(n % 10)];
      assert t[..|t| - 1] == s;
    }
  }

  /** Printing then parsing gives the number back, exactly when it fits an `int`. */
  lemma ParseOfNatToString(n: nat)
    ensures ParseInt32(NatToString(n)) == if n <= Int32Max then Some(n) else None
  {
    ValueOfNatToString(n);
  }

  lemma NatToStringInjective(a: nat, b: nat)
    requires NatToString(a) == NatToString(b)
    ensures a == b
  {
    ValueOfNatToString(a);
    ValueOfNatToString(b);
  }

  // ---------------------------------------------------------------- searching

  /** `sub` occurs in `s` starting at index `i`. */
  predicate OccursAt(s: string, sub: string, i: nat)
  {
    i + |sub| <= |s| && s[i..i + |sub|] == sub
  }

  /** Ordinal `string.Contains`. */
  predicate Contains(s: string, sub: string)
  {
    exists i: nat :: i <= |s| && OccursAt(s, sub, i)
  }

  /** Ordinal `string.EndsWith`. */
  predicate EndsWith(s: string, suffix: string)
  {
    |suffix| <= |s| && s[|s| - |suffix|..] == suffix
  }

  /** A string none of whose characters is `sub[k]` has no occurrence of `sub`. */
  lemma NotContainsChar(s: string, sub: string, k: nat)
    requires k < |sub|
    requires forall i :: 0 <= i < |s| ==> s[i] != sub[k]
    ensures !Contains(s, sub)
  {
    forall i: nat | i <= |s| ensures !OccursAt(s, sub, i) {
      if i + |sub| <= |s| {
        assert s[i..i + |sub|][k] == s[i + k];
      }
    }
  }

  lemma CancelAffixes(a: string, x: string, y: string, b: string)
    requires a + x + b == a + y + b
    ensures x == y
  {
    assert |x| == |y|;
    assert x == (a + x + b)[|a|..|a| + |x|];
    assert y == (a + y + b)[|a|..|a| + |y|];
  }

  lemma DifferentSuffix(a: string, b: string, s1: string, s2: string)
    requires |s1| == |s2| && s1 != s2
    ensures a + s1 != b + s2
  {
    assert (a + s1)[|a + s1| - |s1|..] == s1;
    assert (b + s2)[|b + s2| - |s2|..] == s2;
  }

  /** An occurrence in `s[1..]` at `i` is an occurrence in `s` at `i + 1`, and conversely. */
  lemma OccursAtTail(s: string, sub: string, i: nat)
    requires |s| > 0
    ensures OccursAt(s[1..], sub, i) <==> OccursAt(s, sub, i + 1)
  {
    if i + |sub| <= |s[1..]| {
      assert s[1..][i..i + |sub|] == s[i + 1..i + 1 + |sub|];
    }
  }

  // ---------------------------------------------------------------- Replace

  /** Ordinal `string.Replace(pat, rep)`: every occurrence, scanning left to right. */
  function ReplaceAll(s: string, pat: string, rep: string): string
    requires |pat| > 0
    decreases |s|
  {
    if |s| < |pat| then s
    else if s[..|pat|] == pat then rep + ReplaceAll(s[|pat|..], pat, rep)
    else [s[0]] + ReplaceAll(s[1..], pat, rep)
  }

  predicate Disjoint(a: string, b: string)
  {
    forall i, j :: 0 <= i < |a| && 0 <= j < |b| ==> a[i] != b[j]
  }

  /** A prefix in which no occurrence starts is copied through unchanged. */
  lemma {:induction false} ReplaceAllPrefix(a: string, b: string, pat: string, rep: string)
    requires |pat| > 0
    requires forall q: nat :: q < |a| ==> !OccursAt(a + b, pat, q)
    ensures ReplaceAll(a + b, pat, rep) == a + ReplaceAll(b, pat, rep)
    decreases |a|
  {
    if a != [] {
      var s := a + b;
      var t := a[1..] + b;
      assert s[1..] == t;
      assert ReplaceAll(t, pat, rep) == a[1..] + ReplaceAll(b, pat, rep) by {
        forall q: nat | q < |a[1..]| ensures !OccursAt(t, pat, q) {
          OccursAtTail(s, pat, q);
        }
        ReplaceAllPrefix(a[1..], b, pat, rep);
      }
      assert a == [a[0]] + a[1..];
      if |s| < |pat| {
        assert ReplaceAll(b, pat, rep) == b;
      } else {
        assert s[..|pat|] != pat by {
          assert !OccursAt(s, pat, 0);
        }
        ReplaceAllSkip(s, pat, rep);
      }
    } else {
      assert a + b == b;
    }
  }

  /**
    When the replacement is not empty, whatever the output starts with that avoids the
    replacement's characters was already at the start of the input.
   */
  lemma {:induction false} ReplaceAllKeepsPlainPrefix(t: string, w: string, pat: string, rep: string)
    requires |pat| > 0 && |rep| > 0
    requires |w| <= |ReplaceAll(t, pat, rep)| && ReplaceAll(t, pat, rep)[..|w|] == w
    requires forall i, j :: 0 <= i < |w| && 0 <= j < |rep| ==> w[i] != rep[j]
    ensures |w| <= |t| && t[..|w|] == w
    decreases |t|
  {
    var r := ReplaceAll(t, pat, rep);
    if w != [] && |t| >= |pat| {
      var r0, rep0 := r[0], rep[0];
      assert w[0] == r0 && w[0] != rep0;
      assert t[..|pat|] != pat;
      var r' := ReplaceAll(t[1..], pat, rep);
      assert r == [t[0]] + r';
      assert r'[..|w| - 1] == w[1..];
      ReplaceAllKeepsPlainPrefix(t[1..], w[1..], pat, rep);
      assert t[..|w|] == [t[0]] + t[1..][..|w| - 1];
    }
  }

  /** Where the input does not start with the pattern, its first character is copied. */
  lemma ReplaceAllSkip(s: string, pat: string, rep: string)
    requires |pat| > 0 && |s| >= |pat| && s[..|pat|] != pat
    ensures ReplaceAll(s, pat, rep) == [s[0]] + ReplaceAll(s[1..], pat, rep)
  {
  }

  lemma DisjointTail(pat: string, rep: string)
    requires |pat| > 0 && Disjoint(pat, rep)
    ensures forall i, j :: 0 <= i < |pat[1..]| && 0 <= j < |rep| ==> pat[1..][i] != rep[j]
  {
    forall i, j | 0 <= i < |pat[1..]| && 0 <= j < |rep| ensures pat[1..][i] != rep[j] {
      assert pat[1..][i] == pat[i + 1];
    }
  }

  /** A sequence starting with `c` starts with `p` exactly when `c` is its head and the rest starts with `p`'s tail. */
  lemma PrefixCons(c: char, t: string, p: string)
    requires 0 < |p| <= 1 + |t|
    ensures ([c] + t)[..|p|] == p <==> c == p[0] && t[..|p| - 1] == p[1..]
  {
    assert ([c] + t)[..|p|] == [c] + t[..|p| - 1];
    assert p == [p[0]] + p[1..];
  }

  /** Case of `ReplaceAllRemovesEvery` where the input does not start with the pattern. */
  lemma ReplaceAllNoMatchAtStart(s: string, pat: string, rep: string)
    requires |pat| > 0 && |rep| > 0 && Disjoint(pat, rep)
    requires |s| >= |pat| && s[..|pat|] != pat
    ensures !OccursAt(ReplaceAll(s, pat, rep), pat, 0)
  {
    var r' := ReplaceAll(s[1..], pat, rep);
    ReplaceAllSkip(s, pat, rep);
    if |pat| <= 1 + |r'| {
      PrefixCons(s[0], r', pat);
      assert s == [s[0]] + s[1..];
      PrefixCons(s[0], s[1..], pat);
      if s[0] == pat[0] && r'[..|pat| - 1] == pat[1..] {
        DisjointTail(pat, rep);
        ReplaceAllKeepsPlainPrefix(s[1..], pat[1..], pat, rep);
      }
    }
  }

  /**
    `Replace` leaves no occurrence of the pattern behind when the (non-empty) replacement
    shares no character with it, as with `Replace("bin", "tf")`.
   */
  lemma {:induction false} ReplaceAllRemovesEvery(s: string, pat: string, rep: string)
    requires |pat| > 0 && |rep| > 0 && Disjoint(pat, rep)
    ensures !Contains(ReplaceAll(s, pat, rep), pat)
    decreases |s|
  {
    var r := ReplaceAll(s, pat, rep);
    if |s| >= |pat| {
      if s[..|pat|] == pat {
        var r' := ReplaceAll(s[|pat|..], pat, rep);
        ReplaceAllRemovesEvery(s[|pat|..], pat, rep);
        assert r == rep + r';
        forall i: nat | i <= |r| ensures !OccursAt(r, pat, i) {
          if i < |rep| {
            if i + |pat| <= |r| {
              assert r[i..i + |pat|][0] == rep[i];
            }
          } else {
            assert !OccursAt(r', pat, i - |rep|);
            if i + |pat| <= |r| {
              assert r'[i - |rep|..i - |rep| + |pat|] == r[i..i + |pat|];
            }
          }
        }
      } else {
        var r' := ReplaceAll(s[1..], pat, rep);
        ReplaceAllRemovesEvery(s[1..], pat, rep);
        assert r == [s[0]] + r';
        forall i: nat | i <= |r| ensures !OccursAt(r, pat, i) {
          if i == 0 {
            ReplaceAllNoMatchAtStart(s, pat, rep);
          } else {
            assert !OccursAt(r', pat, i - 1);
            if i + |pat| <= |r| {
              assert r'[i - 1..i - 1 + |pat|] == r[i..i + |pat|];
            }
          }
        }
      }
    }
  }

  // ---------------------------------------------------------------- whitespace

  /** `char.IsWhiteSpace`: the Unicode space separators, line and paragraph separators, and U+0009..U+000D, U+0085. */
  predicate IsWhiteSpace(c: char)
  {
    || c == ' ' || '\t' <= c <= '\r' || c == '\U{0085}' || c == '\U{00A0}' || c == '\U{1680}'
    || '\U{2000}' <= c <= '\U{200A}' || c == '\U{2028}' || c == '\U{2029}' || c == '\U{202F}'
    || c == '\U{205F}' || c == '\U{3000}'
  }

  /** `string.IsNullOrWhiteSpace` of a text box's text, which is never null. */
  predicate IsNullOrWhiteSpace(s: string)
  {
    forall i :: 0 <= i < |s| ==> IsWhiteSpace(s[i])
  }

  // ---------------------------------------------------------------- extensions

  /** Index of the last `c` in `s`, or -1. */
  function LastIndexOf(s: string, c: char): (i: int)
    ensures -1 <= i < |s|
  {
    if s == [] then -1
    else if s[|s| - 1] == c then |s| - 1
    else LastIndexOf(s[..|s| - 1], c)
  }

  /** `FileSystemInfo.Extension` of a bare file name: from its last '.' on, or empty. */
  function Extension(name: string): string
  {
    var i := LastIndexOf(name, '.');
    if i < 0 then "" else name[i..]
  }

  lemma {:induction false} LastIndexOfAppend(s: string, t: string, c: char)
    requires c !in t
    ensures LastIndexOf(s + t, c) == LastIndexOf(s, c)
    decreases |t|
  {
    if t != [] {
      var u := s + t;
      assert t[|t| - 1] in t;
      assert u[|u| - 1] == t[|t| - 1];
      assert u[..|u| - 1] == s + t[..|t| - 1];
      LastIndexOfAppend(s, t[..|t| - 1], c);
    } else {
      assert s + t == s;
    }
  }

  /** A name ending in "." + ext, where ext has no dot, has exactly that extension. */
  lemma ExtensionOfSuffix(name: string, ext: string)
    requires '.' !in ext && EndsWith(name, "." + ext)
    ensures Extension(name) == "." + ext
  {
    var stem := name[..|name| - |ext| - 1];
    assert name == (stem + ".") + ext;
    LastIndexOfAppend(stem + ".", ext, '.');
    assert LastIndexOf(stem + ".", '.') == |stem|;
  }
}
