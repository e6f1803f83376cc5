/**
 * The parts of Go's `strings` package the service layer relies on:
 * TrimSpace, ToLower (on ASCII letters), Index and Split, for one-character
 * separators.
 */
module Strings {

  /**
   * Go's `unicode.IsSpace`: the White_Space characters that TrimSpace removes.
   * Among ASCII characters these are exactly the blank and '\t' to '\r'; no
   * letter is one.
   */
  predicate IsSpace(c: char): (sp: bool)
    ensures c as int < 0x80 ==> (sp <==> c == ' ' || '\t' <= c <= '\r')
    ensures sp ==> !('A' <= c <= 'Z') && !('a' <= c <= 'z')
  {
    || c == ' ' || c == '\t' || c == '\n' || c == '\U{000B}' || c == '\U{000C}' || c == '\r'
    || c == '\U{0085}' || c == '\U{00A0}' || c == '\U{1680}'
    || ('\U{2000}' <= c <= '\U{200A}')
    || c == '\U{2028}' || c == '\U{2029}' || c == '\U{202F}' || c == '\U{205F}' || c == '\U{3000}'
  }

  predicate AllSpace(s: string)
  {
    forall i :: 0 <= i < |s| ==> IsSpace(s[i])
  }

  /** The end of the run of white space that starts at `i`. */
  function SkipSpace(s: string, i: nat): (n: nat)
    requires i <= |s|
    ensures i <= n <= |s|
    ensures forall k :: i <= k < n ==> IsSpace(s[k])
    ensures n < |s| ==> !IsSpace(s[n])
    decreases |s| - i
  {
    if i < |s| && IsSpace(s[i]) then SkipSpace(s, i + 1) else i
  }

  /** The start of the run of white space that ends at `j`, not going below `lo`. */
  function SkipSpaceBack(s: string, lo: nat, j: nat): (m: nat)
    requires lo <= j <= |s|
    ensures lo <= m <= j
    ensures forall k :: m <= k < j ==> IsSpace(s[k])
    ensures m > lo ==> !IsSpace(s[m - 1])
    decreases j
  {
    if j > lo && IsSpace(s[j - 1]) then SkipSpaceBack(s, lo, j - 1) else j
  }

  /**
   * `strings.TrimSpace`: the input with every leading and trailing white-space
   * character removed. It is empty exactly when the input is all white space.
   */
  function TrimSpace(s: string): (r: string)
    ensures r == [] <==> AllSpace(s)
    ensures r == [] || (!IsSpace(r[0]) && !IsSpace(r[|r| - 1]))
  {
    var i := SkipSpace(s, 0);
    var j := SkipSpaceBack(s, i, |s|);
    assert AllSpace(s[..i]) && AllSpace(s[j..]);
    s[i..j]
  }

  /** The trimmed string is a slice of the input with only white space before and after it. */
  lemma TrimSpaceSlice(s: string)
    ensures var r := TrimSpace(s);
      exists i :: 0 <= i <= |s| - |r| && r == s[i..i + |r|] && AllSpace(s[..i]) && AllSpace(s[i + |r|..])
  {
    var i := SkipSpace(s, 0);
    var j := SkipSpaceBack(s, i, |s|);
    assert AllSpace(s[..i]) && AllSpace(s[j..]);
    assert TrimSpace(s) == s[i..j];
  }

  /** A string with no white space at either end is its own trimming. */
  lemma TrimSpaceFixed(s: string)
    requires s == [] || (!IsSpace(s[0]) && !IsSpace(s[|s| - 1]))
    ensures TrimSpace(s) == s
  {
    if s != [] {
      assert SkipSpace(s, 0) == 0;
      assert SkipSpaceBack(s, 0, |s|) == |s|;
    }
  }

  /**
   * TrimSpace is determined by where the non-space middle starts and ends: any
   * slice with white space (only) before and after it, and non-space ends, is it.
   */
  lemma TrimSpaceUnique(s: string, i: nat, j: nat)
    requires i <= j <= |s|
    requires forall k :: 0 <= k < i ==> IsSpace(s[k])
    requires forall k :: j <= k < |s| ==> IsSpace(s[k])
    requires i == j || (!IsSpace(s[i]) && !IsSpace(s[j - 1]))
    ensures TrimSpace(s) == s[i..j]
  {
    if i == j {
      assert AllSpace(s);
    } else {
      var a := SkipSpace(s, 0);
      assert a == i;
      var b := SkipSpaceBack(s, a, |s|);
      assert b == j;
    }
  }

  /** White space around a string does not change its trimming. */
  lemma TrimSpacePadded(w1: string, x: string, w2: string)
    requires AllSpace(w1) && AllSpace(w2)
    ensures TrimSpace(w1 + x + w2) == TrimSpace(x)
  {
    var a := SkipSpace(x, 0);
    var b := SkipSpaceBack(x, a, |x|);
    TrimSpaceBounds(x, a, b);
    PaddedOutside(w1 + x + w2, w1, x, w2, a, b);
    PaddedMiddle(w1 + x + w2, w1, x, w2, a, b);
    SameMiddleSameTrim(w1 + x + w2, x, |w1| + a, |w1| + b, a, b);
  }

  /** Two strings whose non-space middles are the same slice trim to the same string. */
  lemma SameMiddleSameTrim(s: string, x: string, i: nat, j: nat, a: nat, b: nat)
    requires i <= j <= |s| && a <= b <= |x|
    requires forall k :: 0 <= k < i ==> IsSpace(s[k])
    requires forall k :: j <= k < |s| ==> IsSpace(s[k])
    requires i == j || (!IsSpace(s[i]) && !IsSpace(s[j - 1]))
    requires s[i..j] == x[a..b] && TrimSpace(x) == x[a..b]
    ensures TrimSpace(s) == TrimSpace(x)
  {
    TrimSpaceUnique(s, i, j);
  }

  /** TrimSpace is the slice between the end of the leading and the start of the trailing white space. */
  lemma TrimSpaceBounds(x: string, a: nat, b: nat)
    requires a == SkipSpace(x, 0) && b == SkipSpaceBack(x, a, |x|)
    ensures a <= b <= |x| && TrimSpace(x) == x[a..b]
    ensures forall k :: 0 <= k < a ==> IsSpace(x[k])
    ensures forall k :: b <= k < |x| ==> IsSpace(x[k])
    ensures a < b ==> !IsSpace(x[a]) && !IsSpace(x[b - 1])
  {
  }

  /** Before and after the shifted bounds the padded string holds only white space. */
  lemma PaddedOutside(s: string, w1: string, x: string, w2: string, a: nat, b: nat)
    requires s == w1 + x + w2
    requires AllSpace(w1) && AllSpace(w2)
    requires a <= b <= |x|
    requires forall k :: 0 <= k < a ==> IsSpace(x[k])
    requires forall k :: b <= k < |x| ==> IsSpace(x[k])
    ensures forall k :: 0 <= k < |w1| + a ==> IsSpace(s[k])
    ensures forall k :: |w1| + b <= k < |s| ==> IsSpace(s[k])
  {
    forall k | 0 <= k < |w1| + a ensures IsSpace(s[k]) {
      if k < |w1| { assert s[k] == w1[k]; } else { assert s[k] == x[k - |w1|]; }
    }
    forall k | |w1| + b <= k < |s| ensures IsSpace(s[k]) {
      if k < |w1| + |x| { assert s[k] == x[k - |w1|]; } else { assert s[k] == w2[k - |w1| - |x|]; }
    }
  }

  /** Between the shifted bounds the padded string is the middle of `x`. */
  lemma PaddedMiddle(s: string, w1: string, x: string, w2: string, a: nat, b: nat)
    requires s == w1 + x + w2
    requires a <= b <= |x|
    ensures s[|w1| + a..|w1| + b] == x[a..b]
    ensures a < b ==> s[|w1| + a] == x[a] && s[|w1| + b - 1] == x[b - 1]
  {
    assert s[|w1| + a..|w1| + b] == x[a..b];
  }

  predicate IsUpper(c: char)
  {
    'A' <= c <= 'Z'
  }

  /** `unicode.ToLower` on one character, for the ASCII letters: 'A'..'Z' become 'a'..'z'. */
  function LowerChar(c: char): (d: char)
    ensures !IsUpper(d)
    ensures !IsUpper(c) ==> d == c
    ensures IsUpper(c) ==> d as int == c as int + 32 && 'a' <= d <= 'z'
    ensures IsSpace(d) <==> IsSpace(c)
  {
    if IsUpper(c) then (c as int + 32) as char else c
  }

  /** `strings.ToLower`: every upper-case letter is replaced by its lower-case form, nothing else moves. */
  function ToLower(s: string): (r: string)
    ensures |r| == |s|
    ensures forall i :: 0 <= i < |r| ==> !IsUpper(r[i])
    ensures forall i :: 0 <= i < |r| && !IsUpper(s[i]) ==> r[i] == s[i]
    ensures forall i :: 0 <= i < |r| && IsUpper(s[i]) ==> r[i] as int == s[i] as int + 32
  {
    seq(|s|, i requires 0 <= i < |s| => LowerChar(s[i]))
  }

  /** Lower-casing neither creates nor removes white space. */
  lemma ToLowerKeepsSpace(s: string)
    ensures AllSpace(ToLower(s)) <==> AllSpace(s)
  {
    var lower := ToLower(s);
    assert forall i :: 0 <= i < |s| ==> lower[i] == LowerChar(s[i]);
  }

  /** Two strings that differ only in the case of their letters. */
  predicate SameUpToCase(s: string, t: string)
  {
    |s| == |t| && forall i :: 0 <= i < |s| ==> LowerChar(s[i]) == LowerChar(t[i])
  }

  /** Strings that differ only in case lower-case to the same string. */
  lemma ToLowerIgnoresCase(s: string, t: string)
    requires SameUpToCase(s, t)
    ensures ToLower(s) == ToLower(t)
  {
    assert forall i :: 0 <= i < |s| ==> ToLower(s)[i] == LowerChar(s[i]) && ToLower(t)[i] == LowerChar(t[i]);
  }

  /** Lower-casing leaves white space around a string alone. */
  lemma ToLowerPadded(w1: string, x: string, w2: string)
    requires AllSpace(w1) && AllSpace(w2)
    ensures ToLower(w1 + x + w2) == w1 + ToLower(x) + w2
  {
    var s := w1 + x + w2;
    forall k | 0 <= k < |s| ensures ToLower(s)[k] == (w1 + ToLower(x) + w2)[k] {
      if k < |w1| {
        assert s[k] == w1[k];
      } else if k < |w1| + |x| {
        assert s[k] == x[k - |w1|];
      } else {
        assert s[k] == w2[k - |w1| - |x|];
      }
    }
  }

  /**
   * Lower-casing and then trimming keeps the lower-cased middle of the input:
   * what it drops before and after that middle is all white space in the input.
   */
  lemma LowerThenTrim(s: string)
    ensures var r := TrimSpace(ToLower(s));
      exists i :: 0 <= i <= |s| - |r| && AllSpace(s[..i]) && AllSpace(s[i + |r|..]) && r == ToLower(s[i..i + |r|])
  {
    var lower := ToLower(s);
    var a := SkipSpace(lower, 0);
    var b := SkipSpaceBack(lower, a, |lower|);
    TrimSpaceBounds(lower, a, b);
    LowerKeepsSpaceOutside(s, a, b);
    LowerSlice(s, a, b);
    var r := TrimSpace(lower);
    assert a + |r| == b;
    assert 0 <= a <= |s| - |r| && AllSpace(s[..a]) && AllSpace(s[a + |r|..]) && r == ToLower(s[a..a + |r|]);
  }

  /** Where the lower-cased string has white space, so has the input. */
  lemma LowerKeepsSpaceOutside(s: string, a: nat, b: nat)
    requires a <= b <= |s|
    requires forall k :: 0 <= k < a ==> IsSpace(ToLower(s)[k])
    requires forall k :: b <= k < |s| ==> IsSpace(ToLower(s)[k])
    ensures AllSpace(s[..a]) && AllSpace(s[b..])
  {
    assert forall k :: 0 <= k < |s| ==> ToLower(s)[k] == LowerChar(s[k]);
    forall k | 0 <= k < a ensures IsSpace(s[..a][k]) { assert s[..a][k] == s[k]; }
    forall k | 0 <= k < |s| - b ensures IsSpace(s[b..][k]) { assert s[b..][k] == s[b + k]; }
  }

  /** Lower-casing a slice is slicing the lower-cased string. */
  lemma LowerSlice(s: string, a: nat, b: nat)
    requires a <= b <= |s|
    ensures ToLower(s[a..b]) == ToLower(s)[a..b]
  {
    var lower, part := ToLower(s), ToLower(s[a..b]);
    forall k | 0 <= k < b - a ensures part[k] == lower[a + k] {
      assert s[a..b][k] == s[a + k];
      assert part[k] == LowerChar(s[a..b][k]);
      assert lower[a + k] == LowerChar(s[a + k]);
    }
  }

  /** A string without upper-case letters is its own lower-casing. */
  lemma ToLowerFixed(s: string)
    requires forall i :: 0 <= i < |s| ==> !IsUpper(s[i])
    ensures ToLower(s) == s
  {
  }

  /** `strings.Index` for a character that occurs: the position of its first occurrence. */
  function IndexOf(s: string, c: char): (k: nat)
    requires c in s
    ensures k < |s| && s[k] == c && c !in s[..k]
  {
    if s[0] == c then
      0
    else
      var k := IndexOf(s[1..], c);
      assert s[..k + 1] == [s[0]] + s[1..][..k];
      k + 1
  }

  /** `strings.Join`: the pieces with the separator between each two of them. */
  function Join(parts: seq<string>, sep: char): string
  {
    if |parts| == 0 then []
    else if |parts| == 1 then parts[0]
    else parts[0] + [sep] + Join(parts[1..], sep)
  }

  /**
   * `strings.Split` with a one-character separator: the pieces between the
   * separators, never fewer than one and none containing the separator. There is
   * one piece exactly when the separator does not occur.
   */
  function Split(s: string, sep: char): (parts: seq<string>)
    ensures |parts| >= 1
    ensures |parts| == 1 <==> sep !in s
    ensures forall i :: 0 <= i < |parts| ==> sep !in parts[i]
    ensures Join(parts, sep) == s
    decreases |s|
  {
    if sep !in s then
      [s]
    else
      var k := IndexOf(s, sep);
      var rest := Split(s[k + 1..], sep);
      var parts := [s[..k]] + rest;
      assert parts[1..] == rest;
      assert s == s[..k] + [sep] + s[k + 1..];
      parts
  }
}
