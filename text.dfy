/**
 * The parts of Rust's `str` behaviour the model relies on: byte length in
 * UTF-8, `char::is_control`, `char::is_whitespace`, `trim`, `trim_matches`,
 * `replace`, `replacen(.., 1)`, `contains`, `split`, ASCII lower-casing.
 */
module Text {

  // ---------------------------------------------------------------- lengths

  /** Number of bytes the scalar value `c` occupies in UTF-8. */
  function Utf8Width(c: char): (w: nat)
    ensures 1 <= w <= 4
  {
    if c as int < 0x80 then 1
    else if c as int < 0x800 then 2
    else if c as int < 0x1_0000 then 3
    else 4
  }

  /** Rust's `str::len`: the length in UTF-8 bytes, not in characters. */
  function Utf8Len(s: string): nat
  {
    if s == [] then 0 else Utf8Width(s[0]) + Utf8Len(s[1..])
  }

  lemma {:induction false} Utf8LenBounds(s: string)
    ensures |s| <= Utf8Len(s) <= 4 * |s|
  {
    if s != [] {
      Utf8LenBounds(s[1..]);
    }
  }

  lemma {:induction false} Utf8LenAppend(a: string, b: string)
    ensures Utf8Len(a + b) == Utf8Len(a) + Utf8Len(b)
  {
    if a == [] {
      assert a + b == b;
    } else {
      assert (a + b)[1..] == a[1..] + b;
      Utf8LenAppend(a[1..], b);
    }
  }

  /** Every character below U+0080 takes one byte, so the byte length is the character count. */
  lemma {:induction false} Utf8LenAscii(s: string)
    requires forall k :: 0 <= k < |s| ==> s[k] as int < 0x80
    ensures Utf8Len(s) == |s|
  {
    if s != [] {
      Utf8LenAscii(s[1..]);
    }
  }

  // ------------------------------------------------------ character classes

  /** `char::is_control`: the Unicode general category Cc. */
  predicate IsControl(c: char)
  {
    c as int <= 0x1F || (0x7F <= c as int <= 0x9F)
  }

  /** `char::is_whitespace`: the Unicode White_Space property. */
  predicate IsWhitespace(c: char)
  {
    var n := c as int;
    (0x09 <= n <= 0x0D) || n == 0x20 || n == 0x85 || n == 0xA0 || n == 0x1680
    || (0x2000 <= n <= 0x200A) || n == 0x2028 || n == 0x2029 || n == 0x202F
    || n == 0x205F || n == 0x3000
  }

  // ---------------------------------------------------------------- trimming

  /** Drops the longest prefix of characters satisfying `drop`. */
  function TrimStartBy(s: string, drop: char -> bool): (r: string)
    ensures |r| <= |s| && r == s[|s| - |r|..]
    ensures r == [] || !drop(r[0])
    ensures forall k :: 0 <= k < |s| - |r| ==> drop(s[k])
  {
    if s != [] && drop(s[0]) then TrimStartBy(s[1..], drop) else s
  }

  /** Drops the longest suffix of characters satisfying `drop`. */
  function TrimEndBy(s: string, drop: char -> bool): (r: string)
    ensures |r| <= |s| && r == s[..|r|]
    ensures r == [] || !drop(r[|r| - 1])
    ensures forall k :: |r| <= k < |s| ==> drop(s[k])
  {
    if s != [] && drop(s[|s| - 1]) then TrimEndBy(s[..|s| - 1], drop) else s
  }

  /** `str::trim`. */
  function Trim(s: string): string
  {
    TrimEndBy(TrimStartBy(s, IsWhitespace), IsWhitespace)
  }

  /** `str::trim_matches(c)` for a single character. */
  function TrimMatches(s: string, c: char): string
  {
    TrimEndBy(TrimStartBy(s, ch => ch == c), ch => ch == c)
  }

  /** The trimmed string is the piece of the input left after the leading whitespace is cut. */
  lemma TrimIsInfix(s: string)
    ensures var i := |s| - |TrimStartBy(s, IsWhitespace)|;
      i + |Trim(s)| <= |s| && Trim(s) == s[i..i + |Trim(s)|]
  {
    var t := TrimStartBy(s, IsWhitespace);
    var i := |s| - |t|;
    var u := TrimEndBy(t, IsWhitespace);
    assert u == t[..|u|];
    assert t[..|u|] == s[i..i + |u|];
  }

  /** The trimmed string neither starts nor ends with whitespace. */
  lemma TrimHasNoOuterSpace(s: string)
    ensures Trim(s) == [] || (!IsWhitespace(Trim(s)[0]) && !IsWhitespace(Trim(s)[|Trim(s)| - 1]))
  {
    var t := TrimStartBy(s, IsWhitespace);
    var u := TrimEndBy(t, IsWhitespace);
    if u != [] {
      assert u[0] == t[0];
    }
  }

  // ------------------------------------------------------- searching, prefix

  predicate StartsWith(s: string, p: string)
  {
    |p| <= |s| && s[..|p|] == p
  }

  predicate EndsWith(s: string, p: string)
  {
    |p| <= |s| && s[|s| - |p|..] == p
  }

  /** `str::contains` with a string pattern. */
  predicate Contains(s: string, p: string)
    decreases |s|
  {
    StartsWith(s, p) || (s != [] && Contains(s[1..], p))
  }

  /** A string shorter than the pattern cannot contain it. */
  lemma {:induction false} ShortNotContains(s: string, p: string)
    requires |s| < |p|
    ensures !Contains(s, p)
  {
    if s != [] {
      ShortNotContains(s[1..], p);
    }
  }

  /** A string starting with `p` at offset `k` contains `p`. */
  lemma {:induction false} ContainsAtOffset(s: string, k: nat, p: string)
    requires k <= |s| && StartsWith(s[k..], p)
    ensures Contains(s, p)
  {
    if k > 0 {
      assert s[1..][k - 1..] == s[k..];
      ContainsAtOffset(s[1..], k - 1, p);
    }
  }

  /** Whatever contains `p` contains every piece of `p`. */
  lemma {:induction false} ContainsInfix(s: string, p: string, i: nat, j: nat)
    requires i <= j <= |p| && Contains(s, p)
    ensures Contains(s, p[i..j])
  {
    if StartsWith(s, p) {
      assert s[i..][..j - i] == p[i..j];
      ContainsAtOffset(s, i, p[i..j]);
    } else {
      ContainsInfix(s[1..], p, i, j);
      ContainsStep(s, p[i..j]);
    }
  }

  /** Containment in the tail implies containment. */
  lemma ContainsStep(s: string, p: string)
    requires s != [] && Contains(s[1..], p)
    ensures Contains(s, p)
  {
  }

  // ---------------------------------------------------------------- replace

  /**
   * `str::replace`: every non-overlapping occurrence of `pat`, scanned from
   * the left, becomes `rep`.
   */
  function ReplaceAll(s: string, pat: string, rep: string): string
    requires |pat| > 0
    decreases |s|
  {
    if |s| < |pat| then s
    else if s[..|pat|] == pat then rep + ReplaceAll(s[|pat|..], pat, rep)
    else [s[0]] + ReplaceAll(s[1..], pat, rep)
  }

  /** `str::replacen(pat, rep, 1)`: only the leftmost occurrence. */
  function ReplaceFirst(s: string, pat: string, rep: string): string
    requires |pat| > 0
    decreases |s|
  {
    if |s| < |pat| then s
    else if s[..|pat|] == pat then rep + s[|pat|..]
    else [s[0]] + ReplaceFirst(s[1..], pat, rep)
  }

  /** Replacing a pattern that does not occur changes nothing. */
  lemma {:induction false} ReplaceAllAbsent(s: string, pat: string, rep: string)
    requires |pat| > 0 && !Contains(s, pat)
    ensures ReplaceAll(s, pat, rep) == s
  {
    if |s| >= |pat| {
      ReplaceAllAbsent(s[1..], pat, rep);
    }
  }

  /** As `ReplaceAllAbsent`, for the first occurrence only. */
  lemma {:induction false} ReplaceFirstAbsent(s: string, pat: string, rep: string)
    requires |pat| > 0 && !Contains(s, pat)
    ensures ReplaceFirst(s, pat, rep) == s
  {
    if |s| >= |pat| {
      ReplaceFirstAbsent(s[1..], pat, rep);
    }
  }

  /** After `ReplaceFirst` with an empty replacement, the result is one occurrence shorter, or unchanged when none. */
  lemma {:induction false} ReplaceFirstRemovesOne(s: string, pat: string)
    requires |pat| > 0
    ensures Contains(s, pat) ==> |ReplaceFirst(s, pat, "")| == |s| - |pat|
    ensures !Contains(s, pat) ==> ReplaceFirst(s, pat, "") == s
  {
    if |s| < |pat| {
      ShortNotContains(s, pat);
    } else if s[..|pat|] != pat {
      ReplaceFirstRemovesOne(s[1..], pat);
    }
  }

  /** The first character of `p` occurs nowhere else in `p`. */
  predicate HeadUnique(p: string)
  {
    |p| > 0 && forall k :: 0 < k < |p| ==> p[k] != p[0]
  }

  /**
   * When the pattern's first character appears nowhere else in it, a
   * trailing copy of the pattern is always replaced as a whole: no earlier
   * match can reach into it.
   */
  lemma {:induction false} ReplaceAllTrailing(s: string, pat: string, rep: string)
    requires HeadUnique(pat)
    ensures ReplaceAll(s + pat, pat, rep) == ReplaceAll(s, pat, rep) + rep
    decreases |s|
  {
    var t := s + pat;
    if s == [] {
      assert t == pat;
      assert t[|pat|..] == [];
    } else if |s| < |pat| {
      ReplaceAllTrailing(s[1..], pat, rep);
      TrailingShortStep(s, pat, rep);
    } else if s[..|pat|] == pat {
      assert t[..|pat|] == pat;
      assert t[|pat|..] == s[|pat|..] + pat;
      ReplaceAllTrailing(s[|pat|..], pat, rep);
    } else {
      assert t[..|pat|] == s[..|pat|];
      assert t[1..] == s[1..] + pat;
      ReplaceAllTrailing(s[1..], pat, rep);
    }
  }

  /** The step of `ReplaceAllTrailing` for a prefix shorter than the pattern. */
  lemma TrailingShortStep(s: string, pat: string, rep: string)
    requires HeadUnique(pat) && 0 < |s| < |pat|
    requires ReplaceAll(s[1..] + pat, pat, rep) == ReplaceAll(s[1..], pat, rep) + rep
    ensures ReplaceAll(s + pat, pat, rep) == ReplaceAll(s, pat, rep) + rep
  {
    var t := s + pat;
    // A match at the start of t would put pat[0] at index |s| < |pat| of pat
    assert t[..|pat|][|s|] == pat[0] != pat[|s|];
    assert t[1..] == s[1..] + pat;
    ReplaceAllShortPrefix(s, pat, rep);
  }

  /** A prefix free of the pattern's first character passes through the replacement untouched. */
  lemma {:induction false} ReplaceAllKeepsPrefix(s: string, tail: string, pat: string, rep: string)
    requires |pat| > 0 && pat[0] !in s
    ensures ReplaceAll(s + tail, pat, rep) == s + ReplaceAll(tail, pat, rep)
    decreases |s|
  {
    var t := s + tail;
    if s == [] {
      assert t == tail;
    } else {
      assert t[0] == s[0] && t[1..] == s[1..] + tail;
      ReplaceAllKeepsPrefix(s[1..], tail, pat, rep);
      if |t| >= |pat| {
        assert t[..|pat|][0] != pat[0];
        assert ReplaceAll(t, pat, rep) == [s[0]] + ReplaceAll(t[1..], pat, rep);
      } else {
        assert ReplaceAll(tail, pat, rep) == tail;
      }
      assert [s[0]] + s[1..] == s;
    }
  }

  /** A string shorter than the pattern is left alone, also after its first character. */
  lemma ReplaceAllShortPrefix(s: string, pat: string, rep: string)
    requires |pat| > 0 && 0 < |s| < |pat|
    ensures ReplaceAll(s, pat, rep) == [s[0]] + ReplaceAll(s[1..], pat, rep)
  {
  }

  // ------------------------------------------------------------------- split

  /** `str::split(sep)`: the pieces between separators, empty ones included. */
  function Split(s: string, sep: char): (r: seq<string>)
    ensures |r| >= 1
    decreases |s|
  {
    if s == [] then [""]
    else
      var rest := Split(s[1..], sep);
      if s[0] == sep then [""] + rest else [[s[0]] + rest[0]] + rest[1..]
  }

  /** The pieces joined with `sep`. */
  function Join(parts: seq<string>, sep: string): string
  {
    if |parts| == 0 then ""
    else if |parts| == 1 then parts[0]
    else parts[0] + sep + Join(parts[1..], sep)
  }

  /** No piece of a split contains the separator. */
  lemma {:induction false} SplitPiecesHaveNoSeparator(s: string, sep: char)
    ensures forall i :: 0 <= i < |Split(s, sep)| ==> sep !in Split(s, sep)[i]
  {
    if s != [] {
      SplitPiecesHaveNoSeparator(s[1..], sep);
    }
  }

  /** Joining the pieces of a split with the separator gives back the string. */
  lemma {:induction false} JoinSplit(s: string, sep: char)
    ensures Join(Split(s, sep), [sep]) == s
  {
    if s != [] {
      var rest := Split(s[1..], sep);
      JoinSplit(s[1..], sep);
      if s[0] == sep {
        assert Split(s, sep) == [""] + rest;
        assert ([""] + rest)[1..] == rest;
      } else {
        var r := [[s[0]] + rest[0]] + rest[1..];
        assert Split(s, sep) == r;
        if |rest| == 1 {
        } else {
          assert r[1..] == rest[1..];
          assert Join(rest, [sep]) == rest[0] + [sep] + Join(rest[1..], [sep]);
        }
      }
    }
  }

  // ------------------------------------------------------------ lower-casing

  /** `char::to_lowercase` restricted to ASCII letters; other characters are kept. */
  function LowerChar(c: char): char
  {
    if 'A' <= c <= 'Z' then (c as int + 32) as char else c
  }

  function Lower(s: string): (r: string)
    ensures |r| == |s|
    ensures forall k :: 0 <= k < |s| ==> r[k] == LowerChar(s[k])
  {
    seq(|s|, k requires 0 <= k < |s| => LowerChar(s[k]))
  }

  lemma LowerIdempotent(s: string)
    ensures Lower(Lower(s)) == Lower(s)
  {
  }

  lemma LowerHasNoCapitals(s: string)
    ensures forall k :: 0 <= k < |s| ==> !('A' <= Lower(s)[k] <= 'Z')
  {
  }

  // --------------------------------------------------------------- numerals

  /** Decimal digits of `n`, as `format!("{}", n)`. */
  function Decimal(n: nat): (r: string)
    ensures |r| >= 1
    ensures forall k :: 0 <= k < |r| ==> '0' <= r[k] <= '9'
  {
    var d := ['0' + (n % 10) as char];
    if n < 10 then d else Decimal(n / 10) + d
  }

  /** Different numbers have different numerals. */
  lemma {:induction false} DecimalInjective(a: nat, b: nat)
    requires Decimal(a) == Decimal(b)
    ensures a == b
    decreases a
  {
    var da, db := Decimal(a), Decimal(b);
    if a < 10 && b < 10 {
      assert da[0] == db[0];
    } else if a >= 10 && b >= 10 {
      assert Decimal(a / 10) == da[..|da| - 1] && Decimal(b / 10) == db[..|db| - 1];
      assert da[|da| - 1] == db[|db| - 1];
      DecimalInjective(a / 10, b / 10);
    }
  }

  /** `format!("{:02}", n)`: zero-padded to at least two digits. */
  function TwoDigits(n: nat): string
  {
    if n < 10 then "0" + Decimal(n) else Decimal(n)
  }

  /** Below 100 the padded numeral is exactly the tens digit and the units digit. */
  lemma TwoDigitsBelowHundred(n: nat)
    requires n < 100
    ensures TwoDigits(n) == ['0' + (n / 10) as char, '0' + (n % 10) as char]
  {
    if n >= 10 {
      assert Decimal(n) == Decimal(n / 10) + ['0' + (n % 10) as char];
    }
  }
}
