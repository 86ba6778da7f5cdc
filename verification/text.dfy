/**
 * The Python string operations the core relies on: `str.isspace` on one
 * character, `str.strip()`, `sep.join(parts)`, `str.lower()` (ASCII letters
 * only), the substring test `needle in hay` and `str.startswith`.
 */
module Text {

  /** Python's whitespace characters: the code points for which `c.isspace()` holds. */
  predicate IsSpace(c: char) {
    var n := c as int;
    || 0x09 <= n <= 0x0D
    || 0x1C <= n <= 0x20
    || n == 0x85 || n == 0xA0 || n == 0x1680
    || 0x2000 <= n <= 0x200A
    || n == 0x2028 || n == 0x2029 || n == 0x202F || n == 0x205F || n == 0x3000
  }

  /** Every character of `s` is whitespace (vacuously so for the empty string). */
  predicate AllSpace(s: string) {
    forall k :: 0 <= k < |s| ==> IsSpace(s[k])
  }

  /** `s.lstrip()`: drops the leading whitespace. */
  function TrimStart(s: string): string {
    if s != [] && IsSpace(s[0]) then TrimStart(s[1..]) else s
  }

  /** `s.rstrip()`: drops the trailing whitespace. */
  function TrimEnd(s: string): string {
    if s != [] && IsSpace(s[|s| - 1]) then TrimEnd(s[..|s| - 1]) else s
  }

  /** `lstrip` keeps a suffix, removes only whitespace, and stops at a non-space. */
  lemma {:induction false} TrimStartSpec(s: string)
    ensures |TrimStart(s)| <= |s| && TrimStart(s) == s[|s| - |TrimStart(s)|..]
    ensures AllSpace(s[..|s| - |TrimStart(s)|])
    ensures TrimStart(s) == [] || !IsSpace(TrimStart(s)[0])
  {
    if s != [] && IsSpace(s[0]) {
      TrimStartSpec(s[1..]);
      var r := TrimStart(s);
      assert s[..|s| - |r|] == [s[0]] + s[1..][..|s| - 1 - |r|];
    }
  }

  /** `rstrip` keeps a prefix, removes only whitespace, and stops at a non-space. */
  lemma {:induction false} TrimEndSpec(s: string)
    ensures |TrimEnd(s)| <= |s| && TrimEnd(s) == s[..|TrimEnd(s)|]
    ensures AllSpace(s[|TrimEnd(s)|..])
    ensures TrimEnd(s) == [] || !IsSpace(TrimEnd(s)[|TrimEnd(s)| - 1])
  {
    if s != [] && IsSpace(s[|s| - 1]) {
      TrimEndSpec(s[..|s| - 1]);
      var r := TrimEnd(s);
      assert s[|r|..] == s[..|s| - 1][|r|..] + [s[|s| - 1]];
    }
  }

  /** `s.strip()`: whitespace removed at both ends. */
  function Strip(s: string): string {
    TrimEnd(TrimStart(s))
  }

  /** Where `s.strip()` cuts: `s[..a]` and `s[b..]` are whitespace, `s[a..b]` is kept. */
  lemma StripMargins(s: string) returns (a: int, b: int)
    ensures 0 <= a <= b <= |s| && Strip(s) == s[a..b]
    ensures forall k :: 0 <= k < a ==> IsSpace(s[k])
    ensures forall k :: b <= k < |s| ==> IsSpace(s[k])
    ensures a < b ==> !IsSpace(s[a]) && !IsSpace(s[b - 1])
    ensures a == b ==> a == |s|
  {
    var t := TrimStart(s);
    var r := TrimEnd(t);
    TrimStartSpec(s);
    TrimEndSpec(t);
    a := |s| - |t|;
    b := a + |r|;
    assert r == s[a..b];
    assert forall k :: 0 <= k < a ==> s[k] == s[..a][k];
    assert forall k :: b <= k < |s| ==> s[k] == t[|r|..][k - b];
    if r == [] {
      // TrimStart stops at a non-space, so an all-space remainder is empty
      assert AllSpace(t) by {
        assert t == t[|r|..];
      }
      assert t == [];
    } else {
      assert s[a] == t[0] == r[0];
      assert s[b - 1] == r[|r| - 1];
    }
  }

  /**
   * `s.strip()` is the slice of `s` left after removing whitespace at both
   * ends; it is empty exactly when `s` is all whitespace.
   */
  lemma StripSpec(s: string)
    ensures Strip(s) == [] <==> AllSpace(s)
    ensures Strip(s) != [] ==> !IsSpace(Strip(s)[0]) && !IsSpace(Strip(s)[|Strip(s)| - 1])
    ensures exists i, j :: 0 <= i <= j <= |s| && Strip(s) == s[i..j] && AllSpace(s[..i]) && AllSpace(s[j..])
  {
    var a, b := StripMargins(s);
    var r := Strip(s);
    assert AllSpace(s[..a]) by {
      assert forall k :: 0 <= k < a ==> s[..a][k] == s[k];
    }
    assert AllSpace(s[b..]) by {
      assert forall k :: 0 <= k < |s| - b ==> s[b..][k] == s[b + k];
    }
    if a < b {
      assert r[0] == s[a] && r[|r| - 1] == s[b - 1];
    }
  }

  /** `sep.join(parts)`: the parts in order with `sep` between neighbours. */
  function Join(sep: string, parts: seq<string>): string {
    if |parts| == 0 then ""
    else if |parts| == 1 then parts[0]
    else parts[0] + sep + Join(sep, parts[1..])
  }

  /**
   * With a whitespace separator, the joined string is all whitespace exactly
   * when every part is.
   */
  lemma {:induction false} JoinAllSpace(sep: string, parts: seq<string>)
    requires AllSpace(sep)
    ensures AllSpace(Join(sep, parts)) <==> forall k :: 0 <= k < |parts| ==> AllSpace(parts[k])
  {
    if |parts| > 1 {
      JoinAllSpace(sep, parts[1..]);
      var rest := Join(sep, parts[1..]);
      var whole := parts[0] + sep + rest;
      if AllSpace(whole) {
        assert forall k :: 0 <= k < |parts[0]| ==> whole[k] == parts[0][k];
        assert forall k :: 0 <= k < |rest| ==> whole[|parts[0]| + |sep| + k] == rest[k];
        assert forall k :: 1 <= k < |parts| ==> parts[k] == parts[1..][k - 1];
      }
      if forall k :: 0 <= k < |parts| ==> AllSpace(parts[k]) {
        assert forall k :: 0 <= k < |parts| - 1 ==> parts[1..][k] == parts[k + 1];
      }
    }
  }

  /** ASCII case folding of one character. */
  function LowerChar(c: char): char {
    if 'A' <= c <= 'Z' then (c as int + 32) as char else c
  }

  /** `s.lower()` restricted to ASCII letters. */
  function Lower(s: string): string {
    seq(|s|, k requires 0 <= k < |s| => LowerChar(s[k]))
  }

  /** Lowering changes only upper-case ASCII letters, and leaves none behind. */
  lemma LowerSpec(s: string)
    ensures |Lower(s)| == |s|
    ensures forall k :: 0 <= k < |s| ==> !('A' <= Lower(s)[k] <= 'Z')
    ensures forall k :: 0 <= k < |s| && 'A' <= s[k] <= 'Z' ==> Lower(s)[k] == (s[k] as int + 32) as char
    ensures forall k :: 0 <= k < |s| && !('A' <= s[k] <= 'Z') ==> Lower(s)[k] == s[k]
  {
  }

  /** Lowering twice is lowering once. */
  lemma LowerIdempotent(s: string)
    ensures Lower(Lower(s)) == Lower(s)
  {
  }

  /** Python's `needle in hay` on strings: `needle` occurs at some position of `hay`. */
  predicate Contains(hay: string, needle: string) {
    exists i | 0 <= i <= |hay| - |needle| :: OccursAt(hay, needle, i)
  }

  /** `needle` occurs in `hay` starting at position `i`. */
  predicate OccursAt(hay: string, needle: string, i: int) {
    0 <= i && i + |needle| <= |hay| && hay[i..i + |needle|] == needle
  }

  /** Python's `s.startswith(prefix)`. */
  predicate StartsWith(s: string, prefix: string) {
    |prefix| <= |s| && s[..|prefix|] == prefix
  }

  /** Substring occurrence is transitive. */
  lemma ContainsTransitive(a: string, b: string, c: string)
    requires Contains(a, b) && Contains(b, c)
    ensures Contains(a, c)
  {
    var i :| 0 <= i <= |a| - |b| && OccursAt(a, b, i);
    var j :| 0 <= j <= |b| - |c| && OccursAt(b, c, j);
    forall k | 0 <= k < |c|
      ensures a[i + j + k] == c[k]
    {
      assert a[i..i + |b|][j + k] == b[j + k];
      assert b[j..j + |c|][k] == c[k];
    }
    assert a[i + j..i + j + |c|] == c;
    assert OccursAt(a, c, i + j);
  }

  /** Lowering preserves substring occurrences. */
  lemma ContainsLower(hay: string, needle: string)
    requires Contains(hay, needle)
    ensures Contains(Lower(hay), Lower(needle))
  {
    var i :| 0 <= i <= |hay| - |needle| && OccursAt(hay, needle, i);
    assert Lower(hay)[i..i + |needle|] == Lower(needle);
    assert OccursAt(Lower(hay), Lower(needle), i);
  }

  /** Every part of a join occurs in the joined string. */
  lemma {:induction false} JoinContainsPart(sep: string, parts: seq<string>, k: int)
    requires 0 <= k < |parts|
    ensures Contains(Join(sep, parts), parts[k])
  {
    var whole := Join(sep, parts);
    if |parts| == 1 || k == 0 {
      assert whole[0..|parts[0]|] == parts[0];
      assert OccursAt(whole, parts[0], 0);
    } else {
      var rest := Join(sep, parts[1..]);
      JoinContainsPart(sep, parts[1..], k - 1);
      var off := |parts[0]| + |sep|;
      assert whole[off..off + |rest|] == rest;
      assert OccursAt(whole, rest, off);
      ContainsTransitive(whole, rest, parts[k]);
    }
  }

  /** Lowering neither creates nor removes whitespace. */
  lemma LowerCharSpace(c: char)
    ensures IsSpace(LowerChar(c)) <==> IsSpace(c)
  {
  }

  /** Lowering commutes with `lstrip`. */
  lemma {:induction false} LowerTrimStart(s: string)
    ensures Lower(TrimStart(s)) == TrimStart(Lower(s))
  {
    if s != [] {
      var l := Lower(s);
      assert l[0] == LowerChar(s[0]);
      LowerCharSpace(s[0]);
      if IsSpace(s[0]) {
        assert l[1..] == Lower(s[1..]);
        LowerTrimStart(s[1..]);
      }
    }
  }

  /** Lowering commutes with `rstrip`. */
  lemma {:induction false} LowerTrimEnd(s: string)
    ensures Lower(TrimEnd(s)) == TrimEnd(Lower(s))
  {
    if s != [] {
      var l := Lower(s);
      assert l[|s| - 1] == LowerChar(s[|s| - 1]);
      LowerCharSpace(s[|s| - 1]);
      if IsSpace(s[|s| - 1]) {
        assert l[..|s| - 1] == Lower(s[..|s| - 1]);
        LowerTrimEnd(s[..|s| - 1]);
      }
    }
  }

  /** Lowering commutes with `strip`. */
  lemma LowerStrip(s: string)
    ensures Lower(Strip(s)) == Strip(Lower(s))
  {
    LowerTrimStart(s);
    LowerTrimEnd(TrimStart(s));
  }

  /** An occurrence of a needle with non-space ends avoids the whitespace at either end. */
  lemma OccurrenceInsideMargins(s: string, needle: string, i: int, a: int, b: int)
    requires 0 <= a <= b <= |s|
    requires forall k :: 0 <= k < a ==> IsSpace(s[k])
    requires forall k :: b <= k < |s| ==> IsSpace(s[k])
    requires OccursAt(s, needle, i)
    requires needle != [] && !IsSpace(needle[0]) && !IsSpace(needle[|needle| - 1])
    ensures a <= i && i + |needle| <= b
  {
    var m := |needle|;
    assert s[i] == needle[0] && s[i + m - 1] == needle[m - 1] by {
      assert s[i..i + m] == needle;
    }
  }

  /** An occurrence inside `s[a..b]` is an occurrence in that slice. */
  lemma ContainsInSlice(s: string, needle: string, i: int, a: int, b: int)
    requires 0 <= a <= i && i + |needle| <= b <= |s|
    requires OccursAt(s, needle, i)
    ensures Contains(s[a..b], needle)
  {
    var t, m := s[a..b], |needle|;
    forall k | 0 <= k < m
      ensures t[i - a..i - a + m][k] == needle[k]
    {
      assert s[i..i + m][k] == needle[k];
    }
    assert t[i - a..i - a + m] == needle;
    assert OccursAt(t, needle, i - a);
  }

  /** Stripping keeps every occurrence of a needle that neither starts nor ends with whitespace. */
  lemma StripKeepsOccurrence(s: string, needle: string)
    requires Contains(s, needle)
    requires needle != [] && !IsSpace(needle[0]) && !IsSpace(needle[|needle| - 1])
    ensures Contains(Strip(s), needle)
  {
    var a, b := StripMargins(s);
    var i :| 0 <= i <= |s| - |needle| && OccursAt(s, needle, i);
    OccurrenceInsideMargins(s, needle, i, a, b);
    ContainsInSlice(s, needle, i, a, b);
  }
}
