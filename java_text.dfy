/**
 * The few `java.lang.String` operations the crawler's decisions are made of:
 * `strip`, `replace(" ", "%20")`, `toLowerCase`, `contains` and
 * `equalsIgnoreCase`. Strings are sequences of Unicode scalar values.
 */
module JavaText {

  /** `Character.isWhitespace`: the space, line and paragraph separators other
      than the no-break spaces, plus the ASCII controls U+0009..U+000D and
      U+001C..U+001F. */
  predicate IsWhitespace(c: char) {
    var n := c as int;
    (0x09 <= n <= 0x0D) || (0x1C <= n <= 0x20) || n == 0x1680 ||
    (0x2000 <= n <= 0x2006) || (0x2008 <= n <= 0x200A) ||
    n == 0x2028 || n == 0x2029 || n == 0x205F || n == 0x3000
  }

  predicate AllWhitespace(s: string) {
    forall k :: 0 <= k < |s| ==> IsWhitespace(s[k])
  }

  /** What remains after the leading whitespace is dropped: a suffix of `s`
      preceded only by whitespace and not itself starting with whitespace. */
  function StripLeading(s: string): (r: string)
    ensures |r| <= |s| && r == s[|s| - |r|..]
    ensures forall k :: 0 <= k < |s| - |r| ==> IsWhitespace(s[k])
    ensures r == [] || !IsWhitespace(r[0])
  {
    if s != [] && IsWhitespace(s[0]) then
      var r := StripLeading(s[1..]);
      assert forall k :: 1 <= k < |s| - |r| ==> s[k] == s[1..][k - 1];
      r
    else s
  }

  /** What remains after the trailing whitespace is dropped: a prefix of `s`
      followed only by whitespace and not itself ending in whitespace. */
  function StripTrailing(s: string): (r: string)
    ensures |r| <= |s| && r == s[..|r|]
    ensures forall k :: |r| <= k < |s| ==> IsWhitespace(s[k])
    ensures r == [] || !IsWhitespace(r[|r| - 1])
  {
    if s != [] && IsWhitespace(s[|s| - 1]) then
      var r := StripTrailing(s[..|s| - 1]);
      assert forall k :: |r| <= k < |s| - 1 ==> s[k] == s[..|s| - 1][k];
      r
    else s
  }

  /** `r` is the stretch of `s` starting at `i`, with only whitespace before
      and after it. */
  predicate StrippedAt(s: string, r: string, i: int) {
    && 0 <= i <= |s| - |r| && r == s[i..i + |r|]
    && (forall k :: 0 <= k < i ==> IsWhitespace(s[k]))
    && (forall k :: i + |r| <= k < |s| ==> IsWhitespace(s[k]))
  }

  /** `String.strip`: the infix of `s` left when whitespace is removed from
      both ends. It is empty exactly when `s` is all whitespace. */
  function Strip(s: string): (r: string)
    ensures exists i :: StrippedAt(s, r, i)
    ensures r == [] || (!IsWhitespace(r[0]) && !IsWhitespace(r[|r| - 1]))
    ensures r == [] <==> AllWhitespace(s)
  {
    var lead := StripLeading(s);
    var r := StripTrailing(lead);
    StripPhases(s, lead, r);
    r
  }

  /** Dropping leading whitespace (giving `lead`) and then trailing whitespace
      (giving `r`) leaves a stretch with only whitespace around it, empty
      exactly when everything was whitespace. */
  lemma StripPhases(s: string, lead: string, r: string)
    requires |lead| <= |s| && lead == s[|s| - |lead|..]
    requires forall k :: 0 <= k < |s| - |lead| ==> IsWhitespace(s[k])
    requires lead == [] || !IsWhitespace(lead[0])
    requires |r| <= |lead| && r == lead[..|r|]
    requires forall k :: |r| <= k < |lead| ==> IsWhitespace(lead[k])
    requires r == [] || !IsWhitespace(r[|r| - 1])
    ensures StrippedAt(s, r, |s| - |lead|)
    ensures r == [] || (!IsWhitespace(r[0]) && !IsWhitespace(r[|r| - 1]))
    ensures r == [] <==> AllWhitespace(s)
  {
    var i := |s| - |lead|;
    assert r == s[i..i + |r|];
    forall k | i + |r| <= k < |s| ensures IsWhitespace(s[k]) {
      assert s[k] == lead[k - i];
    }
    if r != [] {
      assert r[0] == lead[0] == s[i];
    }
  }

  /** Stripping twice is stripping once. */
  lemma {:induction false} StripIdempotent(s: string)
    ensures Strip(Strip(s)) == Strip(s)
  {
    var r := Strip(s);
    if r != [] {
      assert StripLeading(r) == r;
      assert StripTrailing(r) == r;
    }
  }

  /** `String.replace(" ", "%20")`: every space becomes the three characters
      `%20`, everything else is kept in order. */
  function EscapeSpaces(s: string): (r: string)
    ensures ' ' !in r
    ensures ' ' !in s ==> r == s
    ensures |r| >= |s|
  {
    if s == [] then []
    else (if s[0] == ' ' then "%20" else [s[0]]) + EscapeSpaces(s[1..])
  }

  /** The escaping works character by character: escaping a concatenation
      is concatenating the escaped parts. */
  lemma {:induction false} EscapeAppend(p: string, q: string)
    ensures EscapeSpaces(p + q) == EscapeSpaces(p) + EscapeSpaces(q)
  {
    if p != [] {
      var head := if p[0] == ' ' then "%20" else [p[0]];
      assert (p + q)[0] == p[0] && (p + q)[1..] == p[1..] + q;
      assert EscapeSpaces(p + q) == head + EscapeSpaces(p[1..] + q);
      EscapeAppend(p[1..], q);
      assert EscapeSpaces(p) == head + EscapeSpaces(p[1..]);
    } else {
      assert p + q == q;
    }
  }

  /** A single space becomes `%20`; any other single character is kept.
      With `EscapeAppend` this fixes the escaping of every string. */
  lemma EscapeOneChar(c: char)
    ensures EscapeSpaces([' ']) == "%20"
    ensures c != ' ' ==> EscapeSpaces([c]) == [c]
  {
  }

  /** The inverse reading: each `%20` (left to right) becomes a space. */
  function UnescapeSpaces(t: string): string
  {
    if |t| >= 3 && t[..3] == "%20" then " " + UnescapeSpaces(t[3..])
    else if t == [] then []
    else [t[0]] + UnescapeSpaces(t[1..])
  }

  /** Escaping loses nothing on a string that held no `%` to begin with. */
  lemma {:induction false} EscapeRoundTrip(s: string)
    requires '%' !in s
    ensures UnescapeSpaces(EscapeSpaces(s)) == s
  {
    if s != [] {
      var tail := EscapeSpaces(s[1..]);
      assert '%' !in s[1..] by {
        assert forall c :: c in s[1..] ==> c in s;
      }
      EscapeRoundTrip(s[1..]);
      var e := EscapeSpaces(s);
      if s[0] == ' ' {
        assert e == "%20" + tail;
        assert e[..3] == "%20" && e[3..] == tail;
        assert UnescapeSpaces(e) == " " + UnescapeSpaces(tail);
      } else {
        assert e == [s[0]] + tail;
        assert e[0] == s[0] && s[0] != '%';
        assert |e| >= 3 ==> e[..3][0] == s[0];
        assert e[1..] == tail;
        assert UnescapeSpaces(e) == [s[0]] + UnescapeSpaces(tail);
      }
      assert s == [s[0]] + s[1..];
    }
  }

  /** `Character.toLowerCase` restricted to ASCII letters. */
  function LowerChar(c: char): char {
    if 'A' <= c <= 'Z' then (c as int + 32) as char else c
  }

  /** `Character.toUpperCase` restricted to ASCII letters. */
  function UpperChar(c: char): char {
    if 'a' <= c <= 'z' then (c as int - 32) as char else c
  }

  /** `String.toLowerCase`, character by character. */
  function Lower(s: string): string
  {
    seq(|s|, i requires 0 <= i < |s| => LowerChar(s[i]))
  }

  /** A string without capital letters is its own lower-case form. */
  lemma LowerOfLowerCase(s: string)
    requires forall k :: 0 <= k < |s| ==> !('A' <= s[k] <= 'Z')
    ensures Lower(s) == s
  {
  }

  /** The per-character test of `String.regionMatches(ignoreCase = true)`:
      equal, or equal after upper-casing, or equal after upper- then
      lower-casing. */
  predicate SameIgnoringCase(a: char, b: char) {
    a == b || UpperChar(a) == UpperChar(b) ||
    LowerChar(UpperChar(a)) == LowerChar(UpperChar(b))
  }

  /** `String.equalsIgnoreCase`. */
  predicate EqualsIgnoreCase(a: string, b: string) {
    |a| == |b| && forall i :: 0 <= i < |a| ==> SameIgnoringCase(a[i], b[i])
  }

  /** For one character: equal ignoring case exactly when the lower-case
      forms are equal. */
  lemma SameIgnoringCaseIffLower(a: char, b: char)
    ensures SameIgnoringCase(a, b) <==> LowerChar(a) == LowerChar(b)
  {
    var x, y := a as int, b as int;
    if 'A' <= a <= 'Z' {
      assert LowerChar(a) as int == x + 32;
    }
    if 'A' <= b <= 'Z' {
      assert LowerChar(b) as int == y + 32;
    }
    if 'a' <= a <= 'z' {
      assert UpperChar(a) as int == x - 32;
    }
    if 'a' <= b <= 'z' {
      assert UpperChar(b) as int == y - 32;
    }
  }

  /** Two strings are equal ignoring case exactly when their lower-case forms
      are equal. */
  lemma EqualsIgnoreCaseIffLower(a: string, b: string)
    ensures EqualsIgnoreCase(a, b) <==> Lower(a) == Lower(b)
  {
    if |a| == |b| {
      forall i | 0 <= i < |a|
        ensures SameIgnoringCase(a[i], b[i]) <==> Lower(a)[i] == Lower(b)[i]
      {
        SameIgnoringCaseIffLower(a[i], b[i]);
      }
    }
  }

  /** So `equalsIgnoreCase` is an equivalence relation. */
  lemma EqualsIgnoreCaseEquivalence(a: string, b: string, c: string)
    ensures EqualsIgnoreCase(a, a)
    ensures EqualsIgnoreCase(a, b) ==> EqualsIgnoreCase(b, a)
    ensures EqualsIgnoreCase(a, b) && EqualsIgnoreCase(b, c) ==> EqualsIgnoreCase(a, c)
  {
    EqualsIgnoreCaseIffLower(a, a);
    EqualsIgnoreCaseIffLower(a, b);
    EqualsIgnoreCaseIffLower(b, a);
    EqualsIgnoreCaseIffLower(b, c);
    EqualsIgnoreCaseIffLower(a, c);
  }

  predicate StartsWith(s: string, p: string) {
    |p| <= |s| && s[..|p|] == p
  }

  /** `n` occurs in `h` starting at position `i`. */
  predicate OccursAt(h: string, n: string, i: int) {
    0 <= i <= |h| - |n| && h[i..i + |n|] == n
  }

  /** `String.contains`: `n` occurs somewhere in `h`. */
  function Contains(h: string, n: string): (r: bool)
    ensures r <==> exists i :: OccursAt(h, n, i)
    decreases |h|
  {
    if StartsWith(h, n) then
      assert OccursAt(h, n, 0);
      true
    else if h == [] then
      assert forall i :: !OccursAt(h, n, i);
      false
    else
      var r := Contains(h[1..], n);
      assert r ==> exists i :: OccursAt(h, n, i) by {
        if r {
          var j :| OccursAt(h[1..], n, j);
          assert h[j + 1..j + 1 + |n|] == h[1..][j..j + |n|];
          assert OccursAt(h, n, j + 1);
        }
      }
      assert (exists i :: OccursAt(h, n, i)) ==> r by {
        if exists i :: OccursAt(h, n, i) {
          var i :| OccursAt(h, n, i);
          assert i != 0;
          assert h[1..][i - 1..i - 1 + |n|] == h[i..i + |n|];
          assert OccursAt(h[1..], n, i - 1);
        }
      }
      r
  }

  /** A stretch of `s` that equals `n` ignoring case. */
  predicate OccursIgnoringCaseAt(s: string, n: string, i: int) {
    0 <= i <= |s| - |n| && EqualsIgnoreCase(s[i..i + |n|], n)
  }

  /** `s.toLowerCase().contains(n)` for a lower-case `n` holds exactly when
      some stretch of `s` equals `n` ignoring case. */
  lemma ContainsIgnoringCase(s: string, n: string)
    requires Lower(n) == n
    ensures Contains(Lower(s), n) <==> exists i :: OccursIgnoringCaseAt(s, n, i)
  {
    forall i ensures OccursAt(Lower(s), n, i) <==> OccursIgnoringCaseAt(s, n, i) {
      if 0 <= i <= |s| - |n| {
        OccursIgnoringCaseIffLower(s, n, i);
      }
    }
  }

  /** At one position: a lower-case `n` occurs in the lower-cased `s` exactly
      when the stretch of `s` there equals `n` ignoring case. */
  lemma OccursIgnoringCaseIffLower(s: string, n: string, i: int)
    requires Lower(n) == n && 0 <= i <= |s| - |n|
    ensures OccursAt(Lower(s), n, i) <==> OccursIgnoringCaseAt(s, n, i)
  {
    LowerSlice(s, i, i + |n|);
    EqualsIgnoreCaseIffLower(s[i..i + |n|], n);
  }

  /** Lower-casing commutes with taking a stretch. */
  lemma LowerSlice(s: string, i: int, j: int)
    requires 0 <= i <= j <= |s|
    ensures Lower(s)[i..j] == Lower(s[i..j])
  {
    assert forall k :: 0 <= k < j - i ==> Lower(s)[i..j][k] == Lower(s[i..j])[k];
  }
}
