/** The Python string built-ins the checker relies on: `str.strip()`,
    `str.lower()`, `str.split(sep)`, `sep.join(parts)` and the substring
    test `p in s`. Strings are sequences of Unicode scalar values. */
module Text {

  /** Python's `str.isspace`: the characters `str.strip()` removes when it
      is called without arguments. */
  predicate IsSpace(c: char) {
    || ('\t' <= c <= '\r')
    || ('\U{1C}' <= c <= '\U{1F}')
    || c == ' '
    || c == '\U{85}'
    || c == '\U{A0}'
    || c == '\U{1680}'
    || ('\U{2000}' <= c <= '\U{200A}')
    || c == '\U{2028}'
    || c == '\U{2029}'
    || c == '\U{202F}'
    || c == '\U{205F}'
    || c == '\U{3000}'
  }

  predicate AllSpace(s: string) {
    forall k | 0 <= k < |s| :: IsSpace(s[k])
  }

  /** A string with no whitespace at either end: what `strip()` returns. */
  predicate Stripped(s: string) {
    s == [] || (!IsSpace(s[0]) && !IsSpace(s[|s| - 1]))
  }

  /** `r` sits at offset `i` of `s`, and only whitespace surrounds it. */
  ghost predicate StripsAt(s: string, r: string, i: int) {
    && 0 <= i && i + |r| <= |s|
    && s[i..i + |r|] == r
    && AllSpace(s[..i])
    && AllSpace(s[i + |r|..])
  }

  /** Number of whitespace characters at the front of `s`. */
  function LeadingSpaces(s: string): (n: nat)
    ensures n <= |s|
  {
    if s == [] || !IsSpace(s[0]) then 0 else 1 + LeadingSpaces(s[1..])
  }

  /** Number of whitespace characters at the back of `s`. */
  function TrailingSpaces(s: string): (n: nat)
    ensures n <= |s|
  {
    if s == [] || !IsSpace(s[|s| - 1]) then 0 else 1 + TrailingSpaces(s[..|s| - 1])
  }

  /** The leading run is all whitespace and stops before a non-space. */
  lemma {:induction false} LeadingSpacesSpec(s: string)
    ensures AllSpace(s[..LeadingSpaces(s)])
    ensures LeadingSpaces(s) < |s| ==> !IsSpace(s[LeadingSpaces(s)])
    decreases |s|
  {
    if s != [] && IsSpace(s[0]) {
      LeadingSpacesSpec(s[1..]);
      assert s[..LeadingSpaces(s)] == [s[0]] + s[1..][..LeadingSpaces(s[1..])];
    }
  }

  /** The trailing run is all whitespace and stops after a non-space. */
  lemma {:induction false} TrailingSpacesSpec(s: string)
    ensures AllSpace(s[|s| - TrailingSpaces(s)..])
    ensures TrailingSpaces(s) < |s| ==> !IsSpace(s[|s| - TrailingSpaces(s) - 1])
    decreases |s|
  {
    if s != [] && IsSpace(s[|s| - 1]) {
      var init := s[..|s| - 1];
      TrailingSpacesSpec(init);
      assert s[|s| - TrailingSpaces(s)..] == init[|init| - TrailingSpaces(init)..] + [s[|s| - 1]];
    }
  }

  /** Python's `s.strip()`: the whitespace at both ends removed. */
  function Strip(s: string): (r: string)
    ensures |r| <= |s|
  {
    var t := s[LeadingSpaces(s)..];
    t[..|t| - TrailingSpaces(t)]
  }

  /** Cutting `i` characters of whitespace from the front and then `n` from
      the back leaves a part of `s` that only whitespace surrounds. */
  lemma CutPlace(s: string, i: nat, n: nat)
    requires i <= |s| && n <= |s| - i
    requires AllSpace(s[..i]) && AllSpace(s[i..][|s| - i - n..])
    ensures StripsAt(s, s[i..][..|s| - i - n], i)
  {
    var t := s[i..];
    var r := t[..|t| - n];
    assert s[i..i + |r|] == r;
    assert s[i + |r|..] == t[|t| - n..];
  }

  /** What `strip()` returns is the part of `s` that only whitespace
      surrounds. */
  lemma StripPlace(s: string)
    ensures StripsAt(s, Strip(s), LeadingSpaces(s))
  {
    var i := LeadingSpaces(s);
    var t := s[i..];
    LeadingSpacesSpec(s);
    TrailingSpacesSpec(t);
    CutPlace(s, i, TrailingSpaces(t));
  }

  /** What `strip()` returns has no whitespace at either end. */
  lemma StripEnds(s: string)
    ensures Stripped(Strip(s))
  {
    var i := LeadingSpaces(s);
    var t := s[i..];
    var n := TrailingSpaces(t);
    var r := t[..|t| - n];
    if r != [] {
      LeadingSpacesSpec(s);
      TrailingSpacesSpec(t);
      assert r[0] == s[i];
      assert r[|r| - 1] == t[|t| - n - 1];
    }
  }

  /** What `strip()` returns has no whitespace at either end, and it is the
      part of `s` that only whitespace surrounds. */
  lemma StripSpec(s: string)
    ensures Stripped(Strip(s))
    ensures StripsAt(s, Strip(s), LeadingSpaces(s))
  {
    StripPlace(s);
    StripEnds(s);
  }

  /** Stripping an already stripped string changes nothing. */
  lemma StripStripped(s: string)
    requires Stripped(s)
    ensures Strip(s) == s
  {
    StripSpec(s);
    if s != [] {
      assert LeadingSpaces(s) == 0;
      assert TrailingSpaces(s) == 0;
    }
  }

  /** `strip()` yields the empty string exactly for whitespace-only input. */
  lemma StripEmpty(s: string)
    ensures Strip(s) == [] <==> AllSpace(s)
  {
    StripSpec(s);
    var i := LeadingSpaces(s);
    var r := Strip(s);
    if r == [] {
      assert s == s[..i] + s[i..];
      forall k | 0 <= k < |s| ensures IsSpace(s[k]) {
        if k < i {
          assert s[..i][k] == s[k];
        } else {
          assert s[i + |r|..][k - i] == s[k];
        }
      }
    } else if AllSpace(s) {
      assert false;
    }
  }

  /** Stripping only removes characters. */
  lemma StripKeepsOut(s: string, c: char)
    requires c !in s
    ensures c !in Strip(s)
  {
    StripSpec(s);
  }

  /** Python's `str.lower()` on one character. Only the letters whose
      lower-case form is one ASCII letter are mapped: A to Z and U+212A
      KELVIN SIGN. */
  function LowerChar(c: char): (l: char)
    ensures IsSpace(c) ==> l == c
    ensures IsSpace(l) ==> IsSpace(c)
    ensures 'A' <= c <= 'Z' ==> 'a' <= l <= 'z' && l as int - c as int == 32
  {
    if 'A' <= c <= 'Z' then (c as int + 32) as char
    else if c == '\U{212A}' then 'k'
    else c
  }

  /** Python's `s.lower()`, character by character. */
  function Lower(s: string): (r: string)
    ensures |r| == |s|
  {
    seq(|s|, k requires 0 <= k < |s| => LowerChar(s[k]))
  }

  /** Lower-casing twice is lower-casing once. */
  lemma LowerIdempotent(s: string)
    ensures Lower(Lower(s)) == Lower(s)
  {
  }

  /** Lower-cased text has no whitespace at its ends when the original had
      none. */
  lemma LowerStripped(s: string)
    requires Stripped(s)
    ensures Stripped(Lower(s))
  {
  }

  /** Lower-casing commutes with slicing. */
  lemma LowerSlice(s: string, i: int, j: int)
    requires 0 <= i <= j <= |s|
    ensures Lower(s[i..j]) == Lower(s)[i..j]
  {
  }

  /** `p` occurs in `s` starting at index `i`. */
  predicate OccursAt(s: string, p: string, i: int) {
    0 <= i && i + |p| <= |s| && s[i..i + |p|] == p
  }

  /** Python's substring test `p in s`. */
  predicate Contains(s: string, p: string) {
    exists i | 0 <= i <= |s| - |p| :: OccursAt(s, p, i)
  }

  /** A string cannot contain a phrase one of whose characters it lacks. */
  lemma MissingChar(s: string, p: string, c: char)
    requires c in p && c !in s
    ensures !Contains(s, p)
  {
  }

  /** A phrase that contains `q` at offset `d` drags `q` along with it. */
  lemma ContainsInner(s: string, p: string, q: string, d: nat)
    requires d + |q| <= |p| && p[d..d + |q|] == q
    requires Contains(s, p)
    ensures Contains(s, q)
  {
    var i :| 0 <= i <= |s| - |p| && OccursAt(s, p, i);
    forall k | 0 <= k < |q| ensures s[i + d + k] == q[k] {
      assert q[k] == p[d + k] == s[i..i + |p|][d + k];
    }
    assert s[i + d..i + d + |q|] == q;
    assert OccursAt(s, q, i + d);
  }

  /** An occurrence inside the stripped part is an occurrence in `s`. */
  lemma OccursWiden(s: string, r: string, i: int, p: string, k: int)
    requires StripsAt(s, r, i) && OccursAt(r, p, k)
    ensures OccursAt(s, p, i + k)
  {
    forall m | 0 <= m < |p| ensures s[i + k + m] == p[m] {
      assert p[m] == r[k..k + |p|][m] == r[k + m] == s[i..i + |r|][k + m];
    }
    assert s[i + k..i + k + |p|] == p;
  }

  /** An occurrence in `s` of a phrase with no whitespace at its ends lies
      inside the part that `strip()` keeps. */
  lemma OccursNarrow(s: string, r: string, i: int, p: string, k: int)
    requires StripsAt(s, r, i) && OccursAt(s, p, k)
    requires p != [] && Stripped(p)
    ensures OccursAt(r, p, k - i)
  {
    assert s[k..k + |p|][0] == s[k];
    assert s[k..k + |p|][|p| - 1] == s[k + |p| - 1];
    assert i <= k && k + |p| <= i + |r|;
    forall m | 0 <= m < |p| ensures r[k - i + m] == p[m] {
      assert p[m] == s[k..k + |p|][m] == s[k + m] == s[i..i + |r|][k - i + m];
    }
    assert r[k - i..k - i + |p|] == p;
  }

  /** A phrase with no whitespace at its ends occurs in `s` exactly when
      it occurs in a part `r` of `s` that only whitespace surrounds: no
      occurrence can reach into the whitespace. */
  lemma ContainsAround(s: string, r: string, i: int, p: string)
    requires StripsAt(s, r, i)
    requires p != [] && Stripped(p)
    ensures Contains(s, p) <==> Contains(r, p)
  {
    if Contains(r, p) {
      var k :| 0 <= k <= |r| - |p| && OccursAt(r, p, k);
      OccursWiden(s, r, i, p, k);
    }
    if Contains(s, p) {
      var k :| 0 <= k <= |s| - |p| && OccursAt(s, p, k);
      OccursNarrow(s, r, i, p, k);
    }
  }

  /** Lower-casing keeps the whitespace around a part of a string. */
  lemma LowerStripsAt(s: string, r: string, i: int)
    requires StripsAt(s, r, i)
    ensures StripsAt(Lower(s), Lower(r), i)
  {
    LowerSlice(s, i, i + |r|);
    LowerSlice(s, 0, i);
    LowerSlice(s, i + |r|, |s|);
  }

  /** The substring test on the stripped, lower-cased text, as
      `normalize_status` performs it, agrees with the test on the whole
      lower-cased text for every phrase with no whitespace at its ends. */
  lemma ContainsLowerStrip(s: string, p: string)
    requires p != [] && Stripped(p)
    ensures Contains(Lower(Strip(s)), p) <==> Contains(Lower(s), p)
  {
    StripSpec(s);
    LowerStripsAt(s, Strip(s), LeadingSpaces(s));
    ContainsAround(Lower(s), Lower(Strip(s)), LeadingSpaces(s), p);
  }

  /** Python's `s.split(sep)`: the pieces between separators, in order,
      including empty ones; the empty string splits into one empty piece. */
  function Split(s: string, sep: char): (parts: seq<string>)
    ensures |parts| >= 1
    ensures forall p | p in parts :: sep !in p
    decreases |s|
  {
    if s == [] then [[]]
    else if s[0] == sep then [[]] + Split(s[1..], sep)
    else
      var rest := Split(s[1..], sep);
      [[s[0]] + rest[0]] + rest[1..]
  }

  /** Python's `sep.join(parts)`. */
  function Join(parts: seq<string>, sep: char): (r: string)
    ensures parts != [] ==> |parts[0]| <= |r| && r[..|parts[0]|] == parts[0]
  {
    if parts == [] then []
    else if |parts| == 1 then parts[0]
    else parts[0] + [sep] + Join(parts[1..], sep)
  }

  /** A string without the separator is one piece. */
  lemma {:induction false} SplitNoSep(s: string, sep: char)
    requires sep !in s
    ensures Split(s, sep) == [s]
    decreases |s|
  {
    if s != [] {
      SplitNoSep(s[1..], sep);
      assert [s[0]] + s[1..] == s;
    }
  }

  /** Splitting at a separator splits the two sides independently. */
  lemma {:induction false} SplitAt(a: string, b: string, sep: char)
    ensures Split(a + [sep] + b, sep) == Split(a, sep) + Split(b, sep)
    decreases |a|
  {
    var s := a + [sep] + b;
    if a == [] {
      assert s[1..] == b;
    } else {
      assert s[0] == a[0];
      assert s[1..] == a[1..] + [sep] + b;
      SplitAt(a[1..], b, sep);
    }
  }

  /** Joining the pieces of a split gives back the string. */
  lemma {:induction false} JoinSplit(s: string, sep: char)
    ensures Join(Split(s, sep), sep) == s
    decreases |s|
  {
    if s != [] {
      var rest := Split(s[1..], sep);
      JoinSplit(s[1..], sep);
      if s[0] == sep {
        assert Split(s, sep) == [[]] + rest;
        assert ([[]] + rest)[1..] == rest;
      } else {
        var parts := [[s[0]] + rest[0]] + rest[1..];
        assert Split(s, sep) == parts;
        if |rest| == 1 {
          assert Join(parts, sep) == [s[0]] + rest[0];
        } else {
          assert parts[1..] == rest[1..];
          assert Join(rest, sep) == rest[0] + [sep] + Join(rest[1..], sep);
        }
      }
    }
  }

  /** Splitting a join of separator-free pieces gives back the pieces. */
  lemma {:induction false} SplitJoin(parts: seq<string>, sep: char)
    requires |parts| >= 1
    requires forall p | p in parts :: sep !in p
    ensures Split(Join(parts, sep), sep) == parts
    decreases |parts|
  {
    if |parts| == 1 {
      SplitNoSep(parts[0], sep);
    } else {
      SplitJoin(parts[1..], sep);
      SplitAt(parts[0], Join(parts[1..], sep), sep);
      SplitNoSep(parts[0], sep);
      assert [parts[0]] + parts[1..] == parts;
    }
  }
}
