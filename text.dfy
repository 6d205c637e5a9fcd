/** The Python string built-ins the request handler of app.py relies on:
    `p in s`, `s.split(c)`, `sep.join(parts)`, `s.strip()` and `s.lower()`.
    Whitespace and case are modelled on ASCII only. */
module Text {

  /** The ASCII characters that `str.strip()` removes. */
  predicate IsSpace(c: char) {
    c == ' ' || c == '\t' || c == '\n' || c == '\r' || c == '\U{000B}' || c == '\U{000C}'
  }

  /** Every character of `s` is whitespace. */
  predicate IsBlank(s: string) {
    forall k :: 0 <= k < |s| ==> IsSpace(s[k])
  }

  /** `p` occurs in `s` starting at index `i`. */
  predicate OccursAt(s: string, p: string, i: int) {
    0 <= i && i + |p| <= |s| && s[i..i + |p|] == p
  }

  /** Python's substring test `p in s` (true for the empty `p`). */
  predicate Contains(s: string, p: string) {
    exists i :: 0 <= i <= |s| - |p| && OccursAt(s, p, i)
  }

  /** An occurrence inside a slice is an occurrence in the whole string. */
  lemma ContainsInSlice(s: string, lo: int, hi: int, p: string)
    requires 0 <= lo <= hi <= |s|
    requires Contains(s[lo..hi], p)
    ensures Contains(s, p)
  {
    var i :| 0 <= i <= (hi - lo) - |p| && OccursAt(s[lo..hi], p, i);
    forall k | 0 <= k < |p| ensures s[lo + i + k] == p[k] {
      assert s[lo..hi][i..i + |p|][k] == p[k];
    }
    assert s[lo + i..lo + i + |p|] == p;
    assert OccursAt(s, p, lo + i);
  }

  /** An occurrence in either part is an occurrence in the concatenation. */
  lemma ContainsInConcat(a: string, b: string, p: string)
    requires Contains(a, p) || Contains(b, p)
    ensures Contains(a + b, p)
  {
    var s := a + b;
    if Contains(a, p) {
      assert s[0..|a|] == a;
      ContainsInSlice(s, 0, |a|, p);
    } else {
      assert s[|a|..|s|] == b;
      ContainsInSlice(s, |a|, |s|, p);
    }
  }

  /** An occurrence in `a + [c] + b` lies in `a`, lies in `b`, or covers the `c`. */
  lemma ContainsAcross(a: string, c: char, b: string, p: string)
    requires Contains(a + [c] + b, p)
    ensures Contains(a, p) || Contains(b, p) || c in p
  {
    var s := a + [c] + b;
    var i :| 0 <= i <= |s| - |p| && OccursAt(s, p, i);
    if i + |p| <= |a| {
      assert s[i..i + |p|] == a[i..i + |p|];
      assert OccursAt(a, p, i);
    } else if i > |a| {
      assert s[i..i + |p|] == b[i - |a| - 1..i - |a| - 1 + |p|];
      assert OccursAt(b, p, i - |a| - 1);
    } else {
      assert p[|a| - i] == s[i..i + |p|][|a| - i] == c;
    }
  }

  /** An occurrence of a non-empty pattern in `[c] + b` lies in `b` or starts at the `c`. */
  lemma ContainsAfterHead(c: char, b: string, p: string)
    requires |p| > 0
    requires Contains([c] + b, p)
    ensures Contains(b, p) || p[0] == c
  {
    var s := [c] + b;
    var i :| 0 <= i <= |s| - |p| && OccursAt(s, p, i);
    if i == 0 {
      assert p[0] == s[0..|p|][0] == c;
    } else {
      assert s[i..i + |p|] == b[i - 1..i - 1 + |p|];
      assert OccursAt(b, p, i - 1);
    }
  }

  /** Python's `s.split(sep)` for a one-character separator: the pieces between
      separators, in order, always at least one. */
  function Split(s: string, sep: char): (pieces: seq<string>)
    ensures |pieces| >= 1
    ensures forall k :: 0 <= k < |pieces| ==> sep !in pieces[k]
    decreases |s|
  {
    if s == [] then [[]]
    else
      var rest := Split(s[1..], sep);
      if s[0] == sep then [[]] + rest
      else [[s[0]] + rest[0]] + rest[1..]
  }

  /** Python's `sep.join(parts)`. */
  function Join(sep: string, parts: seq<string>): string
    decreases |parts|
  {
    if parts == [] then []
    else if |parts| == 1 then parts[0]
    else parts[0] + sep + Join(sep, parts[1..])
  }

  /** Prepending to the first part prepends to the joined string. */
  lemma JoinPrepend(x: string, sep: string, parts: seq<string>)
    requires |parts| >= 1
    ensures Join(sep, [x + parts[0]] + parts[1..]) == x + Join(sep, parts)
  {
    var ps := [x + parts[0]] + parts[1..];
    if |parts| > 1 {
      assert ps[1..] == parts[1..];
    }
  }

  /** Splitting on a character and joining again with it gives back the string. */
  lemma {:induction false} SplitJoinRoundTrip(s: string, sep: char)
    ensures Join([sep], Split(s, sep)) == s
    decreases |s|
  {
    if s != [] {
      var rest := Split(s[1..], sep);
      SplitJoinRoundTrip(s[1..], sep);
      if s[0] == sep {
        assert ([[]] + rest)[1..] == rest;
        assert Join([sep], [[]] + rest) == [] + [sep] + Join([sep], rest);
      } else {
        JoinPrepend([s[0]], [sep], rest);
      }
      assert s == [s[0]] + s[1..];
    }
  }

  /** A string without the separator splits into itself. */
  lemma {:induction false} SplitWithoutSeparator(s: string, sep: char)
    requires sep !in s
    ensures Split(s, sep) == [s]
    decreases |s|
  {
    if s != [] {
      assert sep !in s[1..];
      SplitWithoutSeparator(s[1..], sep);
      assert s == [s[0]] + s[1..];
    }
  }

  /** A separator-free prefix followed by a separator becomes the first piece. */
  lemma {:induction false} SplitAfterSeparator(a: string, sep: char, b: string)
    requires sep !in a
    ensures Split(a + [sep] + b, sep) == [a] + Split(b, sep)
    decreases |a|
  {
    var s := a + [sep] + b;
    if a == [] {
      assert s[1..] == b;
    } else {
      assert s[1..] == a[1..] + [sep] + b;
      assert sep !in a[1..];
      SplitAfterSeparator(a[1..], sep, b);
      assert a == [a[0]] + a[1..];
    }
  }

  /** Drops leading whitespace: a suffix of `s` that starts with a non-space. */
  function TrimStart(s: string): (r: string)
    ensures |r| <= |s| && r == s[|s| - |r|..]
    ensures forall i :: 0 <= i < |s| - |r| ==> IsSpace(s[i])
    ensures r == [] || !IsSpace(r[0])
    decreases |s|
  {
    if s != [] && IsSpace(s[0]) then TrimStart(s[1..]) else s
  }

  /** Drops trailing whitespace: a prefix of `s` that ends with a non-space. */
  function TrimEnd(s: string): (r: string)
    ensures |r| <= |s| && r == s[..|r|]
    ensures forall i :: |r| <= i < |s| ==> IsSpace(s[i])
    ensures r == [] || !IsSpace(r[|r| - 1])
    decreases |s|
  {
    if s != [] && IsSpace(s[|s| - 1]) then TrimEnd(s[..|s| - 1]) else s
  }

  /** Python's `s.strip()`: the slice of `s` left once the whitespace at both
      ends is removed, which neither starts nor ends with whitespace. */
  function Strip(s: string): (r: string)
    ensures r == [] || (!IsSpace(r[0]) && !IsSpace(r[|r| - 1]))
    ensures var lo := |s| - |TrimStart(s)|;
      lo + |r| <= |s| && r == s[lo..lo + |r|]
      && (forall i :: 0 <= i < lo ==> IsSpace(s[i]))
      && (forall i :: lo + |r| <= i < |s| ==> IsSpace(s[i]))
  {
    var t := TrimStart(s);
    var r := TrimEnd(t);
    assert r == s[|s| - |t|..][..|r|];
    r
  }

  /** Stripping cannot create an occurrence. */
  lemma StripKeepsAbsence(s: string, p: string)
    requires !Contains(s, p)
    ensures !Contains(Strip(s), p)
  {
    var lo := |s| - |TrimStart(s)|;
    var r := Strip(s);
    if Contains(r, p) {
      assert r == s[lo..lo + |r|];
      ContainsInSlice(s, lo, lo + |r|, p);
    }
  }

  /** ASCII `c.lower()`. */
  function LowerChar(c: char): char {
    if 'A' <= c <= 'Z' then (c as int + 32) as char else c
  }

  /** Python's `s.lower()` on ASCII: each upper-case letter becomes its
      lower-case letter (32 code points on), every other character stays where
      it was, and no upper-case letter is left. */
  function Lower(s: string): (r: string)
    ensures |r| == |s|
    ensures forall i :: 0 <= i < |s| && 'A' <= s[i] <= 'Z' ==> r[i] as int == s[i] as int + 32
    ensures forall i :: 0 <= i < |s| && !('A' <= s[i] <= 'Z') ==> r[i] == s[i]
    ensures forall i :: 0 <= i < |r| ==> !('A' <= r[i] <= 'Z')
    decreases |s|
  {
    if s == [] then [] else [LowerChar(s[0])] + Lower(s[1..])
  }

  /** Lower-casing twice is lower-casing once. */
  lemma LowerIdempotent(s: string)
    ensures Lower(Lower(s)) == Lower(s)
  {
    var r := Lower(s);
    assert forall i :: 0 <= i < |r| ==> Lower(r)[i] == r[i];
  }
}
