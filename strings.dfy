/** The pieces of Python's `str` that the utilities rely on, over `seq<char>`.
    Digits and whitespace are restricted to ASCII. */
module Strings {

  /** One ASCII decimal digit. */
  predicate IsDigit(c: char) {
    '0' <= c <= '9'
  }

  /** Every character of `s` is a digit (vacuously so for ""). */
  predicate AllDigits(s: string) {
    forall i :: 0 <= i < |s| ==> IsDigit(s[i])
  }

  /** `s.isdigit()`: non-empty and made of digits only. */
  predicate IsDigits(s: string) {
    |s| > 0 && AllDigits(s)
  }

  /** The characters `s.strip()` removes (the ASCII part of `str.isspace`). */
  predicate IsSpace(c: char) {
    c == ' ' || c == '\t' || c == '\n' || c == '\r' || c == '\U{B}' || c == '\U{C}'
    || c == '\U{1C}' || c == '\U{1D}' || c == '\U{1E}' || c == '\U{1F}'
  }

  /** `pat in s`: `pat` occurs as a contiguous block of `s`. */
  predicate IsSubstring(pat: string, s: string) {
    pat <= s || (s != [] && IsSubstring(pat, s[1..]))
  }

  /** A pattern whose first character is not in `s` does not occur in `s`. */
  lemma {:induction false} NotSubstring(pat: string, s: string)
    requires |pat| > 0 && pat[0] !in s
    ensures !IsSubstring(pat, s)
    decreases |s|
  {
    if s != [] {
      assert s[0] != pat[0];
      NotSubstring(pat, s[1..]);
    }
  }

  /** `s.replace(c, "")` for a single character `c`. */
  function RemoveChar(s: string, c: char): (r: string)
    ensures |r| + multiset(s)[c] == |s|
    ensures forall x :: x in r <==> x in s && x != c
  {
    if s == [] then []
    else
      assert s == [s[0]] + s[1..];
      (if s[0] == c then [] else [s[0]]) + RemoveChar(s[1..], c)
  }

  /** `s.replace(pat, "")`: every non-overlapping occurrence of `pat`, found left to
      right, is deleted; an empty `pat` leaves `s` unchanged. */
  function RemoveAll(s: string, pat: string): (r: string)
    ensures |r| <= |s|
    decreases |s|
  {
    if |pat| == 0 || |s| < |pat| then s
    else if s[..|pat|] == pat then RemoveAll(s[|pat|..], pat)
    else [s[0]] + RemoveAll(s[1..], pat)
  }

  /** Deleting `pat` from `pre + s` leaves `pre` alone when `pre` never holds the
      first character of `pat`. */
  lemma {:induction false} RemoveAllSkipsPrefix(pre: string, s: string, pat: string)
    requires |pat| > 0 && pat[0] !in pre
    ensures RemoveAll(pre + s, pat) == pre + RemoveAll(s, pat)
    decreases |pre|
  {
    if |pre| > 0 {
      var rest := pre[1..];
      RemoveAllSkipsPrefix(rest, s, pat);
      assert pre + s == [pre[0]] + (rest + s);
      RemoveAllSkipsFirst(pre[0], rest + s, pat);
      assert [pre[0]] + rest == pre;
    } else {
      assert pre + s == s;
    }
  }

  /** A first character that does not start `pat` is kept. */
  lemma RemoveAllSkipsFirst(c: char, s: string, pat: string)
    requires |pat| > 0 && c != pat[0]
    ensures RemoveAll([c] + s, pat) == [c] + RemoveAll(s, pat)
  {
    var t := [c] + s;
    assert t[1..] == s;
    if |t| >= |pat| {
      assert t[..|pat|][0] == c;
    } else {
      assert RemoveAll(s, pat) == s;
    }
  }

  /** Index of the first `c` in `s`. */
  function IndexOf(s: string, c: char): (i: nat)
    requires c in s
    ensures i < |s| && s[i] == c && c !in s[..i]
  {
    if s[0] == c then 0 else 1 + IndexOf(s[1..], c)
  }

  /** `s.split(c)`: the pieces between the occurrences of `c`, in order. */
  function Split(s: string, c: char): (r: seq<string>)
    ensures |r| > 0
    ensures forall k :: 0 <= k < |r| ==> c !in r[k]
    decreases |s|
  {
    if c !in s then [s]
    else
      var i := IndexOf(s, c);
      [s[..i]] + Split(s[i + 1..], c)
  }

  /** A string holding `c` splits into at least two pieces. */
  lemma SplitsApart(s: string, c: char)
    ensures c in s ==> |Split(s, c)| > 1
  {
  }

  /** `s.split(c)` has one piece more than `s` has occurrences of `c`. */
  lemma {:induction false} SplitCount(s: string, c: char)
    ensures |Split(s, c)| == multiset(s)[c] + 1
    decreases |s|
  {
    if c !in s {
      assert multiset(s)[c] == 0;
    } else {
      var i := IndexOf(s, c);
      var a, b := s[..i], s[i + 1..];
      SplitCount(b, c);
      assert s == a + [c] + b;
      SplitFirst(a, b, c);
      CountAfterFirst(a, b, c);
    }
  }

  /** The occurrences of `c` in `a + [c] + b` when `a` has none. */
  lemma CountAfterFirst(a: string, b: string, c: char)
    requires c !in a
    ensures multiset(a + [c] + b)[c] == multiset(b)[c] + 1
  {
    assert multiset(a + [c] + b) == multiset(a) + multiset{c} + multiset(b);
    assert multiset(a)[c] == 0;
  }

  /** A first piece free of `c`, then `c`: the piece comes first in the split,
      followed by the split of the rest. */
  lemma SplitFirst(a: string, b: string, c: char)
    requires c !in a
    ensures Split(a + [c] + b, c) == [a] + Split(b, c)
  {
    var s := a + [c] + b;
    assert s[|a|] == c && s[..|a|] == a;
    assert IndexOf(s, c) == |a|;
    assert s[|a| + 1..] == b;
  }

  /** Two pieces free of `c` joined by `c` split back into those two pieces. */
  lemma SplitTwo(a: string, b: string, c: char)
    requires c !in a && c !in b
    ensures Split(a + [c] + b, c) == [a, b]
  {
    var s := a + [c] + b;
    assert s[|a|] == c && s[..|a|] == a;
    assert IndexOf(s, c) == |a|;
    assert s[|a| + 1..] == b;
  }

  /** The last piece of a split. */
  function Last(parts: seq<string>): string
    requires |parts| > 0
  {
    parts[|parts| - 1]
  }

  /** `c.join(parts)`. */
  function Join(parts: seq<string>, c: char): (r: string)
    requires |parts| > 0
  {
    if |parts| == 1 then parts[0] else parts[0] + [c] + Join(parts[1..], c)
  }

  /** Splitting and joining again gives back the string. */
  lemma {:induction false} JoinSplit(s: string, c: char)
    ensures Join(Split(s, c), c) == s
    decreases |s|
  {
    if c in s {
      var i := IndexOf(s, c);
      JoinSplit(s[i + 1..], c);
      assert s == s[..i] + [c] + s[i + 1..];
    }
  }

  /** The last piece of a split holds no `c`. */
  lemma LastPieceFree(s: string, c: char)
    ensures c !in Last(Split(s, c))
  {
    var r := Split(s, c);
    assert c !in r[|r| - 1];
  }

  /** The last piece of `s.split(c)` is what follows the last `c` (all of `s`
      when there is none). */
  lemma {:induction false} SplitLast(s: string, c: char)
    ensures var last := Last(Split(s, c));
      |last| <= |s| && last == s[|s| - |last|..] && (|last| == |s| || s[|s| - |last| - 1] == c)
    decreases |s|
  {
    if c in s {
      var i := IndexOf(s, c);
      var rest := s[i + 1..];
      SplitLast(rest, c);
      var last := Last(Split(rest, c));
      var n := |last|;
      assert Last(Split(s, c)) == last;
      assert last == rest[|rest| - n..];
      DropThenSuffix(s, i, n);
      assert last == s[|s| - n..];
      assert n == |s| || s[|s| - n - 1] == c;
    } else {
      assert s[|s| - |s|..] == s;
    }
  }

  /** A suffix of `s[i + 1..]` is the suffix of `s` of the same length, and the
      element before it is `s[i]` when it is all of `s[i + 1..]`. */
  lemma DropThenSuffix<T>(s: seq<T>, i: nat, n: nat)
    requires i < |s| && n <= |s| - i - 1
    ensures s[i + 1..][|s| - i - 1 - n..] == s[|s| - n..]
    ensures n == |s| - i - 1 ==> s[|s| - n - 1] == s[i]
    ensures n < |s| - i - 1 ==> s[i + 1..][|s| - i - 1 - n - 1] == s[|s| - n - 1]
  {
  }

  /** `s.lstrip()`. */
  function TrimStart(s: string): (r: string)
    ensures |r| <= |s| && r == s[|s| - |r|..]
    ensures r == [] || !IsSpace(r[0])
    ensures forall i :: 0 <= i < |s| - |r| ==> IsSpace(s[i])
  {
    if s != [] && IsSpace(s[0]) then TrimStart(s[1..]) else s
  }

  /** `s.rstrip()`. */
  function TrimEnd(s: string): (r: string)
    ensures r <= s
    ensures r == [] || !IsSpace(r[|r| - 1])
    ensures forall i :: |r| <= i < |s| ==> IsSpace(s[i])
  {
    if s != [] && IsSpace(s[|s| - 1]) then TrimEnd(s[..|s| - 1]) else s
  }

  /** `s.rstrip().lstrip()`. */
  function Strip(s: string): (r: string)
    ensures |r| <= |s|
    ensures r == [] || (!IsSpace(r[0]) && !IsSpace(r[|r| - 1]))
  {
    TrimStart(TrimEnd(s))
  }

  /** Stripping a string that neither starts nor ends with whitespace changes
      nothing. */
  lemma StripUnpadded(s: string)
    requires |s| > 0 && !IsSpace(s[0]) && !IsSpace(s[|s| - 1])
    ensures Strip(s) == s
  {
    assert TrimEnd(s) == s;
  }

  /** Stripping a single leading blank off a string that neither starts nor
      ends with whitespace gives the string back. */
  lemma StripLeadingBlank(s: string)
    requires |s| > 0 && !IsSpace(s[0]) && !IsSpace(s[|s| - 1])
    ensures Strip(" " + s) == s
  {
    var t := " " + s;
    assert t[|t| - 1] == s[|s| - 1];
    assert TrimEnd(t) == t;
    assert t[1..] == s;
    assert TrimStart(t) == TrimStart(s) == s;
  }
}
