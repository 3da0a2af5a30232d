/** The JavaScript string primitives the program relies on (`trim`, `split`,
    `join`, `padEnd`, `substring`), written over `seq<char>`. */
module Text {

  /** ECMAScript WhiteSpace and LineTerminator code points: the characters
      that the regular-expression class `\s` matches and that `trim` strips. */
  predicate IsWhitespace(c: char) {
    c == '\t' || c == '\n' || c == '\U{000B}' || c == '\U{000C}' || c == '\r' || c == ' '
    || c == '\U{00A0}' || c == '\U{1680}' || ('\U{2000}' <= c <= '\U{200A}')
    || c == '\U{2028}' || c == '\U{2029}' || c == '\U{202F}' || c == '\U{205F}'
    || c == '\U{3000}' || c == '\U{FEFF}'
  }

  predicate AllWhitespace(s: string) {
    forall i :: 0 <= i < |s| ==> IsWhitespace(s[i])
  }

  /** A string that `trim` leaves as it is: empty, or with a non-whitespace
      character at each end. */
  predicate IsTrimmed(s: string) {
    s == [] || (!IsWhitespace(s[0]) && !IsWhitespace(s[|s| - 1]))
  }

  /** Index of the first character at or after `i` that is not whitespace,
      or `|s|` when there is none. */
  function SkipLeading(s: string, i: nat): (n: nat)
    requires i <= |s|
    ensures i <= n <= |s|
    ensures forall k :: i <= k < n ==> IsWhitespace(s[k])
    ensures n == |s| || !IsWhitespace(s[n])
    decreases |s| - i
  {
    if i < |s| && IsWhitespace(s[i]) then SkipLeading(s, i + 1) else i
  }

  /** Index just past the last character before `j` and not before `lo` that
      is not whitespace, or `lo` when there is none. */
  function SkipTrailing(s: string, lo: nat, j: nat): (n: nat)
    requires lo <= j <= |s|
    ensures lo <= n <= j
    ensures forall k :: n <= k < j ==> IsWhitespace(s[k])
    ensures n == lo || !IsWhitespace(s[n - 1])
    decreases j
  {
    if lo < j && IsWhitespace(s[j - 1]) then SkipTrailing(s, lo, j - 1) else j
  }

  /** The scan from the front stops at the first non-whitespace character. */
  lemma LeadingAt(s: string, i: nat, m: nat)
    requires i <= m <= |s|
    requires forall k :: i <= k < m ==> IsWhitespace(s[k])
    requires m == |s| || !IsWhitespace(s[m])
    ensures SkipLeading(s, i) == m
  {
  }

  /** The scan from the back stops after the last non-whitespace character. */
  lemma TrailingAt(s: string, lo: nat, j: nat, m: nat)
    requires lo <= m <= j <= |s|
    requires forall k :: m <= k < j ==> IsWhitespace(s[k])
    requires m == lo || !IsWhitespace(s[m - 1])
    ensures SkipTrailing(s, lo, j) == m
  {
  }

  /** `String.prototype.trim`: the text between the first and the last
      character that is not whitespace, or the empty text when every
      character is whitespace. */
  function Trim(s: string): (r: string)
    ensures IsTrimmed(r)
    ensures |r| <= |s|
  {
    var a := SkipLeading(s, 0);
    s[a..SkipTrailing(s, a, |s|)]
  }

  /** Trimming never introduces a character. */
  lemma TrimAvoids(s: string, c: char)
    requires c !in s
    ensures c !in Trim(s)
  {
    var a := SkipLeading(s, 0);
    var r := Trim(s);
    forall k | 0 <= k < |r| ensures r[k] != c {
      assert r[k] == s[a + k];
    }
  }

  /** Trimming strips exactly the whitespace wrapped around a trimmed text. */
  lemma TrimWrapped(u: string, t: string, v: string)
    requires AllWhitespace(u) && AllWhitespace(v) && IsTrimmed(t)
    ensures Trim(u + t + v) == t
  {
    var w := u + t + v;
    if t == [] {
      assert forall k :: 0 <= k < |w| ==> IsWhitespace(w[k]) by {
        forall k | 0 <= k < |w| ensures IsWhitespace(w[k]) {
          if k < |u| { assert w[k] == u[k]; } else { assert w[k] == v[k - |u|]; }
        }
      }
      LeadingAt(w, 0, |w|);
    } else {
      var e := |u| + |t|;
      forall k | 0 <= k < |u| ensures IsWhitespace(w[k]) {
        assert w[k] == u[k];
      }
      assert w[|u|] == t[0];
      LeadingAt(w, 0, |u|);
      forall k | e <= k < |w| ensures IsWhitespace(w[k]) {
        assert w[k] == v[k - e];
      }
      assert w[e - 1] == t[|t| - 1];
      TrailingAt(w, |u|, |w|, e);
      assert w[|u|..e] == t;
    }
  }

  /** Whitespace added around a text does not change what it trims to. */
  lemma TrimPadded(u: string, s: string, v: string)
    requires AllWhitespace(u) && AllWhitespace(v)
    ensures Trim(u + s + v) == Trim(s)
  {
    var p, q := TrimParts(s);
    var t := Trim(s);
    AllWhitespaceAppend(u, p);
    AllWhitespaceAppend(q, v);
    Regroup(u, p, t, q, v);
    TrimWrapped(u + p, t, q + v);
  }

  /** Every text is its trimmed form with whitespace on either side. */
  lemma TrimParts(s: string) returns (p: string, q: string)
    ensures AllWhitespace(p) && AllWhitespace(q)
    ensures s == p + Trim(s) + q
  {
    var a := SkipLeading(s, 0);
    var b := SkipTrailing(s, a, |s|);
    p := s[..a];
    q := s[b..];
    assert s == s[..a] + s[a..b] + s[b..];
  }

  lemma Regroup(u: string, a: string, t: string, b: string, v: string)
    ensures u + (a + t + b) + v == (u + a) + t + (b + v)
  {
  }

  lemma AllWhitespaceAppend(a: string, b: string)
    requires AllWhitespace(a) && AllWhitespace(b)
    ensures AllWhitespace(a + b)
  {
    forall i | 0 <= i < |a + b| ensures IsWhitespace((a + b)[i]) {
      if i >= |a| {
        assert (a + b)[i] == b[i - |a|];
      }
    }
  }

  /** `String.prototype.split` with a non-empty string separator: the parts
      between non-overlapping occurrences of `sep`, found left to right. */
  function Split(s: string, sep: string): (parts: seq<string>)
    requires sep != []
    ensures |parts| >= 1
    decreases |s|
  {
    if |s| < |sep| then [s]
    else if s[..|sep|] == sep then [[]] + Split(s[|sep|..], sep)
    else
      var rest := Split(s[1..], sep);
      [[s[0]] + rest[0]] + rest[1..]
  }

  /** `Array.prototype.join`. */
  function Join(parts: seq<string>, sep: string): string
    decreases |parts|
  {
    if |parts| == 0 then []
    else if |parts| == 1 then parts[0]
    else parts[0] + sep + Join(parts[1..], sep)
  }

  /** Joining the parts of a split with the same separator gives the text back. */
  lemma {:induction false} JoinSplit(s: string, sep: string)
    requires sep != []
    ensures Join(Split(s, sep), sep) == s
    decreases |s|
  {
    if |s| < |sep| {
    } else if s[..|sep|] == sep {
      JoinSplit(s[|sep|..], sep);
      JoinSplitAtSeparator(s, sep);
    } else {
      JoinSplit(s[1..], sep);
      JoinSplitPastFirst(s, sep);
    }
  }

  lemma JoinSplitAtSeparator(s: string, sep: string)
    requires sep != [] && |s| >= |sep| && s[..|sep|] == sep
    requires Join(Split(s[|sep|..], sep), sep) == s[|sep|..]
    ensures Join(Split(s, sep), sep) == s
  {
    var tail := s[|sep|..];
    var rest := Split(tail, sep);
    SplitAtSeparator(s, sep);
    JoinCons([], rest, sep);
    PrefixAndRest(s, sep);
  }

  lemma SplitAtSeparator(s: string, sep: string)
    requires sep != [] && |s| >= |sep| && s[..|sep|] == sep
    ensures Split(s, sep) == [[]] + Split(s[|sep|..], sep)
  {
  }

  lemma PrefixAndRest(s: string, p: string)
    requires |p| <= |s| && s[..|p|] == p
    ensures [] + p + s[|p|..] == s
  {
    assert s == s[..|p|] + s[|p|..];
  }

  lemma JoinSplitPastFirst(s: string, sep: string)
    requires sep != [] && |s| >= |sep| && s[..|sep|] != sep
    requires Join(Split(s[1..], sep), sep) == s[1..]
    ensures Join(Split(s, sep), sep) == s
  {
    JoinExtendFirst(s[0], Split(s[1..], sep), sep);
    assert s == [s[0]] + s[1..];
  }

  lemma JoinCons(p: string, rest: seq<string>, sep: string)
    requires |rest| >= 1
    ensures Join([p] + rest, sep) == p + sep + Join(rest, sep)
  {
    assert ([p] + rest)[1..] == rest;
  }

  /** Putting a character in front of the first part puts it in front of the join. */
  lemma JoinExtendFirst(c: char, rest: seq<string>, sep: string)
    requires |rest| >= 1
    ensures Join([[c] + rest[0]] + rest[1..], sep) == [c] + Join(rest, sep)
  {
    var parts := [[c] + rest[0]] + rest[1..];
    if |rest| > 1 {
      assert parts[1..] == rest[1..];
      assert Join(parts, sep) == [c] + rest[0] + sep + Join(rest[1..], sep);
    }
  }

  /** Splitting on one character: a part before the first occurrence. */
  lemma {:induction false} SplitAfterPart(x: string, c: char, y: string)
    requires c !in x
    ensures Split(x + [c] + y, [c]) == [x] + Split(y, [c])
    decreases |x|
  {
    var s := x + [c] + y;
    if x == [] {
      assert s[..1] == [c] && s[1..] == y;
    } else {
      assert s[..1] == [x[0]] != [c];
      assert s[1..] == x[1..] + [c] + y;
      SplitAfterPart(x[1..], c, y);
      assert [x[0]] + x[1..] == x;
    }
  }

  /** A text without the separator character splits into itself alone. */
  lemma {:induction false} SplitWithoutSeparator(x: string, c: char)
    requires c !in x
    ensures Split(x, [c]) == [x]
    decreases |x|
  {
    if x != [] {
      assert x[..1] == [x[0]] != [c];
      SplitWithoutSeparator(x[1..], c);
      assert [x[0]] + x[1..] == x;
    }
  }

  /** No part of a split on a single character contains that character. */
  lemma {:induction false} SplitPartsAvoidSeparator(s: string, c: char)
    ensures forall p :: p in Split(s, [c]) ==> c !in p
    decreases |s|
  {
    if |s| < 1 {
    } else if s[..1] == [c] {
      SplitPartsAvoidSeparator(s[1..], c);
    } else {
      SplitPartsAvoidSeparator(s[1..], c);
      var rest := Split(s[1..], [c]);
      assert rest[0] in rest;
      assert s[0] != c;
      forall p | p in Split(s, [c]) ensures c !in p {
        if p != [s[0]] + rest[0] {
          assert p in rest[1..];
        }
      }
    }
  }

  /** `sep` occurs in `p` starting at index `i`. */
  predicate OccursAt(p: string, sep: string, i: nat) {
    i + |sep| <= |p| && p[i..i + |sep|] == sep
  }

  /** The first part of a split is a prefix of the text. */
  lemma {:induction false} SplitFirstIsPrefix(s: string, sep: string)
    requires sep != []
    ensures |Split(s, sep)[0]| <= |s| && s[..|Split(s, sep)[0]|] == Split(s, sep)[0]
    decreases |s|
  {
    if |s| >= |sep| && s[..|sep|] != sep {
      SplitFirstIsPrefix(s[1..], sep);
      var r0 := Split(s[1..], sep)[0];
      assert Split(s, sep)[0] == [s[0]] + r0;
      assert s[..|r0| + 1] == [s[0]] + s[1..][..|r0|];
    }
  }

  /** No part of a split holds the separator anywhere: the text is cut at
      every occurrence of `sep`. */
  lemma {:induction false} SplitPartsAvoidFactor(s: string, sep: string)
    requires sep != []
    ensures forall k, i: nat :: 0 <= k < |Split(s, sep)| ==> !OccursAt(Split(s, sep)[k], sep, i)
    decreases |s|
  {
    var parts := Split(s, sep);
    if |s| < |sep| {
      assert parts == [s];
    } else if s[..|sep|] == sep {
      SplitPartsAvoidFactor(s[|sep|..], sep);
      var rest := Split(s[|sep|..], sep);
      forall k, i: nat | 0 <= k < |parts| ensures !OccursAt(parts[k], sep, i) {
        if k > 0 {
          assert parts[k] == rest[k - 1];
        }
      }
    } else {
      SplitPartsAvoidFactor(s[1..], sep);
      SplitFirstIsPrefix(s, sep);
      var rest := Split(s[1..], sep);
      var p := [s[0]] + rest[0];
      assert parts[0] == p;
      forall k, i: nat | 0 <= k < |parts| ensures !OccursAt(parts[k], sep, i) {
        if k > 0 {
          assert parts[k] == rest[k];
        } else if i == 0 {
        } else if OccursAt(p, sep, i) {
          assert p[i..i + |sep|] == rest[0][i - 1..i - 1 + |sep|];
          assert OccursAt(rest[0], sep, i - 1);
        }
      }
    }
  }

  /** Splitting the join of separator-free parts on that character gives
      the parts back. */
  lemma {:induction false} SplitJoin(parts: seq<string>, c: char)
    requires |parts| >= 1
    requires forall i :: 0 <= i < |parts| ==> c !in parts[i]
    ensures Split(Join(parts, [c]), [c]) == parts
    decreases |parts|
  {
    if |parts| == 1 {
      SplitWithoutSeparator(parts[0], c);
    } else {
      SplitJoin(parts[1..], c);
      SplitAfterPart(parts[0], c, Join(parts[1..], [c]));
      assert parts == [parts[0]] + parts[1..];
    }
  }

  function Repeat(c: char, n: nat): (r: string)
    ensures |r| == n && forall i :: 0 <= i < n ==> r[i] == c
  {
    seq(n, _ => c)
  }

  /** `String.prototype.padEnd(width)` with the default filler, a space. */
  function PadEnd(s: string, width: nat): (r: string)
    ensures |r| == if |s| < width then width else |s|
    ensures r[..|s|] == s
    ensures forall i :: |s| <= i < |r| ==> r[i] == ' '
  {
    if |s| < width then s + Repeat(' ', width - |s|) else s
  }

  function Clamp(i: int, len: nat): (r: nat)
    ensures r <= len
  {
    if i < 0 then 0 else if i > len then len else i
  }

  /** `String.prototype.substring(start, end)`: both bounds clamped to the
      string, and swapped when the first exceeds the second. */
  function Substring(s: string, start: int, end: int): (r: string)
    ensures |r| <= |s|
  {
    var a := Clamp(start, |s|);
    var b := Clamp(end, |s|);
    if a <= b then s[a..b] else s[b..a]
  }

  /** `s.substring(1, s.length - 1)`: the text without its first and last
      characters, except that a one-character text comes back whole. */
  lemma DropEnds(s: string)
    ensures |s| >= 2 ==> Substring(s, 1, |s| - 1) == s[1..|s| - 1]
    ensures |s| == 1 ==> Substring(s, 1, |s| - 1) == s
    ensures |s| == 0 ==> Substring(s, 1, |s| - 1) == []
  {
  }

  /** Number of occurrences of `c` in `s`. */
  function Count(s: string, c: char): (n: nat)
    ensures n <= |s|
    ensures n == 0 <==> c !in s
  {
    if s == [] then 0 else (if s[0] == c then 1 else 0) + Count(s[1..], c)
  }

  lemma {:induction false} CountAppend(a: string, b: string, c: char)
    ensures Count(a + b, c) == Count(a, c) + Count(b, c)
    decreases |a|
  {
    if a != [] {
      assert (a + b)[1..] == a[1..] + b;
      CountAppend(a[1..], b, c);
    } else {
      assert a + b == b;
    }
  }
}
