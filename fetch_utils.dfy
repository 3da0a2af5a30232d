/** Game-name normalisation and the price-tuple shape check
    (`normalizeGameName`, `isStringTuple`). The regular expressions of the
    source are written out as explicit character-level functions. */
module FetchUtils {
  import opened Text

  predicate IsAsciiUpper(c: char) { 'A' <= c <= 'Z' }
  predicate IsAsciiLower(c: char) { 'a' <= c <= 'z' }
  predicate IsAsciiDigit(c: char) { '0' <= c <= '9' }

  /** ECMAScript LineTerminator: the characters `.` does not match. */
  predicate IsLineTerminator(c: char) {
    c == '\n' || c == '\r' || c == '\U{2028}' || c == '\U{2029}'
  }

  /** `/^\[\[(.*?)\]\]$/` matches the whole string: it opens with `[[`,
      closes with `]]` (the two never overlap), and no line terminator sits
      between them. */
  predicate IsWrapped(s: string) {
    |s| >= 4 && s[..2] == "[[" && s[|s| - 2..] == "]]"
    && forall i :: 2 <= i < |s| - 2 ==> !IsLineTerminator(s[i])
  }

  /** `.replace(/^\[\[(.*?)\]\]$/, "$1")`: a wrapped name loses its wrapper,
      anything else is left alone. */
  function StripWrapper(s: string): (r: string)
    ensures IsWrapped(s) ==> s == "[[" + r + "]]"
    ensures !IsWrapped(s) ==> r == s
  {
    if IsWrapped(s) then s[2..|s| - 2] else s
  }

  /** Stripping undoes wrapping a name that holds no line terminator. */
  lemma StripWrapped(x: string)
    requires forall i :: 0 <= i < |x| ==> !IsLineTerminator(x[i])
    ensures StripWrapper("[[" + x + "]]") == x
  {
    var w := "[[" + x + "]]";
    assert w[..2] == "[[" && w[|w| - 2..] == "]]";
    forall i | 2 <= i < |w| - 2 ensures !IsLineTerminator(w[i]) {
      assert w[i] == x[i - 2];
    }
    assert w[2..|w| - 2] == x;
  }

  /** The characters `[a-zA-Z0-9\s]` matches. */
  predicate IsKept(c: char) {
    IsAsciiUpper(c) || IsAsciiLower(c) || IsAsciiDigit(c) || IsWhitespace(c)
  }

  /** `.replace(/[^a-zA-Z0-9\s]/g, "")`: every other character deleted. */
  function KeepAllowed(s: string): (r: string)
    ensures |r| <= |s|
    ensures forall i :: 0 <= i < |r| ==> IsKept(r[i]) && r[i] in s
  {
    if s == [] then []
    else if IsKept(s[0]) then [s[0]] + KeepAllowed(s[1..])
    else KeepAllowed(s[1..])
  }

  /** `.replace(/ /g, "-")`: every plain space becomes a hyphen. */
  function SpacesToHyphens(s: string): (r: string)
    ensures |r| == |s| && ' ' !in r
    ensures forall i :: 0 <= i < |s| ==> r[i] == (if s[i] == ' ' then '-' else s[i])
  {
    seq(|s|, i requires 0 <= i < |s| => if s[i] == ' ' then '-' else s[i])
  }

  /** `.replace(/--/g, "-")`: one left-to-right pass replacing each
      non-overlapping `--` with `-`. Nothing new comes in, so every character
      of the result is one of the input's. */
  function CollapseHyphenPairs(s: string): (r: string)
    ensures |r| <= |s|
    ensures forall i :: 0 <= i < |r| ==> r[i] in s
  {
    if |s| >= 2 && s[0] == '-' && s[1] == '-' then "-" + CollapseHyphenPairs(s[2..])
    else if s == [] then []
    else [s[0]] + CollapseHyphenPairs(s[1..])
  }

  function LowerChar(c: char): char {
    if IsAsciiUpper(c) then (c as int + 32) as char else c
  }

  /** `.toLowerCase()` where only ASCII letters can be cased; other
      characters are kept. */
  function ToLowerAscii(s: string): (r: string)
    ensures |r| == |s|
    ensures forall i :: 0 <= i < |r| ==> !IsAsciiUpper(r[i])
    ensures forall i :: 0 <= i < |r| && !IsAsciiUpper(s[i]) ==> r[i] == s[i]
    ensures forall i :: 0 <= i < |r| && IsAsciiUpper(s[i]) ==>
      IsAsciiLower(r[i]) && r[i] as int - 'a' as int == s[i] as int - 'A' as int
  {
    seq(|s|, i requires 0 <= i < |s| => LowerChar(s[i]))
  }

  /** A character a normalised name can hold. */
  predicate IsNormalChar(c: char) {
    IsAsciiLower(c) || IsAsciiDigit(c) || c == '-' || (IsWhitespace(c) && c != ' ')
  }

  /** The last three steps, applied to the filtered name: spaces to
      hyphens, hyphen pairs collapsed, lower case. */
  function Slugify(kept: string): (r: string)
    requires forall i :: 0 <= i < |kept| ==> IsKept(kept[i])
    ensures |r| <= |kept|
    ensures forall i :: 0 <= i < |r| ==> IsNormalChar(r[i])
  {
    var hyphenated := SpacesToHyphens(kept);
    var collapsed := CollapseHyphenPairs(hyphenated);
    forall i | 0 <= i < |collapsed| ensures IsNormalChar(collapsed[i]) || IsAsciiUpper(collapsed[i]) {
      var j :| 0 <= j < |hyphenated| && hyphenated[j] == collapsed[i];
      assert IsKept(kept[j]);
    }
    ToLowerAscii(collapsed)
  }

  /** `normalizeGameName(input)`: the URL slug a game is looked up under.
      Every character is a lower-case ASCII letter, a digit, a hyphen or
      whitespace other than a plain space, and the slug is no longer than
      the trimmed input. */
  function NormalizeGameName(input: string): (r: string)
    ensures forall i :: 0 <= i < |r| ==> IsNormalChar(r[i])
    ensures |r| <= |Trim(input)|
  {
    Slugify(KeepAllowed(StripWrapper(Trim(input))))
  }

  /** The same steps without the wrapper strip. */
  function NormalizeKeepingWrapper(input: string): string {
    Slugify(KeepAllowed(Trim(input)))
  }

  lemma {:induction false} KeepAllowedAppend(a: string, b: string)
    ensures KeepAllowed(a + b) == KeepAllowed(a) + KeepAllowed(b)
    decreases |a|
  {
    if a == [] {
      assert a + b == b;
    } else {
      assert (a + b)[1..] == a[1..] + b;
      KeepAllowedAppend(a[1..], b);
    }
  }

  /** The filter deletes exactly the characters outside the allowed set:
      an allowed character occurs as often as in the input, any other not
      at all. */
  lemma {:induction false} KeepAllowedCounts(s: string, c: char)
    ensures Count(KeepAllowed(s), c) == if IsKept(c) then Count(s, c) else 0
    decreases |s|
  {
    if s != [] {
      KeepAllowedCounts(s[1..], c);
      if IsKept(s[0]) {
        assert (KeepAllowed(s))[1..] == KeepAllowed(s[1..]);
      }
    }
  }

  /** The bracket filter already deletes `[` and `]`, so stripping the
      wrapper first changes nothing. */
  lemma StripIsRedundant(input: string)
    ensures NormalizeGameName(input) == NormalizeKeepingWrapper(input)
  {
    var t := Trim(input);
    if IsWrapped(t) {
      FilterIgnoresWrapper(StripWrapper(t));
    }
  }

  /** The filter gives the same text with or without a `[[…]]` wrapper. */
  lemma FilterIgnoresWrapper(m: string)
    ensures KeepAllowed("[[" + m + "]]") == KeepAllowed(m)
  {
    KeepAllowedAppend("[[" + m, "]]");
    KeepAllowedAppend("[[", m);
    BracketsDropped();
  }

  lemma BracketsDropped()
    ensures KeepAllowed("[[") == [] && KeepAllowed("]]") == []
  {
    assert KeepAllowed("[") == [];
    assert KeepAllowed("]") == [];
  }

  lemma {:induction false} SpacesToHyphensCount(s: string)
    ensures Count(SpacesToHyphens(s), '-') == Count(s, '-') + Count(s, ' ')
    decreases |s|
  {
    if s != [] {
      SpacesToHyphensCount(s[1..]);
      assert SpacesToHyphens(s)[1..] == SpacesToHyphens(s[1..]);
    }
  }

  lemma {:induction false} CollapseCount(s: string)
    ensures Count(CollapseHyphenPairs(s), '-') <= Count(s, '-')
    decreases |s|
  {
    if |s| >= 2 && s[0] == '-' && s[1] == '-' {
      CollapseCount(s[2..]);
      assert s[1..][1..] == s[2..];
    } else if s != [] {
      CollapseCount(s[1..]);
      assert CollapseHyphenPairs(s)[1..] == CollapseHyphenPairs(s[1..]);
    }
  }

  lemma {:induction false} ToLowerCount(s: string)
    ensures Count(ToLowerAscii(s), '-') == Count(s, '-')
    decreases |s|
  {
    if s != [] {
      ToLowerCount(s[1..]);
      assert ToLowerAscii(s)[1..] == ToLowerAscii(s[1..]);
    }
  }

  /** The input's own hyphens are deleted by the filter, so every hyphen of
      the slug comes from a plain space of the trimmed input. */
  lemma NormalizedHyphens(input: string)
    ensures Count(NormalizeGameName(input), '-') <= Count(Trim(input), ' ')
  {
    var t := Trim(input);
    var stripped := StripWrapper(t);
    KeepAllowedCounts(stripped, '-');
    KeepAllowedCounts(stripped, ' ');
    SlugHyphens(KeepAllowed(stripped));
    StripKeepsSpaces(t);
  }

  /** A filtered name holds no hyphen, so every hyphen of its slug comes
      from one of its plain spaces. */
  lemma SlugHyphens(kept: string)
    requires forall i :: 0 <= i < |kept| ==> IsKept(kept[i])
    requires Count(kept, '-') == 0
    ensures Count(Slugify(kept), '-') <= Count(kept, ' ')
  {
    var hyphenated := SpacesToHyphens(kept);
    var collapsed := CollapseHyphenPairs(hyphenated);
    ToLowerCount(collapsed);
    CollapseCount(hyphenated);
    SpacesToHyphensCount(kept);
  }

  /** The wrapper strip removes no plain space. */
  lemma StripKeepsSpaces(t: string)
    ensures Count(StripWrapper(t), ' ') <= Count(t, ' ')
  {
    if IsWrapped(t) {
      var stripped := StripWrapper(t);
      CountAppend("[[" + stripped, "]]", ' ');
      CountAppend("[[", stripped, ' ');
    }
  }

  /** A run of `n` hyphens collapses to `ceil(n / 2)`: two spaces give one
      hyphen, three give two. */
  lemma {:induction false} CollapseRun(n: nat)
    ensures CollapseHyphenPairs(Repeat('-', n)) == Repeat('-', (n + 1) / 2)
    decreases n
  {
    if n >= 2 {
      CollapseRun(n - 2);
      assert Repeat('-', n)[2..] == Repeat('-', n - 2);
      assert "-" + Repeat('-', (n - 1) / 2) == Repeat('-', (n + 1) / 2);
    } else if n == 1 {
      assert Repeat('-', 1)[1..] == [];
    }
  }

  /** A character other than a hyphen is never part of a pair, so the `--`
      pass works on the text before it and the text after it separately.
      With `CollapseRun`, every maximal run of n hyphens in a name becomes
      (n + 1) / 2 hyphens. */
  lemma {:induction false} CollapseAround(a: string, c: char, b: string)
    requires c != '-'
    ensures CollapseHyphenPairs(a + [c] + b) == CollapseHyphenPairs(a) + [c] + CollapseHyphenPairs(b)
    decreases |a|
  {
    if a == [] {
      CollapseCons(c, b);
      assert a + [c] + b == [c] + b;
    } else if |a| >= 2 && a[0] == '-' && a[1] == '-' {
      var t := a[2..];
      CollapseAround(t, c, b);
      assert a == "--" + t;
      CollapseAroundPair(t, c, b);
    } else {
      var t := a[1..];
      CollapseAround(t, c, b);
      assert a == [a[0]] + t;
      CollapseAroundCons(a[0], t, c, b);
    }
  }

  lemma CollapseAroundPair(t: string, c: char, b: string)
    requires CollapseHyphenPairs(t + [c] + b) == CollapseHyphenPairs(t) + [c] + CollapseHyphenPairs(b)
    ensures CollapseHyphenPairs("--" + t + [c] + b) == CollapseHyphenPairs("--" + t) + [c] + CollapseHyphenPairs(b)
  {
    assert "--" + t + [c] + b == "--" + (t + [c] + b);
    CollapsePairCons(t + [c] + b);
    CollapsePairCons(t);
    Regroup3("-", CollapseHyphenPairs(t), [c], CollapseHyphenPairs(b));
  }

  lemma CollapseAroundCons(x: char, t: string, c: char, b: string)
    requires c != '-' && !(x == '-' && |t| >= 1 && t[0] == '-')
    requires CollapseHyphenPairs(t + [c] + b) == CollapseHyphenPairs(t) + [c] + CollapseHyphenPairs(b)
    ensures CollapseHyphenPairs([x] + t + [c] + b) == CollapseHyphenPairs([x] + t) + [c] + CollapseHyphenPairs(b)
  {
    var rest := t + [c] + b;
    assert [x] + t + [c] + b == [x] + rest;
    assert rest[0] == if t == [] then c else t[0];
    CollapseCons(x, rest);
    CollapseCons(x, t);
    Regroup3([x], CollapseHyphenPairs(t), [c], CollapseHyphenPairs(b));
  }

  lemma Regroup3(x: string, y: string, z: string, w: string)
    ensures x + (y + z + w) == (x + y) + z + w
  {
  }

  /** A leading `--` becomes one hyphen. */
  lemma CollapsePairCons(t: string)
    ensures CollapseHyphenPairs("--" + t) == "-" + CollapseHyphenPairs(t)
  {
    assert ("--" + t)[2..] == t;
  }

  /** A first character that does not start a pair is kept. */
  lemma CollapseCons(x: char, t: string)
    requires !(x == '-' && |t| >= 1 && t[0] == '-')
    ensures CollapseHyphenPairs([x] + t) == [x] + CollapseHyphenPairs(t)
  {
    assert ([x] + t)[1..] == t;
  }

  /** A trimmed name without a wrapper goes straight to the filter. */
  lemma PlainName(input: string)
    requires IsTrimmed(input) && !IsWrapped(input)
    ensures NormalizeGameName(input) == Slugify(KeepAllowed(input))
  {
    TrimWrapped([], input, []);
    assert [] + input + [] == input;
  }

  lemma NormalizeSpacedHyphen()
    ensures NormalizeGameName("A - B") == "a-b"
  {
    PlainName("A - B");
    FilterSpacedHyphen();
    SlugOfSpacedPair();
  }

  lemma FilterSpacedHyphen()
    ensures KeepAllowed("A - B") == "A  B"
  {
    SpacedHyphenParts("A ", '-', " B");
    DropDisallowed("A ", '-', " B");
  }

  /** Deleting one disallowed character between two allowed stretches. */
  lemma DropDisallowed(a: string, c: char, b: string)
    requires forall i :: 0 <= i < |a| ==> IsKept(a[i])
    requires forall i :: 0 <= i < |b| ==> IsKept(b[i])
    requires !IsKept(c)
    ensures KeepAllowed(a + [c] + b) == a + b
  {
    var ac := a + [c];
    KeepAllowedAll(a);
    KeepAllowedAll(b);
    assert KeepAllowed([c]) == [];
    KeepAllowedAppend(a, [c]);
    assert KeepAllowed(ac) == a;
    KeepAllowedAppend(ac, b);
  }

  /** `"A - B"` cut around its hyphen into two allowed stretches. */
  lemma SpacedHyphenParts(a: string, c: char, b: string)
    requires a == "A " && c == '-' && b == " B"
    ensures forall i :: 0 <= i < |a| ==> IsKept(a[i])
    ensures forall i :: 0 <= i < |b| ==> IsKept(b[i])
    ensures !IsKept(c)
    ensures a + [c] + b == "A - B" && a + b == "A  B"
  {
  }

  lemma SlugOfSpacedPair()
    ensures Slugify("A  B") == "a-b"
  {
    assert SpacesToHyphens("A  B") == "A--B";
    assert CollapseHyphenPairs("A--B") == "A-B" by {
      assert CollapseHyphenPairs("B") == "B";
      assert CollapseHyphenPairs("--B") == "-B";
    }
    assert ToLowerAscii("A-B") == "a-b";
  }

  /** A name made only of allowed characters passes the filter unchanged. */
  lemma {:induction false} KeepAllowedAll(s: string)
    requires forall i :: 0 <= i < |s| ==> IsKept(s[i])
    ensures KeepAllowed(s) == s
    decreases |s|
  {
    if s != [] {
      KeepAllowedAll(s[1..]);
    }
  }

  /** A name without `--` goes through the collapse unchanged. */
  lemma {:induction false} CollapseWithoutPairs(s: string)
    requires forall i :: 0 <= i < |s| - 1 ==> !(s[i] == '-' && s[i + 1] == '-')
    ensures CollapseHyphenPairs(s) == s
    decreases |s|
  {
    if s != [] {
      var tail := s[1..];
      forall i | 0 <= i < |tail| - 1 ensures !(tail[i] == '-' && tail[i + 1] == '-') {
        assert tail[i] == s[i + 1] && tail[i + 1] == s[i + 2];
      }
      CollapseWithoutPairs(tail);
      assert !(|s| >= 2 && s[0] == '-' && s[1] == '-');
      assert CollapseHyphenPairs(s) == [s[0]] + CollapseHyphenPairs(tail);
      assert [s[0]] + tail == s;
    }
  }

  lemma NormalizeTitle()
    ensures NormalizeGameName("The Witcher 3") == "the-witcher-3"
  {
    PlainName("The Witcher 3");
    FilterOfTitle();
    SlugOfTitle();
  }

  /** The example names are made of allowed characters only, so the filter
      leaves them unchanged. */
  lemma AllowedExample(s: string)
    requires s == "The Witcher 3" || s == "Hollow Knight" || s == "a   b"
    ensures KeepAllowed(s) == s
  {
    assert forall i :: 0 <= i < |s| ==> IsKept(s[i]);
    KeepAllowedAll(s);
  }

  lemma FilterOfTitle()
    ensures KeepAllowed("The Witcher 3") == "The Witcher 3"
  {
    AllowedExample("The Witcher 3");
  }

  lemma SlugOfTitle()
    ensures Slugify("The Witcher 3") == "the-witcher-3"
  {
    assert SpacesToHyphens("The Witcher 3") == "The-Witcher-3";
    CollapseWithoutPairs("The-Witcher-3");
    LowerOfTitle();
  }

  lemma LowerOfTitle()
    ensures ToLowerAscii("The-Witcher-3") == "the-witcher-3"
  {
  }

  lemma NormalizeWrappedTitle()
    ensures NormalizeGameName("[[Hollow Knight]]") == "hollow-knight"
  {
    StripOfWrappedTitle();
    FilterOfWrappedTitle();
    SlugOfWrappedTitle();
  }

  lemma FilterOfWrappedTitle()
    ensures KeepAllowed("Hollow Knight") == "Hollow Knight"
  {
    AllowedExample("Hollow Knight");
  }

  lemma StripOfWrappedTitle()
    ensures StripWrapper(Trim("[[Hollow Knight]]")) == "Hollow Knight"
  {
    TrimOfWrappedTitle();
    WrapperOfWrappedTitle();
  }

  lemma TrimOfWrappedTitle()
    ensures Trim("[[Hollow Knight]]") == "[[Hollow Knight]]"
  {
    TrimWrapped([], "[[Hollow Knight]]", []);
    assert [] + "[[Hollow Knight]]" + [] == "[[Hollow Knight]]";
  }

  lemma WrapperOfWrappedTitle()
    ensures StripWrapper("[[Hollow Knight]]") == "Hollow Knight"
  {
    WrappedTitleLiteral();
    StripWrapped("Hollow Knight");
  }

  lemma WrappedTitleLiteral()
    ensures "[[" + "Hollow Knight" + "]]" == "[[Hollow Knight]]"
    ensures forall i :: 0 <= i < |"Hollow Knight"| ==> !IsLineTerminator("Hollow Knight"[i])
  {
    assert "[[" + "Hollow Knight" == "[[Hollow Knight";
  }


  lemma SlugOfWrappedTitle()
    ensures Slugify("Hollow Knight") == "hollow-knight"
  {
    assert SpacesToHyphens("Hollow Knight") == "Hollow-Knight";
    CollapseWithoutPairs("Hollow-Knight");
    LowerOfWrappedTitle();
  }

  lemma LowerOfWrappedTitle()
    ensures ToLowerAscii("Hollow-Knight") == "hollow-knight"
  {
  }

  /** Normalising twice is not normalising once: three spaces leave `--`,
      whose hyphens a second pass deletes. */
  lemma NormalizeNotIdempotent()
    ensures NormalizeGameName("a   b") == "a--b"
    ensures NormalizeGameName("a--b") == "ab"
  {
    NormalizeTripleSpace();
    NormalizeDoubleHyphen();
  }

  lemma NormalizeTripleSpace()
    ensures NormalizeGameName("a   b") == "a--b"
  {
    PlainName("a   b");
    AllowedExample("a   b");
    SlugOfTripleSpace();
  }

  lemma NormalizeDoubleHyphen()
    ensures NormalizeGameName("a--b") == "ab"
  {
    PlainName("a--b");
    FilterDoubleHyphen();
    SlugOfPlainPair();
  }

  lemma SlugOfTripleSpace()
    ensures Slugify("a   b") == "a--b"
  {
    assert SpacesToHyphens("a   b") == "a---b";
    assert CollapseHyphenPairs("a---b") == "a--b" by {
      assert CollapseHyphenPairs("b") == "b";
      assert CollapseHyphenPairs("-b") == "-b";
      assert CollapseHyphenPairs("---b") == "--b";
    }
    assert ToLowerAscii("a--b") == "a--b";
  }

  lemma SlugOfPlainPair()
    ensures Slugify("ab") == "ab"
  {
    assert SpacesToHyphens("ab") == "ab";
    CollapseWithoutPairs("ab");
    assert ToLowerAscii("ab") == "ab";
  }

  lemma FilterDoubleHyphen()
    ensures KeepAllowed("a--b") == "ab"
  {
    assert KeepAllowed("b") == "b";
    assert KeepAllowed("-b") == "b";
    assert KeepAllowed("--b") == "b";
  }

  /** The values `isStringTuple` can be handed (an `any`). */
  datatype JsValue =
    | JsUndefined
    | JsNull
    | JsBool(b: bool)
    | JsNumber(n: int)
    | JsString(str: string)
    | JsArray(elements: seq<JsValue>)
    | JsObject

  /** `isStringTuple(arr)`: an array of exactly two strings. */
  function IsStringTuple(x: JsValue): (b: bool)
    ensures b <==> exists a, c :: x == JsArray([JsString(a), JsString(c)])
  {
    x.JsArray? && |x.elements| == 2 && x.elements[0].JsString? && x.elements[1].JsString?
  }

}
