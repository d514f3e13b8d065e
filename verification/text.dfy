/** String helpers the application relies on: Python's whitespace test, `str.strip()`
    and `str.join`, stated over `string` (a sequence of Unicode scalar values). */
module Text {

  /** The characters for which Python's `str.isspace()` holds; `str.strip()` with no
      argument removes exactly these from both ends. */
  predicate IsSpace(c: char)
  {
    ('\U{0009}' <= c <= '\U{000D}') || ('\U{001C}' <= c <= '\U{001F}') || c == ' '
    || c == '\U{0085}' || c == '\U{00A0}' || c == '\U{1680}' || ('\U{2000}' <= c <= '\U{200A}')
    || c == '\U{2028}' || c == '\U{2029}' || c == '\U{202F}' || c == '\U{205F}' || c == '\U{3000}'
  }

  /** A string is blank when it is empty or holds whitespace only (`not s.strip()` in Python). */
  predicate Blank(s: string)
  {
    forall k :: 0 <= k < |s| ==> IsSpace(s[k])
  }

  /** `s.strip()`: whitespace is taken off the front, then off the back, one character
      at a time. */
  function Strip(s: string): string
  {
    if |s| > 0 && IsSpace(s[0]) then Strip(s[1..])
    else if |s| > 0 && IsSpace(s[|s| - 1]) then Strip(s[..|s| - 1])
    else s
  }

  /** `s` is `r` with `lo` whitespace characters before it and only whitespace after it. */
  predicate Surrounds(s: string, r: string, lo: nat)
  {
    lo + |r| <= |s| && r == s[lo..lo + |r|] && Blank(s[..lo]) && Blank(s[lo + |r|..])
  }

  /** A string strips to nothing exactly when it is blank. */
  lemma {:induction false} StripBlank(s: string)
    ensures Strip(s) == [] <==> Blank(s)
    decreases |s|
  {
    if |s| > 0 && IsSpace(s[0]) {
      var t := s[1..];
      StripBlank(t);
      assert s == [s[0]] + t;
    } else if |s| > 0 && IsSpace(s[|s| - 1]) {
      var t := s[..|s| - 1];
      StripBlank(t);
      assert s == t + [s[|s| - 1]];
    }
  }

  /** A stripped string that is not empty starts and ends with non-whitespace. */
  lemma {:induction false} StripEnds(s: string)
    ensures var r := Strip(s); r != [] ==> !IsSpace(r[0]) && !IsSpace(r[|r| - 1])
    decreases |s|
  {
    if |s| > 0 && IsSpace(s[0]) {
      StripEnds(s[1..]);
    } else if |s| > 0 && IsSpace(s[|s| - 1]) {
      StripEnds(s[..|s| - 1]);
    }
  }

  /** How many characters `Strip` takes off the front of `s`. */
  function StripStart(s: string): (n: nat)
    ensures n <= |s|
  {
    if |s| > 0 && IsSpace(s[0]) then 1 + StripStart(s[1..]) else 0
  }

  /** `Strip` only removes whitespace at the two ends: the result is the infix of `s` at
      `StripStart(s)`, with nothing but whitespace around it. */
  lemma {:induction false} StripInfix(s: string)
    ensures Surrounds(s, Strip(s), StripStart(s))
    decreases |s|
  {
    if |s| > 0 && IsSpace(s[0]) {
      StripInfix(s[1..]);
      SurroundsAfterSpace(s, Strip(s), StripStart(s[1..]));
    } else if |s| > 0 && IsSpace(s[|s| - 1]) {
      StripInfix(s[..|s| - 1]);
      SurroundsBeforeSpace(s, Strip(s));
    } else {
      assert s[..0] == [] && s[|s|..] == [] && s[0..|s|] == s;
    }
  }

  /** One more whitespace character in front moves the infix one place on. */
  lemma SurroundsAfterSpace(s: string, r: string, lo: nat)
    requires |s| > 0 && IsSpace(s[0]) && Surrounds(s[1..], r, lo)
    ensures Surrounds(s, r, lo + 1)
  {
    var t := s[1..];
    assert r == s[lo + 1..lo + 1 + |r|];
    assert s[lo + 1 + |r|..] == t[lo + |r|..];
    assert s[..lo + 1] == [s[0]] + t[..lo];
  }

  /** One more whitespace character at the back leaves an infix at the start in place. */
  lemma SurroundsBeforeSpace(s: string, r: string)
    requires |s| > 0 && IsSpace(s[|s| - 1]) && Surrounds(s[..|s| - 1], r, 0)
    ensures Surrounds(s, r, 0)
  {
    var t := s[..|s| - 1];
    assert r == s[..|r|];
    forall k | 0 <= k < |s| - |r| ensures IsSpace(s[|r|..][k]) {
      if k < |t| - |r| {
        assert s[|r|..][k] == t[|r|..][k];
      }
    }
  }

  /** A string that starts and ends with a non-whitespace character strips to itself. */
  lemma StripTrimmed(s: string)
    requires |s| > 0 && !IsSpace(s[0]) && !IsSpace(s[|s| - 1])
    ensures Strip(s) == s
  {
  }

  /** The blank line the page puts between stored chunks and between uploaded texts. */
  const Separator: string := "\n\n"

  /** `sep.join(xs)`. */
  function Join(sep: string, xs: seq<string>): string
  {
    if |xs| == 0 then []
    else if |xs| == 1 then xs[0]
    else Join(sep, xs[..|xs| - 1]) + sep + xs[|xs| - 1]
  }

  /** Sum of the lengths of the strings in `xs`. */
  function TotalLength(xs: seq<string>): nat
  {
    if |xs| == 0 then 0 else TotalLength(xs[..|xs| - 1]) + |xs[|xs| - 1]|
  }

  /** Joining one more string after a non-empty list puts one separator before it. */
  lemma JoinSnoc(sep: string, xs: seq<string>, x: string)
    requires |xs| > 0
    ensures Join(sep, xs + [x]) == Join(sep, xs) + sep + x
  {
    assert (xs + [x])[..|xs|] == xs;
  }

  /** The joined string holds every element once and one separator between neighbours. */
  lemma {:induction false} JoinLength(sep: string, xs: seq<string>)
    requires |xs| > 0
    ensures |Join(sep, xs)| == TotalLength(xs) + |sep| * (|xs| - 1)
  {
    if |xs| > 1 {
      JoinLength(sep, xs[..|xs| - 1]);
      assert |sep| * (|xs| - 1) == |sep| * (|xs| - 2) + |sep|;
    }
  }

  /** The joined string starts with the first element. */
  lemma {:induction false} JoinStartsWithFirst(sep: string, xs: seq<string>)
    requires |xs| > 0
    ensures xs[0] <= Join(sep, xs)
  {
    if |xs| > 1 {
      JoinStartsWithFirst(sep, xs[..|xs| - 1]);
    }
  }
}
