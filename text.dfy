/** The pieces of Python's `str` API that the parser relies on: `isspace`,
    `lstrip`/`rstrip`, `find`/`rfind` of one character, and `split`. */
module Text {

  /** `str.isspace` restricted to ASCII: tab, line feed, vertical tab, form
      feed, carriage return, the separators 0x1C-0x1F, and the space. */
  predicate IsSpace(c: char)
  {
    c == ' ' || ('\t' <= c <= '\r') || ('\U{1C}' <= c <= '\U{1F}')
  }

  predicate AllSpace(s: string)
  {
    forall i :: 0 <= i < |s| ==> IsSpace(s[i])
  }

  /** `s.lstrip()`: the longest suffix of `s` that does not start with
      whitespace (`LStripSlice` states that it is a suffix). */
  function LStrip(s: string): (r: string)
    ensures |r| <= |s|
    ensures r == [] || !IsSpace(r[0])
  {
    if s != [] && IsSpace(s[0]) then LStrip(s[1..]) else s
  }

  /** `s.rstrip()`: the longest prefix of `s` that does not end with
      whitespace (`RStripSlice` states that it is a prefix). */
  function RStrip(s: string): (r: string)
    ensures |r| <= |s|
    ensures r == [] || !IsSpace(r[|r| - 1])
  {
    if s != [] && IsSpace(s[|s| - 1]) then RStrip(s[..|s| - 1]) else s
  }

  /** `lstrip` removes a whitespace prefix and keeps the rest. */
  lemma {:induction false} LStripSlice(s: string)
    ensures var r := LStrip(s); r == s[|s| - |r|..] && AllSpace(s[..|s| - |r|])
    decreases |s|
  {
    if s != [] && IsSpace(s[0]) {
      var r := LStrip(s[1..]);
      LStripSlice(s[1..]);
      assert s[1..][|s| - 1 - |r|..] == s[|s| - |r|..];
      assert s[..|s| - |r|] == [s[0]] + s[1..][..|s| - 1 - |r|];
    }
  }

  /** `rstrip` removes a whitespace suffix and keeps the rest. */
  lemma {:induction false} RStripSlice(s: string)
    ensures var r := RStrip(s); r == s[..|r|] && AllSpace(s[|r|..])
    decreases |s|
  {
    if s != [] && IsSpace(s[|s| - 1]) {
      var r := RStrip(s[..|s| - 1]);
      RStripSlice(s[..|s| - 1]);
      assert s[..|s| - 1][..|r|] == s[..|r|];
      assert s[|r|..] == s[..|s| - 1][|r|..] + [s[|s| - 1]];
    }
  }

  /** `s.lstrip().rstrip()`. */
  function Strip(s: string): string
  {
    RStrip(LStrip(s))
  }

  /** `Strip` cuts whitespace off both ends and nothing else: the result is a
      slice of `s` whose ends are not whitespace and outside which there is
      only whitespace. */
  lemma StripSlice(s: string)
    ensures var r := Strip(s);
      exists i :: 0 <= i <= |s| - |r| && r == s[i..i + |r|]
        && AllSpace(s[..i]) && AllSpace(s[i + |r|..])
    ensures Strip(s) == [] || (!IsSpace(Strip(s)[0]) && !IsSpace(Strip(s)[|Strip(s)| - 1]))
  {
    var l := LStrip(s);
    var r := RStrip(l);
    var i := |s| - |l|;
    LStripSlice(s);
    RStripSlice(l);
    assert l == s[i..] && r == l[..|r|];
    assert r == s[i..i + |r|];
    assert s[i + |r|..] == l[|r|..];
    if r != [] {
      assert r[0] == l[0];
    }
    assert 0 <= i <= |s| - |r| && r == s[i..i + |r|] && AllSpace(s[..i]) && AllSpace(s[i + |r|..]);
  }

  /** Stripping leaves nothing exactly when the text is all whitespace. */
  lemma StripBlank(s: string)
    ensures Strip(s) == [] <==> AllSpace(s)
  {
    var l := LStrip(s);
    LStripSlice(s);
    RStripSlice(l);
    if RStrip(l) == [] {
      assert l == [] && s[..|s| - |l|] == s;
    }
  }

  /** `lstrip` removes exactly a whitespace prefix in front of a text that
      does not start with whitespace. */
  lemma {:induction false} LStripSpaces(a: string, t: string)
    requires AllSpace(a) && (t == [] || !IsSpace(t[0]))
    ensures LStrip(a + t) == t
    decreases |a|
  {
    if a != [] {
      assert (a + t)[1..] == a[1..] + t;
      LStripSpaces(a[1..], t);
    }
  }

  /** `rstrip` removes exactly a whitespace suffix after a text that does
      not end with whitespace. */
  lemma {:induction false} RStripSpaces(t: string, b: string)
    requires AllSpace(b) && (t == [] || !IsSpace(t[|t| - 1]))
    ensures RStrip(t + b) == t
    decreases |b|
  {
    if b != [] {
      assert (t + b)[..|t + b| - 1] == t + b[..|b| - 1];
      RStripSpaces(t, b[..|b| - 1]);
    }
  }

  /** Stripping whitespace padded around a trimmed text gives that text. */
  lemma StripPadding(a: string, t: string, b: string)
    requires AllSpace(a) && AllSpace(b)
    requires t != [] && !IsSpace(t[0]) && !IsSpace(t[|t| - 1])
    ensures Strip(a + t + b) == t
  {
    assert a + t + b == a + (t + b);
    LStripSpaces(a, t + b);
    RStripSpaces(t, b);
  }

  /** Stripping twice is stripping once. */
  lemma StripIdempotent(s: string)
    ensures Strip(Strip(s)) == Strip(s)
  {
    StripSlice(s);
    var r := Strip(s);
    if r != [] {
      assert LStrip(r) == r;
      assert RStrip(r) == r;
    }
  }

  /** `s.find(c, from)`: the first index at or after `from` holding `c`, or -1. */
  function IndexOf(s: string, c: char, from: nat): (r: int)
    ensures r == -1 || (from <= r < |s| && s[r] == c)
    ensures r == -1 ==> forall i :: from <= i < |s| ==> s[i] != c
    ensures r >= 0 ==> forall i :: from <= i < r ==> s[i] != c
    decreases |s| - from
  {
    if from >= |s| then -1
    else if s[from] == c then from
    else IndexOf(s, c, from + 1)
  }

  /** `s.rfind(c, 0, end)`: the last index below `end` holding `c`, or -1. */
  function LastIndexBefore(s: string, c: char, end: nat): (r: int)
    requires end <= |s|
    ensures -1 <= r < end
    ensures r >= 0 ==> s[r] == c
    ensures forall i :: r < i < end ==> s[i] != c
  {
    if end == 0 then -1
    else if s[end - 1] == c then end - 1
    else LastIndexBefore(s, c, end - 1)
  }

  /** Searching forwards from the end of `pre`, across text without `c`,
      finds the `c` that follows it. */
  lemma IndexOfAcross(pre: string, mid: string, c: char, post: string)
    requires c !in mid
    ensures IndexOf(pre + mid + [c] + post, c, |pre|) == |pre| + |mid|
  {
    var s := pre + mid + [c] + post;
    forall i | |pre| <= i < |pre| + |mid| ensures s[i] != c {
      assert s[i] == mid[i - |pre|] && mid[i - |pre|] in mid;
    }
    assert s[|pre| + |mid|] == c;
  }

  /** Searching backwards from the end of `pre + mid`, across text without
      `c`, finds the last character of `pre` when that is `c`, and nothing
      when `pre` is empty. */
  lemma LastIndexAcross(pre: string, mid: string, c: char, post: string)
    requires pre == [] || pre[|pre| - 1] == c
    requires c !in mid
    ensures LastIndexBefore(pre + mid + post, c, |pre| + |mid|) == |pre| - 1
  {
    var s := pre + mid + post;
    forall i | |pre| <= i < |pre| + |mid| ensures s[i] != c {
      assert s[i] == mid[i - |pre|] && mid[i - |pre|] in mid;
    }
    if pre != [] {
      assert s[|pre| - 1] == c;
    }
  }

  /** `s.split(sep)`: the pieces between the occurrences of `sep`. */
  function Split(s: string, sep: char): (parts: seq<string>)
    ensures |parts| >= 1
    ensures forall i :: 0 <= i < |parts| ==> sep !in parts[i]
    decreases |s|
  {
    var k := IndexOf(s, sep, 0);
    if k < 0 then [s] else [s[..k]] + Split(s[k + 1..], sep)
  }

  /** `sep.join(parts)`. */
  function Join(parts: seq<string>, sep: char): string
    requires |parts| >= 1
  {
    if |parts| == 1 then parts[0] else parts[0] + [sep] + Join(parts[1..], sep)
  }

  /** Splitting loses nothing: joining the pieces gives the text back. */
  lemma {:induction false} SplitJoin(s: string, sep: char)
    ensures Join(Split(s, sep), sep) == s
    decreases |s|
  {
    var k := IndexOf(s, sep, 0);
    if k >= 0 {
      var rest := Split(s[k + 1..], sep);
      SplitJoin(s[k + 1..], sep);
      assert ([s[..k]] + rest)[1..] == rest;
      assert Join(Split(s, sep), sep) == s[..k] + [sep] + Join(rest, sep);
      assert s == s[..k] + [sep] + s[k + 1..];
    }
  }

  /** There is one piece more than there are separators. */
  lemma {:induction false} SplitCount(s: string, sep: char)
    ensures |Split(s, sep)| == multiset(s)[sep] + 1
    decreases |s|
  {
    var k := IndexOf(s, sep, 0);
    if k < 0 {
      assert sep !in multiset(s);
    } else {
      SplitCount(s[k + 1..], sep);
      assert s == s[..k] + [sep] + s[k + 1..];
      assert sep !in multiset(s[..k]);
    }
  }
}
