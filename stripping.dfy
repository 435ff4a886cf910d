/** The lexical passes of `parse_c_struct`: comments, unused keywords and
    whitespace runs, each removed by a left-to-right scan. */
module Stripping {
  import opened Text

  // ---------------------------------------------------------------------
  // Lexical stripping (remove_comments, remove_keywords, remove_spaces)
  // ---------------------------------------------------------------------

  // The four regular expressions of the parser, each replaced by a scanner:
  // a line comment (`//` up to the end of the line), a non-greedy block
  // comment (slash-star up to the first star-slash, across lines), the
  // unused-keyword alternation, and a run of whitespace.
  datatype Pattern = LineComment | BlockComment | UnusedKeyword | Whitespace

  predicate StartsWith(s: string, prefix: string)
  {
    |prefix| <= |s| && s[..|prefix|] == prefix
  }

  /** Index of the first line feed at or after `from`, or the length of `s`:
      where a `.*` started at `from` stops (`.` does not match a line feed). */
  function LineEnd(s: string, from: nat): (e: nat)
    requires from <= |s|
    ensures from <= e <= |s|
    ensures e < |s| ==> s[e] == '\n'
    ensures forall i :: from <= i < e ==> s[i] != '\n'
  {
    var k := IndexOf(s, '\n', from);
    if k < 0 then |s| else k
  }

  /** First index `j >= from` where the two characters `a`, `b` start, or -1. */
  function IndexOfPair(s: string, a: char, b: char, from: nat): (r: int)
    ensures r == -1 || (from <= r && r + 1 < |s| && s[r] == a && s[r + 1] == b)
    ensures forall j :: from <= j && (r == -1 || j < r) && j + 1 < |s| ==> !(s[j] == a && s[j + 1] == b)
    decreases |s| - from
  {
    if from + 1 >= |s| then -1
    else if s[from] == a && s[from + 1] == b then from
    else IndexOfPair(s, a, b, from + 1)
  }

  /** Last index `j` with `lo <= j` and `j + 2 <= hi` where `a`, `b` start, or -1. */
  function LastIndexOfPair(s: string, a: char, b: char, lo: nat, hi: nat): (r: int)
    requires hi <= |s|
    ensures r == -1 || (lo <= r && r + 2 <= hi && s[r] == a && s[r + 1] == b)
    ensures forall j :: lo <= j && j + 2 <= hi && r < j ==> !(s[j] == a && s[j + 1] == b)
    decreases hi
  {
    if hi < lo + 2 then -1
    else if s[hi - 2] == a && s[hi - 1] == b then hi - 2
    else LastIndexOfPair(s, a, b, lo, hi - 1)
  }

  /** Length of the match of the unused-keyword pattern at the start of `s`
      (0 for none).  The keywords have no word boundaries, so they match
      inside identifiers; `__attribute__((.*))` extends greedily to the last
      `))` on the same line. */
  function KeywordLength(s: string): (n: nat)
    ensures n <= |s|
  {
    if StartsWith(s, "static") then 6
    else if StartsWith(s, "const") then 5
    else if StartsWith(s, "extern") then 6
    else if StartsWith(s, "inline") then 6
    else if StartsWith(s, "virtual") then 7
    else if StartsWith(s, "volatile") then 8
    else if StartsWith(s, "typedef") then 7
    else if StartsWith(s, "__attribute__((") then
      var j := LastIndexOfPair(s, ')', ')', 15, LineEnd(s, 15));
      if j < 0 then 0 else j + 2
    else 0
  }

  /** Length of the match of `p` at the start of `s`; 0 when there is none
      (no pattern matches the empty string). */
  function MatchLength(p: Pattern, s: string): (n: nat)
    ensures n <= |s|
  {
    match p
    case LineComment =>
      if StartsWith(s, "//") then LineEnd(s, 2) else 0
    case BlockComment =>
      if StartsWith(s, "/*") then
        var j := IndexOfPair(s, '*', '/', 2);
        if j < 0 then 0 else j + 2
      else 0
    case UnusedKeyword => KeywordLength(s)
    case Whitespace => |s| - |LStrip(s)|
  }

  /** What a match of `p` is replaced with. */
  function Replacement(p: Pattern): string
  {
    if p == Whitespace then " " else ""
  }

  /** `re.sub` for one pattern: scan left to right, replace each leftmost
      match and resume after it; characters where no match starts are kept. */
  function Substitute(p: Pattern, s: string): string
    decreases |s|
  {
    if s == [] then []
    else
      var n := MatchLength(p, s);
      if n > 0 then Replacement(p) + Substitute(p, s[n..])
      else [s[0]] + Substitute(p, s[1..])
  }

  /** No match of `p` starts anywhere in `s`. */
  predicate MatchesNowhere(p: Pattern, s: string)
  {
    forall i :: 0 <= i < |s| ==> MatchLength(p, s[i..]) == 0
  }

  /** Where no match starts, the first character is kept. */
  lemma SubstituteKeep(p: Pattern, s: string)
    requires s != [] && MatchLength(p, s) == 0
    ensures Substitute(p, s) == [s[0]] + Substitute(p, s[1..])
  {
  }

  /** A text where `p` matches nowhere: no match at its start, and none in
      the rest of it. */
  lemma MatchesNowhereTail(p: Pattern, s: string)
    requires s != [] && MatchesNowhere(p, s)
    ensures MatchLength(p, s) == 0 && MatchesNowhere(p, s[1..])
  {
    assert MatchLength(p, s[0..]) == 0;
    assert s[0..] == s;
    forall i | 0 <= i < |s[1..]| ensures MatchLength(p, s[1..][i..]) == 0 {
      assert s[1..][i..] == s[i + 1..];
    }
  }

  /** A pattern that matches nowhere leaves the text unchanged. */
  lemma {:induction false} SubstituteUnchanged(p: Pattern, s: string)
    requires MatchesNowhere(p, s)
    ensures Substitute(p, s) == s
    decreases |s|
  {
    if s != [] {
      MatchesNowhereTail(p, s);
      SubstituteUnchanged(p, s[1..]);
      SubstituteKeep(p, s);
      assert [s[0]] + s[1..] == s;
    }
  }

  /** `remove_comments`: line comments first, then block comments. */
  function RemoveComments(code: string): string
  {
    Substitute(BlockComment, Substitute(LineComment, code))
  }

  /** `remove_keywords`. */
  function RemoveKeywords(code: string): string
  {
    Substitute(UnusedKeyword, code)
  }

  /** `remove_spaces`. */
  function RemoveSpaces(code: string): string
  {
    Substitute(Whitespace, code)
  }

  /** No `//` occurs in `s`. */
  predicate NoLineComment(s: string)
  {
    forall i :: 0 <= i < |s| - 1 ==> !(s[i] == '/' && s[i + 1] == '/')
  }

  /** The first character left by line-comment removal is a line feed (the
      one ending a removed comment) or the first character of the input. */
  lemma LineStripHead(s: string)
    ensures var r := Substitute(LineComment, s);
      r == [] || r[0] == '\n' || (MatchLength(LineComment, s) == 0 && r[0] == s[0])
  {
    if s != [] && MatchLength(LineComment, s) > 0 {
      var n := MatchLength(LineComment, s);
      if s[n..] != [] {
        assert s[n..][0] == '\n';
        assert !StartsWith(s[n..], "//");
      }
    }
  }

  /** Removing line comments leaves no `//` behind. */
  lemma {:induction false} LineStripNoComment(s: string)
    ensures NoLineComment(Substitute(LineComment, s))
    decreases |s|
  {
    if s != [] {
      var n := MatchLength(LineComment, s);
      if n > 0 {
        LineStripNoComment(s[n..]);
      } else {
        LineStripNoComment(s[1..]);
        LineStripHead(s[1..]);
        var r := Substitute(LineComment, s);
        var t := Substitute(LineComment, s[1..]);
        assert r == [s[0]] + t;
        if s[0] == '/' && |s| >= 2 {
          assert s[..2] != "//";
          assert s[1] != '/';
          assert t != [] ==> t[0] != '/';
        }
        forall i | 0 <= i < |r| - 1 ensures !(r[i] == '/' && r[i + 1] == '/') {
          if i > 0 { assert r[i] == t[i - 1] && r[i + 1] == t[i]; }
        }
      }
    }
  }

  /** Line-comment removal is idempotent. */
  lemma LineStripIdempotent(s: string)
    ensures Substitute(LineComment, Substitute(LineComment, s)) == Substitute(LineComment, s)
  {
    var r := Substitute(LineComment, s);
    LineStripNoComment(s);
    forall i | 0 <= i < |r| ensures MatchLength(LineComment, r[i..]) == 0 {
      if i + 1 < |r| { assert r[i..][0] == r[i] && r[i..][1] == r[i + 1]; }
    }
    SubstituteUnchanged(LineComment, r);
  }

  /** Whitespace only as single spaces, never two in a row. */
  predicate Collapsed(s: string)
    decreases |s|
  {
    s == [] ||
    ((IsSpace(s[0]) ==> s[0] == ' ' && (|s| == 1 || !IsSpace(s[1]))) && Collapsed(s[1..]))
  }

  /** One step of whitespace collapsing, by the first character. */
  lemma WhitespaceStep(s: string)
    requires s != []
    ensures IsSpace(s[0]) ==> Substitute(Whitespace, s) == " " + Substitute(Whitespace, LStrip(s))
    ensures !IsSpace(s[0]) ==> Substitute(Whitespace, s) == [s[0]] + Substitute(Whitespace, s[1..])
  {
  }

  /** After `remove_spaces` every whitespace run is a single space; the
      result starts with whitespace exactly when the input does. */
  lemma {:induction false} RemoveSpacesCollapses(s: string)
    ensures Collapsed(RemoveSpaces(s))
    ensures s != [] ==> RemoveSpaces(s) != [] && (IsSpace(RemoveSpaces(s)[0]) <==> IsSpace(s[0]))
    decreases |s|
  {
    if s != [] {
      var t := if IsSpace(s[0]) then LStrip(s) else s[1..];
      RemoveSpacesCollapses(t);
      var c := if IsSpace(s[0]) then ' ' else s[0];
      CollapsedCons(c, RemoveSpaces(t));
      WhitespaceStep(s);
      assert RemoveSpaces(s) == [c] + RemoveSpaces(t);
    }
  }

  /** A character in front of collapsed text keeps it collapsed when it is
      a space followed by no whitespace, or not whitespace at all. */
  lemma CollapsedCons(c: char, t: string)
    requires Collapsed(t) && (IsSpace(c) ==> c == ' ' && (t == [] || !IsSpace(t[0])))
    ensures Collapsed([c] + t)
  {
    assert ([c] + t)[1..] == t;
  }

  /** Collapsed text is left as it is. */
  lemma {:induction false} CollapsedUnchanged(s: string)
    requires Collapsed(s)
    ensures RemoveSpaces(s) == s
    decreases |s|
  {
    if s != [] {
      var t := s[1..];
      CollapsedUnchanged(t);
      WhitespaceStep(s);
      if IsSpace(s[0]) {
        assert t == [] || !IsSpace(t[0]);
        assert LStrip(s) == LStrip(t) == t;
        assert RemoveSpaces(s) == " " + t;
      } else {
        assert RemoveSpaces(s) == [s[0]] + t;
      }
      assert s == [s[0]] + t;
    }
  }

  /** `remove_spaces` is idempotent. */
  lemma RemoveSpacesIdempotent(s: string)
    ensures RemoveSpaces(RemoveSpaces(s)) == RemoveSpaces(s)
  {
    RemoveSpacesCollapses(s);
    CollapsedUnchanged(RemoveSpaces(s));
  }

  // ---------------------------------------------------------------------
  // What each pass removes, and in which order
  // ---------------------------------------------------------------------

  /** A character at which a match of `p` can start. */
  predicate CanStart(p: Pattern, c: char)
  {
    match p
    case LineComment => c == '/'
    case BlockComment => c == '/'
    case UnusedKeyword => c in "scetiv_"
    case Whitespace => IsSpace(c)
  }

  /** No keyword starts with a character outside "scetiv_". */
  lemma KeywordNoStart(c: char, b: string)
    requires c !in "scetiv_"
    ensures KeywordLength([c] + b) == 0
  {
    var s := [c] + b;
    assert s[0] == c;
    assert !StartsWith(s, "static") && !StartsWith(s, "const") && !StartsWith(s, "extern");
    assert !StartsWith(s, "inline") && !StartsWith(s, "virtual") && !StartsWith(s, "volatile");
    assert !StartsWith(s, "typedef") && !StartsWith(s, "__attribute__((");
  }

  /** No match starts at a character that cannot start one. */
  lemma NoStartNoMatch(p: Pattern, c: char, b: string)
    requires !CanStart(p, c)
    ensures MatchLength(p, [c] + b) == 0
  {
    if p == UnusedKeyword {
      KeywordNoStart(c, b);
    } else {
      assert ([c] + b)[0] == c;
    }
  }

  /** A prefix in which no match can start is copied unchanged. */
  lemma {:induction false} SubstitutePlain(p: Pattern, a: string, b: string)
    requires forall i :: 0 <= i < |a| ==> !CanStart(p, a[i])
    ensures Substitute(p, a + b) == a + Substitute(p, b)
    decreases |a|
  {
    if a != [] {
      var t := Substitute(p, b);
      ConsSplit(a, b);
      ConsSplit(a, t);
      NoStartNoMatch(p, a[0], a[1..] + b);
      KeepChar(p, a[0], a[1..] + b);
      SubstitutePlain(p, a[1..], b);
    } else {
      assert a + b == b;
    }
  }

  /** A non-empty sequence is its head followed by its tail. */
  lemma ConsSplit<T>(a: seq<T>, b: seq<T>)
    requires a != []
    ensures a + b == [a[0]] + (a[1..] + b)
  {
  }

  /** A character where no match starts is kept. */
  lemma KeepChar(p: Pattern, c: char, b: string)
    requires MatchLength(p, [c] + b) == 0
    ensures Substitute(p, [c] + b) == [c] + Substitute(p, b)
  {
    SubstituteKeep(p, [c] + b);
    assert ([c] + b)[1..] == b;
  }

  /** A `/` that does not start `//` survives the line-comment pass. */
  lemma SlashKept(b: string)
    requires b == [] || b[0] != '/'
    ensures Substitute(LineComment, ['/'] + b) == ['/'] + Substitute(LineComment, b)
  {
    var s := ['/'] + b;
    assert |s| >= 2 ==> s[1] == b[0];
    assert !StartsWith(s, "//");
    KeepChar(LineComment, '/', b);
  }

  /** The first occurrence of the pair `a`, `b` is at `k` when no `b`
      occurs after `from` before `k + 1`. */
  lemma {:induction false} IndexOfPairAt(s: string, a: char, b: char, from: nat, k: nat)
    requires from <= k && k + 1 < |s| && s[k] == a && s[k + 1] == b
    requires forall j :: from < j <= k ==> s[j] != b
    ensures IndexOfPair(s, a, b, from) == k
    decreases k - from
  {
    if from < k {
      IndexOfPairAt(s, a, b, from + 1, k);
    }
  }

  /** The line-comment pass leaves text without `/` as it is. */
  lemma NoSlashLinePass(s: string)
    requires '/' !in s
    ensures Substitute(LineComment, s) == s
  {
    SubstitutePlain(LineComment, s, "");
    assert s + "" == s;
  }

  /** The block-comment pass leaves text without `/` as it is. */
  lemma NoSlashBlockPass(s: string)
    requires '/' !in s
    ensures Substitute(BlockComment, s) == s
  {
    SubstitutePlain(BlockComment, s, "");
    assert s + "" == s;
  }

  /** A block comment with no `/` inside is left alone by the line pass. */
  lemma LinePassKeepsBlock(body: string, post: string)
    requires '/' !in body && '/' !in post
    ensures Substitute(LineComment, "/*" + body + "*/" + post) == "/*" + body + "*/" + post
  {
    var tail := ['*'] + body + ['*'];
    assert "/*" + body + "*/" + post == ['/'] + (tail + (['/'] + post));
    NoSlashLinePass(post);
    SlashKept(post);
    SubstitutePlain(LineComment, tail, ['/'] + post);
    SlashKept(tail + (['/'] + post));
  }

  /** The block pass removes a comment with no `/` inside. */
  lemma BlockPassRemoves(body: string, post: string)
    requires '/' !in body && '/' !in post
    ensures Substitute(BlockComment, "/*" + body + "*/" + post) == post
  {
    var rest := "/*" + body + "*/" + post;
    forall j | 2 < j <= 2 + |body| ensures rest[j] != '/' {
      if j < 2 + |body| {
        assert rest[j] == body[j - 2];
      }
    }
    IndexOfPairAt(rest, '*', '/', 2, 2 + |body|);
    assert MatchLength(BlockComment, rest) == |body| + 4;
    assert rest[|body| + 4..] == post;
    NoSlashBlockPass(post);
  }

  /** A block comment between text without `/` is removed. */
  lemma BlockCommentRemoved(pre: string, body: string, post: string)
    requires '/' !in pre && '/' !in body && '/' !in post
    ensures RemoveComments(pre + "/*" + body + "*/" + post) == pre + post
  {
    var rest := "/*" + body + "*/" + post;
    assert pre + "/*" + body + "*/" + post == pre + rest;
    LinePassKeepsBlock(body, post);
    SubstitutePlain(LineComment, pre, rest);
    BlockPassRemoves(body, post);
    SubstitutePlain(BlockComment, pre, rest);
  }

  /** A line comment runs up to, not including, the next line feed. */
  lemma LineCommentLength(text: string, post: string)
    requires '\n' !in text && (post == [] || post[0] == '\n')
    ensures MatchLength(LineComment, "//" + text + post) == 2 + |text|
  {
    var s := "//" + text + post;
    assert StartsWith(s, "//");
    forall i | 2 <= i < 2 + |text| ensures s[i] != '\n' {
      assert s[i] == text[i - 2];
    }
    if post != [] {
      assert s[2 + |text|] == '\n';
    }
  }

  /** The line pass removes a comment up to the line feed. */
  lemma LinePassRemoves(text: string, post: string)
    requires '\n' !in text && '/' !in post
    requires post == [] || post[0] == '\n'
    ensures Substitute(LineComment, "//" + text + post) == post
  {
    var rest := "//" + text + post;
    LineCommentLength(text, post);
    assert rest[2 + |text|..] == post;
    NoSlashLinePass(post);
  }

  /** A line comment after text without `/` is removed up to the line
      feed, which stays, whatever the comment holds. */
  lemma LineCommentRemoved(pre: string, text: string, post: string)
    requires '/' !in pre && '\n' !in text && '/' !in post
    requires post == [] || post[0] == '\n'
    ensures RemoveComments(pre + "//" + text + post) == pre + post
  {
    var rest := "//" + text + post;
    assert pre + "//" + text + post == pre + rest;
    LinePassRemoves(text, post);
    SubstitutePlain(LineComment, pre, rest);
    NoSlashBlockPass(pre + post);
  }

  /** Without a closing star-slash the block pass keeps the opening. */
  lemma BlockPassUnterminated(body: string)
    requires '/' !in body
    ensures Substitute(BlockComment, "/*" + body) == "/*" + body
  {
    assert "/*" + body == ['/'] + (['*'] + body);
    KeepChar(BlockComment, '/', ['*'] + body);
    NoSlashBlockPass(['*'] + body);
  }

  /** An unterminated block comment stays. */
  lemma UnterminatedBlockStays(pre: string, body: string)
    requires '/' !in pre && '/' !in body
    ensures RemoveComments(pre + "/*" + body) == pre + "/*" + body
  {
    var rest := "/*" + body;
    assert pre + "/*" + body == pre + rest;
    assert rest == ['/'] + (['*'] + body);
    NoSlashLinePass(['*'] + body);
    SlashKept(['*'] + body);
    SubstitutePlain(LineComment, pre, rest);
    BlockPassUnterminated(body);
    SubstitutePlain(BlockComment, pre, rest);
  }

  /** A line comment that runs to the end of the text leaves nothing. */
  lemma LineCommentToEnd(text: string)
    requires '\n' !in text
    ensures Substitute(LineComment, "//" + text) == []
  {
    assert "//" + text == "//" + text + [];
    LinePassRemoves(text, []);
  }

  /** The line pass cuts a block comment at a `//` inside it. */
  lemma LinePassCuts(x: string, y: string)
    requires '/' !in x && '\n' !in y
    ensures Substitute(LineComment, "/*" + x + "//" + y) == "/*" + x
  {
    var tail := ['*'] + x;
    var comment := "//" + y;
    var u := tail + comment;
    assert Substitute(LineComment, u) == tail by {
      LineCommentToEnd(y);
      SubstitutePlain(LineComment, tail, comment);
      assert tail + [] == tail;
    }
    assert Substitute(LineComment, ['/'] + u) == ['/'] + tail by {
      SlashKept(u);
    }
    SlashSplit(x, y);
  }

  lemma SlashSplit(x: string, y: string)
    ensures "/*" + x + "//" + y == ['/'] + ((['*'] + x) + ("//" + y))
    ensures "/*" + x == ['/'] + (['*'] + x)
  {
  }

  /** Line comments go first: a `//` inside a block comment cuts the rest
      of its line, closing star-slash included, and what remains of the
      block comment is unterminated and stays. */
  lemma LineCommentInsideBlock(pre: string, x: string, y: string)
    requires '/' !in pre && '/' !in x && '\n' !in y
    ensures RemoveComments(pre + "/*" + x + "//" + y) == pre + "/*" + x
  {
    var rest := "/*" + x + "//" + y;
    var kept := "/*" + x;
    assert pre + "/*" + x + "//" + y == pre + rest && pre + "/*" + x == pre + kept;
    assert Substitute(LineComment, pre + rest) == pre + kept by {
      LinePassCuts(x, y);
      SubstitutePlain(LineComment, pre, rest);
    }
    assert Substitute(BlockComment, pre + kept) == pre + kept by {
      BlockPassUnterminated(x);
      SubstitutePlain(BlockComment, pre, kept);
    }
  }

  /** A keyword is removed wherever it occurs, even inside an identifier. */
  lemma KeywordRemoved(pre: string, kw: string, post: string)
    requires kw in ["static", "const", "extern", "inline", "virtual", "volatile", "typedef"]
    requires forall i :: 0 <= i < |pre| ==> !CanStart(UnusedKeyword, pre[i])
    requires forall i :: 0 <= i < |post| ==> !CanStart(UnusedKeyword, post[i])
    ensures RemoveKeywords(pre + kw + post) == pre + post
  {
    var rest := kw + post;
    assert pre + kw + post == pre + rest;
    assert Substitute(UnusedKeyword, rest) == post by {
      KeywordAt(kw, post);
      assert rest[|kw|..] == post;
      SubstitutePlain(UnusedKeyword, post, []);
      assert post + [] == post;
    }
    SubstitutePlain(UnusedKeyword, pre, rest);
  }

  /** Each plain keyword matches exactly itself. */
  lemma KeywordAt(kw: string, post: string)
    requires kw in ["static", "const", "extern", "inline", "virtual", "volatile", "typedef"]
    ensures KeywordLength(kw + post) == |kw|
  {
    var s := kw + post;
    assert s[..|kw|] == kw;
    assert s[0] == kw[0] && s[1] == kw[1];
  }

  /** A whitespace run between text without whitespace becomes one space. */
  lemma SpaceRunCollapsed(pre: string, w: string, post: string)
    requires w != [] && AllSpace(w)
    requires forall i :: 0 <= i < |pre| ==> !IsSpace(pre[i])
    requires forall i :: 0 <= i < |post| ==> !IsSpace(post[i])
    ensures RemoveSpaces(pre + w + post) == pre + " " + post
  {
    var rest := w + post;
    assert pre + w + post == pre + rest;
    assert Substitute(Whitespace, rest) == " " + post by {
      LStripSpaces(w, post);
      assert rest[|w|..] == post;
      SubstitutePlain(Whitespace, post, []);
      assert post + [] == post;
    }
    SubstitutePlain(Whitespace, pre, rest);
  }

  // ---------------------------------------------------------------------
  // Composing the passes piece by piece
  // ---------------------------------------------------------------------

  /** A prefix at none of whose positions a match starts (the match may
      reach into what follows) is copied unchanged. */
  lemma {:induction false} SubstituteSkip(p: Pattern, a: string, b: string)
    requires forall i :: 0 <= i < |a| ==> MatchLength(p, (a + b)[i..]) == 0
    ensures Substitute(p, a + b) == a + Substitute(p, b)
    decreases |a|
  {
    if a != [] {
      SkipFirst(p, a, b);
      SubstituteSkip(p, a[1..], b);
      ConsSplit(a, Substitute(p, b));
    } else {
      assert a + b == b;
    }
  }

  /** One step of `SubstituteSkip`: the first character is kept, and no
      match starts in the rest of the prefix either. */
  lemma SkipFirst(p: Pattern, a: string, b: string)
    requires a != []
    requires forall i :: 0 <= i < |a| ==> MatchLength(p, (a + b)[i..]) == 0
    ensures Substitute(p, a + b) == [a[0]] + Substitute(p, a[1..] + b)
    ensures forall i :: 0 <= i < |a[1..]| ==> MatchLength(p, (a[1..] + b)[i..]) == 0
  {
    var s := a + b;
    assert s[0..] == s;
    SubstituteKeep(p, s);
    assert s[1..] == a[1..] + b;
    forall i | 0 <= i < |a[1..]| ensures MatchLength(p, (a[1..] + b)[i..]) == 0 {
      assert (a[1..] + b)[i..] == s[i + 1..];
    }
  }

  /** No `//` starts at a position of `a`, including one whose second
      slash is the first character of `b`. */
  predicate NoDoubleSlash(a: string, b: string)
  {
    forall i :: 0 <= i < |a| && (a + b)[i] == '/' && i + 1 < |a + b| ==> (a + b)[i + 1] != '/'
  }

  /** The line pass copies a prefix in which no `//` starts. */
  lemma LinePassSkips(a: string, b: string)
    requires NoDoubleSlash(a, b)
    ensures Substitute(LineComment, a + b) == a + Substitute(LineComment, b)
  {
    var s := a + b;
    forall i | 0 <= i < |a| ensures MatchLength(LineComment, s[i..]) == 0 {
      StartsWithHead(s[i..], "//");
      if |s[i..]| >= 2 {
        assert s[i..][1] == s[i + 1];
      }
    }
    SubstituteSkip(LineComment, a, b);
  }

  /** A text starts with a non-empty prefix only if its first two
      characters are the prefix's. */
  lemma StartsWithHead(t: string, k: string)
    requires |k| >= 2
    ensures StartsWith(t, k) ==> t[0] == k[0] && t[1] == k[1]
  {
    if StartsWith(t, k) {
      assert t[..|k|][0] == t[0] && t[..|k|][1] == t[1];
    }
  }

  /** A block comment body that neither closes the comment early (no
      star-slash) nor holds a `//` the line pass would cut at. */
  predicate PlainBody(body: string)
  {
    forall j :: 0 <= j < |body| - 1 ==>
      !(body[j] == '*' && body[j + 1] == '/') && !(body[j] == '/' && body[j + 1] == '/')
  }

  /** A body with one `/` that does not follow a star is plain. */
  lemma SlashBody(x: string, y: string)
    requires '/' !in x && '/' !in y && (x == [] || x[|x| - 1] != '*')
    ensures PlainBody(x + "/" + y)
  {
    var body := x + "/" + y;
    forall j | 0 <= j < |body| - 1
      ensures !(body[j] == '*' && body[j + 1] == '/') && !(body[j] == '/' && body[j + 1] == '/')
    {
      if j + 1 < |x| {
        assert body[j + 1] == x[j + 1];
      } else if j + 1 == |x| {
        assert body[j] == x[j];
      } else {
        assert body[j + 1] == y[j - |x|];
      }
    }
  }

  /** The first occurrence of the pair `a`, `b` is at `k` when it occurs at
      none of the positions from `from` up to `k`. */
  lemma {:induction false} IndexOfPairFirst(s: string, a: char, b: char, from: nat, k: nat)
    requires from <= k && k + 1 < |s| && s[k] == a && s[k + 1] == b
    requires forall j :: from <= j < k ==> !(s[j] == a && s[j + 1] == b)
    ensures IndexOfPair(s, a, b, from) == k
    decreases k - from
  {
    if from < k {
      IndexOfPairFirst(s, a, b, from + 1, k);
    }
  }

  /** The line pass keeps a block comment with a plain body and resumes
      after it. */
  lemma LinePassOverBlock(body: string, post: string)
    requires PlainBody(body) && (post == [] || post[0] != '/')
    ensures Substitute(LineComment, "/*" + body + "*/" + post)
         == "/*" + body + "*" + (['/'] + Substitute(LineComment, post))
  {
    var a := "/*" + body + "*";
    var b := ['/'] + post;
    assert "/*" + body + "*/" + post == a + b;
    var s := a + b;
    forall i | 0 <= i < |a| && s[i] == '/' && i + 1 < |s| ensures s[i + 1] != '/' {
      if i == 0 {
        assert s[1] == '*';
      } else if 2 <= i < 1 + |body| {
        assert s[i] == body[i - 2] && s[i + 1] == body[i - 1];
      } else if i == 1 + |body| && i >= 2 {
        assert s[i + 1] == '*';
      }
    }
    LinePassSkips(a, b);
    SlashKept(post);
  }

  /** The block pass removes a comment with a plain body and resumes after
      it. */
  lemma BlockPassOverBlock(body: string, post: string)
    requires PlainBody(body)
    ensures Substitute(BlockComment, "/*" + body + "*/" + post) == Substitute(BlockComment, post)
  {
    var s := "/*" + body + "*/" + post;
    assert s == "/*" + body + "*" + (['/'] + post);
    forall j | 2 <= j < 2 + |body| ensures !(s[j] == '*' && s[j + 1] == '/') {
      if j + 1 < 2 + |body| {
        assert s[j] == body[j - 2] && s[j + 1] == body[j - 1];
      } else {
        assert s[j + 1] == '*';
      }
    }
    IndexOfPairFirst(s, '*', '/', 2, 2 + |body|);
    assert s[..2] == "/*";
    assert MatchLength(BlockComment, s) == |body| + 4;
    assert s[|body| + 4..] == post;
  }

  /** A block comment whose body is plain, after text without `/` and
      before text that does not start with `/`, is removed together with
      its delimiters; the passes then go on with what follows. */
  lemma BlockCommentThen(pre: string, body: string, post: string)
    requires '/' !in pre && PlainBody(body) && (post == [] || post[0] != '/')
    ensures RemoveComments(pre + "/*" + body + "*/" + post) == pre + RemoveComments(post)
  {
    var x := Substitute(LineComment, post);
    LinePassThenBlock(pre, body, post);
    BlockPassThenBlock(pre, body, x);
  }

  /** The line pass over a block comment after text without `/`. */
  lemma LinePassThenBlock(pre: string, body: string, post: string)
    requires '/' !in pre && PlainBody(body) && (post == [] || post[0] != '/')
    ensures Substitute(LineComment, pre + "/*" + body + "*/" + post)
         == pre + "/*" + body + "*/" + Substitute(LineComment, post)
  {
    var rest := "/*" + body + "*/" + post;
    var x := Substitute(LineComment, post);
    Regroup(pre, body, post);
    LinePassOverBlock(body, post);
    SubstitutePlain(LineComment, pre, rest);
    Regroup(pre, body, x);
  }

  lemma Regroup(pre: string, body: string, post: string)
    ensures pre + "/*" + body + "*/" + post == pre + ("/*" + body + "*/" + post)
    ensures "/*" + body + "*" + (['/'] + post) == "/*" + body + "*/" + post
  {
  }

  /** The block pass over a block comment after text without `/`. */
  lemma BlockPassThenBlock(pre: string, body: string, x: string)
    requires '/' !in pre && PlainBody(body)
    ensures Substitute(BlockComment, pre + "/*" + body + "*/" + x) == pre + Substitute(BlockComment, x)
  {
    var kept := "/*" + body + "*/" + x;
    assert pre + "/*" + body + "*/" + x == pre + kept;
    BlockPassOverBlock(body, x);
    SubstitutePlain(BlockComment, pre, kept);
  }

  /** Text without `/` is left alone by comment removal. */
  lemma NoSlashNoComment(s: string)
    requires '/' !in s
    ensures RemoveComments(s) == s
  {
    NoSlashLinePass(s);
    NoSlashBlockPass(s);
  }

  /** Whether `k` occurs in `s` at index `i`, compared from its `j`-th
      character on. */
  predicate OccursAt(s: string, i: nat, k: string, j: nat)
    decreases |k| - j
  {
    j >= |k| || (i + j < |s| && s[i + j] == k[j] && OccursAt(s, i, k, j + 1))
  }

  lemma {:induction false} OccursAtSlice(s: string, i: nat, k: string, j: nat)
    requires j <= |k|
    ensures OccursAt(s, i, k, j) <==> j == |k| || (i + |k| <= |s| && s[i + j..i + |k|] == k[j..])
    decreases |k| - j
  {
    if j < |k| {
      OccursAtSlice(s, i, k, j + 1);
      if i + |k| <= |s| {
        assert s[i + j..i + |k|] == [s[i + j]] + s[i + j + 1..i + |k|];
        assert k[j..] == [k[j]] + k[j + 1..];
      }
    }
  }

  /** `OccursAt` is `StartsWith` on the suffix from `i`. */
  lemma OccursAtStart(s: string, i: nat, k: string)
    requires i <= |s|
    ensures StartsWith(s[i..], k) <==> OccursAt(s, i, k, 0)
  {
    OccursAtSlice(s, i, k, 0);
    if i + |k| <= |s| {
      assert s[i..][..|k|] == s[i..i + |k|];
    }
  }

  /** No unused keyword starts at index `i` of `s`; only the keywords that
      begin with the character at `i` are compared. */
  predicate NoKeywordAt(s: string, i: nat)
  {
    if i >= |s| then true
    else if s[i] == 's' then !OccursAt(s, i, "static", 0)
    else if s[i] == 'c' then !OccursAt(s, i, "const", 0)
    else if s[i] == 'e' then !OccursAt(s, i, "extern", 0)
    else if s[i] == 'i' then !OccursAt(s, i, "inline", 0)
    else if s[i] == 'v' then !OccursAt(s, i, "virtual", 0) && !OccursAt(s, i, "volatile", 0)
    else if s[i] == 't' then !OccursAt(s, i, "typedef", 0)
    else if s[i] == '_' then !OccursAt(s, i, "__attribute__((", 0)
    else true
  }

  /** No unused keyword starts at an index from `lo` up to `hi`. */
  predicate NoKeywordIn(s: string, lo: nat, hi: nat)
    decreases hi - lo
  {
    lo >= hi || (NoKeywordAt(s, lo) && NoKeywordIn(s, lo + 1, hi))
  }

  lemma {:induction false} NoKeywordInAll(s: string, lo: nat, hi: nat)
    ensures NoKeywordIn(s, lo, hi) <==> forall i :: lo <= i < hi ==> NoKeywordAt(s, i)
    decreases hi - lo
  {
    if lo < hi {
      NoKeywordInAll(s, lo + 1, hi);
    }
  }

  /** A keyword starts at `i` only where its first character is, and
      `OccursAt` says when. */
  lemma KeywordAtIndex(s: string, i: nat, k: string)
    requires i <= |s| && |k| >= 2
    ensures StartsWith(s[i..], k) ==> i < |s| && s[i] == k[0] && OccursAt(s, i, k, 0)
  {
    OccursAtStart(s, i, k);
    StartsWithHead(s[i..], k);
  }

  /** Where no keyword occurs, the keyword pattern does not match. */
  lemma NoKeywordNoMatch(s: string, i: nat)
    requires i <= |s| && NoKeywordAt(s, i)
    ensures KeywordLength(s[i..]) == 0
  {
    KeywordAtIndex(s, i, "static");
    KeywordAtIndex(s, i, "const");
    KeywordAtIndex(s, i, "extern");
    KeywordAtIndex(s, i, "inline");
    KeywordAtIndex(s, i, "virtual");
    KeywordAtIndex(s, i, "volatile");
    KeywordAtIndex(s, i, "typedef");
    KeywordAtIndex(s, i, "__attribute__((");
  }

  /** A prefix in which no keyword starts (a keyword may not begin in it
      and reach past it either) is copied by `remove_keywords`. */
  lemma KeywordFreePrefix(a: string, b: string)
    requires NoKeywordIn(a + b, 0, |a|)
    ensures RemoveKeywords(a + b) == a + RemoveKeywords(b)
  {
    NoKeywordInAll(a + b, 0, |a|);
    forall i | 0 <= i < |a| ensures MatchLength(UnusedKeyword, (a + b)[i..]) == 0 {
      NoKeywordNoMatch(a + b, i);
    }
    SubstituteSkip(UnusedKeyword, a, b);
  }

  /** Text in which no keyword starts is left alone by `remove_keywords`. */
  lemma KeywordFreeText(a: string)
    requires NoKeywordIn(a, 0, |a|)
    ensures RemoveKeywords(a) == a
  {
    var e: string := [];
    assert a + e == a;
    KeywordFreePrefix(a, e);
  }

  /** A keyword that reaches into the next text runs over the last
      character of the prefix; if that is a space, none can. */
  lemma {:induction false} OccursBefore(a: string, b: string, i: nat, k: string, j: nat)
    requires a != [] && a[|a| - 1] == ' ' && ' ' !in k
    requires j >= |k| || i + j < |a|
    requires OccursAt(a + b, i, k, j)
    ensures OccursAt(a, i, k, j)
    decreases |k| - j
  {
    if j < |k| {
      assert (a + b)[i + j] == a[i + j] == k[j];
      assert k[j] in k;
      if j + 1 < |k| {
        assert i + j != |a| - 1;
      }
      OccursBefore(a, b, i, k, j + 1);
    }
  }

  /** An occurrence of a keyword at an index of a space-ended prefix lies
      within the prefix. */
  lemma KeywordBefore(a: string, b: string, i: nat, k: string)
    requires a != [] && a[|a| - 1] == ' ' && ' ' !in k && i < |a|
    ensures OccursAt(a + b, i, k, 0) ==> OccursAt(a, i, k, 0)
  {
    if OccursAt(a + b, i, k, 0) {
      OccursBefore(a, b, i, k, 0);
    }
  }

  /** A keyword-free text that ends in a space stays keyword-free whatever
      follows it. */
  lemma SpaceEndedKeywordFree(a: string, b: string)
    requires NoKeywordIn(a, 0, |a|) && a != [] && a[|a| - 1] == ' '
    ensures NoKeywordIn(a + b, 0, |a|)
  {
    NoKeywordInAll(a, 0, |a|);
    forall i | 0 <= i < |a| ensures NoKeywordAt(a + b, i) {
      assert (a + b)[i] == a[i];
      assert NoKeywordAt(a, i);
      KeywordBefore(a, b, i, "static");
      KeywordBefore(a, b, i, "const");
      KeywordBefore(a, b, i, "extern");
      KeywordBefore(a, b, i, "inline");
      KeywordBefore(a, b, i, "virtual");
      KeywordBefore(a, b, i, "volatile");
      KeywordBefore(a, b, i, "typedef");
      KeywordBefore(a, b, i, "__attribute__((");
    }
    NoKeywordInAll(a + b, 0, |a|);
  }

  /** A plain keyword is removed and the scan goes on right after it, even
      inside an identifier. */
  lemma KeywordDropped(kw: string, post: string)
    requires kw in ["static", "const", "extern", "inline", "virtual", "volatile", "typedef"]
    ensures RemoveKeywords(kw + post) == RemoveKeywords(post)
  {
    KeywordAt(kw, post);
    assert (kw + post)[|kw|..] == post;
  }

  /** A keyword after text with no keyword start is removed. */
  lemma KeywordThen(pre: string, kw: string, post: string)
    requires kw in ["static", "const", "extern", "inline", "virtual", "volatile", "typedef"]
    requires forall i :: 0 <= i < |pre| ==> !CanStart(UnusedKeyword, pre[i])
    ensures RemoveKeywords(pre + kw + post) == pre + RemoveKeywords(post)
  {
    assert pre + kw + post == pre + (kw + post);
    KeywordDropped(kw, post);
    SubstitutePlain(UnusedKeyword, pre, kw + post);
  }

  /** The line of an attribute runs on into the text after its `))`. */
  lemma AttributeLineEnd(inner: string, post: string)
    requires '\n' !in inner
    ensures var s := "__attribute__((" + inner + "))" + post;
      LineEnd(s, 15) == 17 + |inner| + LineEnd(post, 0)
  {
    var s := "__attribute__((" + inner + "))" + post;
    var n := 17 + |inner|;
    var e' := LineEnd(post, 0);
    forall i | 15 <= i < n ensures s[i] != '\n' {
      if i < 15 + |inner| {
        assert s[i] == inner[i - 15];
      }
    }
    forall i | n <= i < n + e' ensures s[i] != '\n' {
      assert s[i] == post[i - n];
    }
    if n + e' < |s| {
      assert s[n + e'] == post[e'];
    }
  }

  /** With no `)` on the rest of the line, the attribute's own `))` is the
      last pair on the line. */
  lemma AttributeLastPair(inner: string, post: string)
    requires '\n' !in inner && ')' !in post[..LineEnd(post, 0)]
    ensures var s := "__attribute__((" + inner + "))" + post;
      LastIndexOfPair(s, ')', ')', 15, 17 + |inner| + LineEnd(post, 0)) == 15 + |inner|
  {
    var s := "__attribute__((" + inner + "))" + post;
    var n := 17 + |inner|;
    var e' := LineEnd(post, 0);
    var r := LastIndexOfPair(s, ')', ')', 15, n + e');
    var m := 15 + |inner|;
    assert s[m] == ')' && s[m + 1] == ')';
  }

  /** `__attribute__((` matches up to the last `))` of its line: with no
      line feed in `inner` and no `)` on the rest of the line after the
      closing `))`, the match is exactly the attribute. */
  lemma AttributeLength(inner: string, post: string)
    requires '\n' !in inner && ')' !in post[..LineEnd(post, 0)]
    ensures KeywordLength("__attribute__((" + inner + "))" + post) == 17 + |inner|
  {
    var s := "__attribute__((" + inner + "))" + post;
    assert s[..15] == "__attribute__((";
    assert s[0] == '_';
    StartsWithHead(s, "static");
    StartsWithHead(s, "const");
    StartsWithHead(s, "extern");
    StartsWithHead(s, "inline");
    StartsWithHead(s, "virtual");
    StartsWithHead(s, "volatile");
    StartsWithHead(s, "typedef");
    AttributeLineEnd(inner, post);
    AttributeLastPair(inner, post);
  }

  /** An attribute is removed, greedily, up to the last `))` on its line. */
  lemma AttributeDropped(inner: string, post: string)
    requires '\n' !in inner && ')' !in post[..LineEnd(post, 0)]
    ensures RemoveKeywords("__attribute__((" + inner + "))" + post) == RemoveKeywords(post)
  {
    AttributeLength(inner, post);
    assert ("__attribute__((" + inner + "))" + post)[17 + |inner|..] == post;
  }

  /** A whitespace run after text without whitespace becomes one space,
      and the scan goes on with the text after the run. */
  lemma SpaceRunThen(pre: string, w: string, post: string)
    requires w != [] && AllSpace(w)
    requires forall i :: 0 <= i < |pre| ==> !IsSpace(pre[i])
    requires post == [] || !IsSpace(post[0])
    ensures RemoveSpaces(pre + w + post) == pre + " " + RemoveSpaces(post)
  {
    var rest := w + post;
    assert pre + w + post == pre + rest;
    assert Substitute(Whitespace, rest) == " " + RemoveSpaces(post) by {
      LStripSpaces(w, post);
      assert rest[|w|..] == post;
    }
    SubstitutePlain(Whitespace, pre, rest);
  }
}
