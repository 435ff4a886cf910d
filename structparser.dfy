/** Structure recognition and recursive partitioning of a declaration list. */
module StructParser {
  import opened Results
  import opened Text
  import opened StructureField
  import opened Braces

  // ---------------------------------------------------------------------
  // The first nested structure (find_first_substructure)
  // ---------------------------------------------------------------------

  /** `find_first_substructure`: (-1, -1) when there is no `{`; otherwise
      the first `{` and the index `find_matching_paren` returns for the whole
      text, or SyntaxError when that is -1. */
  function FirstSubstructure(code: string): (r: Result<(int, int)>)
    ensures r.Ok? && r.value.0 != -1 ==> 0 <= r.value.0 < r.value.1 < |code|
  {
    var start := IndexOf(code, '{', 0);
    if start == -1 then Ok((-1, -1))
    else
      var end := MatchingParen(code, '{', '}');
      if end == -1 then Err(UnmatchedBrace(code, start))
      else
        MatchFollowsOpen(code, '{', '}', end);
        Ok((start, end))
  }

  /** No `{` gives (-1, -1); otherwise SyntaxError, carrying the text and
      the first `{`, exactly when that `{` has no match, and else the first
      `{` and the first `}` that brings the running depth back to zero. */
  lemma FirstSubstructureSpec(code: string)
    ensures '{' !in code ==> FirstSubstructure(code) == Ok((-1, -1))
    ensures '{' in code ==> (FirstSubstructure(code).Err? <==> MatchingParen(code, '{', '}') == -1)
    ensures FirstSubstructure(code).Err? ==>
      FirstSubstructure(code).error == UnmatchedBrace(code, IndexOf(code, '{', 0) as nat)
    ensures var r := FirstSubstructure(code); r.Ok? && '{' in code ==>
      && 0 <= r.value.0 < r.value.1 < |code|
      && code[r.value.0] == '{' && '{' !in code[..r.value.0]
      && code[r.value.1] == '}' && r.value.1 == MatchingParen(code, '{', '}')
  {
    var start := IndexOf(code, '{', 0);
    if start != -1 {
      var end := MatchingParen(code, '{', '}');
      if end != -1 {
        MatchFollowsOpen(code, '{', '}', end);
      }
    }
  }

  /** Text without braces, then a balanced block: the block's braces are
      the span found. */
  lemma FirstSubstructureOfBlock(a: string, b: string, c: string)
    requires '{' !in a && '}' !in a
    requires Balanced(b, '{', '}')
    ensures FirstSubstructure(a + "{" + b + "}" + c) == Ok((|a|, |a| + |b| + 1))
  {
    var code := a + "{" + b + "}" + c;
    assert code[|a|] == '{';
    forall i | 0 <= i < |a| ensures code[i] != '{' {
      assert code[i] == a[i] && a[i] in a;
    }
    MatchOfBlock(a, b, c);
  }

  // ---------------------------------------------------------------------
  // Name of a nested structure (get_struct_name)
  // ---------------------------------------------------------------------

  /** The text in front of a `{` that names the structure's type: from just
      after the previous `;` (or from the start of the text) up to, but not
      including, the character just before the `{`. */
  function TagText(code: string, prev: int, start: nat): string
    requires -1 <= prev < start <= |code|
  {
    if prev != -1 then (if prev + 1 <= start - 1 then code[prev + 1..start - 1] else "")
    else if start > 0 then code[..start - 1]
    else ""
  }

  /** The text between the `}` at `end` and the `;` at `semi` that names the
      structure's variable (empty when the `;` follows at once). */
  function VarText(code: string, end: nat, semi: nat): string
    requires semi <= |code|
  {
    if end + 1 <= semi then code[end + 1..semi] else ""
  }

  /** `get_struct_name`: the index of the last `;` before `start` (or -1),
      the index just after the first `;` at or after `end`, and the trimmed
      concatenation of the tag text and of the text between `end` and that
      `;`.  SyntaxError when no `;` follows. */
  function StructName(code: string, start: nat, end: nat): (r: Result<(int, int, string)>)
    requires start <= |code|
    ensures r.Ok? ==> -1 <= r.value.0 < start && end < r.value.1 <= |code|
  {
    var prev := LastIndexBefore(code, ';', start);
    var tag := TagText(code, prev, start);
    var semi := IndexOf(code, ';', end);
    if semi == -1 then
      Err(MissingSemicolon(code[prev + 1..]))
    else
      Ok((prev, semi + 1, Strip(tag + VarText(code, end, semi))))
  }

  /** `get_struct_name` raises SyntaxError, carrying the text after `prev`,
      exactly when no `;` follows `end`. */
  lemma StructNameMissing(code: string, start: nat, end: nat)
    requires start <= |code|
    ensures var r := StructName(code, start, end);
      r.Err? <==> forall i :: end <= i < |code| ==> code[i] != ';'
    ensures var r := StructName(code, start, end);
      r.Err? ==> r.error == MissingSemicolon(code[LastIndexBefore(code, ';', start) + 1..])
  {
    if IndexOf(code, ';', end) == -1 {
      assert StructName(code, start, end).Err?;
    }
  }

  /** Where `get_struct_name` starts the name: `prev` is the last `;`
      before `start`, or -1 when there is none. */
  lemma StructNamePrev(code: string, start: nat, end: nat)
    requires start <= |code|
    ensures var r := StructName(code, start, end);
      r.Ok? ==>
      && (r.value.0 >= 0 ==> code[r.value.0] == ';')
      && (forall i :: r.value.0 < i < start ==> code[i] != ';')
  {
  }

  /** Where `get_struct_name` resumes: `next - 1` is the first `;` at or
      after `end`.  What the name is made of is stated for whole block
      declarations by `StructNameOfBlock`. */
  lemma StructNameNext(code: string, start: nat, end: nat)
    requires start <= |code|
    ensures var r := StructName(code, start, end);
      r.Ok? ==>
      && code[r.value.1 - 1] == ';'
      && (forall i :: end <= i < r.value.1 - 1 ==> code[i] != ';')
  {
  }

  /** `get_struct_name` as the source writes it: the tag text (the
      branches of `TagText`), then the variable text appended with `+=`,
      then the trimming. */
  method GetStructName(code: string, start: nat, end: nat) returns (r: Result<(int, int, string)>)
    requires start <= |code|
    ensures r == StructName(code, start, end)
  {
    var prevExpr := LastIndexBefore(code, ';', start);
    var structName := TagText(code, prevExpr, start);
    var nextExpr := IndexOf(code, ';', end);
    if nextExpr != -1 {
      var nameEnd := nextExpr;
      structName := structName + VarText(code, end, nameEnd);
      nextExpr := nextExpr + 1;
    } else {
      return Err(MissingSemicolon(code[prevExpr + 1..]));
    }
    structName := Strip(structName);
    return Ok((prevExpr, nextExpr, structName));
  }

  /** The name of a structure that follows a `;` (or opens the text): its
      tag is the text from there up to the character before `{`, its
      variable the text from `}` to the next `;`, and the text after that
      `;` is where the caller resumes.  The body is not inspected. */
  lemma StructNameOfBlock(code: string, pre: string, tag: string, x: char, body: string, varText: string, post: string,
                          start: nat, end: nat)
    requires code == pre + tag + [x] + "{" + body + "}" + varText + ";" + post
    requires start == |pre| + |tag| + 1 && end == start + |body| + 1
    requires pre == [] || pre[|pre| - 1] == ';'
    requires ';' !in tag && x != ';' && ';' !in varText
    ensures var r := StructName(code, start, end);
      && r.Ok? && r.value.0 == |pre| - 1 && r.value.1 == |code| - |post|
      && r.value.2 == Strip(tag + varText)
  {
    PrevOfBlock(code, pre, tag, x, body, varText, post, start);
    SemiOfBlock(code, pre, tag, x, body, varText, post, end);
    BlockSlices(code, pre, tag, x, body, varText, post, start, end);
    StructNameFound(code, start, end, |pre| - 1, end + 1 + |varText|, tag, varText);
  }

  /** Searching backwards from a block's `{` finds the `;` that ends `pre`. */
  lemma PrevOfBlock(code: string, pre: string, tag: string, x: char, body: string, varText: string, post: string,
                    start: nat)
    requires code == pre + tag + [x] + "{" + body + "}" + varText + ";" + post
    requires start == |pre| + |tag| + 1
    requires pre == [] || pre[|pre| - 1] == ';'
    requires ';' !in tag && x != ';'
    ensures start <= |code| && LastIndexBefore(code, ';', start) == |pre| - 1
  {
    var rest := "{" + body + "}" + varText + ";" + post;
    assert code == pre + (tag + [x]) + rest;
    assert ';' !in tag + [x];
    LastIndexAcross(pre, tag + [x], ';', rest);
  }

  /** Searching forwards from a block's `}` finds the `;` after its variable. */
  lemma SemiOfBlock(code: string, pre: string, tag: string, x: char, body: string, varText: string, post: string,
                    end: nat)
    requires code == pre + tag + [x] + "{" + body + "}" + varText + ";" + post
    requires end == |pre| + |tag| + |body| + 2
    requires ';' !in varText
    ensures IndexOf(code, ';', end) == end + 1 + |varText|
  {
    var head := pre + tag + [x] + "{" + body;
    assert code == head + ("}" + varText) + [';'] + post;
    IndexOfAcross(head, "}" + varText, ';', post);
  }

  /** Where the tag and the variable text sit in a block declaration. */
  lemma BlockSlices(code: string, pre: string, tag: string, x: char, body: string, varText: string, post: string,
                    start: nat, end: nat)
    requires code == pre + tag + [x] + "{" + body + "}" + varText + ";" + post
    requires start == |pre| + |tag| + 1 && end == start + |body| + 1
    ensures start <= |code| && TagText(code, |pre| - 1, start) == tag
    ensures end + 1 + |varText| <= |code| && code[end + 1..end + 1 + |varText|] == varText
  {
    assert code[|pre|..start - 1] == tag;
    assert pre == [] ==> code[..start - 1] == tag;
  }

  /** Once the two searches are known, the name is the tag text followed
      by the variable text, trimmed. */
  lemma StructNameFound(code: string, start: nat, end: nat, prev: int, semi: int, tag: string, varText: string)
    requires start <= |code|
    requires prev == LastIndexBefore(code, ';', start)
    requires semi == IndexOf(code, ';', end) && semi >= end + 1
    requires TagText(code, prev, start) == tag && code[end + 1..semi] == varText
    ensures StructName(code, start, end).Ok?
    ensures StructName(code, start, end).value.0 == prev
    ensures StructName(code, start, end).value.1 == semi + 1
    ensures StructName(code, start, end).value.2 == Strip(tag + varText)
  {
  }

  /** The character just before `{` is taken to be a space and is dropped even
      when it is not: "struct abc{" names the tag "struct ab". */
  lemma NameDropsCharBeforeBrace()
    ensures TagText("struct abc{", -1, 10) == "struct ab"
  {
  }

  // ---------------------------------------------------------------------
  // Recursive partitioning (parse_expr) and the whole pipeline
  // ---------------------------------------------------------------------

  /** `code.split(';')[:-1]`: every piece that a `;` terminates. */
  function Segments(code: string): seq<string>
  {
    var parts := Split(code, ';');
    parts[..|parts| - 1]
  }

  /** `code.split(';')[-1]`: the text after the last `;`, which `[:-1]` drops. */
  function Unterminated(code: string): string
  {
    var parts := Split(code, ';');
    parts[|parts| - 1]
  }

  /** The segments and the text after the last `;`, joined with `;`, give
      the text back. */
  lemma SegmentsRoundTrip(code: string)
    ensures Join(Segments(code) + [Unterminated(code)], ';') == code
  {
    var parts := Split(code, ';');
    assert parts == Segments(code) + [Unterminated(code)];
    SplitJoin(code, ';');
  }

  /** There is one segment per `;`, and no segment holds a `;`. */
  lemma SegmentsCount(code: string)
    ensures |Segments(code)| == multiset(code)[';']
    ensures forall i :: 0 <= i < |Segments(code)| ==> ';' !in Segments(code)[i]
    ensures ';' !in Unterminated(code)
  {
    SplitCount(code, ';');
  }

  /** How `parse_expr` divides a declaration list: nothing but whitespace;
      a flat list of `;`-terminated segments; or the text before the first
      nested structure, that structure's name and body, and the text after
      the `;` that ends it. */
  datatype Shape =
    | Blank
    | Declarations(segs: seq<string>)
    | Nested(before: string, name: string, body: string, after: string)

  /** The division `parse_expr` makes of `code` before recursing, with the
      SyntaxErrors of `find_first_substructure` and `get_struct_name`. */
  function Partition(code: string): Result<Shape>
  {
    DivideTrimmed(Strip(code))
  }

  /** The division of text that is already trimmed. */
  function DivideTrimmed(c: string): Result<Shape>
  {
    if |c| == 0 then Ok(Blank)
    else
      var sub :- FirstSubstructure(c);
      var (start, end) := sub;
      if start == -1 then Ok(Declarations(Segments(c)))
      else
        var named :- StructName(c, start, end);
        var (prev, next, structName) := named;
        Ok(Nested(c[..prev + 1], structName, c[start + 1..end], c[next..]))
  }

  /** Each part handed to a recursive call is shorter than the text. */
  lemma PartitionShrinks(code: string)
    ensures var r := Partition(code); r.Ok? && r.value.Nested? ==>
      |r.value.before| < |code| && |r.value.body| < |code| && |r.value.after| < |code|
  {
    var c := Strip(code);
    if |c| > 0 {
      var sub := FirstSubstructure(c);
      if sub.Ok? && sub.value.0 != -1 {
        var named := StructName(c, sub.value.0, sub.value.1);
        assert |c| <= |code|;
      }
    }
  }

  /** `parse_expr`: no nodes for blank text, one leaf per segment of a flat
      list, and otherwise the parses of the three parts with the nested
      structure as a composite between them. */
  function Parse(code: string): Result<seq<Node>>
    decreases |code|, 1
  {
    var shape :- Partition(code);
    ParseShape(code, shape)
  }

  /** The nodes for one division of `code`. */
  function ParseShape(code: string, shape: Shape): Result<seq<Node>>
    requires Partition(code) == Ok(shape)
    decreases |code|, 0
  {
    PartitionShrinks(code);
    match shape
    case Blank => Ok([])
    case Declarations(segs) => MapAll(CreateFromString, segs)
    case Nested(before, name, body, after) =>
      Assemble(name, Parse(before), Parse(body), Parse(after))
  }

  /** The nodes before a nested structure, the composite for it and the
      nodes after it, or the first failure among the three parses. */
  function Assemble(name: string, first: Result<seq<Node>>, fields: Result<seq<Node>>,
                    rest: Result<seq<Node>>): (r: Result<seq<Node>>)
  {
    var f :- first;
    var b :- fields;
    var a :- rest;
    Ok(f + [Composite(name, b)] + a)
  }

  /** The division in each of the cases `parse_expr` distinguishes. */
  lemma PartitionCases(code: string)
    ensures var c := Strip(code); |c| == 0 ==> Partition(code) == Ok(Blank)
    ensures var c := Strip(code); var sub := FirstSubstructure(c);
      |c| > 0 && sub.Err? ==> Partition(code) == Err(sub.error)
    ensures var c := Strip(code); var sub := FirstSubstructure(c);
      |c| > 0 && sub.Ok? && sub.value.0 == -1 ==> Partition(code) == Ok(Declarations(Segments(c)))
    ensures var c := Strip(code); var sub := FirstSubstructure(c);
      |c| > 0 && sub.Ok? && sub.value.0 != -1 ==>
      var named := StructName(c, sub.value.0, sub.value.1);
      && (named.Err? ==> Partition(code) == Err(named.error))
      && (named.Ok? ==> Partition(code) == Ok(Nested(c[..named.value.0 + 1], named.value.2,
                                                     c[sub.value.0 + 1..sub.value.1], c[named.value.1..])))
  {
  }

  /** A division decides the parse: the parse is the nodes for it. */
  lemma ParseByShape(code: string, shape: Shape)
    requires Partition(code) == Ok(shape)
    ensures Parse(code) == ParseShape(code, shape)
  {
  }

  /** `parse_expr` trims its input first: texts with the same trimmed text
      parse alike. */
  lemma ParseSameStrip(a: string, b: string)
    requires Strip(a) == Strip(b)
    ensures Parse(a) == Parse(b)
  {
    if Partition(a).Ok? {
      var shape := Partition(a).value;
      ParseByShape(a, shape);
      ParseByShape(b, shape);
    }
  }

  /** A nested division parses its three parts in turn. */
  lemma ParseOfNested(code: string, before: string, name: string, body: string, after: string)
    requires Partition(code) == Ok(Nested(before, name, body, after))
    ensures Parse(code) == Assemble(name, Parse(before), Parse(body), Parse(after))
  {
    ParseByShape(code, Nested(before, name, body, after));
  }

  /** The first half of `parse_expr`, step by step: trim, find the first
      nested structure and its name, and cut the text around it. */
  method DivideExpr(code: string) returns (r: Result<Shape>)
    ensures r == Partition(code)
  {
    PartitionCases(code);
    var c := Strip(code);
    if |c| == 0 {
      return Ok(Blank);
    }
    var sub := FirstSubstructure(c);
    if sub.Err? {
      return Err(sub.error);
    }
    var start, end := sub.value.0, sub.value.1;
    if start == -1 {
      return Ok(Declarations(Segments(c)));
    }
    var named := GetStructName(c, start, end);
    if named.Err? {
      return Err(named.error);
    }
    var prev, next, structName := named.value.0, named.value.1, named.value.2;
    return Ok(Nested(c[..prev + 1], structName, c[start + 1..end], c[next..]));
  }

  /** `parse_expr` as the source writes it, accumulating `fields_list`
      over the recursive calls. */
  method ParseExpr(code: string) returns (r: Result<seq<Node>>)
    ensures r == Parse(code)
    decreases |code|
  {
    var fieldsList: seq<Node> := [];
    var shape := DivideExpr(code);
    if shape.Err? {
      return Err(shape.error);
    }
    PartitionShrinks(code);
    match shape.value
    case Blank =>
      ParseByShape(code, Blank);
      return Ok(fieldsList);
    case Declarations(segs) =>
      ParseByShape(code, Declarations(segs));
      return MapAll(CreateFromString, segs);
    case Nested(textBefore, structName, structBody, textAfter) =>
      ParseOfNested(code, textBefore, structName, structBody, textAfter);
      var before := ParseExpr(textBefore);
      if before.Err? {
        return before;
      }
      fieldsList := fieldsList + before.value;
      assert fieldsList == before.value;
      var structFields := ParseExpr(structBody);
      if structFields.Err? {
        return structFields;
      }
      fieldsList := fieldsList + [Composite(structName, structFields.value)];
      var after := ParseExpr(textAfter);
      if after.Err? {
        return after;
      }
      fieldsList := fieldsList + after.value;
      return Ok(fieldsList);
  }

  /** Empty or whitespace-only text parses to no nodes. */
  lemma ParseBlank(code: string)
    requires AllSpace(code)
    ensures Parse(code) == Ok([])
  {
    StripBlank(code);
    assert Partition(code) == Ok(Blank);
  }

  lemma NoSubstructure(c: string)
    requires '{' !in c
    ensures FirstSubstructure(c) == Ok((-1, -1))
  {
  }

  lemma SubstructureFound(c: string)
    requires '{' in c
    ensures FirstSubstructure(c).Ok? ==> FirstSubstructure(c).value.0 >= 0
  {
  }

  /** Without a `{`, the parse is the comprehension over the segments. */
  lemma ParseFlat(code: string)
    requires '{' !in Strip(code)
    ensures Parse(code) == MapAll(CreateFromString, Segments(Strip(code)))
  {
    var c := Strip(code);
    NoSubstructure(c);
    PartitionCases(code);
    if |c| == 0 {
      assert Split(c, ';') == [c];
    }
  }

  /** Without a `{`, the result has exactly one leaf per `;`-terminated
      segment of the trimmed text, in order; text after the last `;` is
      ignored, an empty segment is handed to `create_from_string`, and the
      first segment it rejects decides the error. */
  lemma ParseBraceFree(code: string)
    requires '{' !in Strip(code)
    ensures var segs := Segments(Strip(code));
      Parse(code).Ok? <==> AllOk(CreateFromString, segs)
    ensures var segs := Segments(Strip(code)); Parse(code).Ok? ==>
      && |Parse(code).value| == |segs| == multiset(Strip(code))[';']
      && forall i :: 0 <= i < |segs| ==> CreateFromString(segs[i]) == Ok(Parse(code).value[i])
    ensures var segs := Segments(Strip(code)); Parse(code).Err? ==>
      exists i :: 0 <= i < |segs| && AllOk(CreateFromString, segs[..i]) &&
        CreateFromString(segs[i]) == Err(Parse(code).error)
  {
    var c := Strip(code);
    ParseFlat(code);
    SegmentsCount(c);
    MapAllSpec(CreateFromString, Segments(c));
  }

  /** With a `{`, the division fails exactly when `find_first_substructure`
      or `get_struct_name` does, with that error; otherwise its parts are
      the text up to and including the last `;` before the first `{`, the
      text strictly between that `{` and its matching `}`, and the text after
      the first `;` following the `}`, with the name `get_struct_name`
      gives.  The three parts are disjoint and in order. */
  lemma PartitionNested(code: string)
    requires '{' in Strip(code)
    ensures var c := Strip(code); var sub := FirstSubstructure(c);
      sub.Err? ==> Partition(code) == Err(sub.error)
    ensures var c := Strip(code); var sub := FirstSubstructure(c);
      sub.Ok? ==>
      && 0 <= sub.value.0 < sub.value.1 < |c|
      && var named := StructName(c, sub.value.0, sub.value.1);
      && (named.Err? ==> Partition(code) == Err(named.error))
      && (named.Ok? ==>
        var (prev, next, name) := named.value;
        && -1 <= prev < sub.value.0 && sub.value.1 < next <= |c|
        && Partition(code) ==
          Ok(Nested(c[..prev + 1], name, c[sub.value.0 + 1..sub.value.1], c[next..])))
  {
    SubstructureFound(Strip(code));
    PartitionCases(code);
  }

  /** A trimmed text made of brace-free declarations ending in `;`, a
      structure with a balanced body and its variable, and more text is
      divided at that structure: the declarations before it, its trimmed
      name, its body and the text after its `;`.  `start` and `end` are
      the positions of the structure's braces. */
  lemma PartitionOfBlock(code: string, c: string, pre: string, tag: string, x: char, body: string, varText: string,
                         post: string, start: nat, end: nat)
    requires c == Strip(code)
    requires c == pre + tag + [x] + "{" + body + "}" + varText + ";" + post
    requires start == |pre| + |tag| + 1 && end == start + |body| + 1
    requires pre == [] || pre[|pre| - 1] == ';'
    requires ';' !in tag && x != ';' && ';' !in varText
    requires '{' !in pre + tag + [x] && '}' !in pre + tag + [x]
    requires Balanced(body, '{', '}')
    ensures Partition(code) == Ok(Nested(pre, Strip(tag + varText), body, post))
  {
    SubstructureOfBlock(c, pre, tag, x, body, varText, post, start, end);
    BlockNamed(c, pre, tag, x, body, varText, post, start, end);
    PartitionAt(c, start, end, pre, Strip(tag + varText), body, post);
  }

  /** The parse of such a text: the parse of the declarations before the
      structure, a composite named after it holding the parse of its body,
      and the parse of the text after it. */
  lemma ParseOfBlock(code: string, c: string, pre: string, tag: string, x: char, body: string, varText: string,
                     post: string, start: nat, end: nat)
    requires c == Strip(code)
    requires c == pre + tag + [x] + "{" + body + "}" + varText + ";" + post
    requires start == |pre| + |tag| + 1 && end == start + |body| + 1
    requires pre == [] || pre[|pre| - 1] == ';'
    requires ';' !in tag && x != ';' && ';' !in varText
    requires '{' !in pre + tag + [x] && '}' !in pre + tag + [x]
    requires Balanced(body, '{', '}')
    ensures Parse(code) == Assemble(Strip(tag + varText), Parse(pre), Parse(body), Parse(post))
  {
    PartitionOfBlock(code, c, pre, tag, x, body, varText, post, start, end);
    ParseOfNested(code, pre, Strip(tag + varText), body, post);
  }

  /** The first block of a block declaration is the one whose braces
      surround its body. */
  lemma SubstructureOfBlock(c: string, pre: string, tag: string, x: char, body: string, varText: string, post: string,
                            start: nat, end: nat)
    requires c == pre + tag + [x] + "{" + body + "}" + varText + ";" + post
    requires start == |pre| + |tag| + 1 && end == start + |body| + 1
    requires '{' !in pre + tag + [x] && '}' !in pre + tag + [x]
    requires Balanced(body, '{', '}')
    ensures FirstSubstructure(c).Ok?
    ensures FirstSubstructure(c).value.0 == start
    ensures FirstSubstructure(c).value.1 == end
  {
    assert c == (pre + tag + [x]) + "{" + body + "}" + (varText + ";" + post);
    FirstSubstructureOfBlock(pre + tag + [x], body, varText + ";" + post);
  }

  /** The name of a block declaration and the parts `parse_expr` cuts
      around it. */
  lemma BlockNamed(c: string, pre: string, tag: string, x: char, body: string, varText: string, post: string,
                   start: nat, end: nat)
    requires c == pre + tag + [x] + "{" + body + "}" + varText + ";" + post
    requires start == |pre| + |tag| + 1 && end == start + |body| + 1
    requires pre == [] || pre[|pre| - 1] == ';'
    requires ';' !in tag && x != ';' && ';' !in varText
    ensures var n := StructName(c, start, end);
      && n.Ok? && c[..n.value.0 + 1] == pre && n.value.2 == Strip(tag + varText)
      && c[start + 1..end] == body && c[n.value.1..] == post
  {
    StructNameOfBlock(c, pre, tag, x, body, varText, post, start, end);
    BlockParts(c, pre, tag, x, body, varText, post, start, end);
  }

  /** Once the first structure, its name and the three parts around it
      are known, the division is determined. */
  lemma PartitionAt(c: string, start: nat, end: nat, before: string, name: string, body: string, after: string)
    requires |c| > 0
    requires FirstSubstructure(c).Ok? && FirstSubstructure(c).value.0 == start
    requires FirstSubstructure(c).value.1 == end
    requires var n := StructName(c, start, end);
      && n.Ok? && c[..n.value.0 + 1] == before && n.value.2 == name
      && c[start + 1..end] == body && c[n.value.1..] == after
    ensures DivideTrimmed(c) == Ok(Nested(before, name, body, after))
  {
    var n := StructName(c, start, end);
    assert DivideTrimmed(c) == Ok(Nested(c[..n.value.0 + 1], n.value.2, c[start + 1..end], c[n.value.1..]));
  }

  /** The three parts of a block declaration, as slices of its text. */
  lemma BlockParts(c: string, pre: string, tag: string, x: char, body: string, varText: string, post: string,
                   start: nat, end: nat)
    requires c == pre + tag + [x] + "{" + body + "}" + varText + ";" + post
    requires start == |pre| + |tag| + 1 && end == start + |body| + 1
    ensures c[..|pre| - 1 + 1] == pre
    ensures start + 1 <= end <= |c| && c[start + 1..end] == body
    ensures c[|c| - |post|..] == post
  {
  }

  /** The leaves of a flat list are valid. */
  lemma LeavesValid(segs: seq<string>)
    ensures var r := MapAll(CreateFromString, segs); r.Ok? ==> AllValid(r.value)
  {
    MapAllSpec(CreateFromString, segs);
  }

  predicate AllValid(nodes: seq<Node>)
  {
    forall i :: 0 <= i < |nodes| ==> ValidNode(nodes[i])
  }

  lemma AllValidConcat(a: seq<Node>, b: seq<Node>)
    requires AllValid(a) && AllValid(b)
    ensures AllValid(a + b)
  {
    forall i | 0 <= i < |a + b|
      ensures ValidNode((a + b)[i])
    {
      if i >= |a| {
        assert (a + b)[i] == b[i - |a|];
      }
    }
  }

  /** Every leaf of a parse result carries a field named after it, with a
      known tag, that tag's width and value zero. */
  lemma {:induction false} ParseValid(code: string)
    requires Parse(code).Ok?
    ensures AllValid(Parse(code).value)
    decreases |code|
  {
    PartitionShrinks(code);
    match Partition(code).value
    case Blank =>
    case Declarations(segs) =>
      LeavesValid(segs);
    case Nested(before, name, body, after) =>
      ParseOfNested(code, before, name, body, after);
      AssembleOk(name, Parse(before), Parse(body), Parse(after));
      ParseValid(before);
      ParseValid(body);
      ParseValid(after);
      AssembleValid(name, Parse(before).value, Parse(body).value, Parse(after).value);
  }

  /** A successful assembly: all three parses succeeded. */
  lemma AssembleOk(name: string, first: Result<seq<Node>>, fields: Result<seq<Node>>, rest: Result<seq<Node>>)
    requires Assemble(name, first, fields, rest).Ok?
    ensures first.Ok? && fields.Ok? && rest.Ok?
    ensures Assemble(name, first, fields, rest).value == first.value + [Composite(name, fields.value)] + rest.value
  {
  }

  /** Assembling valid nodes gives valid nodes. */
  lemma AssembleValid(name: string, first: seq<Node>, fields: seq<Node>, rest: seq<Node>)
    requires AllValid(first) && AllValid(fields) && AllValid(rest)
    ensures AllValid(first + [Composite(name, fields)] + rest)
  {
    assert ValidNode(Composite(name, fields));
    AllValidConcat(first, [Composite(name, fields)]);
    AllValidConcat(first + [Composite(name, fields)], rest);
  }
}
