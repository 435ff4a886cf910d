/** The expected values of the repository's unit tests for the parser
    (src/str_conversion_test.py), derived from the model.  Each test text
    is written as the concatenation of the pieces the structure lemmas
    decompose it into. */
module UnitCases {
  import opened Results
  import opened Text
  import opened Stripping
  import opened Braces
  import opened StructParser

  // ---------------------------------------------------------------------
  // get_struct_name
  // ---------------------------------------------------------------------

  /** A blank lead, a tag and a variable, trimmed, are the tag and the
      variable joined by one space. */
  lemma StripNameAndVariable(lead: string, tag: string, v: string)
    requires AllSpace(lead)
    requires tag != [] && v != [] && !IsSpace(tag[0]) && !IsSpace(v[|v| - 1])
    ensures Strip((lead + tag) + (" " + v)) == tag + " " + v
  {
    var t := tag + " " + v;
    var e: string := [];
    assert (lead + tag) + (" " + v) == lead + t + e;
    StripPadding(lead, t, e);
  }

  /** A blank lead and a tag, trimmed, are the tag. */
  lemma StripName(lead: string, tag: string)
    requires AllSpace(lead)
    requires tag != [] && !IsSpace(tag[0]) && !IsSpace(tag[|tag| - 1])
    ensures Strip((lead + tag) + []) == tag
  {
    var e: string := [];
    assert (lead + tag) + e == lead + tag + e;
    StripPadding(lead, tag, e);
  }

  /** `get_struct_name` on a structure declared with a variable: the
      previous `;`, the position after the structure's `;`, and the tag
      and variable joined by one space. */
  lemma NameWithVariable(code: string, pre: string, lead: string, tag: string, body: string, v: string,
                         post: string, start: nat, end: nat)
    requires code == pre + lead + tag + " " + "{" + body + "}" + " " + v + ";" + post
    requires start == |pre| + |lead| + |tag| + 1 && end == start + |body| + 1
    requires pre == [] || pre[|pre| - 1] == ';'
    requires AllSpace(lead) && ';' !in lead && ';' !in tag && ';' !in v
    requires tag != [] && v != [] && !IsSpace(tag[0]) && !IsSpace(v[|v| - 1])
    ensures var r := StructName(code, start, end);
      && r.Ok? && r.value.0 == |pre| - 1 && r.value.1 == |code| - |post|
      && r.value.2 == tag + " " + v
  {
    assert code == pre + (lead + tag) + [' '] + "{" + body + "}" + (" " + v) + ";" + post;
    assert ';' !in lead + tag && ';' !in " " + v;
    StructNameOfBlock(code, pre, lead + tag, ' ', body, " " + v, post, start, end);
    StripNameAndVariable(lead, tag, v);
  }

  /** `get_struct_name` on a structure declared without a variable: the
      name is the tag alone. */
  lemma NameWithoutVariable(code: string, pre: string, lead: string, tag: string, body: string,
                            post: string, start: nat, end: nat)
    requires code == pre + lead + tag + " " + "{" + body + "}" + ";" + post
    requires start == |pre| + |lead| + |tag| + 1 && end == start + |body| + 1
    requires pre == [] || pre[|pre| - 1] == ';'
    requires AllSpace(lead) && ';' !in lead && ';' !in tag
    requires tag != [] && !IsSpace(tag[0]) && !IsSpace(tag[|tag| - 1])
    ensures var r := StructName(code, start, end);
      && r.Ok? && r.value.0 == |pre| - 1 && r.value.1 == |code| - |post|
      && r.value.2 == tag
  {
    var e: string := [];
    assert code == pre + (lead + tag) + [' '] + "{" + body + "}" + e + ";" + post;
    assert ';' !in lead + tag;
    StructNameOfBlock(code, pre, lead + tag, ' ', body, e, post, start, end);
    StripName(lead, tag);
  }

  lemma UnionName()
    ensures "union bde" + " " + "myu" == "union bde myu"
  {}

  lemma AbcName()
    ensures "struct abc" + " " + "myabc" == "struct abc myabc"
  {}

  lemma UpperAbcName()
    ensures "struct ABC" + " " + "myABC" == "struct ABC myABC"
  {}

  lemma XyzName()
    ensures "struct XYZ" + " " + "myXYZ" == "struct XYZ myXYZ"
  {}

  /** 'char c; union bde { int x,y; } myu; } myabc;' at (18, 29). */
  lemma StructNameCase1(code: string)
    requires code == "char c;" + " " + "union bde" + " " + "{" + " int x,y; " + "}" + " " + "myu" + ";" + " } myabc;"
    ensures var r := StructName(code, 18, 29);
      r.Ok? && r.value.0 == 6 && r.value.1 == 35 && r.value.2 == "union bde myu"
  {
    NameWithVariable(code, "char c;", " ", "union bde", " int x,y; ", "myu", " } myabc;", 18, 29);
    UnionName();
  }

  /** The outer structure of 'struct abc { char c; union bde { int x,y;
      struct xx { unsigned int yy; }; } myu; } myabc;' at (11, 81). */
  lemma StructNameCase2(code: string)
    requires code == "struct abc" + " " + "{"
      + " char c; union bde { int x,y; struct xx { unsigned int yy; }; } myu; " + "}" + " " + "myabc" + ";"
    ensures var r := StructName(code, 11, 81);
      r.Ok? && r.value.0 == -1 && r.value.1 == 89 && r.value.2 == "struct abc myabc"
  {
    NameWithVariable(code, "", "", "struct abc", " char c; union bde { int x,y; struct xx { unsigned int yy; }; } myu; ",
                     "myabc", "", 11, 81);
    AbcName();
  }

  /** The innermost structure of the same text, at (52, 71): declared
      without a variable, it is named by its tag alone. */
  lemma StructNameCase3(code: string)
    requires code == "struct abc { char c; union bde { int x,y;" + " " + "struct xx" + " " + "{"
      + " unsigned int yy; " + "}" + ";" + " } myu; } myabc;"
    ensures var r := StructName(code, 52, 71);
      r.Ok? && r.value.0 == 40 && r.value.1 == 73 && r.value.2 == "struct xx"
  {
    NameWithoutVariable(code, "struct abc { char c; union bde { int x,y;", " ", "struct xx", " unsigned int yy; ",
                        " } myu; } myabc;", 52, 71);
  }

  /** The outer structure of 'struct ABC { char c; struct XYZ { int b;
      char y; } myXYZ; int l; } myABC;' at (11, 65). */
  lemma StructNameCase4(code: string)
    requires code == "struct ABC" + " " + "{" + " char c; struct XYZ { int b; char y; } myXYZ; int l; "
      + "}" + " " + "myABC" + ";"
    ensures var r := StructName(code, 11, 65);
      r.Ok? && r.value.0 == -1 && r.value.1 == 73 && r.value.2 == "struct ABC myABC"
  {
    NameWithVariable(code, "", "", "struct ABC", " char c; struct XYZ { int b; char y; } myXYZ; int l; ",
                     "myABC", "", 11, 65);
    UpperAbcName();
  }

  /** The inner structure of the same text, at (32, 49). */
  lemma StructNameCase5(code: string)
    requires code == "struct ABC { char c;" + " " + "struct XYZ" + " " + "{" + " int b; char y; " + "}" + " "
      + "myXYZ" + ";" + " int l; } myABC;"
    ensures var r := StructName(code, 32, 49);
      r.Ok? && r.value.0 == 19 && r.value.1 == 57 && r.value.2 == "struct XYZ myXYZ"
  {
    NameWithVariable(code, "struct ABC { char c;", " ", "struct XYZ", " int b; char y; ", "myXYZ",
                     " int l; } myABC;", 32, 49);
    XyzName();
  }

  // ---------------------------------------------------------------------
  // find_matching_paren
  // ---------------------------------------------------------------------

  /** Without a closing character there is no match. */
  lemma NoCloseNoMatch(code: string, open: char, close: char)
    requires close !in code
    ensures MatchingParen(code, open, close) == -1
  {
  }

  /** An opening `{` followed by balanced text is never closed: the counter
      stays at one or more after it, so the scan reaches the end. */
  lemma UnclosedBlock(code: string, b: string)
    requires code == "{" + b
    requires Balanced(b, '{', '}')
    ensures MatchingParen(code, '{', '}') == -1
  {
    forall j | 0 <= j < |code|
      ensures !IsMatchAt(code, '{', '}', j)
    {
      if j > 0 {
        assert code[..j + 1] == "{" + b[..j];
        DepthConcat("{", b[..j], '{', '}');
        assert Depth("{", '{', '}') == 1 by { assert "{"[..0] == []; }
      }
    }
  }

  /** The innermost block of the nested test texts, with what follows it
      up to the next `}`, is balanced. */
  lemma InnerBalanced()
    ensures Balanced(" int x,y; struct xx " + "{" + " unsigned int yy; " + "}" + "; ", '{', '}')
  {
    BraceFreeBalanced(" unsigned int yy; ", '{', '}');
    BlockBalanced(" int x,y; struct xx ", " unsigned int yy; ", "; ");
  }

  /** 'struct abc { union bde { int x,y; } myu; } myabc;' gives 41. */
  lemma MatchingParenCase1(code: string)
    requires code == "struct abc " + "{" + (" union bde " + "{" + " int x,y; " + "}" + " myu; ") + "}" + " myabc;"
    ensures MatchingParen(code, '{', '}') == 41
  {
    BraceFreeBalanced(" int x,y; ", '{', '}');
    BlockBalanced(" union bde ", " int x,y; ", " myu; ");
    MatchOfBlock("struct abc ", " union bde " + "{" + " int x,y; " + "}" + " myu; ", " myabc;");
  }

  /** 'struct abc { union bde { int x,y; struct xx { unsigned int yy; }; }
      myu; } myabc;' gives 73. */
  lemma MatchingParenCase2(code: string)
    requires code == "struct abc " + "{"
      + (" union bde " + "{" + (" int x,y; struct xx " + "{" + " unsigned int yy; " + "}" + "; ") + "}" + " myu; ")
      + "}" + " myabc;"
    ensures MatchingParen(code, '{', '}') == 73
  {
    var inner := " int x,y; struct xx " + "{" + " unsigned int yy; " + "}" + "; ";
    InnerBalanced();
    BlockBalanced(" union bde ", inner, " myu; ");
    MatchOfBlock("struct abc ", " union bde " + "{" + inner + "}" + " myu; ", " myabc;");
  }

  /** An empty block, `{}`, is balanced. */
  lemma EmptyBlockBalanced()
    ensures Balanced("{}", '{', '}')
  {
    BraceFreeBalanced("", '{', '}');
    BlockBalanced("", "", "");
    assert "" + "{" + "" + "}" + "" == "{}";
  }

  /** '{{}{}{}}' gives 7. */
  lemma MatchingParenCase3(code: string)
    requires code == "" + "{" + ("{}" + "{}" + "{}") + "}" + ""
    ensures MatchingParen(code, '{', '}') == 7
  {
    EmptyBlockBalanced();
    BalancedConcat("{}", "{}", '{', '}');
    BalancedConcat("{}" + "{}", "{}", '{', '}');
    MatchOfBlock("", "{}" + "{}" + "{}", "");
  }

  /** 'code without any parenthesis' gives -1. */
  lemma MatchingParenCase4()
    ensures MatchingParen("code without any parenthesis", '{', '}') == -1
  {
    NoCloseNoMatch("code without any parenthesis", '{', '}');
  }

  /** '{xxx{yyy}' gives -1. */
  lemma MatchingParenCase5(code: string)
    requires code == "{" + ("xxx" + "{" + "yyy" + "}" + "")
    ensures MatchingParen(code, '{', '}') == -1
  {
    BraceFreeBalanced("yyy", '{', '}');
    BlockBalanced("xxx", "yyy", "");
    UnclosedBlock(code, "xxx" + "{" + "yyy" + "}" + "");
  }

  /** '{xxx{yy{a}{b}{c}y}' gives -1. */
  lemma MatchingParenCase6(code: string)
    requires code == "{" + ("xxx" + "{" + (("yy" + "{" + "a" + "}" + "") + ("" + "{" + "b" + "}" + "")
      + ("" + "{" + "c" + "}" + "y")) + "}" + "")
    ensures MatchingParen(code, '{', '}') == -1
  {
    var a, b, c := "yy" + "{" + "a" + "}" + "", "" + "{" + "b" + "}" + "", "" + "{" + "c" + "}" + "y";
    BraceFreeBalanced("a", '{', '}');
    BraceFreeBalanced("b", '{', '}');
    BraceFreeBalanced("c", '{', '}');
    BlockBalanced("yy", "a", "");
    BlockBalanced("", "b", "");
    BlockBalanced("", "c", "y");
    BalancedConcat(a, b, '{', '}');
    BalancedConcat(a + b, c, '{', '}');
    BlockBalanced("xxx", a + b + c, "");
    UnclosedBlock(code, "xxx" + "{" + (a + b + c) + "}" + "");
  }

  /** '{xxx{yy{{{d}}}y}' gives -1. */
  lemma MatchingParenCase7(code: string)
    requires code == "{" + ("xxx" + "{" + ("yy" + "{" + ("" + "{" + ("" + "{" + "d" + "}" + "") + "}" + "") + "}" + "y")
      + "}" + "")
    ensures MatchingParen(code, '{', '}') == -1
  {
    var d1 := "" + "{" + "d" + "}" + "";
    var d2 := "" + "{" + d1 + "}" + "";
    var d3 := "yy" + "{" + d2 + "}" + "y";
    BraceFreeBalanced("d", '{', '}');
    BlockBalanced("", "d", "");
    BlockBalanced("", d1, "");
    BlockBalanced("yy", d2, "y");
    BlockBalanced("xxx", d3, "");
    UnclosedBlock(code, "xxx" + "{" + d3 + "}" + "");
  }

  // ---------------------------------------------------------------------
  // find_first_substructure
  // ---------------------------------------------------------------------

  /** 'char c; union bde { int x,y; } myu; } myabc;' gives (18, 29). */
  lemma SubstructureCase1(code: string)
    requires code == "char c; union bde " + "{" + " int x,y; " + "}" + " myu; } myabc;"
    ensures FirstSubstructure(code) == Ok((18, 29))
  {
    BraceFreeBalanced(" int x,y; ", '{', '}');
    FirstSubstructureOfBlock("char c; union bde ", " int x,y; ", " myu; } myabc;");
  }

  /** 'struct abc { char c; union bde { int x,y; struct xx { unsigned int
      yy; }; } myu; } myabc;' gives (11, 81). */
  lemma SubstructureCase2(code: string)
    requires code == "struct abc " + "{"
      + (" char c; union bde " + "{" + (" int x,y; struct xx " + "{" + " unsigned int yy; " + "}" + "; ") + "}" + " myu; ")
      + "}" + " myabc;"
    ensures FirstSubstructure(code) == Ok((11, 81))
  {
    var inner := " int x,y; struct xx " + "{" + " unsigned int yy; " + "}" + "; ";
    InnerBalanced();
    BlockBalanced(" char c; union bde ", inner, " myu; ");
    FirstSubstructureOfBlock("struct abc ", " char c; union bde " + "{" + inner + "}" + " myu; ", " myabc;");
  }

  // ---------------------------------------------------------------------
  // remove_comments
  //
  // Each case is proved in steps over a text left open (`tail`), so that
  // the literal pieces are only put together at the end.
  // ---------------------------------------------------------------------

  lemma PunctuationBodyPlain()
    ensures PlainBody((" abcdef1234567890" + "!@#$%^&*()-=_+[]{}" + "|;:\",.") + "/" + "<>?~`\n\r\n\r ")
  {
    var x := " abcdef1234567890" + "!@#$%^&*()-=_+[]{}" + "|;:\",.";
    assert '/' !in x && x[|x| - 1] == '.';
    SlashBody(x, "<>?~`\n\r\n\r ");
  }

  lemma CommentAlone(body: string)
    requires PlainBody(body)
    ensures RemoveComments("/*" + body + "*/") == ""
  {
    assert "/*" + body + "*/" == "" + "/*" + body + "*/" + "";
    BlockCommentThen("", body, "");
  }

  /** A block comment over several lines whose body holds every ASCII
      punctuation character, one `/` among them, leaves nothing. */
  lemma CommentCase1(code: string)
    requires code == "/*" + ((" abcdef1234567890" + "!@#$%^&*()-=_+[]{}" + "|;:\",.") + "/" + "<>?~`\n\r\n\r ") + "*/"
    ensures RemoveComments(code) == ""
  {
    PunctuationBodyPlain();
    CommentAlone((" abcdef1234567890" + "!@#$%^&*()-=_+[]{}" + "|;:\",.") + "/" + "<>?~`\n\r\n\r ");
  }

  /** 'some /*abcdef*/ code' gives 'some  code'. */
  lemma CommentCase2(code: string)
    requires code == "some " + "/*" + "abcdef" + "*/" + " code"
    ensures RemoveComments(code) == "some  code"
  {
    BlockCommentRemoved("some ", "abcdef", " code");
  }

  /** 'some /* abcdef */\ncode1' gives 'some \ncode1'. */
  lemma CommentCase3(code: string)
    requires code == "some " + "/*" + " abcdef " + "*/" + "\ncode1"
    ensures RemoveComments(code) == "some \ncode1"
  {
    BlockCommentRemoved("some ", " abcdef ", "\ncode1");
  }

  lemma SecondCommentStep(tail: string)
    requires tail == [] || tail[0] != '/'
    ensures RemoveComments("some " + "/*" + " abcdef " + "*/" + ("\n" + "/*" + "abcc" + "*/" + tail))
         == "some " + ("\n" + RemoveComments(tail))
  {
    BlockCommentThen("some ", " abcdef ", "\n" + "/*" + "abcc" + "*/" + tail);
    BlockCommentThen("\n", "abcc", tail);
  }

  lemma SecondCommentJoin()
    ensures "some " + ("\n" + "code2") == "some \ncode2"
  {
  }

  /** 'some /* abcdef */\n/*abcc*/code2' gives 'some \ncode2': the two
      comments are removed one after the other. */
  lemma CommentCase4(code: string)
    requires code == "some " + "/*" + " abcdef " + "*/" + ("\n" + "/*" + "abcc" + "*/" + "code2")
    ensures RemoveComments(code) == "some \ncode2"
  {
    SecondCommentStep("code2");
    NoSlashNoComment("code2");
    SecondCommentJoin();
  }

  /** A line comment holding every ASCII punctuation character, with no
      line feed after it, leaves nothing. */
  lemma CommentCase5(code: string)
    requires code == "//" + (" abcdef1234567890" + "!@#$%^&*()-=_+[]{}" + "|;:\",./<>?~`")
    ensures RemoveComments(code) == ""
  {
    var text := " abcdef1234567890" + "!@#$%^&*()-=_+[]{}" + "|;:\",./<>?~`";
    assert '\n' !in text;
    LineCommentToEnd(text);
  }

  /** 'some// abcdef' gives 'some'. */
  lemma CommentCase6(code: string)
    requires code == "some" + "//" + " abcdef" + ""
    ensures RemoveComments(code) == "some"
  {
    LineCommentRemoved("some", " abcdef", "");
  }

  /** '// abcdef \ncode3' gives '\ncode3'. */
  lemma CommentCase7(code: string)
    requires code == "" + "//" + " abcdef " + "\ncode3"
    ensures RemoveComments(code) == "\ncode3"
  {
    LineCommentRemoved("", " abcdef ", "\ncode3");
  }

  /** '// abcdef \r\ncode4' gives '\ncode4': the carriage return belongs to
      the comment. */
  lemma CommentCase8(code: string)
    requires code == "" + "//" + " abcdef \r" + "\ncode4"
    ensures RemoveComments(code) == "\ncode4"
  {
    LineCommentRemoved("", " abcdef \r", "\ncode4");
  }

  // ---------------------------------------------------------------------
  // remove_keywords
  // ---------------------------------------------------------------------

  /** `const`, a space and `static` in front of a text: both keywords go. */
  lemma ConstStaticStep(tail: string)
    ensures RemoveKeywords("const" + (" " + "static" + tail)) == " " + RemoveKeywords(tail)
  {
    KeywordDropped("const", " " + "static" + tail);
    KeywordThen(" ", "static", tail);
  }

  lemma UnsignedIntKept()
    ensures RemoveKeywords(" unsigned int") == " unsigned int"
  {
    var s := " unsigned int";
    assert NoKeywordAt(s, 3) && NoKeywordAt(s, 4) && NoKeywordAt(s, 7) && NoKeywordAt(s, 10);
    NoKeywordInAll(s, 0, 13);
    KeywordFreeText(s);
  }

  lemma UnsignedIntJoin()
    ensures " " + " unsigned int" == "  unsigned int"
  {
  }

  /** 'const static unsigned int' gives '  unsigned int': each keyword
      goes, the space between them stays. */
  lemma KeywordCase1(code: string)
    requires code == "const" + (" " + "static" + " unsigned int")
    ensures RemoveKeywords(code) == "  unsigned int"
  {
    ConstStaticStep(" unsigned int");
    UnsignedIntKept();
    UnsignedIntJoin();
  }

  lemma MyPtrKept()
    ensures RemoveKeywords(" void *myptr") == " void *myptr"
  {
    var s := " void *myptr";
    assert NoKeywordAt(s, 1) && NoKeywordAt(s, 3);
    NoKeywordInAll(s, 0, 12);
    KeywordFreeText(s);
  }

  lemma MyPtrJoin()
    ensures " " + " void *myptr" == "  void *myptr"
  {
  }

  /** 'const static void *myptr' gives '  void *myptr'. */
  lemma KeywordCase2(code: string)
    requires code == "const" + (" " + "static" + " void *myptr")
    ensures RemoveKeywords(code) == "  void *myptr"
  {
    ConstStaticStep(" void *myptr");
    MyPtrKept();
    MyPtrJoin();
  }

  /** `struct abc { ` has no keyword in it (`struct` is not `static`),
      whatever follows. */
  lemma StructHeadStep(tail: string)
    ensures RemoveKeywords("struct abc { " + tail) == "struct abc { " + RemoveKeywords(tail)
  {
    var s := "struct abc { ";
    assert NoKeywordAt(s, 0) && NoKeywordAt(s, 4) && NoKeywordAt(s, 5) && NoKeywordAt(s, 9);
    NoKeywordInAll(s, 0, 13);
    SpaceEndedKeywordFree(s, tail);
    KeywordFreePrefix(s, tail);
  }

  /** `const int *p; } ` loses its `const`, whatever follows. */
  lemma ConstMemberStep(tail: string)
    ensures RemoveKeywords("const" + (" int *p; } " + tail)) == " int *p; } " + RemoveKeywords(tail)
  {
    KeywordDropped("const", " int *p; } " + tail);
    PtrMemberStep(tail);
  }

  lemma PtrMemberStep(tail: string)
    ensures RemoveKeywords(" int *p; } " + tail) == " int *p; } " + RemoveKeywords(tail)
  {
    var s := " int *p; } ";
    assert NoKeywordAt(s, 1) && NoKeywordAt(s, 3);
    NoKeywordInAll(s, 0, 11);
    SpaceEndedKeywordFree(s, tail);
    KeywordFreePrefix(s, tail);
  }

  /** An attribute in front of `;` is removed up to its `))`. */
  lemma AttributeStep(inner: string)
    requires '\n' !in inner
    ensures RemoveKeywords("__attribute__((" + inner + "))" + ";") == ";"
  {
    assert ";"[..LineEnd(";", 0)] == ";";
    AttributeDropped(inner, ";");
    assert forall i :: 0 <= i < |";"| ==> !CanStart(UnusedKeyword, ";"[i]);
    SubstitutePlain(UnusedKeyword, ";", []);
    assert ";" + [] == ";";
  }

  lemma AttributeJoin()
    ensures "struct abc { " + (" int *p; } " + ";") == "struct abc {  int *p; } ;"
  {
  }

  /** 'struct abc { const int *p; } __attribute__((packed));' gives
      'struct abc {  int *p; } ;'. */
  lemma KeywordCase3(code: string)
    requires code == "struct abc { " + ("const" + (" int *p; } " + ("__attribute__((" + "packed" + "))" + ";")))
    ensures RemoveKeywords(code) == "struct abc {  int *p; } ;"
  {
    var attribute := "__attribute__((" + "packed" + "))" + ";";
    StructHeadStep("const" + (" int *p; } " + attribute));
    ConstMemberStep(attribute);
    AttributeStep("packed");
    AttributeJoin();
  }

  /** The attribute pattern is greedy: from `__attribute__((` it runs to
      the last `))` of the line, over the text between two attributes. */
  lemma AttributeGreedy(code: string)
    requires code == "__attribute__((" + "a)) x((b" + "))" + ";"
    ensures RemoveKeywords(code) == ";"
  {
    AttributeStep("a)) x((b");
  }

  // ---------------------------------------------------------------------
  // remove_spaces
  // ---------------------------------------------------------------------

  lemma SpaceRunsStep(tail: string)
    requires tail == [] || !IsSpace(tail[0])
    ensures RemoveSpaces(" " + ("testing" + "\t" + ("space" + "   " + ("regular" + "\t\n"
      + ("expression" + " \n\n" + tail)))))
         == " " + ("testing" + " " + ("space" + " " + ("regular" + " " + ("expression" + " " + RemoveSpaces(tail)))))
  {
    var t4 := "expression" + " \n\n" + tail;
    var t3 := "regular" + "\t\n" + t4;
    var t2 := "space" + "   " + t3;
    var t1 := "testing" + "\t" + t2;
    assert " " + t1 == "" + " " + t1;
    SpaceRunThen("", " ", t1);
    SpaceRunThen("testing", "\t", t2);
    SpaceRunThen("space", "   ", t3);
    SpaceRunThen("regular", "\t\n", t4);
    SpaceRunThen("expression", " \n\n", tail);
  }

  lemma SpaceRunsJoin(r: string)
    ensures " " + ("testing" + " " + ("space" + " " + ("regular" + " " + ("expression" + " " + r))))
         == " testing space regular expression " + r
  {
  }

  /** ' testing\tspace   regular\t\nexpression \n\n.' gives ' testing space
      regular expression .': every run, whatever it holds, becomes one
      space. */
  lemma SpaceCase1(code: string)
    requires code == " " + ("testing" + "\t" + ("space" + "   " + ("regular" + "\t\n"
      + ("expression" + " \n\n" + "."))))
    ensures RemoveSpaces(code) == " testing space regular expression ."
  {
    SpaceRunsStep(".");
    assert RemoveSpaces(".") == "." by {
      WhitespaceStep(".");
    }
    SpaceRunsJoin(".");
  }
}
