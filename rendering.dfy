/** Declaration lists written out in the single-space layout
    `remove_spaces` leaves behind, and what `parse_expr` makes of them. */
module Rendering {
  import opened Results
  import opened Text
  import opened StructureField
  import opened Braces
  import opened StructParser

  /** A declaration of a member: a variable of a primitive type, or a nested
      structure with its members and an optional variable (empty name for
      none); `padded` says whether a space stands before its closing brace,
      as `remove_spaces` leaves one wherever the source had whitespace
      there. */
  datatype Decl =
    | Var(varType: string, varName: string)
    | Struct(tag: string, varName: string, members: seq<Decl>, padded: bool)

  predicate IsIdentChar(c: char)
  {
    ('a' <= c <= 'z') || ('A' <= c <= 'Z') || ('0' <= c <= '9') || c == '_'
  }

  /** A C identifier: letters, digits and underscores. */
  predicate IsIdentifier(s: string)
  {
    s != [] && forall i :: 0 <= i < |s| ==> IsIdentChar(s[i])
  }

  /** Text the parser can take as a structure tag: trimmed, and free of
      `;` and braces. */
  predicate IsTag(s: string)
  {
    && s != [] && !IsSpace(s[0]) && !IsSpace(s[|s| - 1])
    && forall i :: 0 <= i < |s| ==> s[i] != ';' && s[i] != '{' && s[i] != '}'
  }

  /** Types and tags trimmed and free of `;` and braces, identifiers as
      names, at every level.  Whether a type is in the type table is not
      part of the layout: an unknown type renders like any other and is
      what `create_from_string` rejects. */
  predicate WellFormed(d: Decl)
  {
    match d
    case Var(t, n) => IsTag(t) && IsIdentifier(n)
    case Struct(tag, v, ms, _) =>
      IsTag(tag) && (v == [] || IsIdentifier(v)) && forall i :: 0 <= i < |ms| ==> WellFormed(ms[i])
  }

  predicate AllWellFormed(ds: seq<Decl>)
  {
    forall i :: 0 <= i < |ds| ==> WellFormed(ds[i])
  }

  /** A declaration with single spaces: `int x;`, or
      `struct S { <members>} s;` (`struct S { <members> } s;` when padded,
      and `struct S { <members>};` without a variable). */
  function Render(d: Decl): string
    decreases d, 0
  {
    match d
    case Var(t, n) => t + " " + n + ";"
    case Struct(tag, v, ms, p) => tag + " " + "{" + Inside(ms, p) + "}" + Named(v) + ";"
  }

  /** The variable after a structure's closing brace, one space before it,
      or nothing when the structure declares none. */
  function Named(v: string): string
  {
    if v == [] then "" else " " + v
  }

  /** The space before a padded structure's closing brace. */
  function Pad(padded: bool): string
  {
    if padded then " " else ""
  }

  /** What stands between a structure's braces: its members, and a space
      when padded. */
  function Inside(ms: seq<Decl>, padded: bool): string
    decreases ms, 1
  {
    RenderList(ms) + Pad(padded)
  }

  /** A declaration list, each declaration preceded by one space. */
  function RenderList(ds: seq<Decl>): string
    decreases ds, 0
  {
    if ds == [] then "" else " " + Render(ds[0]) + RenderList(ds[1..])
  }

  /** The name `get_struct_name` gives a structure: the tag, and the
      variable after one space when there is one. */
  function StructLabel(tag: string, v: string): string
  {
    if v == [] then tag else tag + " " + v
  }

  /** The leaf for variable `n` of type `t`, read off the two tables, or
      the TypeError for a spelling the type table lacks. */
  function LeafFor(t: string, n: string): Result<Node>
  {
    if t in CanonicalNames then
      var canon := CanonicalNames[t];
      Ok(Leaf(n, Field(n, canon, SvWidths[canon], 0)))
    else Err(UnknownType(t, n))
  }

  /** A node in front of a list of nodes, or the first failure of the two. */
  function Prepend(x: Result<Node>, xs: Result<seq<Node>>): Result<seq<Node>>
  {
    var y :- x;
    var ys :- xs;
    Ok([y] + ys)
  }

  /** The node a declaration stands for: its leaf, or a composite named by
      its label over its members' nodes; or the first unknown type met in
      reading order. */
  function Expected(d: Decl): Result<Node>
  {
    match d
    case Var(t, n) => LeafFor(t, n)
    case Struct(tag, v, ms, _) => CompositeOf(StructLabel(tag, v), ExpectedList(ms))
  }

  /** The composite named `name` over some nodes, or their failure. */
  function CompositeOf(name: string, kids: Result<seq<Node>>): Result<Node>
  {
    var ns :- kids;
    Ok(Composite(name, ns))
  }

  function ExpectedList(ds: seq<Decl>): Result<seq<Node>>
  {
    if ds == [] then Ok([]) else Prepend(Expected(ds[0]), ExpectedList(ds[1..]))
  }

  // ---------------------------------------------------------------------
  // Shape of the rendered text
  // ---------------------------------------------------------------------

  lemma IdentifierChars(n: string)
    requires IsIdentifier(n)
    ensures ';' !in n && '{' !in n && '}' !in n && ' ' !in n
    ensures !IsSpace(n[0]) && !IsSpace(n[|n| - 1])
  {
    assert IsIdentChar(n[0]) && IsIdentChar(n[|n| - 1]);
  }

  lemma TagChars(s: string)
    requires IsTag(s)
    ensures ';' !in s && '{' !in s && '}' !in s
  {
  }

  /** A rendered declaration starts with its type or tag and ends with `;`. */
  lemma RenderEnds(d: Decl)
    requires WellFormed(d)
    ensures var r := Render(d); r != [] && !IsSpace(r[0]) && r[|r| - 1] == ';'
  {
    match d
    case Var(t, n) => assert Render(d)[0] == t[0];
    case Struct(tag, v, ms, p) => assert Render(d)[0] == tag[0];
  }

  /** A rendered non-empty list ends with `;`. */
  lemma {:induction false} RenderListEnds(ds: seq<Decl>)
    requires AllWellFormed(ds) && ds != []
    ensures var r := RenderList(ds); r != [] && r[|r| - 1] == ';'
    decreases |ds|
  {
    RenderEnds(ds[0]);
    if |ds| > 1 {
      RenderListEnds(ds[1..]);
    }
  }

  /** Rendering a list is rendering its parts in turn. */
  lemma {:induction false} RenderListConcat(a: seq<Decl>, b: seq<Decl>)
    ensures RenderList(a + b) == RenderList(a) + RenderList(b)
    decreases |a|
  {
    if a == [] {
      assert a + b == b;
    } else {
      RenderListConcat(a[1..], b);
      RenderListConcatStep(a, b);
    }
  }

  /** One step of that induction: the head's text goes in front of both. */
  lemma RenderListConcatStep(a: seq<Decl>, b: seq<Decl>)
    requires a != [] && RenderList(a[1..] + b) == RenderList(a[1..]) + RenderList(b)
    ensures RenderList(a + b) == RenderList(a) + RenderList(b)
  {
    var x, r := a[0], a[1..];
    assert (a + b)[0] == x && (a + b)[1..] == r + b;
    RenderListHeadStep(a + b, x, r + b);
    RenderListHeadStep(a, x, r);
    Associate(" " + Render(x), RenderList(r), RenderList(b));
  }

  lemma Associate(h: string, t: string, u: string)
    ensures h + (t + u) == (h + t) + u
  {
  }

  /** A list with a known head and tail renders as the head after a space,
      then the tail. */
  lemma RenderListHeadStep(ds: seq<Decl>, x: Decl, r: seq<Decl>)
    requires ds != [] && ds[0] == x && ds[1..] == r
    ensures RenderList(ds) == " " + Render(x) + RenderList(r)
  {
  }

  /** A rendered non-empty list without its leading space starts and ends
      with something other than whitespace. */
  lemma TrimmedListEnds(ds: seq<Decl>)
    requires AllWellFormed(ds) && ds != []
    ensures var t := Render(ds[0]) + RenderList(ds[1..]);
      t != [] && !IsSpace(t[0]) && t[|t| - 1] == ';'
  {
    RenderEnds(ds[0]);
    if |ds| > 1 {
      RenderListEnds(ds[1..]);
    }
  }

  /** A space in front of a trimmed text, and one after it, are what
      trimming removes. */
  lemma StripSpaced(s: string, t: string)
    requires s == " " + t
    requires t != [] && !IsSpace(t[0]) && !IsSpace(t[|t| - 1])
    ensures Strip(s) == t && Strip(s + " ") == t
  {
    var e: string := [];
    assert s == " " + t + e;
    assert s + " " == " " + t + " ";
    StripPadding(" ", t, e);
    StripPadding(" ", t, " ");
  }

  /** A rendered list, trimmed, loses exactly its leading space, and a
      space after it is trimmed with it. */
  lemma StripRenderList(ds: seq<Decl>)
    requires AllWellFormed(ds) && ds != []
    ensures Strip(RenderList(ds)) == Render(ds[0]) + RenderList(ds[1..])
    ensures Strip(RenderList(ds) + " ") == Render(ds[0]) + RenderList(ds[1..])
  {
    TrimmedListEnds(ds);
    StripSpaced(RenderList(ds), Render(ds[0]) + RenderList(ds[1..]));
  }

  /** A space after a rendered list does not change its trimmed text. */
  lemma StripRenderListSpace(ds: seq<Decl>)
    requires AllWellFormed(ds)
    ensures Strip(RenderList(ds) + " ") == Strip(RenderList(ds))
  {
    if ds == [] {
      assert AllSpace(RenderList(ds) + " ");
      StripBlank(RenderList(ds) + " ");
      StripBlank(RenderList(ds));
    } else {
      StripRenderList(ds);
    }
  }

  // ---------------------------------------------------------------------
  // Braces
  // ---------------------------------------------------------------------

  /** Every brace of a rendered declaration is matched. */
  lemma {:induction false} RenderBalanced(d: Decl)
    requires WellFormed(d)
    ensures Balanced(Render(d), '{', '}')
    decreases |Render(d)|
  {
    match d
    case Var(t, n) =>
      TagChars(t);
      IdentifierChars(n);
      BraceFreeBalanced(Render(d), '{', '}');
    case Struct(tag, v, ms, p) =>
      assert |Inside(ms, p)| >= |RenderList(ms)|;
      RenderListBalanced(ms);
      StructBalanced(tag, v, ms, p);
  }

  /** A structure whose members are balanced is balanced. */
  lemma StructBalanced(tag: string, v: string, ms: seq<Decl>, p: bool)
    requires IsTag(tag) && (v == [] || IsIdentifier(v))
    requires Balanced(RenderList(ms), '{', '}')
    ensures Balanced(Render(Struct(tag, v, ms, p)), '{', '}')
  {
    BraceFreeBalanced(Pad(p), '{', '}');
    BalancedConcat(RenderList(ms), Pad(p), '{', '}');
    TagChars(tag);
    if v != [] {
      IdentifierChars(v);
    }
    var a, b, c := tag + " ", Inside(ms, p), Named(v) + ";";
    assert '{' !in c && '}' !in c;
    BlockBalanced(a, b, c);
    assert Render(Struct(tag, v, ms, p)) == a + "{" + b + "}" + c;
  }

  /** Every brace of a rendered list is matched. */
  lemma {:induction false} RenderListBalanced(ds: seq<Decl>)
    requires AllWellFormed(ds)
    ensures Balanced(RenderList(ds), '{', '}')
    decreases |RenderList(ds)|
  {
    if ds == [] {
      BraceFreeBalanced("", '{', '}');
    } else {
      RenderBalanced(ds[0]);
      RenderListBalanced(ds[1..]);
      BraceFreeBalanced(" ", '{', '}');
      BalancedConcat(" ", Render(ds[0]), '{', '}');
      BalancedConcat(" " + Render(ds[0]), RenderList(ds[1..]), '{', '}');
    }
  }

  // ---------------------------------------------------------------------
  // Lists of variables: the flat case of parse_expr
  // ---------------------------------------------------------------------

  predicate AllVars(ds: seq<Decl>)
  {
    forall i :: 0 <= i < |ds| ==> ds[i].Var?
  }

  /** `split(';')[:-1]` takes off the text before the first `;` as one piece. */
  lemma SegmentsCons(a: string, b: string)
    requires ';' !in a
    ensures Segments(a + ";" + b) == [a] + Segments(b)
  {
    var s := a + ";" + b;
    IndexOfAcross([], a, ';', b);
    assert [] + a + [';'] + b == s;
    assert s[..|a|] == a && s[|a| + 1..] == b;
    var parts := Split(b, ';');
    assert Split(s, ';') == [a] + parts;
    assert ([a] + parts)[..|parts|] == [a] + parts[..|parts| - 1];
  }

  /** A declaration `t n`, with or without blanks before it, is what the
      tables make of type `t` and variable `n`. */
  lemma VarLeaf(x: string, lead: string, t: string, n: string)
    requires x == lead + (t + " " + n) && AllSpace(lead)
    requires IsTag(t) && IsIdentifier(n)
    ensures CreateFromString(x) == LeafFor(t, n)
  {
    IdentifierChars(n);
    var e: string := [];
    assert x == lead + (t + " " + n) + e;
    StripPadding(lead, t + " " + n, e);
    if t in CanonicalNames {
      CreateFromDeclaration(x, t, n);
    } else {
      CreateFromUnknownDeclaration(x, t, n);
    }
  }

  lemma MapAllCons(x: string, xs: seq<string>)
    ensures MapAll(CreateFromString, [x] + xs) ==
      Prepend(CreateFromString(x), MapAll(CreateFromString, xs))
  {
    assert ([x] + xs)[0] == x && ([x] + xs)[1..] == xs;
  }

  /** The declaration text of the first variable of a list. */
  function HeadText(vs: seq<Decl>): string
    requires vs != [] && vs[0].Var?
  {
    vs[0].varType + " " + vs[0].varName
  }

  /** The first variable of a rendered list ends the first piece and holds
      no `;` or brace. */
  lemma VarHead(vs: seq<Decl>)
    requires AllWellFormed(vs) && AllVars(vs) && vs != []
    ensures RenderList(vs) == (" " + HeadText(vs)) + ";" + RenderList(vs[1..])
    ensures ';' !in " " + HeadText(vs) && ';' !in HeadText(vs)
    ensures '{' !in Render(vs[0]) && '}' !in Render(vs[0])
  {
    TagChars(vs[0].varType);
    IdentifierChars(vs[0].varName);
  }

  /** The first variable of a list, after a space, stands for its node. */
  lemma HeadLeaf(vs: seq<Decl>)
    requires AllWellFormed(vs) && AllVars(vs) && vs != []
    ensures CreateFromString(" " + HeadText(vs)) == Expected(vs[0])
  {
    VarLeaf(" " + HeadText(vs), " ", vs[0].varType, vs[0].varName);
  }

  /** The first variable of a list stands for its node. */
  lemma TrimmedHeadLeaf(vs: seq<Decl>)
    requires AllWellFormed(vs) && AllVars(vs) && vs != []
    ensures CreateFromString(HeadText(vs)) == Expected(vs[0])
  {
    VarLeaf(HeadText(vs), "", vs[0].varType, vs[0].varName);
  }

  /** The declarations of a list of variables, each after a space. */
  function PaddedTexts(vs: seq<Decl>): seq<string>
    requires AllVars(vs)
  {
    if vs == [] then [] else [" " + HeadText(vs)] + PaddedTexts(vs[1..])
  }

  /** `split(';')[:-1]` cuts a rendered list of variables into its
      declarations. */
  lemma {:induction false} VarSegments(vs: seq<Decl>)
    requires AllWellFormed(vs) && AllVars(vs)
    ensures Segments(RenderList(vs)) == PaddedTexts(vs)
    decreases |vs|
  {
    if vs == [] {
      assert Split("", ';') == [""];
    } else {
      VarHead(vs);
      SegmentsCons(" " + HeadText(vs), RenderList(vs[1..]));
      VarSegments(vs[1..]);
    }
  }

  /** The declarations of a list of variables become their nodes, or the
      TypeError of the first unknown type. */
  lemma {:induction false} VarLeaves(vs: seq<Decl>)
    requires AllWellFormed(vs) && AllVars(vs)
    ensures MapAll(CreateFromString, PaddedTexts(vs)) == ExpectedList(vs)
    decreases |vs|
  {
    if vs != [] {
      VarLeaves(vs[1..]);
      MapAllCons(" " + HeadText(vs), PaddedTexts(vs[1..]));
      HeadLeaf(vs);
    }
  }

  /** A rendered list of variables has no braces. */
  lemma {:induction false} VarsBraceFree(vs: seq<Decl>)
    requires AllWellFormed(vs) && AllVars(vs)
    ensures '{' !in RenderList(vs) && '}' !in RenderList(vs)
    decreases |vs|
  {
    if vs != [] {
      VarHead(vs);
      VarsBraceFree(vs[1..]);
    }
  }

  /** The trimmed text of a non-empty rendered list of variables: the
      first declaration, its `;`, and the rest, with no brace. */
  lemma TrimmedVars(vs: seq<Decl>)
    requires AllWellFormed(vs) && AllVars(vs) && vs != []
    ensures Strip(RenderList(vs)) == HeadText(vs) + ";" + RenderList(vs[1..])
    ensures '{' !in Strip(RenderList(vs)) && '}' !in Strip(RenderList(vs))
  {
    VarsBraceFree(vs[1..]);
    VarHead(vs);
    StripRenderList(vs);
  }

  /** `split(';')[:-1]` cuts the trimmed text of a rendered list of
      variables into its declarations, the first without its space. */
  lemma TrimmedSegments(vs: seq<Decl>)
    requires AllWellFormed(vs) && AllVars(vs) && vs != []
    ensures Segments(Strip(RenderList(vs))) == [HeadText(vs)] + PaddedTexts(vs[1..])
  {
    TrimmedVars(vs);
    VarHead(vs);
    SegmentsCons(HeadText(vs), RenderList(vs[1..]));
    VarSegments(vs[1..]);
  }

  /** The trimmed declarations of a list of variables become their nodes. */
  lemma TrimmedLeaves(vs: seq<Decl>)
    requires AllWellFormed(vs) && AllVars(vs) && vs != []
    ensures MapAll(CreateFromString, [HeadText(vs)] + PaddedTexts(vs[1..])) == ExpectedList(vs)
  {
    VarLeaves(vs[1..]);
    MapAllCons(HeadText(vs), PaddedTexts(vs[1..]));
    TrimmedHeadLeaf(vs);
  }

  /** Text that trims to a rendered list of variables parses to their
      leaves in order, or to the TypeError of the first unknown type. */
  lemma ParseVars(code: string, vs: seq<Decl>)
    requires AllWellFormed(vs) && AllVars(vs)
    requires Strip(code) == Strip(RenderList(vs))
    ensures Parse(code) == ExpectedList(vs)
  {
    if vs == [] {
      StripBlank(RenderList(vs));
      StripBlank(code);
      ParseBlank(code);
    } else {
      TrimmedVars(vs);
      ParseFlat(code);
      TrimmedSegments(vs);
      TrimmedLeaves(vs);
    }
  }

  // ---------------------------------------------------------------------
  // Nested structures: the recursive case of parse_expr
  // ---------------------------------------------------------------------

  /** The first nested structure of a list that is not all variables. */
  lemma {:induction false} FirstStruct(ds: seq<Decl>) returns (k: nat)
    requires !AllVars(ds)
    ensures k < |ds| && ds[k].Struct? && AllVars(ds[..k])
    decreases |ds|
  {
    if ds[0].Struct? {
      k := 0;
    } else {
      var j := FirstStruct(ds[1..]);
      k := j + 1;
      forall i | 0 <= i < k
        ensures ds[..k][i].Var?
      {
        if i > 0 {
          assert ds[..k][i] == ds[1..][..j][i - 1];
        }
      }
    }
  }

  /** A rendered list around its `k`-th declaration. */
  lemma RenderSplit(ds: seq<Decl>, k: nat)
    requires k < |ds|
    ensures RenderList(ds) == RenderList(ds[..k]) + (" " + Render(ds[k])) + RenderList(ds[k + 1..])
  {
    assert ds[..k] + ds[k..] == ds;
    RenderListConcat(ds[..k], ds[k..]);
    RenderFrom(ds, k);
    var a, x, c := RenderList(ds[..k]), " " + Render(ds[k]), RenderList(ds[k + 1..]);
    assert a + (x + c) == (a + x) + c;
  }

  lemma RenderFrom(ds: seq<Decl>, k: nat)
    requires k < |ds|
    ensures RenderList(ds[k..]) == " " + Render(ds[k]) + RenderList(ds[k + 1..])
  {
    assert ds[k..][0] == ds[k] && ds[k..][1..] == ds[k + 1..];
  }

  /** The space `remove_spaces` leaves before a structure that follows
      other declarations; none at the start of the text. */
  function Lead(vs: seq<Decl>): string
  {
    if vs == [] then "" else " "
  }

  /** The `k`-th declaration of a list and the rendered list after it,
      as text trimming leaves unchanged at its end. */
  lemma TailEnds(ds: seq<Decl>, k: nat)
    requires AllWellFormed(ds) && k < |ds|
    ensures var t := Render(ds[k]) + RenderList(ds[k + 1..]);
      t != [] && !IsSpace(t[0]) && !IsSpace(t[|t| - 1])
  {
    if k + 1 < |ds| {
      RenderListEnds(ds[k + 1..]);
    }
    RenderEnds(ds[k]);
  }

  /** The declarations before the `k`-th are well formed. */
  lemma PrefixWellFormed(ds: seq<Decl>, k: nat)
    requires AllWellFormed(ds) && k <= |ds|
    ensures AllWellFormed(ds[..k])
  {
    assert forall i :: 0 <= i < k ==> ds[..k][i] == ds[i];
  }

  /** A rendered non-empty list is its first declaration and the rest
      after one space. */
  lemma RenderListHead(vs: seq<Decl>)
    requires vs != []
    ensures RenderList(vs) == " " + (Render(vs[0]) + RenderList(vs[1..]))
  {
  }

  /** Trimming a rendered list around its `k`-th declaration removes the
      leading space alone. */
  lemma TrimmedSplit(ds: seq<Decl>, k: nat)
    requires AllWellFormed(ds) && k < |ds|
    ensures Strip(RenderList(ds[..k]) + (" " + Render(ds[k])) + RenderList(ds[k + 1..])) ==
      Strip(RenderList(ds[..k])) + Lead(ds[..k]) + Render(ds[k]) + RenderList(ds[k + 1..])
  {
    var vs := ds[..k];
    TailEnds(ds, k);
    if k == 0 {
      TrimmedAlone(RenderList(vs), Render(ds[k]), RenderList(ds[k + 1..]));
    } else {
      PrefixWellFormed(ds, k);
      RenderListHead(vs);
      TrimmedListEnds(vs);
      StripRenderList(vs);
      TrimmedAfter(RenderList(vs), Render(vs[0]) + RenderList(vs[1..]), Render(ds[k]), RenderList(ds[k + 1..]));
    }
  }

  /** A space before trimmed text at the start is trimmed away. */
  lemma TrimmedAlone(e: string, x: string, y: string)
    requires e == []
    requires x + y != [] && !IsSpace((x + y)[0]) && !IsSpace((x + y)[|x + y| - 1])
    ensures Strip(e + (" " + x) + y) == Strip(e) + "" + x + y
  {
    assert AllSpace(e);
    StripBlank(e);
    assert Strip(e) + "" + x + y == x + y;
    assert e + (" " + x) + y == " " + (x + y);
    StripSpaced(" " + (x + y), x + y);
  }

  /** A space between two trimmed texts, after a space, stays. */
  lemma TrimmedAfter(r: string, t: string, x: string, y: string)
    requires r == " " + t && Strip(r) == t
    requires t != [] && !IsSpace(t[0])
    requires x + y != [] && !IsSpace((x + y)[|x + y| - 1])
    ensures Strip(r + (" " + x) + y) == Strip(r) + " " + x + y
  {
    var u := t + " " + x + y;
    assert r + (" " + x) + y == " " + u;
    assert u[|u| - 1] == (x + y)[|x + y| - 1];
    StripSpaced(" " + u, u);
  }

  /** The trimmed text of a rendered list of variables is empty or ends
      with `;`, and has no brace. */
  lemma PreEnds(vs: seq<Decl>)
    requires AllWellFormed(vs) && AllVars(vs)
    ensures var p := Strip(RenderList(vs));
      (p == [] || p[|p| - 1] == ';') && '{' !in p && '}' !in p
  {
    if vs == [] {
      StripBlank(RenderList(vs));
    } else {
      RenderListLast(vs[1..]);
      SemiLast(HeadText(vs), RenderList(vs[1..]));
      TrimmedVars(vs);
    }
  }

  /** A rendered list is empty or ends with `;`. */
  lemma RenderListLast(ds: seq<Decl>)
    requires AllWellFormed(ds)
    ensures RenderList(ds) == [] || RenderList(ds)[|RenderList(ds)| - 1] == ';'
  {
    if ds != [] {
      RenderListEnds(ds);
    }
  }

  lemma SemiLast(h: string, r: string)
    requires r == [] || r[|r| - 1] == ';'
    ensures var p := h + ";" + r; p[|p| - 1] == ';'
  {
  }

  /** The variables before a structure parse on their own. */
  lemma ParsePre(vs: seq<Decl>)
    requires AllWellFormed(vs) && AllVars(vs)
    ensures Parse(Strip(RenderList(vs))) == ExpectedList(vs)
  {
    StripIdempotent(RenderList(vs));
    ParseVars(Strip(RenderList(vs)), vs);
  }

  /** The name `get_struct_name` reads around a rendered structure's braces. */
  lemma LabelOf(lead: string, tag: string, v: string)
    requires lead == [] || lead == " "
    requires IsTag(tag) && (v == [] || IsIdentifier(v))
    ensures Strip((lead + tag) + Named(v)) == StructLabel(tag, v)
  {
    var e: string := [];
    if v == [] {
      assert (lead + tag) + Named(v) == lead + tag + e;
      StripPadding(lead, tag, e);
    } else {
      IdentifierChars(v);
      assert (lead + tag) + Named(v) == lead + (tag + " " + v) + e;
      StripPadding(lead, tag + " " + v, e);
    }
  }

  /** The layout `get_struct_name` and `find_first_substructure` see in a
      rendered structure. */
  lemma BlockLayout(c: string, pre: string, lead: string, d: Decl, post: string)
    requires d.Struct? && c == pre + lead + Render(d) + post
    ensures c == pre + (lead + d.tag) + [' '] + "{" + Inside(d.members, d.padded) + "}" + Named(d.varName) + ";" + post
  {
  }

  /** A structure after some variables and before more declarations: the
      parser takes the variables, the members and what follows apart and
      names the structure by its label. */
  lemma ParseBlockAt(code: string, pre: string, lead: string, d: Decl, post: string)
    requires Strip(code) == pre + lead + Render(d) + post
    requires pre == [] || pre[|pre| - 1] == ';'
    requires '{' !in pre && '}' !in pre
    requires lead == [] || lead == " "
    requires d.Struct? && WellFormed(d)
    ensures Parse(code) == Assemble(StructLabel(d.tag, d.varName), Parse(pre), Parse(RenderList(d.members)), Parse(post))
  {
    var c := Strip(code);
    var tag, v, body := d.tag, d.varName, Inside(d.members, d.padded);
    BlockLayout(c, pre, lead, d, post);
    TagChars(tag);
    if v != [] {
      IdentifierChars(v);
    }
    assert ';' !in lead + tag && ';' !in Named(v);
    assert '{' !in pre + (lead + tag) + [' '] && '}' !in pre + (lead + tag) + [' '];
    RenderListBalanced(d.members);
    BraceFreeBalanced(Pad(d.padded), '{', '}');
    BalancedConcat(RenderList(d.members), Pad(d.padded), '{', '}');
    ParseOfBlock(code, c, pre, lead + tag, ' ', body, Named(v), post,
      |pre| + |lead + tag| + 1, |pre| + |lead + tag| + 1 + |body| + 1);
    LabelOf(lead, tag, v);
    InsideParse(d.members, d.padded);
  }

  /** A list whose first structure is its `k`-th declaration parses as the
      variables before it, the structure's members and the declarations
      after it, assembled around a composite named by the structure's
      label. */
  lemma StructStep(ds: seq<Decl>, k: nat)
    requires AllWellFormed(ds) && k < |ds| && ds[k].Struct? && AllVars(ds[..k])
    ensures |RenderList(ds[k].members)| < |RenderList(ds)| && |RenderList(ds[k + 1..])| < |RenderList(ds)|
    ensures Parse(RenderList(ds)) ==
      Assemble(StructLabel(ds[k].tag, ds[k].varName), ExpectedList(ds[..k]),
               Parse(RenderList(ds[k].members)), Parse(RenderList(ds[k + 1..])))
  {
    var vs, d, rest := ds[..k], ds[k], ds[k + 1..];
    RenderShrinks(ds, k);
    TrimmedSplit(ds, k);
    PreEnds(vs);
    ParseBlockAt(RenderList(ds), Strip(RenderList(vs)), Lead(vs), d, RenderList(rest));
    ParsePre(vs);
  }

  /** The text the parser isolates between a structure's braces
      parses as its members: `parse_expr` trims it first. */
  lemma InsideParse(ms: seq<Decl>, padded: bool)
    requires AllWellFormed(ms)
    ensures Parse(Inside(ms, padded)) == Parse(RenderList(ms))
  {
    if padded {
      StripRenderListSpace(ms);
      ParseSameStrip(Inside(ms, padded), RenderList(ms));
    } else {
      assert Pad(padded) == [];
      assert Inside(ms, padded) == RenderList(ms);
    }
  }

  /** The members of a structure and the declarations after it render
      shorter than the whole list. */
  lemma RenderShrinks(ds: seq<Decl>, k: nat)
    requires k < |ds| && ds[k].Struct?
    ensures |RenderList(ds[k].members)| < |RenderList(ds)| && |RenderList(ds[k + 1..])| < |RenderList(ds)|
    ensures RenderList(ds) == RenderList(ds[..k]) + (" " + Render(ds[k])) + RenderList(ds[k + 1..])
  {
    RenderSplit(ds, k);
    var d := ds[k];
    assert |Render(d)| > |RenderList(d.members)|;
  }

  /** Two results of lists, joined, or the first failure of the two. */
  function Join2(x: Result<seq<Node>>, y: Result<seq<Node>>): Result<seq<Node>>
  {
    var p :- x;
    var q :- y;
    Ok(p + q)
  }

  /** The nodes of a concatenation are the nodes of its parts, in order,
      and a failure is the first one. */
  lemma {:induction false} ExpectedListConcat(a: seq<Decl>, b: seq<Decl>)
    ensures ExpectedList(a + b) == Join2(ExpectedList(a), ExpectedList(b))
    decreases |a|
  {
    if a == [] {
      assert a + b == b;
      if ExpectedList(b).Ok? {
        assert [] + ExpectedList(b).value == ExpectedList(b).value;
      }
    } else {
      ExpectedListConcat(a[1..], b);
      assert (a + b)[0] == a[0] && (a + b)[1..] == a[1..] + b;
      var e, r := Expected(a[0]), ExpectedList(a[1..]);
      if e.Ok? && r.Ok? && ExpectedList(b).Ok? {
        assert [e.value] + (r.value + ExpectedList(b).value) == ([e.value] + r.value) + ExpectedList(b).value;
      }
    }
  }

  /** The expected nodes of a list from its `k`-th declaration on. */
  lemma ExpectedFrom(ds: seq<Decl>, k: nat)
    requires k < |ds|
    ensures ExpectedList(ds[k..]) == Prepend(Expected(ds[k]), ExpectedList(ds[k + 1..]))
  {
    assert ds[k..][0] == ds[k] && ds[k..][1..] == ds[k + 1..];
  }

  /** `Assemble` in terms of the expected results of the three parts. */
  lemma AssembleJoin(name: string, f: Result<seq<Node>>, b: Result<seq<Node>>, a: Result<seq<Node>>)
    ensures Assemble(name, f, b, a) == Join2(f, Prepend(CompositeOf(name, b), a))
  {
    if f.Ok? && b.Ok? && a.Ok? {
      var node := Composite(name, b.value);
      assert f.value + [node] + a.value == f.value + ([node] + a.value);
    }
  }

  /** The node a structure declaration stands for. */
  lemma ExpectedStruct(d: Decl)
    requires d.Struct?
    ensures Expected(d) == CompositeOf(StructLabel(d.tag, d.varName), ExpectedList(d.members))
  {
  }

  /** What the parser assembles around the first structure is the
      expected result of the whole list. */
  lemma AssembleExpected(ds: seq<Decl>, k: nat)
    requires k < |ds| && ds[k].Struct?
    ensures Assemble(StructLabel(ds[k].tag, ds[k].varName), ExpectedList(ds[..k]),
                     ExpectedList(ds[k].members), ExpectedList(ds[k + 1..])) == ExpectedList(ds)
  {
    var d := ds[k];
    ExpectedTail(ds, k);
    ExpectedSplit(ds, k);
    AssembleOfParts(StructLabel(d.tag, d.varName), ExpectedList(ds[..k]), ExpectedList(d.members),
                    ExpectedList(ds[k + 1..]), ExpectedList(ds[k..]), ExpectedList(ds));
  }

  /** The expected nodes from the first structure on: its composite, then
      the nodes of the declarations after it. */
  lemma ExpectedTail(ds: seq<Decl>, k: nat)
    requires k < |ds| && ds[k].Struct?
    ensures ExpectedList(ds[k..]) ==
      Prepend(CompositeOf(StructLabel(ds[k].tag, ds[k].varName), ExpectedList(ds[k].members)), ExpectedList(ds[k + 1..]))
  {
    ExpectedFrom(ds, k);
    ExpectedStruct(ds[k]);
  }

  /** The expected nodes of a list cut at `k`. */
  lemma ExpectedSplit(ds: seq<Decl>, k: nat)
    requires k <= |ds|
    ensures ExpectedList(ds) == Join2(ExpectedList(ds[..k]), ExpectedList(ds[k..]))
  {
    var a, b := ds[..k], ds[k..];
    assert a + b == ds;
    ExpectedListConcat(a, b);
  }

  /** `Assemble` gives the joined result once the tail is known. */
  lemma AssembleOfParts(name: string, first: Result<seq<Node>>, fields: Result<seq<Node>>, rest: Result<seq<Node>>,
                        tail: Result<seq<Node>>, whole: Result<seq<Node>>)
    requires tail == Prepend(CompositeOf(name, fields), rest) && whole == Join2(first, tail)
    ensures Assemble(name, first, fields, rest) == whole
  {
    AssembleJoin(name, first, fields, rest);
  }

  /** `parse_expr` on a rendered declaration list yields exactly the nodes
      the declarations stand for, in order and nested as written, or the
      TypeError of the first unknown type in reading order. */
  lemma {:induction false} ParseRender(ds: seq<Decl>)
    requires AllWellFormed(ds)
    ensures Parse(RenderList(ds)) == ExpectedList(ds)
    decreases |RenderList(ds)|
  {
    if AllVars(ds) {
      ParseVars(RenderList(ds), ds);
    } else {
      var k := FirstStruct(ds);
      StructStep(ds, k);
      ParseRender(ds[k].members);
      ParseRender(ds[k + 1..]);
      AssembleExpected(ds, k);
    }
  }

  // ---------------------------------------------------------------------
  // The example in the documentation of parse_expr
  // ---------------------------------------------------------------------

  /** The inner structure of that example. */
  function XyzDecl(): Decl
  {
    Struct("struct XYZ", "myXYZ", [Var("int", "b"), Var("char", "y")], true)
  }

  /** The structure in the documentation of `parse_expr`:
      struct ABC { char c; struct XYZ { int b; char y; } myXYZ; int l; } myABC; */
  function AbcDecl(): Decl
  {
    Struct("struct ABC", "myABC", [Var("char", "c"), XyzDecl(), Var("int", "l")], true)
  }

  /** The leaves for `char` and `int` variables. */
  function CharLeaf(n: string): Node { Leaf(n, Field(n, "s8", 8, 0)) }
  function IntLeaf(n: string): Node { Leaf(n, Field(n, "s32", 32, 0)) }

  /** `char` is an 8-bit signed tag and `int` a 32-bit one. */
  lemma LeafExamples(n: string)
    ensures LeafFor("char", n) == Ok(CharLeaf(n)) && LeafFor("int", n) == Ok(IntLeaf(n))
  {
  }

  lemma XyzWellFormed()
    ensures WellFormed(XyzDecl())
  {
    assert IsTag("int") && IsTag("char") && IsIdentifier("b") && IsIdentifier("y");
    assert IsTag("struct XYZ") && IsIdentifier("myXYZ");
  }

  lemma AbcWellFormed()
    ensures AllWellFormed([AbcDecl()])
  {
    XyzWellFormed();
    assert IsTag("char") && IsTag("int") && IsIdentifier("c") && IsIdentifier("l");
    assert IsTag("struct ABC") && IsIdentifier("myABC");
    assert WellFormed(AbcDecl());
  }

  /** The nodes of a list with a known head and tail. */
  lemma ExpectedCons(d: Decl, ds: seq<Decl>, n: Node, ns: seq<Node>)
    requires Expected(d) == Ok(n) && ExpectedList(ds) == Ok(ns)
    ensures ExpectedList([d] + ds) == Ok([n] + ns)
  {
    assert ([d] + ds)[0] == d && ([d] + ds)[1..] == ds;
  }

  /** The nodes of a one-element list. */
  lemma ExpectedOne(d: Decl)
    requires Expected(d).Ok?
    ensures ExpectedList([d]) == Ok([Expected(d).value])
  {
    var ds := [d];
    assert ds[0] == d && ds[1..] == [];
    assert [Expected(d).value] + [] == [Expected(d).value];
  }

  lemma XyzExpected()
    ensures Expected(XyzDecl()) == Ok(Composite("struct XYZ myXYZ", [IntLeaf("b"), CharLeaf("y")]))
  {
    LeafExamples("b");
    LeafExamples("y");
    ExpectedOne(Var("char", "y"));
    ExpectedCons(Var("int", "b"), [Var("char", "y")], IntLeaf("b"), [CharLeaf("y")]);
    assert XyzDecl().members == [Var("int", "b")] + [Var("char", "y")];
    assert [IntLeaf("b")] + [CharLeaf("y")] == [IntLeaf("b"), CharLeaf("y")];
    assert StructLabel("struct XYZ", "myXYZ") == "struct XYZ myXYZ";
  }

  lemma AbcMembersExpected()
    ensures ExpectedList(AbcDecl().members) ==
      Ok([CharLeaf("c"), Composite("struct XYZ myXYZ", [IntLeaf("b"), CharLeaf("y")]), IntLeaf("l")])
  {
    var xyz := Composite("struct XYZ myXYZ", [IntLeaf("b"), CharLeaf("y")]);
    LeafExamples("c");
    LeafExamples("l");
    XyzExpected();
    ExpectedOne(Var("int", "l"));
    ExpectedCons(XyzDecl(), [Var("int", "l")], xyz, [IntLeaf("l")]);
    ExpectedCons(Var("char", "c"), [XyzDecl()] + [Var("int", "l")], CharLeaf("c"), [xyz] + [IntLeaf("l")]);
    assert AbcDecl().members == [Var("char", "c")] + ([XyzDecl()] + [Var("int", "l")]);
    assert [CharLeaf("c")] + ([xyz] + [IntLeaf("l")]) == [CharLeaf("c"), xyz, IntLeaf("l")];
  }

  lemma AbcExpected()
    ensures ExpectedList([AbcDecl()]) == Ok([Composite("struct ABC myABC",
      [CharLeaf("c"), Composite("struct XYZ myXYZ", [IntLeaf("b"), CharLeaf("y")]), IntLeaf("l")])])
  {
    AbcMembersExpected();
    assert StructLabel("struct ABC", "myABC") == "struct ABC myABC";
    ExpectedOne(AbcDecl());
  }

  /** A list of three declarations, written out. */
  lemma RenderThree(a: Decl, b: Decl, c: Decl)
    ensures RenderList([a, b, c]) == " " + Render(a) + (" " + Render(b) + (" " + Render(c)))
  {
    var ds := [a, b, c];
    assert ds[1..] == [b, c] && ds[1..][1..] == [c] && ds[1..][1..][1..] == [];
    assert RenderList([c]) == " " + Render(c) + "";
    assert " " + Render(c) + "" == " " + Render(c);
    assert RenderList([b, c]) == " " + Render(b) + (" " + Render(c));
  }

  /** A padded structure, written out: `tag { members } v;`, or
      `tag { members };` without a variable. */
  lemma PaddedText(tag: string, v: string, ms: seq<Decl>)
    ensures v != [] ==> Render(Struct(tag, v, ms, true)) == tag + " {" + RenderList(ms) + " } " + v + ";"
    ensures v == [] ==> Render(Struct(tag, v, ms, true)) == tag + " {" + RenderList(ms) + " };"
  {
    var r := RenderList(ms);
    assert Inside(ms, true) == r + " ";
    assert Render(Struct(tag, v, ms, true)) == tag + " " + "{" + (r + " ") + "}" + Named(v) + ";";
    PaddedJoin(tag, v, r);
  }

  lemma PaddedJoin(tag: string, v: string, r: string)
    ensures v != [] ==> tag + " " + "{" + (r + " ") + "}" + Named(v) + ";" == tag + " {" + r + " } " + v + ";"
    ensures v == [] ==> tag + " " + "{" + (r + " ") + "}" + Named(v) + ";" == tag + " {" + r + " };"
  {
    if v == [] {
      assert Named(v) == [];
    } else {
      assert Named(v) == " " + v;
    }
  }

  lemma XyzJoin()
    ensures "struct XYZ" + " {" + (" " + ("int" + " " + "b" + ";") + (" " + ("char" + " " + "y" + ";"))) + " } " + "myXYZ" + ";"
         == "struct XYZ { int b; char y; } myXYZ;"
  {
  }

  /** The inner structure, written out. */
  lemma XyzText()
    ensures Render(XyzDecl()) == "struct XYZ { int b; char y; } myXYZ;"
  {
    var b, y := Var("int", "b"), Var("char", "y");
    PaddedText("struct XYZ", "myXYZ", [b, y]);
    assert [b, y][1..] == [y] && [y][1..] == [];
    assert RenderList([y]) == " " + Render(y) + "" == " " + Render(y);
    assert RenderList([b, y]) == " " + Render(b) + (" " + Render(y));
    XyzJoin();
  }

  lemma AbcJoin(x: string)
    ensures "struct ABC" + " {" + (" " + ("char" + " " + "c" + ";") + (" " + x + (" " + ("int" + " " + "l" + ";")))) + " } " + "myABC" + ";"
         == "struct ABC { char c; " + x + " int l; } myABC;"
  {
  }

  /** The outer structure, written out around the inner one. */
  lemma AbcText()
    ensures Render(AbcDecl()) == "struct ABC { char c; " + Render(XyzDecl()) + " int l; } myABC;"
  {
    var c, l := Var("char", "c"), Var("int", "l");
    PaddedText("struct ABC", "myABC", [c, XyzDecl(), l]);
    RenderThree(c, XyzDecl(), l);
    AbcJoin(Render(XyzDecl()));
  }

  /** A text with no whitespace at either end is its own trimmed text. */
  lemma Trimmed(t: string)
    requires t != [] && !IsSpace(t[0]) && !IsSpace(t[|t| - 1])
    ensures Strip(t) == t
  {
    var e: string := [];
    assert t == e + t + e;
    StripPadding(e, t, e);
  }

  /** The declaration in the documentation of `parse_expr`, exactly as
      written there, parses to one composite "struct ABC myABC" holding the
      leaf c, the composite "struct XYZ myXYZ" with the leaves b and y, and
      the leaf l. */
  lemma DocstringExample(code: string)
    requires code == "struct ABC { char c; " + "struct XYZ { int b; char y; } myXYZ;" + " int l; } myABC;"
    ensures Parse(code) == Ok([Composite("struct ABC myABC",
      [CharLeaf("c"), Composite("struct XYZ myXYZ", [IntLeaf("b"), CharLeaf("y")]), IntLeaf("l")])])
  {
    AbcWellFormed();
    AbcExpected();
    ParseRender([AbcDecl()]);
    AbcText();
    XyzText();
    StripRenderList([AbcDecl()]);
    assert [AbcDecl()][1..] == [];
    RenderEnds(AbcDecl());
    Trimmed(code);
    ParseSameStrip(code, RenderList([AbcDecl()]));
  }

  // ---------------------------------------------------------------------
  // A structure that declares no variable
  // ---------------------------------------------------------------------

  /** The innermost structure of the parser's test declarations:
      struct xx { unsigned int yy; }; */
  function XxDecl(): Decl
  {
    Struct("struct xx", "", [Var("unsigned int", "yy")], true)
  }

  /** The leaf for an `unsigned int` variable. */
  function UintLeaf(n: string): Node { Leaf(n, Field(n, "u32", 32, 0)) }

  lemma XxWellFormed()
    ensures AllWellFormed([XxDecl()])
  {
    assert IsTag("unsigned int") && IsIdentifier("yy") && IsTag("struct xx");
    assert WellFormed(XxDecl());
  }

  lemma XxExpected()
    ensures ExpectedList([XxDecl()]) == Ok([Composite("struct xx", [UintLeaf("yy")])])
  {
    assert LeafFor("unsigned int", "yy") == Ok(UintLeaf("yy"));
    ExpectedOne(Var("unsigned int", "yy"));
    assert StructLabel("struct xx", "") == "struct xx";
    ExpectedOne(XxDecl());
  }

  lemma XxJoin()
    ensures "struct xx" + " {" + (" " + ("unsigned int" + " " + "yy" + ";") + "") + " };"
         == "struct xx { unsigned int yy; };"
  {
  }

  /** A structure without a variable is written with its `;` right after
      the closing brace. */
  lemma XxText()
    ensures Render(XxDecl()) == "struct xx { unsigned int yy; };"
  {
    var y := Var("unsigned int", "yy");
    PaddedText("struct xx", "", [y]);
    assert [y][1..] == [];
    assert RenderList([y]) == " " + Render(y) + "";
    XxJoin();
  }

  /** `struct xx { unsigned int yy; };`, as it stands in the parser's test
      declarations, parses to one composite named by its tag alone, holding
      a 32-bit unsigned leaf yy. */
  lemma NamelessExample(code: string)
    requires code == "struct xx { unsigned int yy; };"
    ensures Parse(code) == Ok([Composite("struct xx", [UintLeaf("yy")])])
  {
    XxWellFormed();
    XxExpected();
    ParseRender([XxDecl()]);
    XxText();
    StripRenderList([XxDecl()]);
    assert [XxDecl()][1..] == [];
    RenderEnds(XxDecl());
    Trimmed(code);
    ParseSameStrip(code, RenderList([XxDecl()]));
  }
}
