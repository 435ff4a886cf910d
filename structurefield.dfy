/** A leaf declaration `"<type> <name>"` turned into a field with a canonical
    primitive type and its bit width (src/structurefield.py). */
module StructureField {
  import opened Results
  import opened Text

  /** Bit width of each canonical tag (the `__sv_widths` table). */
  const SvWidths: map<string, nat> := map[
    "s8" := 8, "u8" := 8,
    "s16" := 16, "u16" := 16,
    "s32" := 32, "u32" := 32,
    "s64" := 64, "u64" := 64]

  /** Canonical tag of each recognised type spelling (the `__canonical_names`
      dict literal, entry for entry).  As in the source, the key
      "unsigned short" occurs twice; a map display keeps the later entry. */
  const CanonicalNames: map<string, string> := map[
    "s8" := "s8",
    "char" := "s8",
    "int8_t" := "s8",

    "u8" := "u8",
    "unsigned char" := "u8",
    "unsigned short" := "u8",
    "uint8_t" := "u8",

    "s16" := "s16",
    "int16_t" := "s16",
    "short" := "s16",
    "short int" := "s16",

    "u16" := "u16",
    "uint16_t" := "u16",
    "unsigned short" := "u16",
    "unsigned short int" := "u16",

    "s32" := "s32",
    "int32_t" := "s32",
    "int" := "s32",

    "u32" := "u32",
    "uint32_t" := "u32",
    "unsigned int" := "u32",

    "s64" := "s64",
    "int64_t" := "s64",
    "long" := "s64",
    "long int" := "s64",
    "long long" := "s64",
    "long long int" := "s64",

    "u64" := "u64",
    "uint64_t" := "u64",
    "unsigned long" := "u64",
    "unsigned long int" := "u64",
    "unsigned long long" := "u64",
    "unsigned long long int" := "u64"]

  /** A `StructureField` object: the variable, its canonical tag, its width
      and its value (zero until a binder fills it in). */
  datatype Field = Field(varName: string, canonName: string, bitWidth: nat, value: int)

  /** One entry of the parser's output list: a leaf `(var_name, [field])` or a
      nested structure `(struct_name, children)`. */
  datatype Node =
    | Leaf(name: string, field: Field)
    | Composite(name: string, children: seq<Node>)

  /** A field as `create_from_string` builds it: a known tag, the width of
      that tag, and value zero. */
  predicate ValidField(f: Field)
  {
    f.canonName in SvWidths && f.bitWidth == SvWidths[f.canonName] && f.value == 0
  }

  /** Every leaf of the tree is named after its field and holds a valid field. */
  predicate ValidNode(n: Node)
    decreases n
  {
    match n
    case Leaf(name, f) => f.varName == name && ValidField(f)
    case Composite(_, children) => forall i :: 0 <= i < |children| ==> ValidNode(children[i])
  }

  /** The numeric part of a canonical tag, read as a decimal number. */
  function DecimalValue(s: string): nat
  {
    if s == [] then 0
    else if '0' <= s[|s| - 1] <= '9' then 10 * DecimalValue(s[..|s| - 1]) + (s[|s| - 1] as int - '0' as int)
    else 10 * DecimalValue(s[..|s| - 1])
  }

  /** Every canonical tag has a width, so the width lookup after a successful
      type lookup never fails. */
  lemma CanonicalTagsHaveWidths()
    ensures forall t :: t in CanonicalNames ==> CanonicalNames[t] in SvWidths
  {
  }

  /** Each tag is a spelling of itself, so canonicalising a tag again changes
      nothing. */
  lemma CanonicalIdempotent()
    ensures forall t :: t in SvWidths ==> t in CanonicalNames && CanonicalNames[t] == t
    ensures forall t :: t in CanonicalNames ==>
      CanonicalNames[t] in CanonicalNames && CanonicalNames[CanonicalNames[t]] == CanonicalNames[t]
  {
  }

  /** A tag is `s` or `u` followed by its width in decimal. */
  lemma WidthsMatchTagNames()
    ensures forall t :: t in SvWidths ==>
      |t| >= 2 && (t[0] == 's' || t[0] == 'u') && SvWidths[t] == DecimalValue(t[1..])
  {
    assert DecimalValue("8") == 8;
    assert DecimalValue("16") == 16 by { assert "16"[..1] == "1"; }
    assert DecimalValue("32") == 32 by { assert "32"[..1] == "3"; }
    assert DecimalValue("64") == 64 by { assert "64"[..1] == "6"; }
    forall t | t in SvWidths
      ensures |t| >= 2 && (t[0] == 's' || t[0] == 'u') && SvWidths[t] == DecimalValue(t[1..])
    {
    }
  }

  /** No spelling is shorter than two characters. */
  lemma SpellingsAreLong()
    ensures forall t :: t in CanonicalNames ==> |t| >= 2
  {
  }

  /** The second "unsigned short" entry wins: the spelling is 16 bits wide. */
  lemma UnsignedShortIsU16()
    ensures CanonicalNames["unsigned short"] == "u16"
    ensures SvWidths[CanonicalNames["unsigned short"]] == 16
  {
  }

  /** The entries the worked examples below look up. */
  lemma TableEntries()
    ensures "int" in CanonicalNames && CanonicalNames["int"] == "s32" && SvWidths["s32"] == 32
    ensures "foo_t" !in CanonicalNames
  {
  }

  /** Cut a stripped declaration at its last space into (type, name).  With
      no space, `rfind` gives -1: the name is the whole text and the type is
      the text without its last character. */
  function SplitDeclaration(c: string): (r: (string, string))
  {
    var idx := LastIndexBefore(c, ' ', |c|);
    (if idx >= 0 then c[..idx] else if c != [] then c[..|c| - 1] else "", c[idx + 1..])
  }

  /** With a space present, type, one space and name put back together give
      the declaration, and the name holds no space. */
  lemma SplitAtLastSpace(c: string)
    requires ' ' in c
    ensures SplitDeclaration(c).0 + " " + SplitDeclaration(c).1 == c
    ensures ' ' !in SplitDeclaration(c).1
  {
    var idx := LastIndexBefore(c, ' ', |c|);
    var k :| 0 <= k < |c| && c[k] == ' ';
    assert idx >= k;
    assert c == c[..idx] + [c[idx]] + c[idx + 1..];
  }

  /** Without a space the name is the whole declaration and the type is the
      declaration minus its last character: "intx" declares an `int`. */
  lemma SplitWithoutSpace(c: string)
    requires ' ' !in c
    ensures SplitDeclaration(c).1 == c
    ensures SplitDeclaration(c).0 == if c == [] then [] else c[..|c| - 1]
  {
  }

  /** The type spelling of a leaf declaration. */
  function DeclaredType(cString: string): string
  {
    SplitDeclaration(Strip(cString)).0
  }

  /** The variable name of a leaf declaration. */
  function DeclaredName(cString: string): string
  {
    SplitDeclaration(Strip(cString)).1
  }

  /** `StructureField.create_from_string`: the leaf for one declaration, or
      TypeError for a spelling the table does not know. */
  function CreateFromString(cString: string): (r: Result<Node>)
    ensures r.Ok? <==> DeclaredType(cString) in CanonicalNames
    ensures r.Err? ==> r.error == UnknownType(DeclaredType(cString), DeclaredName(cString))
    ensures r.Ok? ==>
      && r.value.Leaf? && ValidNode(r.value) && r.value.name == DeclaredName(cString)
      && r.value.field.canonName == CanonicalNames[DeclaredType(cString)]
  {
    var c := Strip(cString);
    var (varType, varName) := SplitDeclaration(c);
    if varType !in CanonicalNames then
      Err(UnknownType(varType, varName))
    else
      var canonName := CanonicalNames[varType];
      var width := SvWidths[canonName];
      Ok(Leaf(varName, Field(varName, canonName, width, 0)))
  }

  /** An accepted declaration names a non-empty variable without spaces that
      does not end in whitespace. */
  lemma CreatedNameShape(cString: string)
    requires CreateFromString(cString).Ok?
    ensures var name := CreateFromString(cString).value.name;
      name != [] && ' ' !in name && !IsSpace(name[|name| - 1])
  {
    var c := Strip(cString);
    StripSlice(cString);
    var (varType, varName) := SplitDeclaration(c);
    if ' ' in c {
      SplitAtLastSpace(c);
      assert c[|c| - 1] != ' ';
      assert c == varType + " " + varName;
      assert varName[|varName| - 1] == c[|c| - 1];
    } else {
      SplitWithoutSpace(c);
      SpellingsAreLong();
    }
  }

  /** A trimmed declaration that is a type, one space and a name without
      spaces declares exactly that type and that name. */
  lemma SplitAtDeclaredSpace(cString: string, varType: string, varName: string)
    requires Strip(cString) == varType + " " + varName
    requires ' ' !in varName
    ensures DeclaredType(cString) == varType && DeclaredName(cString) == varName
  {
    var c := Strip(cString);
    var k := |varType|;
    assert c[k] == ' ';
    forall i | k < i < |c|
      ensures c[i] != ' '
    {
      assert c[i] == varName[i - k - 1];
    }
    var idx := LastIndexBefore(c, ' ', |c|);
    assert idx == k;
    assert c[..k] == varType;
    assert c[k + 1..] == varName;
  }

  /** With a known type spelling, the leaf for that declaration. */
  lemma CreateFromDeclaration(cString: string, varType: string, varName: string)
    requires Strip(cString) == varType + " " + varName
    requires ' ' !in varName && varType in CanonicalNames
    ensures var canonName := CanonicalNames[varType];
      CreateFromString(cString) == Ok(Leaf(varName, Field(varName, canonName, SvWidths[canonName], 0)))
  {
    SplitAtDeclaredSpace(cString, varType, varName);
  }

  /** With an unknown type spelling, TypeError naming that spelling and
      the variable. */
  lemma CreateFromUnknownDeclaration(cString: string, varType: string, varName: string)
    requires Strip(cString) == varType + " " + varName
    requires ' ' !in varName && varType !in CanonicalNames
    ensures CreateFromString(cString) == Err(UnknownType(varType, varName))
  {
    SplitAtDeclaredSpace(cString, varType, varName);
  }

  lemma CreateFromStringNoSpace()
    ensures CreateFromString("intx") == Ok(Leaf("intx", Field("intx", "s32", 32, 0)))
  {
    var c := "intx";
    StripPadding("", c, "");
    assert "" + c + "" == c;
    assert ' ' !in c by { assert c == ['i', 'n', 't', 'x']; }
    SplitWithoutSpace(c);
    assert c[..3] == "int";
    TableEntries();
  }

  lemma StripFooT(s: string)
    requires s == "foo_t x"
    ensures Strip(s) == "foo_t" + " " + "x"
  {
    var t := "foo_t" + " " + "x";
    StripPadding("", t, "");
    assert "" + t + "" == s;
  }

  /** A spelling outside the table raises TypeError. */
  lemma CreateFromStringUnknown(s: string)
    requires s == "foo_t x"
    ensures CreateFromString(s) == Err(UnknownType("foo_t", "x"))
  {
    StripFooT(s);
    TableEntries();
    CreateFromUnknownDeclaration(s, "foo_t", "x");
  }
}
