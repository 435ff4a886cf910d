# structview parser core, in Dafny

structview reads a C `struct` declaration and turns it into a tree of fields.
It can then show a hexadecimal word laid out over those fields. This project
models the text-processing core of that tool and proves properties of the
model:

- `parse_c_struct` turns `\r` into `\n`, then runs three regular-expression
  passes: comments, unused keywords (`static`, `const`, …,
  `__attribute__((…))`), and runs of whitespace.
- `parse_expr` then divides the cleaned text around its first nested
  structure and recurses. It finds that structure with
  `find_first_substructure` and `find_matching_paren`, and names it with
  `get_struct_name`.
- Each flat `type name;` declaration becomes a field through
  `StructureField.create_from_string`. The field's canonical type (`s8` …
  `u64`) and bit width come from two tables.
- `get_bytes_from_hexstr` converts one hexadecimal word into bytes. Big
  endian uses a backwards loop that turns bad digit pairs into 0 with a
  warning. Little endian uses `bytearray.fromhex`.
- `get_word_size` checks that all words have one even length.

Modules, one per concern:

- `Results`: the `Result` type, and the Python exceptions as `Error` values.
- `Text`: Python's `strip`, `find`, `rfind` and `split` on strings.
- `Stripping`: the three regular-expression passes, as one leftmost-match
  scanner per pattern.
- `Braces`: `find_matching_paren`, as a function and as the source's loop.
- `StructureField`: the two tables and `create_from_string`.
- `StructParser`: `find_first_substructure`, `get_struct_name` and
  `parse_expr`, each as a specification function plus a method that follows
  the source.
- `CStruct`: `parse_c_struct`.
- `StructView`: the hex conversion and the word-size check.
- `Rendering`: a generator of well-formed declaration lists. It supports the
  main theorem: parsing the text of any well-formed declaration tree gives
  the node tree the declarations stand for (`ExpectedList`), or the
  `TypeError` of its first unknown type.
- `UnitCases`: the expected values of the repository's parser unit tests,
  derived from the model.

A parse result is a `Node`:

- `Leaf(name, Field(...))` is the source's `(var_name, [StructureField])`.
- `Composite(name, children)` is the source's `(struct_name, fields_list)`.

Errors are values: `SyntaxError` (unmatched brace, missing semicolon),
`TypeError` (unknown type) and `ValueError` (word sizes, non-hex data).

## Model

| member | source | states |
|---|---|---|
| Results.MapAllSpec | src/struct_parser.py:104-107 | the list comprehension over `create_from_string` succeeds iff every element does; it then holds each element's field in order, and otherwise fails with the first element's exception |
| Text.Strip | src/struct_parser.py:96 | `code.lstrip().rstrip()`, stated by StripSlice (a contiguous slice with only whitespace outside it and none at its ends), StripBlank, StripPadding and StripIdempotent |
| Text.LStrip | src/struct_parser.py:96 | `lstrip` result is no longer than its input and does not start with whitespace |
| Text.RStrip | src/struct_parser.py:96 | `rstrip` result is no longer than its input and does not end with whitespace |
| Text.LStripSlice | src/struct_parser.py:96 | `lstrip` removes exactly a whitespace prefix: the result is a suffix of the input, and what was dropped is all whitespace |
| Text.RStripSlice | src/struct_parser.py:96 | `rstrip` removes exactly a whitespace suffix |
| Text.StripSlice | src/structurefield.py:81 | `lstrip().rstrip()` is a contiguous slice of its input, with only whitespace around it and no whitespace at either end |
| Text.StripBlank | src/struct_parser.py:96-99 | the stripped text is empty exactly when the input is all whitespace (the `len(code) == 0` branch) |
| Text.LStripSpaces | src/struct_parser.py:96 | whitespace in front of text that starts with a non-space is what `lstrip` removes |
| Text.RStripSpaces | src/struct_parser.py:96 | whitespace after text that ends with a non-space is what `rstrip` removes |
| Text.StripPadding | src/struct_parser.py:96 | stripping whitespace-padded text gives back the text |
| Text.StripIdempotent | src/struct_parser.py:96 | stripping twice is stripping once |
| Text.IndexOf | src/struct_parser.py:41 | `find` gives -1 iff the character is absent from the index on; otherwise the first occurrence at or after it |
| Text.LastIndexBefore | src/struct_parser.py:58 | `rfind(c, 0, end)` gives the last occurrence before `end`, or -1 with none in between |
| Text.IndexOfAcross | src/struct_parser.py:68 | `find` from the start of a stretch free of `c` lands on the `c` that ends it |
| Text.LastIndexAcross | src/struct_parser.py:58 | `rfind` before a stretch free of `c` lands on the `c` just before it, or -1 when the stretch starts the text |
| Text.Split | src/struct_parser.py:104 | `split` gives at least one part, and no part contains the separator |
| Text.SplitJoin | src/struct_parser.py:104 | joining the parts of `split` with the separator gives back the text |
| Text.SplitCount | src/struct_parser.py:104 | `split` gives one more part than there are separators |
| Stripping.LineEnd | src/struct_parser.py:9 | `$` under MULTILINE: the first newline at or after a position, or the end of the text |
| Stripping.IndexOfPair | src/struct_parser.py:8 | the first occurrence of a two-character delimiter from a position (lazy `.*?` stops at the first `*/`) |
| Stripping.LastIndexOfPair | src/struct_parser.py:10 | the last occurrence of `))` in a window (greedy `.*` backs off to the last one) |
| Stripping.KeywordLength | src/struct_parser.py:10 | the length of the alternation match at a position never exceeds the text |
| Stripping.MatchLength | src/struct_parser.py:8-11 | each pattern's match at a position never exceeds the text |
| Stripping.Substitute | src/struct_parser.py:14-22 | `re.sub` with a fixed pattern: leftmost matches replaced from left to right, stated by SubstituteKeep, SubstituteUnchanged, SubstitutePlain and SubstituteSkip |
| Stripping.RemoveComments | src/struct_parser.py:13-16 | the line pass, then the block pass; stated by LineStripNoComment, BlockCommentThen, UnterminatedBlockStays, LineCommentInsideBlock and UnitCases.CommentCase1 to UnitCases.CommentCase8 |
| Stripping.RemoveKeywords | src/struct_parser.py:18-19 | the keyword pass; stated by KeywordThen, AttributeDropped, KeywordFreeText and UnitCases.KeywordCase1 to UnitCases.KeywordCase3 |
| Stripping.RemoveSpaces | src/struct_parser.py:21-22 | the whitespace pass; stated by RemoveSpacesCollapses, RemoveSpacesIdempotent, SpaceRunThen and UnitCases.SpaceCase1 |
| Stripping.SubstituteKeep | src/struct_parser.py:13-22 | `re.sub` copies a character where its pattern does not match |
| Stripping.MatchesNowhereTail | src/struct_parser.py:13-22 | text the pattern matches nowhere stays so after dropping its first character |
| Stripping.SubstituteUnchanged | src/struct_parser.py:13-22 | `re.sub` leaves text unchanged where its pattern matches nowhere |
| Stripping.LineStripHead | src/struct_parser.py:9 | one step of the single-line pass: a match is cut to the line end, anything else is kept |
| Stripping.LineStripNoComment | src/struct_parser.py:9-14 | after the single-line pass no `//` is left |
| Stripping.LineStripIdempotent | src/struct_parser.py:9-14 | the single-line pass is idempotent |
| Stripping.WhitespaceStep | src/struct_parser.py:11-22 | a whitespace run becomes one space; a non-space character is copied |
| Stripping.RemoveSpacesCollapses | src/struct_parser.py:21-22 | `remove_spaces` leaves no whitespace other than single spaces, and starts with whitespace iff its input does |
| Stripping.CollapsedCons | src/struct_parser.py:21-22 | a character in front of collapsed text keeps it collapsed when it adds no second space |
| Stripping.CollapsedUnchanged | src/struct_parser.py:21-22 | `remove_spaces` leaves already-collapsed text unchanged |
| Stripping.RemoveSpacesIdempotent | src/struct_parser.py:21-22 | `remove_spaces` is idempotent |
| Stripping.KeywordNoStart | src/struct_parser.py:10 | no keyword can start at a character outside `s c e t i v _` |
| Stripping.NoStartNoMatch | src/struct_parser.py:8-11 | no pattern matches at a character that cannot start it |
| Stripping.SubstitutePlain | src/struct_parser.py:13-22 | `re.sub` copies a prefix in which no match can start |
| Stripping.KeepChar | src/struct_parser.py:13-22 | `re.sub` copies a character at which nothing matches |
| Stripping.SlashKept | src/struct_parser.py:9 | a `/` not followed by `/` survives the single-line pass |
| Stripping.IndexOfPairAt | src/struct_parser.py:8 | the first `*/` is found where it occurs when no `/` comes before it |
| Stripping.NoSlashLinePass | src/struct_parser.py:9-14 | text without `/` passes the single-line pass unchanged |
| Stripping.NoSlashBlockPass | src/struct_parser.py:8-15 | text without `/` passes the multi-line pass unchanged |
| Stripping.LinePassKeepsBlock | src/struct_parser.py:14 | a `/* … */` comment survives the single-line pass |
| Stripping.BlockPassRemoves | src/struct_parser.py:15 | the multi-line pass deletes a leading `/* … */` |
| Stripping.BlockCommentRemoved | src/struct_parser.py:13-16 | `remove_comments` deletes a block comment and keeps what surrounds it, when no `/` is in any of the three parts |
| Stripping.LineCommentLength | src/struct_parser.py:9 | a `//` comment matches up to, not including, the newline |
| Stripping.LinePassRemoves | src/struct_parser.py:14 | the single-line pass deletes a `//` comment and keeps the newline |
| Stripping.LineCommentRemoved | src/struct_parser.py:13-16 | `remove_comments` deletes a line comment up to its newline and keeps the rest, when no `/` is outside the comment |
| Stripping.BlockPassUnterminated | src/struct_parser.py:8-15 | an unterminated `/*` is not a match and is kept |
| Stripping.UnterminatedBlockStays | src/struct_parser.py:13-16 | `remove_comments` keeps an unterminated block comment whole |
| Stripping.LineCommentToEnd | src/struct_parser.py:9 | a `//` comment without a newline runs to the end of the text |
| Stripping.LinePassCuts | src/struct_parser.py:14 | a `//` inside an open `/*` is cut by the single-line pass |
| Stripping.LineCommentInsideBlock | src/struct_parser.py:13-16 | line comments go first: `//` inside an unterminated `/*` removes the rest of the line |
| Stripping.KeywordRemoved | src/struct_parser.py:10-19 | `remove_keywords` deletes each of the seven keywords with no word-boundary check, between texts in which no keyword can start |
| Stripping.KeywordAt | src/struct_parser.py:10 | each of the seven keywords matches exactly its own length |
| Stripping.SpaceRunCollapsed | src/struct_parser.py:11-22 | `remove_spaces` replaces one whitespace run between non-space text by one space |
| Stripping.SubstituteSkip | src/struct_parser.py:13-22 | `re.sub` copies a prefix at none of whose positions a match starts, even where a match could begin with one of its characters |
| Stripping.LinePassSkips | src/struct_parser.py:9 | the single-line pass copies a prefix in which no `//` starts |
| Stripping.SlashBody | src/struct_parser.py:8-9 | a comment body with a single `/` that follows no `*` holds neither `*/` nor `//` |
| Stripping.IndexOfPairFirst | src/struct_parser.py:8 | the non-greedy `.*?\*/` stops at the first `*/` after the opening |
| Stripping.LinePassOverBlock | src/struct_parser.py:14 | the single-line pass keeps a `/* … */` whose body holds no `*/` or `//` and goes on after it |
| Stripping.BlockPassOverBlock | src/struct_parser.py:15 | the multi-line pass deletes such a comment and goes on after it |
| Stripping.LinePassThenBlock | src/struct_parser.py:14 | the same for the single-line pass with `/`-free text before the comment |
| Stripping.BlockPassThenBlock | src/struct_parser.py:15 | the same for the multi-line pass with `/`-free text before the comment |
| Stripping.BlockCommentThen | src/struct_parser.py:13-16 | `remove_comments` deletes a block comment (its body may hold `/` but not `*/` or `//`) after `/`-free text and carries on with the rest, so several comments go one after another |
| Stripping.NoSlashNoComment | src/struct_parser.py:13-16 | `remove_comments` leaves text without `/` as it is |
| Stripping.OccursAtSlice | src/struct_parser.py:10 | the character-by-character keyword comparison agrees with comparing slices |
| Stripping.OccursAtStart | src/struct_parser.py:10 | a keyword occurs at index i exactly when the text from i starts with it |
| Stripping.NoKeywordInAll | src/struct_parser.py:10 | no keyword at each index of a range is no keyword in the range |
| Stripping.KeywordAtIndex | src/struct_parser.py:10 | a keyword can start only at its own first character |
| Stripping.NoKeywordNoMatch | src/struct_parser.py:10 | where none of the alternatives occurs, the keyword pattern does not match |
| Stripping.KeywordFreePrefix | src/struct_parser.py:18-19 | `remove_keywords` copies a prefix at none of whose positions a keyword starts |
| Stripping.KeywordFreeText | src/struct_parser.py:18-19 | `remove_keywords` leaves a text without keywords as it is |
| Stripping.OccursBefore | src/struct_parser.py:10 | no keyword holds a space, so none runs across the last space of a text |
| Stripping.KeywordBefore | src/struct_parser.py:10 | a keyword found at an index of a space-ended text lies inside that text |
| Stripping.SpaceEndedKeywordFree | src/struct_parser.py:10 | a keyword-free text that ends in a space stays keyword-free whatever follows it |
| Stripping.KeywordDropped | src/struct_parser.py:10-19 | a plain keyword is removed and the scan resumes right after it |
| Stripping.KeywordThen | src/struct_parser.py:10-19 | a keyword after text where no keyword can start is removed, and the rest is scanned on its own |
| Stripping.AttributeLineEnd | src/struct_parser.py:10 | the `.*` of `__attribute__\(\(.*\)\)` reaches the end of the line after the closing `))` |
| Stripping.AttributeLastPair | src/struct_parser.py:10 | the greedy `.*` backs off to the last `))` on the line; with no `)` after the attribute on that line, that is the attribute's own |
| Stripping.AttributeLength | src/struct_parser.py:10 | the attribute pattern then matches exactly `__attribute__((…))` |
| Stripping.AttributeDropped | src/struct_parser.py:10-19 | `remove_keywords` removes such an attribute and resumes after it |
| Stripping.SpaceRunThen | src/struct_parser.py:11-22 | `remove_spaces` turns a whitespace run after non-space text into one space and carries on with the rest |
| Braces.Depth | src/struct_parser.py:27-32 | the counter `unmatched_paren_count` after a prefix; stated by DepthSnoc, DepthConcat and DepthFree, and it is the loop invariant of FindMatchingParen |
| Braces.DepthSnoc | src/struct_parser.py:28-33 | the counter after one more character moves by that character's step |
| Braces.MatchFrom | src/struct_parser.py:24-36 | the scan from a position returns -1 or a closing character where the counter first returns to zero |
| Braces.MatchingParen | src/struct_parser.py:24-36 | `find_matching_paren` returns -1 or the first index of a closing character where the running count is zero; no earlier index is such |
| Braces.FindMatchingParen | src/struct_parser.py:24-36 | the source's `for` loop returns that same index: the first zero of the counter at a closing character, or -1 |
| Braces.MatchFollowsOpen | src/struct_parser.py:24-36 | a match lies strictly after the first opening character |
| Braces.ReachesZero | src/struct_parser.py:24-36 | a counter that comes back to zero at a close is found by the scan |
| Braces.BalancedHasMatch | src/struct_parser.py:24-36 | balanced text that contains an opening character has a match |
| Braces.DepthConcat | src/struct_parser.py:28-33 | the counter is additive over concatenation |
| Braces.DepthFree | src/struct_parser.py:28-33 | text without either character leaves the counter at zero |
| Braces.BraceFreeBalanced | src/struct_parser.py:28-33 | text without either character is balanced |
| Braces.BalancedConcat | src/struct_parser.py:28-33 | balanced text followed by balanced text is balanced |
| Braces.BalancedWrap | src/struct_parser.py:28-33 | an opening character, balanced text and a closing character form balanced text |
| Braces.BlockBalanced | src/struct_parser.py:28-33 | brace-free text around a braced balanced block is balanced |
| Braces.MatchOfBlock | src/struct_parser.py:24-36 | in brace-free text then a braced balanced block, the match is the block's `}` |
| Braces.MatchingParenExamples | src/str_conversion_test.py:58-62 | `{}` gives 1, `{{}}` gives 3, `}{` gives -1 |
| Braces.MatchingCountsFromStart | src/struct_parser.py:27-33 | counting starts at index 0, not at the first `{`: `}{{}` gives 3 |
| StructureField.CanonicalTagsHaveWidths | src/structurefield.py:14-90 | every canonical type has a width, so the width lookup never fails |
| StructureField.CanonicalIdempotent | src/structurefield.py:24-65 | each canonical name maps to itself, and canonicalising is idempotent |
| StructureField.WidthsMatchTagNames | src/structurefield.py:14-23 | each width is the number written in its type name, with `s`/`u` in front |
| StructureField.SpellingsAreLong | src/structurefield.py:24-65 | every type spelling has at least two characters |
| StructureField.UnsignedShortIsU16 | src/structurefield.py:31-41 | of the two `'unsigned short'` keys the later wins: `u16`, 16 bits |
| StructureField.TableEntries | src/structurefield.py:19-46 | `int` is `s32` of width 32; `foo_t` is unknown |
| StructureField.SplitDeclaration | src/structurefield.py:82-84 | the `rfind(' ')` split into type and name; stated by SplitAtLastSpace, SplitWithoutSpace and SplitAtDeclaredSpace |
| StructureField.SplitAtLastSpace | src/structurefield.py:82-84 | with a space, the type and name rejoin around the last space, and the name has no space |
| StructureField.SplitWithoutSpace | src/structurefield.py:82-84 | without a space, `rfind` gives -1: the name is the whole text, the type is all but its last character |
| StructureField.CreateFromString | src/structurefield.py:79-92 | success iff the type spelling is in the table; the leaf then names the variable with its canonical type and width; otherwise TypeError with type and name |
| StructureField.CreatedNameShape | src/structurefield.py:81-92 | an accepted variable name is non-empty, has no space and does not end in whitespace |
| StructureField.SplitAtDeclaredSpace | src/structurefield.py:81-84 | a trimmed `type name` declares that type and that name |
| StructureField.CreateFromDeclaration | src/structurefield.py:79-92 | a known `type name` gives the leaf with the table's canonical type and width |
| StructureField.CreateFromUnknownDeclaration | src/structurefield.py:86-87 | an unknown `type name` gives the TypeError for that type and name |
| StructureField.CreateFromStringNoSpace | src/structurefield.py:82-92 | `intx` is accepted as an `s32` named `intx` (type taken as all but the last character) |
| StructureField.CreateFromStringUnknown | src/structurefield.py:86-87 | `foo_t x` is a TypeError naming `foo_t` and `x` |
| StructParser.FirstSubstructure | src/struct_parser.py:38-51 | a found substructure has its `{` before its `}`, both inside the text |
| StructParser.FirstSubstructureSpec | src/struct_parser.py:38-51 | (-1, -1) iff there is no `{`; SyntaxError iff there is one with no match, carrying the text and the first `{`; otherwise the first `{` and the match |
| StructParser.FirstSubstructureOfBlock | src/struct_parser.py:38-51 | brace-free text then a balanced block: the substructure is that block's braces |
| StructParser.TagText | src/struct_parser.py:57-63 | the text before the `{` that names a structure, in both branches; stated by BlockSlices and StructNameOfBlock |
| StructParser.VarText | src/struct_parser.py:66-70 | the text between the `}` and the next `;`; stated by BlockSlices and StructNameOfBlock |
| StructParser.StructName | src/struct_parser.py:53-78 | `prev` lies before `start` and `next` after `end`, within the text |
| StructParser.StructNameMissing | src/struct_parser.py:67-76 | SyntaxError iff no `;` follows `end`, carrying the text after `prev` |
| StructParser.StructNamePrev | src/struct_parser.py:58 | `prev` is the last `;` before `start`, or -1 |
| StructParser.StructNameNext | src/struct_parser.py:68-72 | `next - 1` is the first `;` at or after `end` |
| StructParser.GetStructName | src/struct_parser.py:53-78 | the source's step-by-step name building equals `StructName` |
| StructParser.StructNameOfBlock | src/struct_parser.py:53-78 | for `pre tag x{body}var;post`, the name is the stripped tag and variable text, with `prev` and `next` framing the declaration |
| StructParser.PrevOfBlock | src/struct_parser.py:58 | the last `;` before such a block ends `pre` |
| StructParser.SemiOfBlock | src/struct_parser.py:68 | the first `;` after the block ends the variable text |
| StructParser.BlockSlices | src/struct_parser.py:61-71 | the two slices `get_struct_name` takes are the tag and the variable text |
| StructParser.StructNameFound | src/struct_parser.py:53-78 | proof step: once both searches have found a `;`, the result is `prev`, `next + 1` and the stripped join of the two slices; the name itself is stated by StructNameOfBlock and the UnitCases |
| StructParser.NameDropsCharBeforeBrace | src/struct_parser.py:61-65 | the slice ends one before `{`: `struct abc{` yields `struct ab` |
| StructParser.Segments | src/struct_parser.py:104 | `code.split(';')[:-1]`; stated by SegmentsRoundTrip and SegmentsCount |
| StructParser.Partition | src/struct_parser.py:96-110 | the trimming and division at the head of `parse_expr`; stated by PartitionCases, PartitionShrinks and PartitionNested, and computed by the DivideExpr method |
| StructParser.DivideTrimmed | src/struct_parser.py:98-110 | the division of trimmed text: blank, flat fields, or before / name and body / after, with the errors of the two searches; stated by PartitionCases, PartitionOfBlock and PartitionAt |
| StructParser.Parse | src/struct_parser.py:80-117 | `parse_expr`; stated by ParseBlank, ParseBraceFree, ParseOfNested, ParseValid and Rendering.ParseRender, and computed by the ParseExpr method |
| StructParser.Assemble | src/struct_parser.py:112-115 | the fields before, the `(struct_name, struct_fields)` pair, then the fields after, or the first error in that order; stated by AssembleOk, AssembleValid and Rendering.AssembleExpected |
| StructParser.SegmentsRoundTrip | src/struct_parser.py:104 | the `;`-terminated fields and the unterminated rest rejoin to the text |
| StructParser.SegmentsCount | src/struct_parser.py:104 | there is one field per `;`, and no field contains `;` |
| StructParser.PartitionShrinks | src/struct_parser.py:110-115 | the three texts `parse_expr` recurses on are each shorter than its input |
| StructParser.PartitionCases | src/struct_parser.py:96-117 | proof step: the division unfolded branch by branch (blank, the substructure's error, flat fields, or the name's error / the three parts) |
| StructParser.ParseByShape | src/struct_parser.py:80-117 | proof step: the parse unfolded over the division, so texts with the same division parse alike |
| StructParser.ParseSameStrip | src/struct_parser.py:96 | `parse_expr` strips its input first, so two texts with the same stripped text parse alike |
| StructParser.ParseOfNested | src/struct_parser.py:110-115 | proof step: the nested case unfolded, fields before, then `(name, fields of body)`, then fields after, with the first error in that order |
| StructParser.DivideExpr | src/struct_parser.py:96-110 | the method's branching equals the division `Partition` |
| StructParser.ParseExpr | src/struct_parser.py:80-117 | the recursive method with its `extend`/`append` equals `Parse` |
| StructParser.ParseBlank | src/struct_parser.py:98-99 | all-whitespace text parses to the empty list |
| StructParser.NoSubstructure | src/struct_parser.py:41-44 | no `{` gives (-1, -1) |
| StructParser.SubstructureFound | src/struct_parser.py:41-51 | with a `{`, a successful search never reports -1 |
| StructParser.ParseFlat | src/struct_parser.py:102-108 | brace-free text parses to `create_from_string` over the `;`-terminated fields |
| StructParser.ParseBraceFree | src/struct_parser.py:102-108 | brace-free text parses iff every field is a known type; one leaf per `;`, each from its field in order; else the first field's TypeError |
| StructParser.PartitionNested | src/struct_parser.py:110-115 | with a `{`, the division fails with the search's or the name's error, or gives the text through `prev`, the body between the braces, and the text from `next` |
| StructParser.PartitionOfBlock | src/struct_parser.py:110-115 | for `pre tag x{body}var;post` with balanced body, the division is `pre`, the stripped name, `body`, `post` |
| StructParser.ParseOfBlock | src/struct_parser.py:110-115 | and the parse is assembled from the parses of those three parts |
| StructParser.SubstructureOfBlock | src/struct_parser.py:38-51 | for such text the substructure is that block |
| StructParser.BlockNamed | src/struct_parser.py:53-78 | for such text the name is found, and the three slices are `pre`, `body` and `post` |
| StructParser.PartitionAt | src/struct_parser.py:103-115 | given the substructure and the name, the division is determined |
| StructParser.BlockParts | src/struct_parser.py:111-115 | the slices of such text are `pre`, `body` and `post` |
| StructParser.LeavesValid | src/struct_parser.py:106 | every leaf `create_from_string` produces is valid |
| StructParser.AllValidConcat | src/struct_parser.py:111-114 | extending a list of valid nodes with valid nodes keeps it valid |
| StructParser.ParseValid | src/struct_parser.py:80-117 | every node of a successful parse is valid: leaves have the tables' canonical type and width, at every depth |
| StructParser.AssembleOk | src/struct_parser.py:111-114 | a successful nested parse means all three recursive parses succeeded, and the list is before, composite, after |
| StructParser.AssembleValid | src/struct_parser.py:111-114 | assembling valid parts gives valid nodes |
| CStruct.Normalize | src/struct_parser.py:123-127 | the cleaning chain of `parse_c_struct`; stated by NormalizeCollapses and ParseCStructOfCleanText |
| CStruct.ParseCStruct | src/struct_parser.py:119-129 | `parse_c_struct`; stated by NormalizeCollapses (what reaches `parse_expr` is collapsed) and ParseCStructOfCleanText |
| CStruct.ReplaceCR | src/struct_parser.py:123 | same length, no `\r` left |
| CStruct.NormalizeCollapses | src/struct_parser.py:119-127 | the cleaned text has only single spaces as whitespace |
| CStruct.ReplaceCRUnchanged | src/struct_parser.py:123 | text without `\r` is unchanged |
| CStruct.ParseCStructOfCleanText | src/struct_parser.py:119-129 | text with no `\r`, no comments, no keywords and no whitespace runs passes the cleaning unchanged |
| StructView.ChunkByte | src/structview.py:30-34 | `int(chunk, 16)`, or 0 from the `except` branch; stated by ChunkByteRoundTrip and BigEndianAt |
| StructView.HexValue | src/structview.py:31 | a hex digit's value is below 16 |
| StructView.HexDigit | src/structview.py:31 | the digit for a value below 16 is a hex digit with that value |
| StructView.ByteHex | src/structview.py:31 | a byte's two-digit text is a valid chunk |
| StructView.ChunkByteRoundTrip | src/structview.py:31 | `int(text, 16)` of a byte's two hex digits is the byte |
| StructView.HexText | src/structview.py:22 | the hex text of n bytes has 2n characters |
| StructView.Reverse | src/structview.py:24-40 | reversal keeps the length and mirrors each index |
| StructView.BigEndianBytes | src/structview.py:24-40 | the big-endian branch gives one byte per whole pair of characters |
| StructView.BadChunks | src/structview.py:30-34 | every warned chunk has two characters and is not a hex pair |
| StructView.ChunkAt | src/structview.py:29-38 | the k-th chunk, counted from the end, has two characters |
| StructView.BigEndianStep | src/structview.py:29-38 | the first byte comes from the last two characters, then the rest |
| StructView.ChunkShift | src/structview.py:29-38 | dropping the last pair shifts the chunk numbering by one |
| StructView.BigEndianAt | src/structview.py:29-40 | byte k is the value of the k-th pair counted from the end, 0 if it is not hex |
| StructView.BigEndianOddDropsLeading | src/structview.py:25-29 | an odd-length word ignores its first character, in bytes and in warnings |
| StructView.BadChunksEmpty | src/structview.py:30-34 | no warning iff every pair is valid hex |
| StructView.FromHex | src/structview.py:21-22 | `fromhex` gives half as many bytes as characters, or ValueError |
| StructView.FromHexOk | src/structview.py:21-22 | `fromhex` succeeds iff the length is even and every character is a hex digit |
| StructView.LittleAt | src/structview.py:21-22 | byte j of `fromhex` is the value of pair j from the front |
| StructView.BigEndianConcat | src/structview.py:24-40 | appending an even-length tail puts its bytes first |
| StructView.BadChunksConcat | src/structview.py:30-34 | and its warnings first |
| StructView.BigEndianConcatStep | src/structview.py:29-38 | one loop step over a concatenation |
| StructView.BigIsReverseOfLittle | src/structview.py:19-40 | on valid even-length hex, the big-endian bytes are the little-endian bytes reversed, with no warnings |
| StructView.FromHexText | src/structview.py:21-22 | `fromhex` of a byte string's hex text gives back the bytes |
| StructView.BigEndianOfHexText | src/structview.py:24-40 | big-endian conversion of a byte string's hex text gives the bytes reversed |
| StructView.LoopStep | src/structview.py:29-38 | the loop's slice `data[start:end]` is the chunk the specification takes |
| StructView.GetBytesFromHexStr | src/structview.py:19-40 | little: `fromhex` and no warnings; otherwise the big-endian bytes, and one warning per bad pair |
| StructView.BigEndianLoop | src/structview.py:24-40 | the backwards `while` loop yields `BigEndianBytes` and `BadChunks` |
| StructView.WordSize | src/structview.py:6-17 | `get_word_size`'s result; stated by WordSizeBytes and WordSizeErrors, and computed by the GetWordSize method |
| StructView.GetWordSize | src/structview.py:6-17 | the loop with its early raises equals `WordSize` |
| StructView.WordSizeBytes | src/structview.py:6-17 | an accepted size is even, and each word is exactly twice its byte count |
| StructView.WordSizeErrors | src/structview.py:9-15 | invalid size iff the first word is odd; inconsistent iff it is even and some word differs |
| StructView.BigEndianExamples | src/str_conversion_test.py:18-23 | `00fa` gives `fa 00`; `0c0d0e` gives `0e 0d 0c` |
| StructView.BigEndianTwo | src/structview.py:29-38 | a word is its last pair's byte, then the bytes of the rest |
| StructView.BigEndianBadChunkExamples | src/str_conversion_test.py:15-17 | `0$` and `fx` give a single 0 byte and one warning |
| StructView.BigEndianOddExample | src/structview.py:25-29 | `abc` gives `bc` and no warning |
| StructView.LittleEndianExamples | src/structview.py:21-22 | `00fa` gives `00 fa`; `abc` is a ValueError |
| Rendering.RenderBalanced | src/struct_parser.py:24-36 | a rendered declaration has balanced braces |
| Rendering.RenderListBalanced | src/struct_parser.py:24-36 | a rendered declaration list has balanced braces |
| Rendering.ParseVars | src/struct_parser.py:102-108 | a list of plain variables parses to their leaves, or to the first unknown type |
| Rendering.StructStep | src/struct_parser.py:110-115 | a list whose first structure is at k parses as the vars before it, that structure's members, and the rest, assembled |
| Rendering.RenderShrinks | src/struct_parser.py:110-115 | the members' text and the remaining text are shorter than the whole |
| Rendering.ExpectedListConcat | src/struct_parser.py:111-114 | the expected nodes of a concatenation are the two lists joined, first failure first |
| Rendering.AssembleExpected | src/struct_parser.py:111-114 | assembling the expected parts around the structure at k gives the expected list |
| Rendering.ParseRender | src/struct_parser.py:80-117 | for any well-formed declaration tree, parsing its text gives each variable's leaf and each structure's composite (named by tag and variable) in order, at every depth; or the TypeError of the first unknown type |
| Rendering.InsideParse | src/struct_parser.py:96 | the space before a padded structure's `}` does not change how its members parse |
| Rendering.PaddedText | src/struct_parser.py:87 | a padded structure is written `tag { members } var;`, or `tag { members };` when it declares no variable |
| Rendering.XyzText | src/struct_parser.py:87 | the inner structure of the example renders as `struct XYZ { int b; char y; } myXYZ;` |
| Rendering.AbcText | src/struct_parser.py:87 | the example structure renders as the example text around the inner one |
| Rendering.DocstringExample | src/struct_parser.py:87 | the example text itself, `struct ABC { char c; struct XYZ { int b; char y; } myXYZ; int l; } myABC;`, parses to `struct ABC myABC` over `c`, `struct XYZ myXYZ` (over `b`, `y`) and `l`, with their types and widths |
| Rendering.XxText | src/str_conversion_test.py:57 | the structure without a variable is written `struct xx { unsigned int yy; };`, its `;` right after the `}` |
| Rendering.NamelessExample | src/struct_parser.py:80-117 | `struct xx { unsigned int yy; };` parses to one composite named `struct xx` alone (the empty slice after `}` adds nothing to the name) over the u32 leaf `yy` |
| UnitCases.StructNameCase1 | src/str_conversion_test.py:92 | (18, 29) gives (6, 35, `union bde myu`) |
| UnitCases.StructNameCase2 | src/str_conversion_test.py:93 | (11, 81) gives (-1, 89, `struct abc myabc`) |
| UnitCases.StructNameCase3 | src/str_conversion_test.py:94 | (52, 71) gives (40, 73, `struct xx`) |
| UnitCases.StructNameCase4 | src/str_conversion_test.py:95 | (11, 65) gives (-1, 73, `struct ABC myABC`) |
| UnitCases.StructNameCase5 | src/str_conversion_test.py:96 | (32, 49) gives (19, 57, `struct XYZ myXYZ`) |
| UnitCases.NoCloseNoMatch | src/struct_parser.py:24-36 | without a closing character the result is -1 |
| UnitCases.UnclosedBlock | src/struct_parser.py:24-36 | `{` followed by balanced text is never matched |
| UnitCases.CommentCase1 | src/str_conversion_test.py:38 | a multi-line block comment holding every punctuation character, a `/` among them, leaves nothing |
| UnitCases.CommentCase2 | src/str_conversion_test.py:39 | `some /*abcdef*/ code` gives `some  code` |
| UnitCases.CommentCase3 | src/str_conversion_test.py:40 | `some /* abcdef */\ncode1` gives `some \ncode1` |
| UnitCases.SecondCommentStep | src/str_conversion_test.py:41 | two block comments in a row are removed one after the other |
| UnitCases.CommentCase4 | src/str_conversion_test.py:41 | `some /* abcdef */\n/*abcc*/code2` gives `some \ncode2` |
| UnitCases.CommentCase5 | src/str_conversion_test.py:42 | a line comment holding every punctuation character and no newline leaves nothing |
| UnitCases.CommentCase6 | src/str_conversion_test.py:43 | `some// abcdef` gives `some` |
| UnitCases.CommentCase7 | src/str_conversion_test.py:44 | `// abcdef \ncode3` gives `\ncode3` |
| UnitCases.CommentCase8 | src/str_conversion_test.py:45 | `// abcdef \r\ncode4` gives `\ncode4`: the `\r` goes with the comment |
| UnitCases.ConstStaticStep | src/str_conversion_test.py:48-49 | `const static` in front of any text is removed, the space between the keywords stays |
| UnitCases.UnsignedIntKept | src/str_conversion_test.py:48 | ` unsigned int` holds no keyword and is kept |
| UnitCases.KeywordCase1 | src/str_conversion_test.py:48 | `const static unsigned int` gives `  unsigned int` |
| UnitCases.MyPtrKept | src/str_conversion_test.py:49 | ` void *myptr` holds no keyword and is kept |
| UnitCases.KeywordCase2 | src/str_conversion_test.py:49 | `const static void *myptr` gives `  void *myptr` |
| UnitCases.StructHeadStep | src/str_conversion_test.py:50 | `struct abc { ` holds no keyword (`struct` is not `static`) whatever follows |
| UnitCases.ConstMemberStep | src/str_conversion_test.py:50 | `const int *p; } ` loses its `const` whatever follows |
| UnitCases.PtrMemberStep | src/str_conversion_test.py:50 | ` int *p; } ` holds no keyword whatever follows |
| UnitCases.AttributeStep | src/str_conversion_test.py:50 | an attribute before `;` is removed up to its `))` |
| UnitCases.KeywordCase3 | src/str_conversion_test.py:50 | `struct abc { const int *p; } __attribute__((packed));` gives `struct abc {  int *p; } ;` |
| UnitCases.AttributeGreedy | src/struct_parser.py:10 | the greedy `.*` runs over two attributes on one line: `__attribute__((a)) x((b));` gives `;` |
| UnitCases.SpaceRunsStep | src/str_conversion_test.py:53 | each run of the test text, whatever whitespace it holds, becomes one space |
| UnitCases.SpaceCase1 | src/str_conversion_test.py:53 | ` testing\tspace   regular\t\nexpression \n\n.` gives ` testing space regular expression .` |
| UnitCases.MatchingParenCase1 | src/str_conversion_test.py:56 | gives 41 |
| UnitCases.MatchingParenCase2 | src/str_conversion_test.py:57 | gives 73 |
| UnitCases.MatchingParenCase3 | src/str_conversion_test.py:60 | `{{}{}{}}` gives 7 |
| UnitCases.MatchingParenCase4 | src/str_conversion_test.py:61 | text without braces gives -1 |
| UnitCases.MatchingParenCase5 | src/str_conversion_test.py:63 | `{xxx{yyy}` gives -1 |
| UnitCases.MatchingParenCase6 | src/str_conversion_test.py:64 | `{xxx{yy{a}{b}{c}y}` gives -1 |
| UnitCases.MatchingParenCase7 | src/str_conversion_test.py:65 | `{xxx{yy{{{d}}}y}` gives -1 |
| UnitCases.SubstructureCase1 | src/str_conversion_test.py:68 | gives (18, 29) |
| UnitCases.SubstructureCase2 | src/str_conversion_test.py:69 | gives (11, 81) |

## Left out

- `fill_values`, the command-line entry point, `sv_config.py` and the
  `__str__`/`__repr__` and `__sv_format` members of `StructureField`: they
  format and print output and are not part of the parser. `src/t.py` is not
  part of this model.
- Python's `re` engine is not modelled in general. Each of the four fixed
  patterns is a hand-written leftmost-match scanner that follows its
  regular expression (lazy `.*?` for block comments, `$` under MULTILINE,
  greedy `.*` without DOTALL inside `__attribute__((…))`, `[\s]+`).
- Whitespace is ASCII only: tab to carriage return, 0x1C to 0x1F, and
  space. Python's `isspace` and `\s` also accept Unicode spaces.
- `int(…, 16)` is modelled on exactly two ASCII hex digits. Python also
  accepts a sign, surrounding whitespace and non-ASCII decimal digits (so
  ` a`, `+a` or an Arabic-Indic or full-width digit would parse there, and
  give a byte here of 0 with a warning).
- StructView.BigEndianLoop: a chunk such as `-a` is read by Python's `int`
  as -10. `arr.append(-10)` (src/structview.py:36) then raises a
  ValueError outside the `try`, and nothing catches it. The model gives 0
  with a warning for that chunk instead.
- `parse_expr` recurses once for each structure that follows another at
  the same level. Around a thousand such structures exceed Python's
  recursion limit and raise RecursionError; the model has no depth limit
  and returns the parse.
- StructView.FromHex and StructView.FromHexOk: `bytearray.fromhex` also
  skips whitespace between pairs; here any non-hex character, whitespace
  included, is a ValueError.
- The `print` of the big-endian warning is returned as a list of the bad
  chunks instead.
- StructView.GetWordSize: requires a non-empty list. The source raises
  IndexError on an empty one; its one caller passes the result of
  `str.split`, which is never empty.
- StructView.WordSize: the same non-empty precondition.
- StructParser.StructNamePrev: states where `prev` is, not the name. The
  name is stated by StructParser.StructNameOfBlock for block declarations
  and, for the repository's own test texts, by UnitCases.StructNameCase1
  to UnitCases.StructNameCase5.
- StructParser.StructNameNext: states where `next` is, not the name, for the
  same reason.
- Rendering.ParseRender: covers text in the single-space layout that
  `remove_spaces` produces: one space before each declaration (so after
  the `{` of a structure with members), none or one before a structure's
  `}`, one between the `}` and a variable and none between the `}` and the
  `;` of a structure without one (`struct xx { unsigned int yy; };`), none
  before any other `;`, with `;`-free trimmed types and identifier names.
  Other spacing (`} ;`, `int  x;`) is covered by `Parse`'s own lemmas and
  by StructParser.ParseSameStrip only where it trims to such text, not by
  a round trip.

## Where the code and its description differ

The model follows the code in each case:

- An odd-length big-endian word is read in pairs from its end. The first
  character is never read (`StructView.BigEndianOddDropsLeading`). It is not
  zero-filled into a chunk of its own.
- `find_matching_paren` counts from index 0, not from the first `{`. A `}`
  in front of the first `{` shifts the count (`Braces.MatchingCountsFromStart`).
- `get_struct_name` drops the character just before `{`, which the cleaned
  text normally makes a space. Without that space the tag loses its last
  character (`StructParser.NameDropsCharBeforeBrace`).
- `'unsigned short'` appears twice in the canonical-names table, as `u8`
  and as `u16`. The later entry wins, as in a Python dict literal.
- A declaration without a space, such as `intx`, is split by `rfind`
  returning -1. Its type becomes all but the last character, so `intx` is
  accepted as an `int` named `intx` (`StructureField.CreateFromStringNoSpace`).
