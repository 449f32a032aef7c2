# StAR contract toolchain — a Dafny model

StAR reads R source files and checks function calls against type contracts
written in comments. This project models the six string- and
sequence-level components that make up that toolchain, and proves what each
one promises.

1. **Type language A** (`typelang.h`, `typelang.cpp`).
   - The `Type` hierarchy becomes the datatype `TypeLang.Type`, and its `toString` renderers become a function.
   - Compatibility is string equality of the renderings.
   - The cursor-based `TypeParser` has two parts. Spec functions in `TypeGrammar` thread the position and a fuel bound; when the fuel runs out the answer is `OutOfFuel`; `OutOfFuel` at every fuel stands for a loop that never ends. The class `TypeParsing.TypeParser` has the `pos` field, and each of its methods is proved equal to its spec function.
   - The static contract map with `verifyFunctionCall` is `Registry.ContractRegistry`. Its diagnostics are returned as a list of reports, not written to the error stream.
2. **Type language B** (`type.h`, `rtype.h`). These two identical hierarchies, with n-ary unions and recursive `str()`, become the datatypes `Types.Type` and `RTypes.RType`. The project proves that they translate into each other and render alike.
3. **Contract lexer and parser** (`contractparser.cpp`). `ContractLexer` (field `pos`) and `ContractParser` (field `current`) are classes. Their methods are proved equal to the spec functions `Lex`, `ParseTypeAt`, `TypeListAt` and `ParseContractAt`.
4. **Statement segmentation and guards** (`gensource.cpp`). This covers `extractStatements` over token texts, `getStatementStrings`, and the R guard generator `generateTypeCheck`.
5. **Parse-tree building and flattening** (`parse.cpp`, `sourceparser.cpp`).
   - The rows of R's parse data become nodes in a `map<int, Node>` arena, and the nodes are then linked in ascending id order.
   - A node whose parent id names no node becomes a root in `parse.cpp`; `sourceparser.cpp` drops it.
   - `flattenAST` is a walk followed by a sort by id.
6. **Annotation lines** (`main.cpp`). Each line is checked with `startsWith`. A `# @contract <name> <type>` line is split into name and type expression, the type expression is parsed, and the result is registered.

All strings are `seq<char>`. The character classes are those of the "C" locale (ASCII).

## Model

| member | source | states |
|---|---|---|
| TypeLang.KindPredicatesExclusive | src/typelang.h:24-31 | Each of the eight concrete classes answers true to exactly its own `is*` predicate. `NullType` answers false to all eight. |
| TypeLang.FunctionRendering | src/typelang.cpp:13-21 | Function arguments are joined by `, ` inside parentheses and followed by ` -> ` and the return type. Zero arguments give `() -> ` + ret. |
| TypeLang.CompatibilityIsEquivalence | src/typelang.cpp:164-166 | Compatibility is reflexive, symmetric and transitive. |
| TypeLang.CompatibleButDistinct | src/typelang.cpp:164-166 | Compatibility is strictly coarser than equality. Both nestings of a three-member union are compatible, and so is a scalar whose name is the union's rendering. |
| TypeGrammar.SkipWsSpec | src/typelang.cpp:125-127 | `skipWhitespace` passes over white space only and stops at the first character that is not white space, or at the end. |
| TypeGrammar.SkipWsIdempotent | src/typelang.cpp:125-127 | Skipping white space twice is the same as skipping it once. |
| TypeGrammar.IdentEndSpec | src/typelang.cpp:118-123 | `parseIdentifier` reads the maximal run of letters, digits and `_`. |
| TypeGrammar.HasAtSlice | src/typelang.cpp:138-145 | The `substr` comparison of `consume` and `peek` holds exactly when the literal fits and the slice equals it. |
| TypeGrammar.ArgumentLoopStopsAtParen | src/typelang.cpp:107-116 | The argument loop ends only in front of an unconsumed `)`. |
| TypeGrammar.FunctionBranchNeverReturns | src/typelang.cpp:71-77 | The `(` branch of `parsePrimary` never yields a value: `expect("->")` throws or the fuel runs out, at every fuel. |
| TypeGrammar.ParseTypeFunctionFree | src/typelang.cpp:57-66 | No type that `parseType` returns contains a function type, at the top or nested. |
| TypeGrammar.ParseTypeNeverFunction | src/typelang.cpp:57-66 | A successful `parseType` never returns a `FunctionType`. |
| TypeGrammar.StuckParsesEmptyScalar | src/typelang.cpp:91 | Where no construct starts, `parseType` returns `ScalarType("")` without moving once it has fuel for itself and `parsePrimary`; with less it runs out of fuel. |
| TypeGrammar.ArgumentLoopDivergesWhenStuck | src/typelang.cpp:110-114 | Once the argument loop sits where nothing can be consumed, it never ends. |
| TypeGrammar.UnterminatedParenDiverges | src/typelang.cpp:107-123 | `(` followed only by white space makes `parseType` run forever, whatever the fuel. |
| TypeGrammar.ParseTypeMono | src/typelang.cpp:57-66 | Once `parseType` answers within some fuel, every larger fuel gives the same answer, so a value or a thrown error does not depend on the bound. |
| TypeGrammar.SuffixMono | src/typelang.cpp:59-65 | The `?`, `[]` and union tail after a primary answers the same with any larger fuel once it answers. |
| TypeGrammar.PrimaryMono | src/typelang.cpp:68-92 | `parsePrimary` answers the same with any larger fuel once it answers. |
| TypeGrammar.FunctionBranchMono | src/typelang.cpp:71-77 | The `(` branch answers the same with any larger fuel once it answers. |
| TypeGrammar.ListBranchMono | src/typelang.cpp:79-83 | The `list<` branch answers the same with any larger fuel once it answers. |
| TypeGrammar.ParseUnionMono | src/typelang.cpp:94-105 | `parseUnion` answers the same with any larger fuel once it answers. |
| TypeGrammar.UnionLoopMono | src/typelang.cpp:99-102 | The `do … while` loop of `parseUnion` answers the same with any larger fuel once it answers. |
| TypeGrammar.ArgumentListMono | src/typelang.cpp:107-116 | `parseArgumentList` answers the same with any larger fuel once it answers. |
| TypeGrammar.ArgumentLoopMono | src/typelang.cpp:110-114 | The `while (!peek(")"))` loop answers the same with any larger fuel once it answers. |
| TypeParsing.TypeParser.constructor | src/typelang.cpp:53 | The parser starts at position 0 of its input. |
| TypeParsing.TypeParser.SkipWhitespace | src/typelang.cpp:125-127 | Moves the cursor to `SkipWs` of the old position. |
| TypeParsing.TypeParser.Match | src/typelang.cpp:129-136 | Consumes `c` after white space exactly when it is next; the result and the new position are those of `MatchChar`. |
| TypeParsing.TypeParser.LiteralAhead | src/typelang.cpp:140 | The truncated `substr` comparison equals `HasAt`. |
| TypeParsing.TypeParser.Consume | src/typelang.cpp:138-145 | Consumes the literal after white space exactly when it is next (`ConsumeText`). |
| TypeParsing.TypeParser.Peek | src/typelang.cpp:159-162 | Skips white space and reports whether the literal is next, consuming nothing else. |
| TypeParsing.TypeParser.ParseIdentifier | src/typelang.cpp:118-123 | The name and the new position agree with the spec function, whose properties `IdentEndSpec` gives. |
| TypeParsing.TypeParser.ParseType | src/typelang.cpp:57-66 | The result equals `TypeGrammar.ParseType`; on success the cursor is right after the type. |
| TypeParsing.TypeParser.ParsePrimary | src/typelang.cpp:68-92 | The result equals `TypeGrammar.ParsePrimary`, including the `expect` failures; on success the cursor is after the primary. |
| TypeParsing.TypeParser.ParseUnion | src/typelang.cpp:94-105 | The result equals `TypeGrammar.ParseUnion`: the first type alone when no bar follows, otherwise the union the `do … while` loop builds. |
| TypeParsing.TypeParser.UnionRound | src/typelang.cpp:99-102 | One round of the `do … while` loop continues the same union loop from the new position, or ends it with the loop's result. |
| TypeParsing.TypeParser.ParseArgumentList | src/typelang.cpp:107-116 | The result equals `TypeGrammar.ParseArgumentList`; on success the cursor sits at the `)` that stopped the loop. |
| TypeRoundTrip.SuffixAtQuestion | src/typelang.cpp:59-61 | A `?` after the primary ends `parseType` with a nullable type; nothing after it is read. |
| TypeRoundTrip.SuffixAtBrackets | src/typelang.cpp:62-64 | `[` directly followed by `]` ends `parseType` with a vector type. |
| TypeRoundTrip.ClassBranchCloses | src/typelang.cpp:85-89 | A name written right after `class<` and closed by `>` is read as a class type with that one id. |
| TypeRoundTrip.ClassBranchOutcomes | src/typelang.cpp:85-89 | Both outcomes of `class<`: the run of identifier characters after the white space is the one id, and the branch returns `class<id>` exactly when the next non-space character is `>`; otherwise it throws `expected '>'` at that character. |
| TypeRoundTrip.SecondClassIdThrows | src/typelang.cpp:85-89 | A second id is refused: `class<a, b>` throws `expected '>'` at the comma. |
| TypeRoundTrip.ReadPrimary | src/typelang.cpp:68-92 | A readable primary rendered at some position is read back by `parsePrimary`, which stops right after it. |
| TypeRoundTrip.ReadType | src/typelang.cpp:57-66 | Any readable type rendered at some position is read back by `parseType` up to the end of its rendering. |
| TypeRoundTrip.RoundTrip | src/typelang.cpp:5-66 | Parsing the rendering of a readable type gives the type back and consumes all of the text. Readable means: no function, env or null, one-identifier classes, and unions whose left member is a primary. |
| TypeRoundTrip.IntegerOrCharacter | src/typelang.cpp:94-105 | The text `integer`, bar, `character` (with spaces around the bar) parses to the union of the two scalars, which renders as the same text. |
| Registry.ContractRegistry.constructor | src/typelang.cpp:55 | The registry starts empty. |
| Registry.ContractRegistry.Clear | src/main.cpp:36 | After `clear()` the registry is empty. |
| Registry.ContractRegistry.AddContract | src/typelang.cpp:168-170 | The entry for the name becomes the given types; every other name keeps its entry or its absence. |
| Registry.ContractRegistry.AddFunctionContract | src/typelang.cpp:172-174 | The entry for the name becomes the contract, overwriting an earlier one; every other name is untouched. |
| Registry.ContractRegistry.VerifyFunctionCall | src/typelang.cpp:176-205 | The loop emits exactly the reports of `CallReports`. |
| Registry.CallReportsCases | src/typelang.cpp:176-205 | A missing contract gives one report and no checks. A count mismatch gives one report and no per-argument checks. Otherwise each position is reported exactly when it is incompatible, and the return type is reported exactly when it is incompatible with the last actual argument. |
| Registry.ArgumentReportsSound | src/typelang.cpp:191-197 | Every argument report names an incompatible position, 1-based. |
| Registry.ArgumentReportsComplete | src/typelang.cpp:191-197 | A position is reported if and only if its actual type is incompatible with the expected one. |
| Registry.ArgumentReportsAscending | src/typelang.cpp:191-197 | The reports come in strictly increasing order of position. |
| Registry.EmptyCallHasNoReturnArgument | src/typelang.cpp:200-204 | An empty call against a zero-argument contract reaches the return check with no last argument to read. |
| Types.DegenerateRenderings | src/type.h:37-61 | An empty union renders `""`, a one-member union renders as its member, and a function without arguments renders `() -> ` + ret. |
| Types.SeparatedRenderings | src/type.h:37-61 | Union members are separated by a space-bar-space separator and function arguments by `, `, in order. |
| Types.NestedUnionFlattens | src/type.h:37-47 | A union nested anywhere among a union's members renders like the flattened union. |
| Types.StrNotInjective | src/type.h:13-47 | `str()` is not injective: a nested union, a scalar named with a leading `?`, and a `TopType` all collide with a different value. |
| RTypes.RenderingForms | src/rtype.h:37-61 | An empty union renders `""`; two members are joined by a space-bar-space separator; two arguments are joined by `, ` before ` -> ` ret. |
| RTypes.TranslationRoundTrip | src/rtype.h:13-77 | Translating a `Type` into an `RType` and back gives the same value, class by class. |
| RTypes.SameRendering | src/rtype.h:13-77 | `RType::str()` and `Type::str()` render corresponding values identically. |
| ContractParsing.Lex | src/contractparser.cpp:11-49 | A lexed token lies within the input, and every token except end of input consumes at least one character. |
| ContractParsing.ContractLexer.constructor | src/contractparser.cpp:8-9 | The lexer starts at position 0. |
| ContractParsing.ContractLexer.SkipWhitespace | src/contractparser.cpp:55-59 | Moves to the first character that is not white space. |
| ContractParsing.ContractLexer.NextToken | src/contractparser.cpp:11-49 | The result equals `Lex`. After a token the position is right after it; after an error it has moved only over white space. |
| ContractParsing.EndOfFileIsStable | src/contractparser.cpp:11-16 | End of input is reported, with empty text, exactly when only white space remains; asking again gives the same answer. |
| ContractParsing.LexedToken | src/contractparser.cpp:20-46 | `(`, `)` and `,` consume one character and `->` two. An identifier is a letter followed by the maximal run of letters, digits and `_`. |
| ContractParsing.LexRejects | src/contractparser.cpp:35-48 | The lexer throws exactly on a character that starts no token, and reports that character. |
| ContractParsing.RefusedCharacters | src/contractparser.cpp:35-48 | A leading `_`, `?`, the bar, `<`, and a `-` not followed by `>` are refused. |
| ContractParsing.ContractParser.Create | src/contractparser.cpp:63-66 | Construction reads the first token, so a lexing error there surfaces before any parsing. |
| ContractParsing.ContractParser.Advance | src/contractparser.cpp:80-82 | The next token becomes the current one, or the lexer's error is returned. |
| ContractParsing.ContractParser.Expect | src/contractparser.cpp:84-88 | Succeeds exactly when the current token has the kind, consumes nothing, and fails with the C++ message otherwise. |
| ContractParsing.ContractParser.ParseType | src/contractparser.cpp:100-107 | Agrees with `ParseTypeAt`: an identifier becomes the type and the next token is read; anything else fails with "expected type name". |
| ContractParsing.ContractParser.ParseTypeList | src/contractparser.cpp:90-98 | Agrees with `TypeListAt`: one type, then one more after each comma. |
| ContractParsing.ContractParser.ParseContract | src/contractparser.cpp:68-78 | Agrees with `ParseContractAt`. |
| ContractParsing.TypeListLoop | src/contractparser.cpp:93-96 | The loop only appends to the types read so far, and it stops on a token that is not a comma. |
| ContractParsing.ReadNames | src/contractparser.cpp:93-96 | After the first type, the loop reads each further `, name` in order and stops at `)`. |
| ContractParsing.AcceptsContract | src/contractparser.cpp:68-107 | The rendering `(a1, …, an) -> r`, with `, ` between the arguments and ` -> ` before the return type, is accepted with the argument types in source order. Only the one token after `r` is lexed: an unlexable character there fails, and anything later is ignored. Any other spacing is covered by `ContractSpelledExactly`. |
| ContractParsing.EmptyArgumentListFails | src/contractparser.cpp:92 | `() -> t` fails with "expected type name, got: )". |
| ContractParsing.AcceptedContractSound | src/contractparser.cpp:68-107 | An accepted contract has at least one argument, and every type in it is an identifier. The tokens it was read from are stated by `AcceptedContractSpelled`. |
| ContractParsing.LoopFromStream | src/contractparser.cpp:93-96 | When the tokens from the current one on are `, a` for each further name and then a token that is not a comma, the loop appends those names in order and stops on that token, with the rest of the tokens still to come. |
| ContractParsing.StreamOfLoop | src/contractparser.cpp:93-96 | Whatever the loop accepts is `, a` for each name it appended, lexed in front of the token it stopped on. |
| ContractParsing.ContractFromTokens | src/contractparser.cpp:63-107 | Any text whose tokens are `(`, a1, then `,` and ai for each further argument, `)`, `->`, r, followed by one more token that lexes, is accepted as that contract, whatever white space lies between the tokens. |
| ContractParsing.AcceptedContractSpelled | src/contractparser.cpp:63-107 | Every accepted text lexes to the tokens of the contract it was accepted as, followed by one more token that lexes. |
| ContractParsing.ContractSpelledExactly | src/contractparser.cpp:63-107 | Both ways: the text is accepted as `(a1, …, an) -> r` exactly when it lexes to those tokens followed by one more token that lexes. |
| SourceGen.ExtractStatements | src/gensource.cpp:8-45 | The loop emits exactly the ranges of `Statements`. |
| SourceGen.ScanToken | src/gensource.cpp:26-41 | One token that is not a comment: the ranges it closes, followed by the rest of the scan, are the scan from it. |
| SourceGen.LastComment | src/gensource.cpp:19-24 | The inner loop stops on the last of a run of consecutive comment tokens. |
| SourceGen.DepthOverComments | src/gensource.cpp:19-24 | A run of comments leaves both depth counters unchanged. |
| SourceGen.StatementsProperties | src/gensource.cpp:8-45 | Four guarantees: (1) ranges have start ≤ end, lie within the tokens, and are ordered without overlap; (2) each closes at depth zero on `)`, `}`, the last token or a token before a comment; (3) none starts or ends on a comment; (4) every non-comment token is inside a range or after all of them, in the statement that never closed. |
| SourceGen.UnclosedStatements | src/gensource.cpp:31-44 | A statement that never closes is not emitted. An unmatched `)` drives the paren depth to -1. A comment closes the statement before it. |
| SourceGen.GetStatementStrings | src/gensource.cpp:49-65 | One string per range, in order: the range's token texts joined by single spaces, then a newline. |
| SourceGen.RangeText | src/gensource.cpp:54-57 | The inner loop produces the tokens of the range separated by single spaces. |
| SourceGen.StatementsInBounds | src/gensource.cpp:8-65 | Every emitted range can be rendered: its tokens exist. |
| SourceGen.LineSplits | src/gensource.cpp:49-64 | A statement's line ends in a newline. Splitting the rest at spaces gives back the tokens, when no token contains a space. |
| SourceGen.GenerateTypeCheck | src/gensource.cpp:67-82 | The guard is non-empty exactly for `integer`, `double`, `logical`, `character` and `integer[]`. |
| SourceGen.GuardShape | src/gensource.cpp:67-77 | A recognised type's guard applies its `is.*` test to the argument and names the argument and the type in the `stop` message; `integer[]` uses `is.integer`. |
| SourceGen.GuardDeterminesType | src/gensource.cpp:67-82 | For one argument, the guard determines the type it checks. |
| ParseTree.SortedIds | src/parse.cpp:130-137 | The sorted ids are exactly the map's keys. |
| ParseTree.SortedIdsIncreasing | src/parse.cpp:130-137 | They are strictly ascending. |
| ParseTree.BuildNodes | src/parse.cpp:115-128 | The row loop stores each row's node under its id (`Collapse`). |
| ParseTree.CollapseKeys | src/parse.cpp:115-128 | The map holds a node for exactly the ids that occur in the rows. |
| ParseTree.CollapseLatest | src/parse.cpp:115-128 | The node under an id is made from the last row with that id. |
| ParseTree.LaterRowWins | src/sourceparser.cpp:120-127 | Of two rows with the same id only the later survives. |
| ParseTree.ArgumentsOnlyForCalls | src/parse.cpp:122-125 | Only a `SYMBOL_FUNCTION_CALL` node of `parse.cpp` gets the arguments `arg1` and `arg2`; every other node gets none. |
| ParseTree.FilterKeeps | src/parse.cpp:139-150 | The ids linked into the roots or into one node's children are ascending, and are exactly those that belong there. |
| ParseTree.LinkNode | src/parse.cpp:140-149 | One step of the linking loop: a root is appended to the roots, an attached node to its parent's children, and any other node is dropped. |
| ParseTree.LinkNodes | src/parse.cpp:139-150 | The linking loop produces `LinkForest` of the nodes. |
| ParseTree.GenerateAST | src/parse.cpp:96-150 | The result is the forest of the rows, with orphans as roots. A missing column gives an empty forest. |
| ParseTree.GenerateSourceAST | src/sourceparser.cpp:99-150 | The result is the forest of the rows, with orphans dropped. A missing column gives an empty forest. |
| ParseTree.ForestNodes | src/parse.cpp:115-150 | The forest holds one node per row id. Each node comes from the last row with that id and differs from it only in its children. |
| ParseTree.ForestRoots | src/parse.cpp:139-150 | The roots are in ascending id order, and a node is a root exactly when its parent id makes it one. |
| ParseTree.ForestChildren | src/parse.cpp:139-150 | Every children list is in ascending id order. It holds exactly the nodes attached to that parent. |
| ParseTree.OrphanHandling | src/sourceparser.cpp:139-147 | In `parse.cpp` every node is exactly one of root or attached. In `sourceparser.cpp` a node whose non-zero parent is absent is neither, so it is dropped. |
| Flatten.Collect | src/parse.cpp:180-185 | The recursive lambda appends the node, then the walk of each child in turn. |
| Flatten.VisitMono | src/parse.cpp:180-185 | Once the walk from a node finishes within some fuel, every larger fuel gives the same walk. |
| Flatten.VisitAllMono | src/parse.cpp:182-189 | Once the walk over a list of nodes finishes within some fuel, every larger fuel gives the same walk. |
| Flatten.Sort | src/parse.cpp:191-193 | `std::sort` by id gives an ascending permutation of its input. |
| Flatten.FlattenAST | src/parse.cpp:177-196 | The walk of every root in turn, then sorted (`Flattened`). |
| Flatten.VisitDistinct | src/parse.cpp:180-185 | From a node on no cycle of parents, the walk pushes no node twice. |
| Flatten.VisitAllClosed | src/parse.cpp:180-189 | The walk pushes every root and, with every node, all of its children. |
| Flatten.SiblingsMeet | src/parse.cpp:139-150 | Two nodes with the same parent link that both lie above one node are the same node, unless their parent lies on a cycle. |
| Flatten.BuiltForestWellLinked | src/parse.cpp:139-150 | A built forest is well linked: roots are roots, each child is attached to its parent, and every list is ascending. |
| Flatten.FlattenedForest | src/parse.cpp:177-196 | When the walk finishes, `flattenAST` returns each node reachable from the roots exactly once, in strictly ascending id order. It contains every root and every child of a returned node, and nothing that is not linked under a root. On a built forest the walk always finishes: see `FlattenedBuiltForest`. |
| Flatten.SubtreeShrinks | src/parse.cpp:180-185 | Below a node on no parent cycle, each child's subtree is strictly smaller than the node's, so `collect` recurses on ever smaller subtrees. |
| Flatten.VisitFinishes | src/parse.cpp:180-185 | The walk from a node on no parent cycle finishes with as much fuel as its subtree has nodes. |
| Flatten.RootsFinish | src/parse.cpp:187-189 | The walk over the roots finishes with as much fuel as the forest has nodes. |
| Flatten.BuiltForestFlattens | src/parse.cpp:177-196 | `flattenAST` finishes on every forest that `generateAST` or `generateSourceAST` builds. |
| Flatten.FlattenedBuiltForest | src/parse.cpp:177-196 | With no fuel hypothesis, `flattenAST` on a built forest finishes, and its result is strictly ascending by id. It holds every root and, with each node, all of its children, and every node in it is linked under a root. |
| Annotations.StartsWithIsPrefix | src/main.cpp:14-19 | `startsWith` holds exactly when the string is the prefix followed by something; the empty prefix starts every string. |
| Annotations.StripNewline | src/main.cpp:52-55 | One trailing newline is removed, and nothing else changes. |
| Annotations.StripOneNewline | src/main.cpp:52-55 | Only one newline is removed. |
| Annotations.Span | src/main.cpp:61 | The scan stops at the first character it does not keep. |
| Annotations.SkipMarker | src/main.cpp:59-61 | The contract text starts after the 11-character marker and the white space that follows it. |
| Annotations.AnnotationShape | src/main.cpp:65-79 | The name holds no white space. The type expression holds no newline and is left untouched only when it is all blanks. An empty name leaves no type expression. |
| Annotations.AnnotationRoundTrip | src/main.cpp:59-79 | Marker, white space, name, blanks and a type expression read back as that name and that type expression. So `# @contractfoo int` names `foo`. |
| Annotations.OnlyFunctionsRegister | src/main.cpp:84-100 | A line registers a contract exactly when its type expression parses as a function type. It registers under the annotation's name, with that type's arguments and return type. |
| Annotations.ProcessLine | src/main.cpp:51-101 | One line changes the registry by its effect, or reports that the parse never returns. |
| Annotations.ProcessAnnotations | src/main.cpp:36-101 | The loop finishes with the given fuel exactly when no line's parse runs out of it, and then the registry is the fold of the lines' effects from the cleared registry. |
| Annotations.RegisteredNames | src/main.cpp:92-95 | The registry holds a name exactly when some line registered it. |
| Annotations.LastRegistrationWins | src/main.cpp:92-95 | A name holds the contract of the last line that registered it. |
| Annotations.FoldStuck | src/main.cpp:51 | Once a parse never returns, the remaining lines are never processed. |
| Annotations.FoldNeverStuck | src/main.cpp:51-101 | A pass that finishes met no line whose parse never returns. |
| Annotations.LineEffectMono | src/main.cpp:84-100 | A line whose parse comes back has the same effect with any larger fuel. |
| Annotations.ProcessedMono | src/main.cpp:36-101 | A pass that finishes within some fuel gives the same registry with any larger fuel. |
| Annotations.NoLineRegisters | src/main.cpp:84-95 | As written, no line ever registers a contract, because `parseType` never yields a function type. |
| Annotations.RegistryStaysEmpty | src/main.cpp:36-101 | Whenever the annotation pass finishes, the registry is empty. |

## Left out

- `tokenizeRSource` (`parse.cpp`, `sourceparser.cpp`) is not part of this model. It starts the embedded R interpreter, reads the file and calls `R_ParseVector` and `getParseData`, which are foreign calls and I/O.
- The SEXP column plumbing of `generateAST` is abstracted. The data frame is a sequence of `(id, parent, token, text)` rows plus a flag saying whether all four columns were found.
- `debugAST` and all `std::cout`/`std::cerr` logging are left out. `verifyFunctionCall` returns its diagnostics as a list of reports. The warning `generateTypeCheck` writes for an unknown type is dropped.
- `main`, `fileExists`, the `R_HOME` setup and the opening of the file are left out. The annotation pass takes the lines as `fgets` returns them, so its 1024-byte splitting of long lines is not modelled.
- `exampleFunction` in `main.cpp` is demo code.
- Five functions are only declared and have no body: `injectInputTypeChecks`, `generateOutputTypeChecks`, `walkAST`, `verifyFunctionCalls` and `verifySingleFunctionCall`.
- Raw pointers, ownership and leaks are not modelled. Types are values, and parse nodes live in an id-indexed map.
- `typelang.h`'s accessors (`getBaseType`, `getArguments`, …) are the datatype's fields and have no members of their own.
- Non-ASCII locales are left out: the C character classes are those of the "C" locale.
- Non-termination is modelled with fuel. The recursion of the type parser and of `flattenAST` takes a fuel bound. An answer given within some fuel is the answer with any larger fuel (`TypeGrammar.ParseTypeMono`, `Flatten.VisitMono`, `Annotations.ProcessedMono`), so `OutOfFuel` at every fuel stands for a run that never ends.
  - `TypeRoundTrip.RoundTrip` states a sufficient fuel for readable types.
  - `Flatten.BuiltForestFlattens` states a sufficient fuel for `flattenAST` on every built forest: the number of nodes.
- `Flatten.Sort` models `std::sort` as a pure function on a sequence rather than an in-place sort. `ParseTree.SortedIds` does the same for the sort of `orderedNodes`.
- The iteration order of `unordered_map` is not modelled. Every use of it is followed by a sort by id, which makes the order irrelevant.
- `Registry.ContractRegistry.VerifyFunctionCall`: `actualArgs.back()` on an empty call is undefined behaviour in C++. It is modelled as a `NoArgumentForReturnCheck` report instead of a return-type comparison.
- `TypeRoundTrip.RoundTrip` covers only readable types; it is weaker than a round trip for every type. Function types never parse. `env` and `null` read back as scalars. Classes with other than one id do not round-trip. A union whose left member is itself a union renders with a nesting that does not read back the same way.
- `Annotations.ProcessAnnotations` follows the code, under which the pass never registers anything: see `Annotations.RegistryStaysEmpty`. A function type written in an annotation cannot be parsed, because the `(` branch of `parsePrimary` always throws or never returns.
