# A Dafny model of loop-convert and the clang_doc string helpers

The repository holds two Clang-based tools.

`loop-convert` rewrites counting loops over arrays into range-based for loops. It turns `for (int i = 0; i < N; ++i) sum += arr[i];` into `for (auto & elem : arr) sum += elem;`. This model covers:

- `ForLoopIndexUseVisitor`: walks the loop body, records every `arr[i]` that uses the loop variable as index, and notes the arrays indexed. It clears the "only used as index" verdict on any other reference to the variable.
- `LoopFixer::run`: the gates a matched loop must pass.
- `doConversion`: the text replacements it produces.
- `VariableNamer`: the chain of candidate names for the element variable and the collision test behind it.

`clang_doc` generates cross-referenced HTML pages from C and C++ sources. This model covers:

- its string helpers: `strip_final_seps`, `make_filename`, `fullyScopedName`, HTML escaping in `Html_File::fix`, and `munge_fullyscopedname`;
- the bookkeeping in `Clang_Doc`: the `-I` scan of the compiler arguments, the USR test for external linkage, the first-insert-wins definition map fed by tag files and then by the sources, and the lines written to the tag file.

Modules, one per file:

| file | module | models |
|---|---|---|
| optional.dfy | Optional | `Option` |
| ast.dfy | Ast | the expression tree, types, declarations, `Stmt::Profile` as a structural fingerprint, the integer constant evaluator, `getStringFromRange` |
| usage_classifier.dfy | UsageClassifier | `ForLoopIndexUseVisitor`, corrected and as written |
| loop_fixer.dfy | LoopFixer | `arrayMatchesConditionExpr`, `doConversion`, `LoopFixer::run` |
| loop_fixer_examples.dfy | LoopFixerExamples | loops from the array tests, run through the model |
| variable_naming.dfy | VariableNaming | `createIndexName`, `declarationExists` |
| doc_utils.dfy | DocUtils | `strip_final_seps`, `make_filename`, `fullyScopedName` |
| html_file.dfy | HtmlFile | `Html_File::fix`, `munge_fullyscopedname` |
| clang_doc.dfy | ClangDoc | `parse_include_directives`, the USR test, the definition map, the visitor, `generate_symbol_table`, `generate_tag_file` |

**The visitor.** The walk is a pre-order traversal. A subscript indexed by the loop variable is recorded and is not descended into. The lemma `TraverseIsFold` shows that the walk is a left fold of one step over the nodes it reaches. Every property of `FindUsages` is proved on that fold.

**Strings** are `seq<char>`. The C strings the source handles hold no NUL. So a read one past the end of an argument meets the terminator, which matches no letter.

## Model

| member | source | states |
|---|---|---|
| UsageClassifier.ContainsExpr | loop-convert/LoopActions.cpp:108-115 | true iff some stored container is profile-equal to the expression |
| UsageClassifier.Reached | loop-convert/LoopActions.cpp:147-155 | the walk reaches the node itself first, and a recorded subscript is a leaf: neither its base nor its index is visited |
| UsageClassifier.FindUsages | loop-convert/LoopActions.cpp:48-51 | the verdict is true iff no reference to the loop variable is reached outside a recorded subscript; the usages are exactly the recorded subscripts in traversal order, repeats included; no two containers are profile-equal; each container is the stripped base of some usage; every usage's base is profile-equal to a stored container |
| UsageClassifier.TraverseIsFold | loop-convert/LoopActions.cpp:147-166 | the recursive walk equals one step per reached node, in pre-order |
| UsageClassifier.FoldVerdict | loop-convert/LoopActions.cpp:161-166 | the flag ends true iff it started true and no bare reference to the loop variable is among the reached nodes |
| UsageClassifier.FoldUsages | loop-convert/LoopActions.cpp:147-155 | usages grow by exactly the recorded subscripts, in order |
| UsageClassifier.RecordKeepsNoProfileDuplicates | loop-convert/LoopActions.cpp:150-152 | a base is inserted only when no profile-equal container is stored, so the container list never holds two profile-equal expressions |
| UsageClassifier.FoldConsistent | loop-convert/LoopActions.cpp:150-153 | the walk keeps the containers duplicate-free, each taken from a usage, and covering every usage |
| UsageClassifier.SingleContainer | loop-convert/LoopActions.cpp:97-115 | exactly one container is indexed iff there is a usage and all usages index profile-equal bases |
| UsageClassifier.FlagStaysCleared | loop-convert/LoopActions.cpp:161-166 | once the verdict is false it stays false, and the walk goes on recording subscripts rather than stopping |
| UsageClassifier.AsWrittenDiverges | loop-convert/LoopActions.cpp:147-157 | as written, the walk never finishes once it reaches a subscript not indexed by the loop variable |
| UsageClassifier.AsWrittenAgrees | loop-convert/LoopActions.cpp:147-157 | where no such subscript is reached, the walk as written computes the corrected walk's result |
| LoopFixer.ArrayMatchesConditionExpr | loop-convert/LoopActions.cpp:129-141 | true iff the canonical type is a constant-size array and the bound is an integer constant expression whose value is the array's size |
| LoopFixer.TypedefIsTransparent | loop-convert/LoopActions.cpp:131-133 | an array type behind a typedef gets the same verdict as the array type itself, for every bound |
| LoopFixer.OnlyConstantArraysMatch | loop-convert/LoopActions.cpp:131-141 | a pointer, a variable-length array or an integer never matches, whatever the bound |
| LoopFixer.OffByOneBoundRejected | loop-convert/LoopActions.cpp:136-140 | for every size, a bound whose constant value is one less or one more than the size is rejected |
| LoopFixer.SameValueSameVerdict | loop-convert/LoopActions.cpp:136-140 | the bound is judged by its constant value, not its spelling: two bounds with the same value get the same verdict |
| LoopFixer.UsageEdits | loop-convert/LoopActions.cpp:175-182 | one replacement per usage, in order, replacing that subscript's range by "elem" |
| LoopFixer.DoConversion | loop-convert/LoopActions.cpp:169-199 | never rejects; the container's text is unavailable exactly when its range begins and ends in different files, where the source crashes after it has already inserted the usage edits (see Left out); otherwise gives one "elem" edit per usage, then the paren range replaced by "(auto & elem : " + the container's verbatim text + ")" |
| LoopFixer.Run | loop-convert/LoopActions.cpp:203-233 | rejected iff some gate fails, and the reason is the first failing gate in the order main file, same variables, verdict, one container, bound |
| LoopFixer.ConvertedEdits | loop-convert/LoopActions.cpp:218-232 | a conversion happens only when the verdict is true, there is one container and the bound matches; its edits are the usage edits followed by the header |
| LoopFixer.RejectedLeavesReplaceUntouched | loop-convert/LoopActions.cpp:203-233 | when any gate fails, the Replacements set is unchanged |
| LoopFixer.ConversionEditCount | loop-convert/LoopActions.cpp:169-199 | with distinct subscript ranges not already replaced, a conversion adds exactly the number of usages plus one to the Replacements set |
| LoopFixerExamples.ConvertsSumOverArray | test/loop-convert/loop-convert-array.cpp:23-28 | `sum += arr[i]` under `i < N` gives an "elem" edit and the header "(auto & elem : arr)" |
| LoopFixerExamples.ConvertsEveryUsage | test/loop-convert/loop-convert-array.cpp:30-36 | two subscripts of the same array are both replaced and the array is counted once |
| LoopFixerExamples.ConvertsComputedBound | test/loop-convert/loop-convert-array.cpp:75-80 | the bound `NMinusOne + 1` is accepted as a constant equal to the size |
| LoopFixerExamples.RejectsEscapingIndex | loop-convert/LoopActions.cpp:218-220 | `x = i;` in the body rejects the loop at the verdict gate |
| LoopFixerExamples.RejectsTwoContainers | loop-convert/LoopActions.cpp:222-225 | `arr[i] + other[i]` rejects the loop at the one-container gate |
| LoopFixerExamples.RejectsShorterBound | loop-convert/LoopActions.cpp:227-229 | a bound one short of the size rejects the loop |
| LoopFixerExamples.ConvertsExplicitThisMember | test/loop-convert/loop-convert-array.cpp:118-124 | the header repeats the container text `this->Arr` verbatim |
| VariableNaming.FoundInContexts | loop-convert/VariableNaming.cpp:63-68 | true iff the loop context or one of its lookup parents declares the name |
| VariableNaming.GeneratedAbove | loop-convert/VariableNaming.cpp:71-75 | true iff the ledger maps the statement or one of its ancestors to the name |
| VariableNaming.DeclarationExists | loop-convert/VariableNaming.cpp:52-80 | true iff the name is found in the scopes, generated above, or found in the body |
| VariableNaming.AppendUntilFree | loop-convert/VariableNaming.cpp:39-44 | the loop ends; the result is free and is the name followed by the least number k of 'i' such that every shorter extension is taken |
| VariableNaming.CreateIndexName | loop-convert/VariableNaming.cpp:6-45 | the result is free and is the first free candidate of the chain: every earlier candidate is taken |
| VariableNaming.FirstFreeUnique | loop-convert/VariableNaming.cpp:24-44 | the first free position in the chain is unique, so the name is determined |
| VariableNaming.NameDependsOnlyOnTaken | loop-convert/VariableNaming.cpp:6-45 | two contexts that take the same names yield the same name |
| VariableNaming.FallbackShape | loop-convert/VariableNaming.cpp:39-44 | once the four fixed candidates are taken, the result is "_elem_" followed by k letters 'i', with every shorter such name taken |
| VariableNaming.SingleLetterS | loop-convert/VariableNaming.cpp:16-20 | the container "s" is not treated as a plural: the first candidate is "elem" |
| VariableNaming.NoContainerChain | loop-convert/VariableNaming.cpp:13-29 | with no container the chain runs "elem", then "_" + the old index |
| VariableNaming.NestedLoopSkipsGeneratedName | loop-convert/VariableNaming.cpp:70-75 | a name generated for an enclosing loop counts as taken, so the next candidate is chosen |
| DocUtils.ReplaceEach | clang_doc/Utils.cpp:46-50 | the find_first_of loop replaces every occurrence of the character and nothing else |
| DocUtils.ReplaceCharIdempotent | clang_doc/Utils.cpp:46-50 | a second pass of the space-to-'@' rewrite changes nothing |
| DocUtils.StripFinalSeps | clang_doc/Utils.cpp:86-91 | the result is a prefix of the input that does not end in '/', and everything removed is '/' |
| DocUtils.StripFinalSepsKeepsLastNonSeparator | clang_doc/Utils.cpp:86-91 | no character other than '/' is removed |
| DocUtils.StripFinalSepsIdempotent | clang_doc/Utils.cpp:86-91 | stripping twice is stripping once |
| DocUtils.StripFinalSepsAsWrittenAgrees | clang_doc/Utils.cpp:86-91 | as written, the scan runs off the front exactly when the input is empty or all '/'; otherwise it agrees with the corrected function |
| DocUtils.StripFinalSepsAsWrittenFailsOnEmpty | clang_doc/Utils.cpp:88-89 | as written, "" and "/" make the scan read before the start of the string |
| DocUtils.MakeFilename | clang_doc/Utils.cpp:54-84 | fails iff the file name is shorter than the prefix plus separator; otherwise gives the length formula, no '/' in the munged part, and "directory/" in front when a full path is asked for |
| DocUtils.MakeFilenameKeepsCharacters | clang_doc/Utils.cpp:71-83 | each character past the cut is kept, except that '/' becomes '_' |
| DocUtils.MakeFilenameIgnoresPrefixText | clang_doc/Utils.cpp:63-66 | the cut depends only on the prefix's length: files "s/a/b" and "t/a/b" with prefix "s" both give "h/a_b"; a file shorter than the cut fails |
| DocUtils.FullyScopedNameInner | clang_doc/Utils.cpp:19-38 | an empty display name yields just the parent's part; a cursor without a parent yields its display name |
| DocUtils.FullyScopedName | clang_doc/Utils.cpp:42-52 | the space-to-'@' pass keeps the length of the name fullyScopedName_i builds and leaves no space in it |
| DocUtils.FullyScopedNameIsJoin | clang_doc/Utils.cpp:19-52 | the name is the non-empty display names of all enclosing scopes joined by "::", with spaces turned into '@' |
| DocUtils.AnonymousScopeAddsNoSeparator | clang_doc/Utils.cpp:30-34 | an anonymous scope between two named ones adds no "::" of its own |
| HtmlFile.Fix | clang_doc/Html_File.cpp:73-99 | no raw '<', '>' or '"' in the output, at most six characters per input character |
| HtmlFile.FixAppend | clang_doc/Html_File.cpp:78-97 | escaping works character by character: fix(a + b) == fix(a) + fix(b) |
| HtmlFile.FixStopsAtNul | clang_doc/Html_File.cpp:78-78 | nothing after the terminating NUL is read |
| HtmlFile.FixLength | clang_doc/Html_File.cpp:78-97 | the output is at least as long as the input, and exactly as long iff none of the four special characters occurs, in which case it is the input |
| HtmlFile.UnescapeFix | clang_doc/Html_File.cpp:80-91 | decoding the four entities in the output gives back the input |
| HtmlFile.ReplaceFirst | clang_doc/Html_File.cpp:106-109 | fails iff the pattern is absent; otherwise replaces its first occurrence and changes the length by the difference of the two strings |
| HtmlFile.ReplaceAll | clang_doc/Html_File.cpp:106-110 | each find-and-replace loop ends with the pattern absent, and never lengthens the string |
| HtmlFile.StripClass | clang_doc/Html_File.cpp:105-110 | no "class@" is left, and the string is shorter whenever one was there |
| HtmlFile.StripEnum | clang_doc/Html_File.cpp:112-116 | no "enum@" is left, and a name without one is unchanged |
| HtmlFile.RenameBool | clang_doc/Html_File.cpp:126-131 | no "@_Bool" is left, and the name never grows |
| HtmlFile.Munge | clang_doc/Html_File.cpp:102-132 | no "@_Bool" in the result, never longer than the input, and unchanged when none of the three patterns occurs |
| HtmlFile.EnumPassCanFormClass | clang_doc/Html_File.cpp:105-116 | removing "enum@" can form a "class@" that the earlier pass never sees: "claenum@ss@x" munges to "class@x" |
| ClangDoc.IncludesOf | clang_doc/Clang_Doc.cpp:244-265 | the reference definition of the include list, one path per "-I" directive, in argument order; never longer than argv |
| ClangDoc.ParseIncludeDirectives | clang_doc/Clang_Doc.cpp:237-265 | the getnext/found/index loop computes exactly the reference include list |
| ClangDoc.IncludeSources | clang_doc/Clang_Doc.cpp:244-265 | each include comes from a distinct argument, and the indices increase, so argv order is kept |
| ClangDoc.IncludesFollowArguments | clang_doc/Clang_Doc.cpp:246-264 | each include is either the whole argument after a bare "-I", even one starting with '-', or an argument "-I<path>" without its first two characters |
| ClangDoc.IncludesExample | clang_doc/Clang_Doc.cpp:246-258 | a trailing bare "-I" contributes nothing, other arguments are ignored, and "-I -DX" contributes "-DX" |
| ClangDoc.IsExternalUsr | clang_doc/Clang_Doc.cpp:91-93 | true iff the USR has '@' at index 2 and does not continue "@aN" there |
| ClangDoc.UsrExamples | clang_doc/Clang_Doc.cpp:91-93 | "c:@F@main" is external; "c:@aN@x" (anonymous namespace) and "c:a.c@F@x" (file-local) are not |
| ClangDoc.Insert | clang_doc/Clang_Doc.cpp:102-102 | insertion keeps the keys strictly sorted; it adds the entry iff its key is new and never replaces an existing one |
| ClangDoc.GetInsert | clang_doc/Clang_Doc.cpp:155-155 | after an insertion, a lookup finds the old entry when there was one, and the inserted one otherwise |
| ClangDoc.FirstInsertWins | clang_doc/Clang_Doc.cpp:155-155 | after a series of insertions, each key maps to the entry already present or else to the first one offered |
| ClangDoc.Recorded | clang_doc/Clang_Doc.cpp:87-103 | a cursor is recorded iff it is a declaration, a definition and has an external USR; the key is its fully scoped name with its file and position, not from a tag file |
| ClangDoc.Visit | clang_doc/Clang_Doc.cpp:35-109 | a cursor from another file contributes nothing, not even through its children; every definition offered has a space-free key, the scanned file's name, and is not from a tag file |
| ClangDoc.VisitIsCollect | clang_doc/Clang_Doc.cpp:35-109 | the visitor offers exactly the recorded definitions of the cursors it examines, in pre-order, where a cursor of another file hides its whole subtree |
| ClangDoc.VisitOffersExactly | clang_doc/Clang_Doc.cpp:48-103 | a definition is offered iff some examined cursor of the file, at any depth, records it |
| ClangDoc.CollectMembers | clang_doc/Clang_Doc.cpp:87-103 | a definition is collected from a run of cursors iff one of them records it |
| ClangDoc.SourceDefinitionsOffer | clang_doc/Clang_Doc.cpp:170-186 | a definition recorded anywhere below a parsed source's translation unit is offered to the map |
| ClangDoc.SourceSymbolEntered | clang_doc/Clang_Doc.cpp:164-188 | every definition a parsed source records gets an entry in the table, and that entry comes from the sources when no tag file names the symbol |
| ClangDoc.VisitRecordsDefinition | clang_doc/Clang_Doc.cpp:87-108 | a cursor in the file that passes the tests is offered before its children; one that fails passes straight on to its children |
| ClangDoc.TagDefinitions | clang_doc/Clang_Doc.cpp:147-156 | every record of every tag file is offered, nothing else is, and each is marked as coming from a tag file |
| ClangDoc.SymbolTable | clang_doc/Clang_Doc.cpp:164-188 | the resulting map is strictly sorted by key |
| ClangDoc.TagFilesTakePrecedence | clang_doc/Clang_Doc.cpp:164-188 | each key maps to the first definition offered, tag-file records first; a symbol a tag file names keeps its tag-file entry |
| ClangDoc.TagLineRoundTrip | clang_doc/Clang_Doc.cpp:147-147 | a line written as "%s %s %u\n" with space-free non-empty fields reads back as the same symbol, file and line |
| ClangDoc.Listed | clang_doc/Clang_Doc.cpp:212-218 | the entries listed are exactly those with a non-empty key not read from a tag file, in key order |
| ClangDoc.FileLines | clang_doc/Clang_Doc.cpp:207-211 | one "file html 0" line per source file, html being make_filename's full path; fails iff make_filename fails for some file |
| ClangDoc.TagFileLines | clang_doc/Clang_Doc.cpp:203-223 | fails iff make_filename fails for some source file; otherwise exactly the per-file "file html 0" lines, then one line per listed entry, in key order, with its key, file and line |
| ClangDoc.TagFileReadsBack | clang_doc/Clang_Doc.cpp:212-218 | every entry line of the tag file reads back as that entry's key, file and line |

## Left out

- The Clang AST machinery is modelled abstractly. This covers RecursiveASTVisitor, Stmt::Profile, isIntegerConstantExpr, SourceManager and the Lexer. Expressions form a small tree datatype. The source text of a range is an uninterpreted function argument.
- Ast.Profile: the fingerprint holds the node class, the referenced canonical declaration, the literal value or operator, and the children. Types are left out. The real profile hashes more, but only its equality is ever used.
- Ast.Evaluate: the constant evaluator covers literals, constant declarations, parentheses, casts, `+`, `-` and `*` on mathematical integers. The source's APSInt width and signedness are not modelled. Other constant forms evaluate to None.
- LoopMatcher: the AST matcher is not modelled. Its result is taken as given bindings: the loop, the three variables and the bound. The matcher's shape (init 0, `<` condition, `++` increment) is assumed of the input.
- doConversion hardcodes "elem". VariableNamer is modelled on its own because nothing in the converter calls it. The header's spelling of `auto &` is fixed as "auto &".
- VariableNaming.h is not part of this model. DeclFinderASTVisitor is represented by the set of names it finds in the body. The ReverseAST walk is the given list of ancestors, and the ledger of generated names is given. No code writes to the ledger.
- LoopActions.h and LoopMatchers.h declare helpers that the modelled code never uses.
- LoopFixer.DoConversion: when the container's range begins and ends in different files, the source inserts every usage edit and then builds a StringRef from the null pointer getStringFromRange returns, which crashes. The model returns ContainerTextUnavailable and leaves the Replacements set unchanged instead of modelling the crash or the partial edits.
- VariableNaming.FoundInContexts: the source notes that DeclContext::lookup always comes back empty there in practice. The model takes the lookup at face value, so names declared in the enclosing contexts count as taken.
- Replacements: a tooling::Replacements set is a Dafny set of replacements. Overlap checks between loops are not modelled.
- I/O and libclang are not modelled: fopen and fclose, console printing, TU_File and translation-unit parsing, and clang_visitChildren's C callback plumbing. A translation unit is given as a cursor tree, with each cursor's file, position, kind tests, USR and scope chain precomputed.
- ClangDoc.TagDefinitions: tag files are given already parsed. The fscanf loop's behaviour on malformed lines is not modelled. The libgen dirname of each tag file's path is given. Fields that fscanf leaves unset (column and offset) are 0 in the model.
- ClangDoc.ParseTagLine separates fields by single spaces. fscanf's %s stops at any whitespace, so the round trip is stated only for keys and file names without spaces.
- ClangDoc.IsExternalUsr: the source indexes a USR shorter than two characters out of bounds. The model answers false there.
- Line numbers are unbounded naturals. The source's unsigned 32-bit values are not wrapped.
- Html_File's page writers (write_header, write_token, write_comment_split, write_html) and clang_doc_main.cpp's option parsing are I/O plumbing. They are not modelled.
- HtmlFile.Fix is a pure function. The source reuses a function-static string as its buffer.
- ClangDoc.FileLines: an exception from make_filename is a None result. The source would leave the tag file partly written.

## Findings

| source | as written | input that shows it | evidently intended | confidence | as-written member | corrected member |
|---|---|---|---|---|---|---|
| loop-convert/LoopActions.cpp:156 | `VisitorBase::TraverseStmt(ASE)` dispatches on the node's class back to the overriding `TraverseArraySubscriptExpr`, on the same node | a loop body holding `arr[j]` where `j` is not the loop variable | traverse the subscript's children (`VisitorBase::TraverseArraySubscriptExpr(ASE)`) | not executed | UsageClassifier.AsWrittenDiverges | UsageClassifier.FindUsages |
| clang_doc/Utils.cpp:89 | the backward scan reads `str[last-1]` without first checking that `last` is positive | `""` or `"/"`; `""` is the default root directory (clang_doc/clang_doc_main.cpp:20), which the constructor strips | stop the scan at the start of the string | not executed | DocUtils.StripFinalSepsAsWrittenFailsOnEmpty | DocUtils.StripFinalSeps |
