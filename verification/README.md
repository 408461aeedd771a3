# Kavak: a model and proofs of its core algorithms

Kavak is a C toolkit for building language frontends. This project models the
pieces of it whose guarantees are hard to see from the code and proves them in Dafny.

- **Type graph** (`TypeGraph`, `TypeEquality`, `TypeSubstitution`, `TypeUnification`,
  `TypeMatching`, `TypeVerdicts`, `TypeRelations`, `TypeWalks`). Types are nodes named by
  their address, as pointer identity and cycles matter. Deep equality, substitution,
  strict and lenient unification, assignability, join, conformance and exhaustiveness are measured against
  the possibly infinite trees that nodes unroll to. The bound of 512 is kept everywhere,
  and `EqualDeepExact` says on which inputs it makes deep equality conservative.
- **Pratt parser** (`Syntax`, `Pratt`, `PrattSoundness`, `PrattInversion`,
  `PrattErrors`, `PrattPrecedence`, `Spans`, `Parser`). The parser computes the one tree
  with the given tokens that respects precedence and associativity: it is sound, it
  inverts the printer, and it reports nothing exactly where there is such a tree.
- **Lexer** (`LexConfig`, `LexLookup`, `Scanners`, `ScannerFacts`, `TokenScan`,
  `TokenCases`, `LiteralFacts`, `Layout`, `LexBalance`, `LexLines`, `LexTiling`,
  `LexOverlap`, `LexCoverage`, `LexBrackets`, `Lexer`). Whole-run properties: a run is the
  sum of its lines, the offside layout is balanced, spans are ordered and cover the text,
  interpolated literals nest, and the order of the tables is irrelevant.
- **Front end** (`FrontEnd`). The tokens a run leaves are what the parser takes for
  granted, so expressions parsed out of a text span the text of their tokens.
- **Arena and intern pool** (`Bits`, `Arena`, `InternTable`, `Intern`). The bump allocator
  never hands out overlapping blocks, and on top of it the open-addressing table is an
  injective map from bytes to pointers that only grows.
- **Line index and UTF-8** (`Utf8`, `Source`). The decoder is the inverse of the encoding
  of RFC 3629, and the lazily built, growing line table with its bisection agrees with a
  count that looks at one position at a time.

Each piece has two layers. Functions say what the code computes; lemmas prove what that
means. Classes with the fields the C code updates in place (cursor, depth counters,
assumption stack, binding table, indentation stack, chunk list, buckets, line table)
carry methods with the loops of the source, each proved to leave exactly the state the
functions describe. The numeric limits of the source are kept: 512 levels, pairs and
visited nodes, 128 indentation levels, 64 nested interpolations, 32-bit columns and
counts, 64-bit sizes and addresses (`Machine`).

Places where the code does something a reader of its documentation may not expect:

- A line of the same column as its block, in the mode where that dedents, closes the
  block, but the next line of that column opens it again (`AlignedOrEqual`,
  `EqualLinesAlternate`).
- The INVALID token of an interpolation that is given up covers tokens already put out,
  so spans overlap in just those runs (`LexInOrderExactly`, `UnclosedOverlaps`).
- Deep equality answers 0 on equal types whose comparison needs more than 512 pairs at a
  time (`EqualDeepExact`, `TowersNeedTheBound`), and strict unification refuses a
  parameter met with a type that mentions it, even where a substitution exists
  (`StrictDecides`).
- The join of types with two nullable layers is not an upper bound, as all layers
  collapse into one (`JoinIsUpperBound`, `TwoLayersAboveTheirJoin`).
- Infix operators of precedence 65535 nest to the right even when declared
  left-associative (`ChainNests`).
- A selector without a name behind it drops the tokens of its operand from the tree
  (`TreeKeepsTokens`).
- When the intern table is full and cannot be doubled, even a text it already holds is
  refused, as growth comes before the probe (`InternPool.Intern`).
- The column wraps to 0 at offset 2^32 - 1 of a one-line text (`OffsetRecovered`,
  `ColumnWraps`).
- `total_used` counts padding too, where the header speaks of bytes handed out
  (`TotalGrows`, `TotalCountsPadding`).

## Model

| member | source | states |
|---|---|---|
| `TypeGraph.HeadAndArmsDetermine` | src/type.c:356-437 | What is compared at a node and its components leave out nothing of it but what a named type is an alias of. |
| `TypeGraph.HeadFixesArity` | src/type.c:356-437 | Two nodes with equal heads have equally many components, so the component loops run over both alike. |
| `TypeGraph.UnrollExtends` | src/type.c:144-156 | Allocating further nodes never changes the tree an old node unrolls to. |
| `TypeGraph.FiniteSameTree` | src/type.c:356-437 | A node with the same tree as an acyclic node is acyclic too, with the same bound on its depth. |
| `TypeGraph.FiniteTreesAgree` | src/type.c:356-437 | Acyclic nodes that agree for as many levels as they have agree for ever. |
| `TypeEquality.EqualDeepSound` | src/type.c:356-443 | On any graph, cyclic or not, two nodes the walk calls equal unroll to the same infinite tree. |
| `TypeEquality.EqualUnderSound` | src/type.c:284-299 | Under assumed pairs that agree for n levels, the pairs visited in a successful run agree for n levels: the assumption stack is the bisimulation witness. |
| `TypeEquality.EqualDeepExact` | src/type.c:284-443 | On every graph, cyclic or not: the answer is 1 if and only if the trees are the same and no run of pairs, each a new pushed component pair of the one before, has more than the 512 pairs the assumption stack can hold. |
| `TypeEquality.EqualDeepFewPairs` | src/type.c:293-299 | So with a closed set of at most 512 pairs to compare the answer is exactly sameness of trees. |
| `TypeEquality.RunFits` | src/type.c:301-362 | A walk that answers 1 has had every run of pairs on its stack. |
| `TypeEquality.EqualDeepFinite` | src/type.c:356-443 | And so on acyclic types of at most 512 levels. |
| `TypeEquality.TowersNeedTheBound` | src/type.c:293-299 | An input where the bound decides: two equal towers of k nullable layers compare equal if and only if k is at most 512. |
| `TypeEquality.EqualContext.constructor` | src/type.c:439-443 | The walk starts with no assumed pair. |
| `TypeEquality.EqualContext.Seen` | src/type.c:284-291 | Whether the pair, in this order, is being compared already. |
| `TypeEquality.EqualContext.Push` | src/type.c:293-299 | A pair is pushed just when fewer than 512 are there. |
| `TypeEquality.EqualContext.EqualInner` | src/type.c:356-437 | The recursive walk over the pair array and its counter answers what the specification says and leaves the stack as it found it. |
| `TypeEquality.EqualContext.EqualPushed` | src/type.c:362-436 | Comparing the components with the pair on the stack; the pair is popped on every way out. |
| `TypeEquality.EqualContext.EqualPayload` | src/type.c:367-434 | The switch over kinds compares what the specification lists as the parts of that kind. |
| `TypeEquality.EqualContext.EqualFunctions` | src/type.c:372-389 | Flags, receiver, result and parameters, in the order of the code. |
| `TypeEquality.EqualContext.EqualRecords` | src/type.c:410-433 | Positional components, then named fields with their names. |
| `TypeEquality.EqualContext.EqualFields` | src/type.c:424-432 | The named fields, name by name and type by type. |
| `TypeEquality.EqualContext.EqualItems` | src/type.c:382-388 | One component loop: it stops at the first pair that differs. |
| `TypeEquality.EqualDeepWalk` | src/type.c:439-443 | `kavak_ty_equal_deep` computes the specified equality. |
| `TypeSubstitution.SubstitutesFully` | src/type.c:482-611 | On types of at most 512 levels the depth bound is never felt: the result is full simultaneous substitution. |
| `TypeSubstitution.NoBindingsInstance` | src/type.c:613-618 | Substituting nothing leaves every tree alone. |
| `TypeSubstitution.NeverFails` | src/type.c:498-606 | Where no component is null, substitution always has a result. |
| `TypeSubstitution.DenotesNode` | src/type.c:498-606 | A node rebuilt from components that stand for the substituted originals stands for the substituted node. |
| `TypeSubstitution.TypeArena.Alloc` | src/type.c:144-156 | A new node gets an address no other node has, and no old node changes. |
| `TypeSubstitution.TypeArena.Substitute` | src/type.c:613-618 | The result is NULL exactly when a null component lies in the way; otherwise it unrolls to the substituted tree, and with no bound parameter in reach it is the very node given and nothing is allocated. |
| `TypeSubstitution.TypeArena.SubstInner` | src/type.c:482-611 | The same for the recursive walk at every depth, with the arena growing underneath it. |
| `TypeSubstitution.TypeArena.Finish` | src/type.c:503-606 | A node is shared when none of its components changed and rebuilt otherwise. |
| `TypeSubstitution.TypeArena.SubstItems` | src/type.c:459-480 | The component loop: every component is substituted, or the first failure stops it. |
| `TypeUnification.Strict` | src/type.c:994-1087 | Whatever the verdict, strict unification only appends bindings of distinct new parameters and never exceeds the capacity. |
| `TypeUnification.StrictSound` | src/type.c:994-1087 | From any starting bindings and on any graph: what is accepted becomes, once the final bindings are substituted into the pattern, the tree of the concrete type, up to declaration pointers and user-kind identities. |
| `TypeUnification.FirstForExtends` | src/type.c:445-453 | Earlier bindings are stable: appending bindings never changes what an already bound parameter is replaced by. |
| `TypeUnification.Lenient` | src/type.c:876-951 | The lenient walk, too, only appends bindings of distinct new parameters within the capacity. |
| `TypeUnification.LenientAgrees` | src/type.c:876-959 | Whenever strict unification succeeds, the lenient walk from the same start leaves the same bindings. |
| `TypeUnification.BindingTable.constructor` | src/type.c:1089-1096 | An empty table of the given capacity. |
| `TypeUnification.BindingTable.Find` | src/type.c:864-870 | The index of the first binding of a parameter, or the count. |
| `TypeUnification.BindingTable.Append` | src/type.c:1012-1014 | One binding is added behind the others, which stay. |
| `TypeUnification.BindingTable.StrictWalk` | src/type.c:994-1087 | The recursive walk over the caller's array gives the specified verdict and bindings. |
| `TypeUnification.BindingTable.StrictParamWalk` | src/type.c:1003-1016 | A bound parameter must be deep-equal to its binding; a new one must not occur in its type and needs a free slot. |
| `TypeUnification.BindingTable.StrictArmsWalk` | src/type.c:1020-1086 | The component loops with their field name checks, up to the first failure. |
| `TypeUnification.BindingTable.UnifyStrict` | src/type.c:1089-1096 | `kavak_ty_unify_strict` leaves the specified verdict and bindings. |
| `TypeUnification.BindingTable.LenientWalk` | src/type.c:876-951 | The lenient walk leaves the specified bindings and returns by how many the count grew. |
| `TypeUnification.BindingTable.LenientPairsWalk` | src/type.c:896-949 | The component loops, with the counts added up. |
| `TypeUnification.BindingTable.Unify` | src/type.c:953-959 | `kavak_ty_unify` leaves the specified bindings; its result is the growth of the count. |
| `TypeMatching.StrictSoundExactly` | src/type.c:994-1096 | It is exactly the tree of the concrete type when, among the nodes reachable from the pattern, the concrete type and the given bindings, names settle declarations and kinds settle user types. |
| `TypeMatching.StrictBindsWithin` | src/type.c:1003-1086 | Every parameter is bound to a node reachable from the concrete type. |
| `TypeMatching.StrictFindsMatcher` | src/type.c:1003-1096 | Where some substitution turns the pattern into the concrete type, the walk accepts if and only if the pattern is within 512 levels, no parameter is mentioned by the node it is met with first, what it is met with later can be compared with that, and there is a slot for each parameter; then each parameter is bound to what it is met with first, which has the tree that substitution gives it. |
| `TypeMatching.StrictDecides` | src/type.c:994-1096 | OK is returned if and only if such a substitution exists and these conditions hold, on every graph where names settle declarations within reach of the two. |
| `TypeMatching.StrictDecidesShallow` | src/type.c:1003-1096 | Against a concrete type of at most 512 levels that mentions none of the parameters, with a slot for each, the existence of a substitution alone decides. |
| `TypeMatching.SettledAll` | src/type.c:1003-1016 | Checking the parameters one by one in the order of the walk comes to the conditions on all of them at once. |
| `TypeMatching.UnifyThenSubstitute` | src/type.c:1089-1096 | Unifying and then substituting yields a type that deep equality accepts against the concrete one, if and only if their comparison fits the stack, as it does for types of at most 512 levels. |
| `TypeVerdicts.StrictVerdict` | src/type.c:994-1096 | Each verdict holds if and only if it is what is wrong at the first visit of the walk that has something wrong: CONFLICT, a parameter met again with a node not deep-equal to its first; OCCURS, a parameter met first with a node from which a path leads to it; MISMATCH, a missing component or differing heads or field names; CAP_EXCEEDED, a pattern too deep or no slot left. The bindings are those met before. |
| `TypeVerdicts.StrictIsWalk` | src/type.c:994-1087 | Strict unification is that walk over the aligned pairs of nodes, from any bindings. |
| `TypeVerdicts.MentionsIsPath` | src/type.c:967-992 | A type mentions a parameter if and only if a path of at most 512 nodes leads from it to the parameter. |
| `TypeVerdicts.HeadsFitMeans` | src/type.c:1018-1086 | What is compared before descending, with the field names, is equality of the heads up to declarations and the identity of user kinds. |
| `TypeVerdicts.ZippedByRole` | src/type.c:896-949 | The lenient walk goes on to just the pairs of components in the same place of both types. |
| `TypeVerdicts.LenientBinds` | src/type.c:876-959 | With slots to spare the lenient walk binds just the parameters that are aligned with some node through nodes of equal kinds, fewer than 512 deep, and each to such a node, whether or not the types match. |
| `TypeRelations.CoreIsUnderLayers` | src/type.c:745-754 | The core lies under at most 512 nullable layers, and is not nullable itself unless there are that many. |
| `TypeRelations.NullIsNeutral` | src/type.c:835-853 | A null operand, or one that unwraps to null, leaves the other as it is. |
| `TypeRelations.AssignableByLayers` | src/type.c:756-793 | Assignability holds if and only if there are no more nullable layers below than above and the cores are ordered. |
| `TypeRelations.AssignableOrder` | src/type.c:756-798 | Without hooks assignability is reflexive, transitive and antisymmetric up to equality of trees, nested nullables included. |
| `TypeRelations.UnwrapNullable` | src/type.c:745-754 | The guarded loop strips nullable layers down to the core. |
| `TypeRelations.Join` | src/type.c:835-853 | The result, and the one node it may allocate, are what joining the two types means, for null operands too. |
| `TypeRelations.JoinUnwrapped` | src/type.c:811-833 | Never is neutral, equal cores join to the first, others to Any. |
| `TypeRelations.JoinIsUpperBound` | src/type.c:835-853 | Both operands are assignable to their join if and only if neither has two nullable layers. |
| `TypeRelations.TwoLayersAboveTheirJoin` | src/type.c:835-853 | An input where it is none: two nullable layers joined with themselves give one. |
| `TypeRelations.JoinIsLeast` | src/type.c:835-853 | The join is assignable to every type both operands are assignable to. |
| `TypeRelations.JoinCommutes` | src/type.c:835-853 | Join is commutative up to equality of trees. |
| `TypeRelations.JoinAssociates` | src/type.c:835-853 | Join is associative up to equality of trees. |
| `TypeRelations.JoinedGrows` | src/type.c:835-853 | What the join allocated does not disturb it: the result is the join in the grown arena as well. |
| `TypeWalks.FetchSupers` | src/type.c:1124-1136 | A prefix of the supertypes, and all of them unless there are more than 16 and the larger buffer cannot be had. |
| `TypeWalks.ConformsToSound` | src/type.c:1138-1168 | A positive answer comes with a path of supertype edges to a node deep-equal to the target. |
| `TypeWalks.ConformsToExact` | src/type.c:1138-1168 | With at most 512 nodes in reach the answer is exactly reachability, although the visited list is shared by all branches and never popped. |
| `TypeWalks.ConformsCloses` | src/type.c:1138-1158 | After a failed walk every node it visited has all its supertypes visited or refuted: the invariant behind the shared list. |
| `TypeWalks.VisitedList.constructor` | src/type.c:1160-1168 | The walk starts with an empty list of 512 slots. |
| `TypeWalks.VisitedList.Seen` | src/type.c:1108-1114 | Whether the node is among the visited ones. |
| `TypeWalks.VisitedList.Add` | src/type.c:1147 | One node is added behind the others. |
| `TypeWalks.VisitedList.ConformsWalk` | src/type.c:1138-1158 | The recursive walk gives the specified answer and leaves the specified list. |
| `TypeWalks.VisitedList.ConformsLoop` | src/type.c:1152-1155 | The loop over supertypes, up to the first that conforms. |
| `TypeWalks.ConformsToWalk` | src/type.c:1160-1168 | `kavak_ty_conforms` answers the specified relation. |
| `TypeWalks.Exhaustive` | src/type.c:1212-1240 | Positive if and only if there are 1 to 64 cases and each conforms to a covered type; otherwise it names the first case that does not. |
| `TypeWalks.Covered` | src/type.c:1225-1233 | Whether some covered type takes this case. |
| `Pratt.Advance` | src/parser.c:148-152 | The cursor stays on the array and stands still only at EOF. |
| `Pratt.ParseExpr` | src/parser.c:404-514 | Every parse terminates, stays on the array, and consumes a token unless at EOF, errors included. |
| `Pratt.ParsePrefix` | src/parser.c:349-402 | The same for the operand position. |
| `Pratt.ParseLoop` | src/parser.c:415-513 | The loop never moves the cursor back. |
| `Pratt.ParseCall` | src/parser.c:548-561 | A call consumes its opening delimiter at least. |
| `Pratt.ParseItems` | src/parser.c:526-541 | The item loop makes progress or stops. |
| `PrattSoundness.ParserSound` | src/parser.c:404-514 | A parse without diagnostics returns a tree whose tokens in order are exactly those consumed, in which every operator stands where precedence and associativity let it, before a token that cannot extend it. |
| `PrattSoundness.ExprSound` | src/parser.c:404-514 | The same at every nesting depth. |
| `PrattSoundness.PrefixSound` | src/parser.c:349-402 | For atoms, groups and prefix operators. |
| `PrattSoundness.LoopSound` | src/parser.c:415-513 | For every turn: postfix, selector, call and infix forms, non-associative chains excluded. |
| `PrattSoundness.CallSound` | src/parser.c:516-561 | For calls with their argument lists. |
| `PrattSoundness.ItemsSound` | src/parser.c:526-541 | For the items, each ended by its separator or the closing delimiter. |
| `PrattInversion.ParserInvertsPrinter` | src/parser.c:349-561 | Parsing the tokens of a canonical tree of fewer than 512 levels, before a token that cannot extend it, returns that tree, all its tokens and no diagnostic. |
| `PrattInversion.CanonicalTreeUnique` | src/parser.c:404-514 | Canonical trees with equal tokens are equal. |
| `PrattInversion.InvertExpr` | src/parser.c:404-514 | The inversion at every position, level and depth. |
| `PrattInversion.InvertSpine` | src/parser.c:415-513 | The tokens of a canonical tree lead the loop to the state where that tree is the left operand. |
| `PrattInversion.InvertPrimary` | src/parser.c:349-402 | The inversion for atoms, groups and prefix operators. |
| `PrattInversion.InvertList` | src/parser.c:516-546 | The inversion for argument lists. |
| `PrattInversion.EofEnds` | src/parser.c:454-455 | EOF ends every expression. |
| `PrattErrors.ParserAcceptsExactly` | src/parser.c:349-561 | Nothing is reported if and only if the tokens from the cursor on begin with those of a canonical tree of at most 512 levels that ends there, and then it is the tree returned. |
| `PrattErrors.TreeKeepsTokens` | src/parser.c:349-561 | In every parse, with errors or without, the tree holds exactly the tokens consumed, if and only if no selector lacks its name; where one does, its operand is dropped. |
| `PrattErrors.FirstOperatorWins` | src/parser.c:47-57 | A token means the first entry of the table with its id that may play the role. |
| `PrattErrors.AtomsAreParsed` | src/parser.c:349-366 | Identifiers and the four kinds of literals are operands whatever the table says. |
| `PrattPrecedence.CanonicalIsLocal` | src/parser.c:59-69 | On infix trees, canonical means that each operator binds its neighbours as the table demands: tighter, or equal and left-associative on the left, or equal and right-associative on the right. |
| `PrattPrecedence.LocallyOrderedIsParsed` | src/parser.c:404-514 | So a run of operands and infix operators has one such tree, and it is the one parsed. |
| `PrattPrecedence.ChainNests` | src/parser.c:59-69 | A chain of one operator nests to the left if and only if it is left-associative below precedence 65535, and to the right if and only if it is right-associative or at 65535, where the increment saturates. |
| `PrattPrecedence.CanonicalIsPlaced` | src/parser.c:404-514 | The same over prefix, postfix, selector and call forms: a tree is canonical if and only if every node in it suits its operands, those that end in a prefix operator included, and its left spine reaches the level asked for. |
| `PrattPrecedence.ParsedIsPlaced` | src/parser.c:404-514 | So every tree parsed without diagnostics is one whose nodes are placed in this sense, when no operator of the table is both infix and postfix. |
| `Parser.ExprParser.constructor` | src/parser.c:71-87 | Cursor and depth start at 0 with no diagnostics. |
| `Parser.ExprParser.Step` | src/parser.c:148-152 | `parser_advance` moves the cursor as specified. |
| `Parser.ExprParser.EatPunct` | src/parser.c:163-166 | The token is consumed just when it is this punctuation. |
| `Parser.ExprParser.Report` | src/parser.c:28-36 | One diagnostic at the current token is added. |
| `Parser.ExprParser.MakeErrorNode` | src/parser.c:321-330 | The error node, its diagnostic and the consumed token. |
| `Parser.ExprParser.ParseExpression` | src/parser.c:404-514 | The recursive method leaves the specified tree, cursor and diagnostics; the depth counter stays within 512 and is restored on return. |
| `Parser.ExprParser.ParsePrefixExpr` | src/parser.c:349-402 | The operand position, as specified. |
| `Parser.ExprParser.ParseTurns` | src/parser.c:415-513 | The loop, as specified. |
| `Parser.ExprParser.Turn` | src/parser.c:415-513 | One turn of the loop continues or ends it as specified. |
| `Parser.ExprParser.FinishSelector` | src/parser.c:460-489 | The selector name, or an error in its place. |
| `Parser.ExprParser.ParseCallForm` | src/parser.c:548-561 | `kavak_parser_parse_call`, as specified. |
| `Parser.ExprParser.ParseDelimitedItems` | src/parser.c:526-541 | The item loop, as specified. |
| `Spans.NodeSpansTokens` | src/parser.c:274-303 | The span a node without errors ends up with, united bottom-up from its tokens and children, is the stretch from its first to its last token. |
| `Spans.ParsedSpan` | src/parser.c:404-514 | An expression parsed without diagnostics from tokens in text order spans exactly the tokens it consumed. |
| `LexConfig.CanonicalIgnoresOrder` | src/lexer.c:33-68 | Everything the lexer sees of its tables is the same for every order of their entries, escapes within a rule included, when spellings are distinct. |
| `LexConfig.OrderIsLost` | src/lexer.c:326-340 | Entries of distinct spellings mean the same in any order. |
| `LexConfig.Longest` | src/lexer.c:901-913 | A spelling of the table that matches here, at least as long as every other that does; none only if none matches. |
| `LexLookup.FirstEntryWins` | src/lexer.c:326-340 | Of entries with one spelling the first is the one found. |
| `LexLookup.MatchLit` | src/lexer.c:171-182 | Whether the text at a position begins with a literal, never reading past the end. |
| `LexLookup.MatchLongest` | src/lexer.c:512-529 | The longest-match loop over a table in any order finds the longest spelling and its first entry. |
| `LexLookup.FindText` | src/lexer.c:326-340 | The keyword loop finds the entry of exactly this text. |
| `LexLookup.MatchSuffix` | src/lexer.c:394-402 | The suffix loop finds the longest suffix, passing over empty ones. |
| `LexLookup.Contains` | src/lexer.c:335-337 | The soft keyword search. |
| `LexLookup.LineCommentStarts` | src/lexer.c:970-980 | Whether any line comment opener matches here. |
| `ScannerFacts.DigitsAreMaximal` | src/lexer.c:347-374 | `scan_digits` takes the longest run of digits with underscores only between them, and reports a digit if and only if there is such a run. |
| `ScannerFacts.IdentIsMaximal` | src/lexer.c:307-343 | An identifier is a start code point and the longest tail of continuing ones behind it, in one token; it is a keyword if and only if the table has its text under an id that is not soft, and carries that id. |
| `ScannerFacts.DecimalIsMaximal` | src/lexer.c:484-505 | A decimal literal is the longest one at its place by the grammar of whole part, fraction and exponent, and an integer if and only if it is all whole part. |
| `ScannerFacts.RadixIsMaximal` | src/lexer.c:468-482 | Behind a zero and the letter of base 16, 8 or 2, where the language has it, the literal is the longest run of digits of that base with its suffix, in one INT token, or the two bytes are INVALID where there is no such run. |
| `ScannerFacts.DecimalElsewhere` | src/lexer.c:450-508 | Elsewhere it is the decimal literal with its suffix, if there is one; with the strict policy all that continues an identifier behind it is malformed. |
| `ScannerFacts.DigitsStandForValues` | src/lexer.c:347-358 | The digits of a base are those of 0 to 9 and of a to f in either case that stand for a smaller value. |
| `ScannerFacts.EndsAtMatchingClose` | src/lexer.c:868-880 | A block comment that nests ends with the first delimiter at which closing ones exceed opening ones, and is unterminated only if there is none. |
| `ScannerFacts.EndsAtFirstClose` | src/lexer.c:868-880 | A block comment that does not nest ends with the first closing delimiter at or after its body, and is unterminated only if there is none. |
| `ScannerFacts.EndsAtNewline` | src/lexer.c:866 | A line comment ends before the first newline. |
| `LiteralFacts.LiteralIsText` | src/lexer.c:729-827 | A literal runs from the longest opener over characters and escapes to its closing delimiter, with an interpolation wherever one begins, unless the text or its line ends before; each part is one token of the right kind, and every ill-formed character and unlisted escape is reported. |
| `LiteralFacts.ExpressionEndsBalanced` | src/lexer.c:613-671 | An interpolated expression ends at the first closing mark before which its brackets of that kind are balanced, and is given up only if there is none. |
| `LiteralFacts.SixtyFourDeep` | src/lexer.c:613-622 | Expressions nest 64 deep, and one more is given up at once. |
| `LiteralFacts.CommentIsKept` | src/lexer.c:847-893 | A comment is one token over all of it where the language keeps it, none where not, and INVALID if unclosed. |
| `LiteralFacts.LineCommentsEndLines` | src/lexer.c:970-980 | A spelling opens a line comment if and only if a rule lists it with a line feed as its end. |
| `LiteralFacts.OperatorIsLongest` | src/lexer.c:932-949 | The longest operator of the table, or else one byte of kernel punctuation. |
| `LiteralFacts.FirstScannerWins` | src/lexer.c:958-966 | A token is what the first scanner that matches makes of it: comments, strings, numbers, identifiers, operators. |
| `LiteralFacts.BlanksAreSkipped` | src/lexer.c:90-119 | Space, tab, vertical tab and form feed are skipped, and nothing else. |
| `TokenScan.ScanToken` | src/lexer.c:958-966 | Every scanner match, strings with nested interpolations included, advances the cursor, never passes the end, and terminates. |
| `TokenScan.StringBody` | src/lexer.c:744-827 | The literal loop terminates within the text from any point. |
| `TokenScan.ExpressionFrom` | src/lexer.c:613-671 | So does the loop over an interpolated expression. |
| `Layout.LexIgnoresOrder` | src/lexer.c:1112-1180 | For every text, tables that differ only in the order of their entries, with distinct spellings, give the same tokens and diagnostics. |
| `Layout.Turns` | src/lexer.c:1137-1167 | The loop over the text terminates with the cursor within the text. |
| `LexBalance.LexBalanced` | src/lexer.c:1112-1180 | In every run INDENT and DEDENT form a well-bracketed word: no prefix has more DEDENT, and the whole has equally many. |
| `LexBalance.TurnsBalanced` | src/lexer.c:1137-1167 | At every turn the excess of INDENT tokens is the height of the indentation stack, which is strictly increasing from 0 with at most 128 entries. |
| `LexBalance.AlignKeepsNesting` | src/lexer.c:1023-1057 | One line start keeps both, whatever its column and mode. |
| `LexBalance.EndBalanced` | src/lexer.c:1091-1110 | The end of the text closes every open level. |
| `LexBalance.TokenIsFree` | src/lexer.c:958-966 | No scanner emits a layout token, through any nesting of literals. |
| `LexBalance.LinesOnTheirLevels` | src/lexer.c:998-1059 | Where only lower lines dedent, in a run without diagnostics every line that is not blank or a line comment ends up on a level of its own column. |
| `LexBalance.AlignedWithoutComplaint` | src/lexer.c:1023-1057 | A line is accepted without a diagnostic if and only if the top level is then its column. |
| `LexBalance.AlignedOrEqual` | src/lexer.c:1023-1057 | Where equal columns dedent too, the top level is then the column if and only if the line is accepted and the column was not a level above the first. |
| `LexBalance.EqualLinesAlternate` | src/lexer.c:1041-1051 | So successive lines of one column close and reopen their level in turn. |
| `LexLines.LexIsLineByLine` | src/lexer.c:998-1180 | Below the token limit a run puts out, line after line, the INDENT or DEDENT tokens of the line, the tokens scanned on it, a semicolon if and only if its last significant token terminates it, and a NEWLINE if and only if the language keeps all of them or lays out by indentation and the line has a significant token; then a DEDENT for every open level and EOF. |
| `LexLines.IndentationMeans` | src/lexer.c:982-1018 | The indentation of a line is all its leading spaces and tabs; a wrong one is reported; and without tab stops the column is their number in 32 bits. |
| `LexLines.TabStops` | src/lexer.c:982-992 | A tab leads to the next multiple of 8, or counts one where the language indents with tabs. |
| `LexTiling.LexInOrder` | src/lexer.c:1112-1180 | In a run in which no interpolated expression is given up the spans of all tokens are ordered and disjoint. |
| `LexTiling.LexSpansApart` | src/lexer.c:1112-1180 | For any two tokens of such a run, the first ends at or before the start of the second, and both lie in the text. |
| `LexTiling.TokenInOrder` | src/lexer.c:958-966 | The same for the tokens of one scan, through any nesting of literals. |
| `LexTiling.TurnsReachEnd` | src/lexer.c:1137-1167 | The run ends at the end of the text, or with the token limit reached and reported last. |
| `LexOverlap.LexInOrderExactly` | src/lexer.c:1112-1180 | Where openings are marked, spans are in order if and only if no expression was given up for its depth or for lack of its end. |
| `LexOverlap.UnclosedOverlaps` | src/lexer.c:613-671 | An input where it fails: the exact tokens of a quote, a dollar sign and a brace. |
| `LexOverlap.TokenShows` | src/lexer.c:613-671 | An expression given up at any depth leaves two overlapping tokens, as its INVALID token covers its opening mark again. |
| `LexCoverage.LexCoversText` | src/lexer.c:1112-1180 | Below the token limit and with no expression given up, every byte outside a token is a blank, part of a newline or part of a skipped comment, and the last token is EOF at the length of the text; template rules need tokens for their delimiters. |
| `LexCoverage.LexAccountsForByte` | src/lexer.c:1112-1180 | Byte by byte: what lies in no token is skipped, by a skip that begins outside the tokens too. |
| `LexCoverage.TokenInCover` | src/lexer.c:958-966 | Tokens and skips make up what one scan consumed, through any nesting of literals. |
| `LexCoverage.TokenCovers` | src/lexer.c:958-966 | A scan other than of a string yields one token over all it consumed, or is a skipped comment. |
| `LexBrackets.LexNests` | src/lexer.c:1112-1180 | In a run in which no literal is given up before its end, with fresh kinds on the template rules, head and tail fragments of one kind and opening and closing marks of one rule nest as one well-bracketed word, opening marks stand in literals their rule belongs to, and interior fragments occur only inside a head and tail of their kind. |
| `LexBrackets.TokenIsNeutral` | src/lexer.c:958-966 | One scan leaves the open marks as they were, through any nesting. |
| `LexBrackets.BodyNests` | src/lexer.c:744-827 | A literal opens with its head at its first interpolation and closes with its tail. |
| `LexBrackets.LoopNests` | src/lexer.c:613-671 | An interpolated expression closes its own opening mark, with a closing mark that some rule pairs with it. |
| `FrontEnd.LexIsParseable` | src/lexer.c:1112-1180 | In every run in which no expression is given up the tokens end in EOF, lie apart in the text, and no operand or operator is empty: what the parser takes for granted. |
| `FrontEnd.TokenIsSolid` | src/lexer.c:958-966 | No scanner emits an empty operand or operator, through any nesting of literals. |
| `FrontEnd.LexedExpressionSpan` | src/parser.c:404-514 | From text to spans: an expression parsed without diagnostics out of the lexed tokens spans the text from the start of the first token consumed to the end of the last. |
| `Lexer.TokenLexer.constructor` | src/lexer.c:1120-1132 | A lexer at the start of its text, with one level at column 0. |
| `Lexer.TokenLexer.EmitInvalid` | src/lexer.c:140-145 | One INVALID token and its diagnostic over the same span. |
| `Lexer.TokenLexer.SkipInlineSpace` | src/lexer.c:117-119 | Blanks are skipped as specified. |
| `Lexer.TokenLexer.SkipAllSpace` | src/lexer.c:105-115 | Blanks and newlines are skipped as specified. |
| `Lexer.TokenLexer.TryScanIdentifier` | src/lexer.c:307-343 | The identifier or keyword token, as specified. |
| `Lexer.TokenLexer.ScanDigits` | src/lexer.c:347-374 | The digit loop stops where specified. |
| `Lexer.TokenLexer.ConsumeSuffix` | src/lexer.c:389-417 | The suffix is taken as specified, boundary check included. |
| `Lexer.TokenLexer.EmitNumber` | src/lexer.c:419-443 | The number token, or the malformed one in strict mode. |
| `Lexer.TokenLexer.TakeDecimal` | src/lexer.c:484-505 | Fraction and exponent, with the kind they give. |
| `Lexer.TokenLexer.TryScanNumber` | src/lexer.c:450-508 | The number scanner, as specified. |
| `Lexer.TokenLexer.SkipBlock` | src/lexer.c:868-880 | The block comment loop with its nesting depth. |
| `Lexer.TokenLexer.TryScanComment` | src/lexer.c:847-893 | The comment scanner, as specified. |
| `Lexer.TokenLexer.TryScanOperator` | src/lexer.c:932-949 | The operator scanner, as specified. |
| `Lexer.TokenLexer.ScanOne` | src/lexer.c:958-966 | The dispatch over the scanners yields what is specified; the interpolation depth is at most 64 and restored. |
| `Lexer.TokenLexer.TryScanString` | src/lexer.c:729-827 | The string scanner, as specified. |
| `Lexer.TokenLexer.StringTurn` | src/lexer.c:744-826 | One turn of the literal loop ends the literal or continues it as specified. |
| `Lexer.TokenLexer.ScanInterpolation` | src/lexer.c:704-727 | The three interpolation forms, as specified. |
| `Lexer.TokenLexer.ScanBareName` | src/lexer.c:673-692 | The bare form patches the identifier token just pushed. |
| `Lexer.TokenLexer.ScanExpression` | src/lexer.c:613-671 | The interpolation depth grows by one, never past 64, and is restored on every way out. |
| `Lexer.TokenLexer.ExpressionTurn` | src/lexer.c:626-670 | One turn of the expression loop, with the count of open pairs. |
| `Lexer.TokenLexer.MeasureIndentation` | src/lexer.c:1002-1010 | The column of a line in 32 bits, and whether a blank was disallowed. |
| `Lexer.TokenLexer.PopDeeper` | src/lexer.c:1036-1040 | Every deeper level is closed with a DEDENT. |
| `Lexer.TokenLexer.AlignTo` | src/lexer.c:1023-1057 | The indentation array and its top change as specified. |
| `Lexer.TokenLexer.HandleLineStart` | src/lexer.c:998-1059 | The whole state after a line start is the specified one. |
| `Lexer.TokenLexer.MaybeSemicolon` | src/lexer.c:1061-1068 | The virtual semicolon, as specified. |
| `Lexer.TokenLexer.FinishPhysicalLine` | src/lexer.c:1070-1089 | The whole state after a newline is the specified one. |
| `Lexer.TokenLexer.DrainIndentation` | src/lexer.c:1091-1097 | A DEDENT for every open level, and none left. |
| `Lexer.TokenLexer.FinishEofLayout` | src/lexer.c:1099-1110 | The tokens the end of the text adds. |
| `Lexer.TokenLexer.NoteEmitted` | src/lexer.c:288-296 | The last significant token is found as specified. |
| `Lexer.TokenLexer.Loop` | src/lexer.c:1137-1167 | The loop of `kavak_lex` leaves the specified state. |
| `Lexer.TokenLexer.Run` | src/lexer.c:1112-1180 | `kavak_lex` on the tables as listed yields the tokens and diagnostics specified for the tables without their order. |
| `Bits.MaskIsRemainder` | src/intern.c:64 | Masking with one less than a power of two takes the remainder. |
| `Bits.ClearIsRoundDown` | src/arena.c:48 | Clearing those bits rounds down. |
| `Bits.PowerOfTwoTest` | src/arena.c:46 | `a & (a - 1)` is zero if and only if a is a power of two. |
| `Arena.AllocateIsSafe` | src/arena.c:61-110 | A failed call changes nothing; a block handed out is aligned, not null, lies in one chunk, overlaps no earlier block, and the running total stays the sum over the chunks. |
| `Arena.RunIsSafe` | src/arena.c:61-110 | Over any sequence of calls of any sizes and alignments no two blocks overlap and every block stays in place. |
| `Arena.AllocateSucceeds` | src/arena.c:61-110 | With a chunk and a power-of-two alignment a call succeeds if and only if no address sum overflows and the padded block fits the tail, or the larger of the chunk size and size plus alignment less one fits 64 bits with its header and memory for it is found. |
| `Arena.AllocateOpensChunk` | src/arena.c:75-95 | A block that fits the tail is put there and opens no chunk; another is put into one new chunk of that capacity. |
| `Arena.SmallBlocksSucceed` | src/arena.c:61-110 | A block of 32-bit size is had as long as memory is found, in chunks below the last 8 GiB of addresses. |
| `Arena.TotalGrows` | src/arena.c:61-110 | A successful call adds exactly its size to the running total if and only if the address it starts from is a multiple of the alignment already. |
| `Arena.TotalCountsPadding` | src/arena.c:61-110 | Over any sequence of calls the total grows by at least the bytes handed out, and by no more if and only if no call pads. |
| `Arena.TotalNeverOverflows` | src/arena.c:100-104 | The running total cannot overflow, because disjoint chunks fit in the address space: that check never fails. |
| `Arena.FromFresh` | src/arena.c:78-96 | A fresh chunk always has room for the request and its padding. |
| `Arena.AlignForward` | src/arena.c:44-50 | The bit form rounds up to the next multiple exactly for powers of two that do not overflow, and refuses everything else. |
| `Arena.Padding` | src/arena.c:65-76 | The padding of a block, unless a sum overflows. |
| `Arena.ByteArena.constructor` | src/arena.c:52-59 | The first chunk, or none when memory is short. |
| `Arena.ByteArena.NewChunk` | src/arena.c:30-35 | There is a chunk if and only if its size with the header fits and memory is found. |
| `Arena.ByteArena.AllocAligned` | src/arena.c:61-110 | The call leaves exactly the specified arena and answer, and all blocks handed out so far stay apart. |
| `Arena.ByteArena.AllocFresh` | src/arena.c:78-96 | The branch for requests the tail cannot hold. |
| `Arena.ByteArena.Take` | src/arena.c:98-109 | Padding and size are taken from the tail if they fit it and the total. |
| `Arena.ByteArena.Alloc` | src/arena.c:112-114 | The same with the default alignment of 8. |
| `InternTable.StepIsNearer` | src/intern.c:107-113 | Below full load a probe comes nearer to an empty bucket with every step, so every probe loop ends. |
| `InternTable.StoppedMeansAbsent` | src/intern.c:107-113 | A probe that stops at an empty bucket shows the text is not in the table: no probe chain has a hole. |
| `InternTable.ProbeMeetsText` | src/intern.c:107-113 | A probe past the bucket of a text has met it. |
| `InternTable.PutKeepsLaid` | src/intern.c:64-67 | Filling the bucket a probe ended on keeps every key within reach of its own probe. |
| `InternTable.PutHolds` | src/intern.c:115-123 | A new text enters the table with the others intact. |
| `Intern.SamePointerSameBytes` | src/intern.c:94-124 | Over any sequence of calls two successful ones return the same pointer if and only if they asked for the same bytes. |
| `Intern.AnswerStays` | src/intern.c:94-124 | A pointer once returned stands for its bytes from then on, across growth. |
| `Intern.NewBlockIsApart` | src/intern.c:115-118 | The new pointer is not null and differs from all others, and writing its bytes leaves theirs alone. |
| `Intern.TwicePower` | src/intern.c:70-72 | Doubling keeps the capacity a power of two within 32 bits. |
| `Intern.Put` | src/intern.c:62-68 | The key lands in reach of its probe, with one bucket more occupied and no other pointer changed. |
| `Intern.Rehash` | src/intern.c:80-85 | Every key moves to the larger table under its old pointer. |
| `Intern.SameBytes` | src/intern.c:109 | The byte comparison. |
| `Intern.CopyText` | src/intern.c:117-118 | The text and its NUL are in the block and no other byte changed. |
| `Intern.InternPool.constructor` | src/intern.c:39-51 | An empty pool of 16 buckets. |
| `Intern.InternPool.Grow` | src/intern.c:70-92 | The capacity doubles or nothing changes; a table grows only up to 2^31 buckets. |
| `Intern.InternPool.Intern` | src/intern.c:94-124 | The pool keeps its map: the pointer of equal bytes, or a new one; NULL leaves the map as it was, though the table may have been doubled, and is returned exactly when the text is too long, a full table cannot be doubled, or a new text finds no room. |
| `Intern.InternPool.MemoryIsEnough` | src/intern.c:94-124 | A text within 32 bits is never refused while memory is found and the table is not at its largest. |
| `Intern.InternPool.InternWithRoom` | src/intern.c:106-123 | The same once the table has a bucket to spare. |
| `Intern.InternPool.Enter` | src/intern.c:115-122 | A new text gets its block and its bucket. |
| `Intern.InternPool.Probe` | src/intern.c:106-113 | The probe ends on the bucket of the text, or on the empty bucket it belongs in and only if it is absent. |
| `Utf8.DecodeOfEncode` | src/utf8.c:34-59 | Decoding the encoding of a scalar value gives it back, whatever bytes follow. |
| `Utf8.EncodeOfDecode` | src/utf8.c:34-59 | What decodes is a scalar value whose encoding is the bytes consumed. |
| `Utf8.DecodeAllOfEncodeAll` | src/utf8.c:34-59 | Whole texts of scalar values survive encoding and decoding. |
| `Utf8.EncodeAllOfDecodeAll` | src/utf8.c:34-59 | And whole well-formed octet strings survive decoding and encoding. |
| `Utf8.ChecksMatch` | src/utf8.c:50-55 | The range checks after the loop accept exactly the second octets of section 4 of RFC 3629. |
| `Utf8.IllFormed` | src/utf8.c:35-48 | What the earlier checks refuse is ill-formed by section 4 of RFC 3629. |
| `Utf8.Decode` | src/utf8.c:34-59 | The decoder accepts exactly the well-formed sequences of section 4 of RFC 3629 and yields their value and length. |
| `Source.NewlineLenIsLongest` | src/source.c:35-65 | The newline at a position is the longest that stands there out of line feed, carriage return, the two together and the encodings of U+0085, U+2028 and U+2029, as the flags list them; flags 0 list the first three. |
| `Source.ScanMatchesReference` | src/source.c:82-109 | The scan that jumps over newline sequences finds exactly the byte sequences that end at or before a position, counted one position at a time. |
| `Source.LinesStartAfterNewlines` | src/source.c:82-109 | The table holds 0 and the end of every newline byte sequence, the second half of a CR LF pair not counted, and nothing else. |
| `Source.BisectionFinds` | src/source.c:175-181 | What bisection ends on is the number of newline sequences ending at or before the query, and the start of its line. |
| `Source.OffsetRecovered` | src/source.c:163-184 | Offset to line and column and back is the identity if and only if it is not offset 2^32 - 1 with no newline before it, where the 32-bit column wraps to 0. |
| `Source.ColumnWraps` | src/source.c:163-184 | An input where it is not: the end of a text of 2^32 - 1 letters is at line 1, column 0. |
| `Source.PositionsAreDistinct` | src/source.c:163-184 | Different offsets have different positions. |
| `Source.SourceText.constructor` | src/source.c:116-135 | The table is not built yet. |
| `Source.SourceText.EnsureLineOffsets` | src/source.c:72-114 | The table is there if and only if the text has at most 2^32 - 2 lines; an existing one is kept. |
| `Source.SourceText.BuildTable` | src/source.c:76-113 | The growing table holds every line start and the end sentinel. |
| `Source.SourceText.AddLine` | src/source.c:86-104 | One more line start, with room left for the sentinel; the doubling never overflows. |
| `Source.SourceText.Regrow` | src/source.c:95-102 | The larger table starts with the old one. |
| `Source.SourceText.Pos` | src/source.c:163-184 | The line is one more than the newline sequences ending at or before the query, clamped to the text, and the column counts from its start; without a table both are 1. |
| `Source.SourceText.Bisect` | src/source.c:175-181 | The last line start at or before the query. |

## Left out

- Allocation failure in general: only the arena, the intern pool and the second supertype buffer have it, as parameters saying whether memory was found; token, diagnostic and node vectors never fail to grow.
- Lexer configurations with missing tables or empty spellings are refused with -1 before any lexing; here spellings are non-empty by their type.
- NULL handles: a NULL parser, arena, pool, source or output vector is refused by every entry point and is not part of the model.
- `src/dump.c`, `src/diag.c` formatting and `kavak_ty_to_string`: printing.
- `src/kavak.c` and `src/sema.c`: session lifetime and tree walks whose behaviour lies in descriptor callbacks.
- `src/unicode_xid.c`: identifier predicates are arbitrary functions of a code point.
- `kavak_ty_find_member`: the walk of conformance with another test at each node; its theorems would repeat those of `ConformsToExact`.
- `kavak_ty_equal_nominal` and `kavak_ty_numeric_common`: single comparisons and table lookups.
- Language hooks of join (numeric rank and `type_join`): arbitrary callbacks. Assignability takes the hooks' verdict as a parameter, and the order laws are stated without hooks.
- TypeUnification.StrictSound: for nodes of kinds the kernel does not know, strict unification accepts equal kinds while deep equality asks for the same pointer, so the statement compares trees without that identity; `StrictSoundExactly` in TypeMatching restores it where kinds decide it.
- TypeMatching.StrictDecides: needs names that settle declarations, which the code does not compare; without them the answer OK only gives a match up to declarations.
- TypeSubstitution.TypeArena.Substitute, like SubstInner: says nothing of the `underlying` field of a rebuilt named type, which no comparison of the kernel looks at.
- TypeRelations.JoinAssociates: operands leave room for one more nullable layer below the bound of 512.
- Depth bound of substitution: beyond 512 levels the tree is substituted only down to the bound, which the specification says but `SubstitutesFully` excludes.
- Types are values in a map from addresses: no modelled operation updates a node once it is handed out, so update in place and aliasing of nodes are not at issue.
- Expression trees are values with their tokens in them; AST node objects and child lists are not modelled, and the spans of nodes are stated for trees without errors only.
- Parser hooks `parse_primary` and arbitrary `parse_postfix`: the postfix hook is unset or `kavak_parser_parse_call`.
- Statement-level recovery (`kavak_parser_recover_to` and its relatives) and checkpoints.
- LexTiling.LexInOrder: excludes runs in which an interpolated expression is given up, as order fails there; the converse needs marked openings, without which such a run may still be in order.
- LexLines.LexIsLineByLine: speaks of tokens; the diagnostics of a run are not put together line by line.
- LexCoverage.LexCoversText: asks template rules for marks of their delimiters, because unmarked ones belong to no token.
- LexBrackets.LexNests: asks for a mark of each kind on every template rule, as rules without marks have nothing to nest, and excludes runs in which a literal is given up, as nothing then closes its head.
- Lexer.TokenLexer.Run: tokens of an earlier run in the same vector are not modelled, and within one literal the token vector may outgrow the limit that the loop checks between tokens.
- `kavak_scan_hex_escape`: a helper for descriptors that the lexer does not call.
- Zeroing of arena memory is used by the intern pool's memory only; `kavak_arena_free` and `kavak_intern_pool_free` end the lifetime of everything and keep nothing.
- The FNV-1a hash is an arbitrary function of the bytes.
- Arena.AllocateIsSafe: takes for granted that `calloc` returns memory that overlaps no live chunk and does not wrap around the address space.
- Line positions of texts longer than 2^32 - 1 bytes: the source refuses them at initialisation.
