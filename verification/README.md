# A verified model of lyrebird

Lyrebird answers Elasticsearch queries and SQL with a Milvus collection. A query becomes a filter in
Milvus's boolean-expression dialect; filters run through a primary-key cursor and a client-side sort;
documents and rows are written back under a strict schema. This project models those paths in Dafny and
proves what they promise.

## What is proved

**The query compilers.** An Elasticsearch query is two-valued: a missing field does not match. Milvus is
three-valued: `not` over a null is unknown and drops the row. `EsFold`, `EsLower`, `EsExact` and
`EsTranslate` prove that folding, lowering and complementing cross that gap exactly, at any depth of
`must_not`. A SQL clause is three-valued on both sides, but the parser resolves NULL literals while it
reads; `PgExact` keeps the NULLs in its source trees and proves which clauses survive that.
`EsAccept` and `PgAccept` say which queries and clauses are planned at all.

**Text on both sides.** `RenderRoundTrip` reads the rendered filter back with a scanner and a precedence
parser of its own and proves exactly when nothing is lost. `PgRoundTrip` and `SqlSource` do the same for SQL: a
clause spelled as text is lexed and parsed back to itself. The ends meet in `Emitted.QueryTextAnswers`
and `SqlSource.SourceAnswers`: from the query to the text the server is sent, to the rows that text selects.
`FiniteNumbers` says for which literals the server can read that text at all.

**Splitting.** `SqlSplit` proves that cutting a query string at its semicolons commutes with lexing it.

**Searching.** `StoreSearch` and `StoreResults` prove that the cursor scan returns every match once, that
the hits are a window of the only order by sort keys, missing last, then primary key, and exactly when
the reported total is right. `SortMeaning` says what that order is of the cells themselves.

**Writing.** `StoreWriteCells` and `StoreColumns` prove the validator equal to a declarative rule and the
column encoding invertible. `DocumentApi` and `PgUpdate` treat the document API and UPDATE as transitions
over a store and prove what holds over any run. `JoinRows` proves the catalog's join loops against the
relational definition.

Loops and objects of the original are loops and objects here (`EsFoldInPlace`, `EsLowerLoops`, `PgLoops`,
`PgParser`, `PgQualifiers`, `RenderLoops`, `SqlLexerLoops`, `RowSort`, `StoreSearch`, `StoreWriteCells`,
`StoreColumns`, `DocumentServer`, `PgUpdate`, `JoinRows`); each is proved to compute the function the
theorems are about.

## What is taken on trust

- The server. `Milvus.Eval` is Kleene logic over what the server decides about a cell and a literal;
  a page of a query is the matches from an offset on, in ascending key order (`Store.Collection`);
  an upsert replaces the row under its key, an insert into an auto-generated key takes a fresh one.
- The dialect the server reads. `RenderRead` is a grammar of what the renderer writes, with decimal numerals
  only; that the server cannot read a filter means that this grammar has no place for it.
- Go's number and date parsing, float formatting and rounding, `sort.SliceStable`'s contract (an insertion
  sort stands in for it) and JSON decoding are parameters or stand-ins; `GoValues.Go.Faithful` and
  `NoopCheck.SpellsDoubles` state what is used of them.
- Integers are unbounded; ranges are checked where the original checks them. Strings are sequences of code
  points, where the original walks UTF-8 bytes; the two differ only inside literals and comments.

## Where the code and its documentation part

- A knn filter is lowered without being folded (`internal/translate/es/request.go:101-104` says the path is
  the same): `EsKnn.UnfoldedReads` says how any is read, `EsKnn.KnnExactThroughout` and `EsKnn.KnnExactWhen` when
  that does not show.
- NULL under NOT: `PgExact.AtomExactWhen`, `PgExact.NegatedNullComparison`, `PgExact.HalfOpenMatchesNothing`.
  For whole trees the condition `Harmless` is sufficient; deciding exactly when a tree with several NULLs still agrees with SQL is as hard
  as propositional satisfiability, so the equivalence is stated for single predicates under any number of NOTs.
- The catalog's operator table is documented as longest first (`internal/catalog/lexer.go:46-47`) and is not:
  `SqlOperators.CatalogTakesLongestWhen`.
- The total of a page past the end is the offset, and a sorted request for no rows reports none:
  `StoreResults.TotalExactWhen`.
- int8, int16, int32 and float32 columns count as sortable (`internal/store/milvus.go:616-625`), and their cells,
  which the client returns as types of their own, are ordered as printed text: `NarrowSort.TextColumnSorts`,
  `NarrowSort.NarrowColumnSorts`.
- The write path says it takes back what reads return (`internal/store/write.go:253-256`). It refuses int8 and
  int16 cells, which reads return as types it does not know, and generated keys, which it lets no writer supply:
  `DocumentApi.StoredRowIsWritableWhen`, and for updates `DocumentApi.UpdatedExactlyWhen`,
  `PgUpdate.UpdateAcceptedWhen`.
- Keys and integers beyond 2^53 are compared as doubles: `DocumentApi.AddressKeptExactly`,
  `NoopCheck.NoopRowExactWhen`.
- A number that is not finite, which a float field's string literal can be, is rendered but cannot be read back:
  `RenderRoundTrip.NonFiniteIsUnread`, `Emitted.NotANumberIsSent`.
- UPDATE rewrites the first 10000 matches and does not say there were more: `PgUpdate.CapIsSilent`.

`dafny verify dfyconfig.toml` checks the whole project.

## Model

| member | source | states |
|---|---|---|
| EsFold.FoldPreserves | internal/translate/es/query.go:398-459 | folding keeps the set of matched rows, on every query and row it succeeds on |
| EsFold.FoldNormal | internal/translate/es/query.go:408-459 | the folded tree has no match_all or match_none below its root, no empty bool, and a surviving should has minimum_should_match 1 |
| EsFold.NormalIsFixed | internal/translate/es/query.go:408-459 | a tree in that normal form folds to itself |
| EsFold.FoldIdempotent | internal/translate/es/query.go:408-459 | folding twice is folding once |
| EsFold.SimplifyPreserves | internal/translate/es/query.go:425-459 | the boolean identities, on clauses already folded, keep what the bool matches |
| EsAccept.FoldRefuses | internal/translate/es/query.go:408-459 | a bool is refused exactly when a clause of it is, or its folded clauses, undecided by a constant, ask for k of n matches with 1 < k <= n |
| EsAccept.NormalClausesRefused | internal/translate/es/query.go:432-453 | over clauses that are already folded: refused if and only if they ask for such a match |
| EsAccept.RefusedCounts | internal/translate/es/query.go:398-459 | folding refuses nothing else, at any depth, and says so as a missing capability |
| EsFoldInPlace.FoldNode | internal/translate/es/query.go:408-459 | the recursion that overwrites the clause slices returns Fold of the tree it was given; whatever it overwrote, on the error path too, answers every row as before |
| EsFoldInPlace.FoldGroups | internal/translate/es/query.go:413-422 | the loop over the four clause slices: each is left holding the folded clauses |
| EsFoldInPlace.FoldSlice | internal/translate/es/query.go:414-422 | one slice, element by element, with the first error stopping it and the rest untouched |
| EsFoldInPlace.BuildFolded | internal/translate/es/query.go:424-459 | the second half of fold returns what Simplify says of the folded slices and changes none of them |
| EsFoldInPlace.ContainsWhere | internal/translate/es/query.go:64-71 | true exactly when some element of the slice is the constant asked for |
| EsFoldInPlace.DropWhere | internal/translate/es/query.go:73-81 | the slice without the constant, in order, and the old slice untouched |
| EsFoldInPlace.ShouldClauses | internal/translate/es/query.go:432-453 | the should cases yield KeepShould: kept, made optional, impossible or unsupported |
| EsLower.NegatedComplements | internal/translate/es/expr.go:118-167 | negated(e) is true on a row exactly when e is not, be it false or unknown, at any depth |
| EsLower.NegatedGuarded | internal/translate/es/expr.go:118-167 | the expressions with their `is null or not` guards are closed under negated |
| EsExact.LowerExact | internal/translate/es/expr.go:17-116 | on trees as fold leaves them the emitted expression is true on a row exactly when Elasticsearch matches it, and can be complemented again |
| EsExact.BoolExact | internal/translate/es/expr.go:62-116 | the same for a bool from its four lowered clause groups |
| EsExact.MatchExact | internal/translate/es/expr.go:194-228 | a match clause, exact or tokenized, means what its operator says |
| EsExact.TermsOfJoin | internal/translate/es/expr.go:213-228 | joining tokens with blanks and splitting them again gives the tokens back, so TEXT_MATCH ors exactly them |
| EsExact.NormalIsLowerable | internal/translate/es/expr.go:62-116 | what fold establishes is what boolExpr relies on |
| EsExact.TranslateExact | internal/translate/es/request.go:76-118 | fold then lower is exact for every parsed query |
| EsQuery.CoerceDenotes | internal/translate/es/expr.go:247-294 | the storage encoding of a scalar is the one literal it stands for in a field of that type - a table of readings of its own - and is refused exactly when it stands for none |
| EsQuery.TokensHoldTokenized | internal/translate/es/expr.go:194-241 | a tokenized match asks for the words of the text: the maximal runs without white space |
| Text.FieldsAreRuns | internal/translate/es/expr.go:225-227 | splitting at separators yields exactly the maximal runs between them |
| EsTranslate.ParseMeaning | internal/translate/es/query.go:189-200 | the pinned minimum_should_match says what Elasticsearch's rule for the query as written says |
| EsTranslate.QueryAnswers | internal/translate/es/request.go:49-118 | the plan of a query, NoMatch included, returns exactly the rows Elasticsearch would |
| EsAccept.LowerAccepts | internal/translate/es/expr.go:17-116 | lowering succeeds exactly when every scalar a field is compared with has a reading |
| EsAccept.TranslateAccepts | internal/translate/es/request.go:49-118 | a query is planned exactly when folding accepts it and, unless it folds to no match, the scalars left have readings |
| EsAccept.WrittenQueryAnswered | internal/translate/es/request.go:49-118 | with nothing assumed of the compiler: a query without k-of-n matches whose scalars have finite readings is planned, its text can be read and selects exactly the rows Elasticsearch matches |
| EsKnn.KnnAnswers | internal/translate/es/request.go:104-117 | the knn filter is exact when its clauses are already as fold would leave them |
| EsKnn.UnfoldedReads | internal/translate/es/request.go:104-117 | any knn filter, unfolded, is read as if every bool in it, at any depth, had minimum_should_match 1 and none of the clauses that match everything, those under must_not included |
| EsKnn.RightThroughoutIsExact | internal/translate/es/request.go:101-117 | that is what was written when at every bool nothing vacuous is under must_not and the vacuous should clauses leave exactly one more to be found, whatever the leaves compare |
| EsKnn.KnnExactThroughout | internal/translate/es/request.go:101-117 | such a filter, of nested bools and comparisons, is answered as Elasticsearch does on every row |
| EsKnn.KnnExactWhen | internal/translate/es/request.go:101-117 | a knn filter that is one bool over exists, match_all and match_none clauses is answered as Elasticsearch does on every described row if and only if a check of its lists and of minimum_should_match passes |
| EsKnn.MustNotAllPassesAll | internal/translate/es/request.go:101-117 | must_not over match_all as a knn filter is the plan that passes every row, where Elasticsearch matches none |
| EsLowerLoops.BuildExpr | internal/translate/es/expr.go:17-60 | the clause switch with its loops computes Lower |
| EsLowerLoops.BoolExpr | internal/translate/es/expr.go:62-116 | the four loops of boolExpr compute Lower of the bool, errors included |
| EsLowerLoops.NegatedExpr | internal/translate/es/expr.go:132-167 | negated, with its index loop over children, computes Negated |
| PgExact.ResolveKeepsVerdict | internal/translate/pg/parser.go:559-665 | resolving NULL while parsing keeps which rows a place of each sign passes, as long as every NULL sits under an even number of NOTs and is no single bound of NOT BETWEEN |
| PgExact.ResolveKeepsTruth | internal/translate/pg/parser.go:559-665 | without NULL literals the three-valued value is the same on every row |
| PgExact.FoldKeepsTruth | internal/translate/pg/expr.go:108-165 | folding a WHERE tree keeps its three-valued value |
| PgExact.BuildKeepsTruth | internal/translate/pg/expr.go:237-331 | lowering keeps the three-valued value, where no group is empty |
| PgExact.FoldLeavesNoEmptyGroup | internal/translate/pg/expr.go:108-165 | folding leaves no empty group, which would render as match everything |
| PgExact.SelectAnswers | internal/translate/pg/translate.go:190-226 | a WHERE whose NULLs are harmless returns exactly the rows SQL passes |
| PgExact.SelectKeepsTruth | internal/translate/pg/translate.go:190-226 | without NULLs the plan has SQL's value on every row |
| PgWhere.CoerceDenotes | internal/translate/pg/expr.go:333-380 | the storage encoding of a literal is the one value it stands for in a column of that type, and is refused exactly when it stands for none |
| PgAccept.BooleanComparisons | internal/translate/pg/expr.go:366-373 | on a boolean column, = TRUE is the bare column and = FALSE compares with false |
| PgAccept.ResolveAccepts | internal/translate/pg/parser.go:414-665 | the parser carries exactly the supported forms |
| PgAccept.BuildAccepts | internal/translate/pg/expr.go:237-331 | lowering succeeds exactly when every literal has a reading in its column's type |
| PgAccept.PlanAccepts | internal/translate/pg/translate.go:190-226 | a clause is planned exactly when its form is carried and, unless it folds to FALSE, the literals left have readings |
| PgAccept.WrittenWhereAnswered | internal/translate/pg/translate.go:190-226 | with nothing assumed of the compiler: a supported clause whose NULLs are harmless and whose literals have finite readings is planned, its text can be read and selects exactly the rows SQL passes |
| PgExact.AtomExactWhen | internal/translate/pg/parser.go:559-665 | a single predicate under n NOTs returns the rows SQL passes, whatever the server and whichever row the schema describes, if and only if it mentions no NULL, or n is even and it is no NOT BETWEEN with one NULL bound |
| PgExact.NegatedNullComparison | internal/translate/pg/expr.go:147-152 | the failing family of a negated comparison with NULL: the plan passes every row, SQL none |
| PgExact.HalfOpenMatchesNothing | internal/translate/pg/parser.go:601-627 | the other failing family, NOT BETWEEN with one NULL bound: the plan is no match, SQL passes the rows beyond the other bound |
| PgLoops.FoldWhere | internal/translate/pg/expr.go:108-165 | the loops of fold compute Fold |
| PgLoops.BuildExpr | internal/translate/pg/expr.go:237-313 | buildWhere computes Build |
| PgLoops.BuildChildren | internal/translate/pg/expr.go:315-325 | the child loop computes BuildAll, stopping at the first error |
| PgRoundTrip.LooseInverts | internal/translate/pg/parser.go:414-468 | a predicate printed with the fewest parentheses is read back as itself, OR looser than AND, AND looser than NOT |
| PgRoundTrip.AtomInverts | internal/translate/pg/parser.go:470-665 | each single predicate is read back, BETWEEN owning its AND |
| PgRoundTrip.ParsedAnswers | internal/translate/pg/parser.go:414-468 | from tokens to rows: the compiled clause returns exactly what SQL passes |
| PgRefusals.OperandsRefused | internal/translate/pg/parser.go:669-734 | what cannot start an operand: parameters and parentheses are unsupported, operators and other keywords no SQL |
| PgRefusals.SignsRead | internal/translate/pg/parser.go:704-715 | a sign belongs to the number after it and to nothing else |
| PgRefusals.CastsRefused | internal/translate/pg/parser.go:669-688 | an operand with a cast after it, or a name with an argument list, is unsupported |
| PgRefusals.NamesRefused | internal/translate/pg/parser.go:270-307 | a dotted quoted name, a star or a broken qualifier is refused, a zero-length name is the empty number |
| PgRefusals.TailsRefused | internal/translate/pg/parser.go:488-557 | LIKE, ILIKE and the vector operators are unsupported, with NOT or without; a NOT or IS that goes on otherwise is no SQL |
| PgRefusals.ListsRefused | internal/translate/pg/parser.go:559-599 | a subquery or a column in an IN list is unsupported |
| PgParser.Parser.Or | internal/translate/pg/parser.go:414-431 | the method reads an OR chain: exactly what the grammar function of its name reads from the tokens left, and moves the cursor past it |
| PgParser.Parser.And | internal/translate/pg/parser.go:435-452 | the method reads an AND chain: exactly what the grammar function of its name reads from the tokens left, and moves the cursor past it |
| PgParser.Parser.Not | internal/translate/pg/parser.go:455-468 | the method reads NOTs and what they stand before: exactly what the grammar function of its name reads from the tokens left, and moves the cursor past it |
| PgParser.Parser.PredicateOf | internal/translate/pg/parser.go:470-536 | the method reads a parenthesized clause or one predicate: exactly what the grammar function of its name reads from the tokens left, and moves the cursor past it |
| PgParser.Parser.TailOf | internal/translate/pg/parser.go:488-536 | the method reads what follows a left operand: exactly what the grammar function of its name reads from the tokens left, and moves the cursor past it |
| PgParser.Parser.NegatedTailOf | internal/translate/pg/parser.go:538-557 | the method reads what follows NOT: exactly what the grammar function of its name reads from the tokens left, and moves the cursor past it |
| PgParser.Parser.InTailOf | internal/translate/pg/parser.go:559-599 | the method reads an IN list, NULLs dropped or fatal: exactly what the grammar function of its name reads from the tokens left, and moves the cursor past it |
| PgParser.Parser.BetweenTailOf | internal/translate/pg/parser.go:601-627 | the method reads two bounds and the AND between them: exactly what the grammar function of its name reads from the tokens left, and moves the cursor past it |
| PgParser.Parser.IsTailOf | internal/translate/pg/parser.go:489-502 | the method reads IS [NOT] NULL: exactly what the grammar function of its name reads from the tokens left, and moves the cursor past it |
| PgParser.Parser.Value | internal/translate/pg/parser.go:669-734 | the method reads an operand, casts refused: exactly what the grammar function of its name reads from the tokens left, and moves the cursor past it |
| PgParser.Parser.ColumnRef | internal/translate/pg/parser.go:270-307 | the method reads a column and its qualifier: exactly what the grammar function of its name reads from the tokens left, and moves the cursor past it |
| PgQualifiers.StripKeepsTruth | internal/translate/pg/parser.go:736-852 | stripping the table's own qualifiers keeps the clause's value |
| PgQualifiers.StripQualifiers | internal/translate/pg/parser.go:778-852 | the walk and its loop compute Strip, refusing other tables |
| RenderRoundTrip.RendersExactlyWritable | internal/translate/expr.go:115-249 | Render succeeds exactly on known operators, identifier fields and set literals, everywhere in the tree, whatever the numbers |
| RenderScan.StringReadsBack | internal/translate/expr.go:251-253 | a quoted literal is read back unescaped to the original |
| Milvus.DecimalReads | internal/translate/expr.go:240-241 | an integer's decimal text reads back as the integer |
| RenderScan.ExprScans | internal/translate/expr.go:115-249 | the text written scans into the expression's tokens wherever it ends at a boundary |
| RenderRoundTrip.TokensRead | internal/translate/expr.go:184-215 | a precedence parser reads those tokens back to the tree they spell, and reads nothing where a join or a child is missing, a field is a keyword or a number is none |
| RenderRoundTrip.RenderReadsBack | internal/translate/expr.go:115-215 | what Render writes is read back if and only if every number is finite, there is no hole below the root and no field is named like a keyword; and then it has the same Kleene value on every row |
| RenderRoundTrip.NonFiniteIsUnread | internal/translate/expr.go:242-243 | any expression with a non-finite number anywhere in it is written but never read back |
| RenderLoops.RenderText | internal/translate/expr.go:115-121 | Render, with a fresh builder, returns the rendered text or fails exactly when rendering does |
| RenderLoops.RenderExprTo | internal/translate/expr.go:123-193 | the writes to the shared builder add up to the rendered text, or fail exactly when it does |
| RenderLoops.RenderJoinTo | internal/translate/expr.go:195-215 | the join loop writes its members parenthesized, one member bare, none as nothing |
| RenderLoops.RenderList | internal/translate/expr.go:140-147 | the literal loop and its join write the list, or fail at an unset literal |
| Emitted.LowerClean | internal/translate/es/expr.go:17-116 | every query, folded or not, lowers to no expression or to one that is rendered without a hole, whatever the float reader makes of its literals |
| Emitted.BuildClean | internal/translate/pg/expr.go:237-331 | every folded WHERE that is not constant true lowers to one that is rendered without a hole |
| FiniteNumbers.LowerFinite | internal/translate/es/expr.go:247-294 | what a query lowers to is free of non-finite numbers exactly when the literals it compares fields with are |
| FiniteNumbers.FoldFinite | internal/translate/es/query.go:398-459 | folding a query brings no non-finite literal in |
| FiniteNumbers.FoldFiniteWhere | internal/translate/pg/expr.go:108-165 | nor does folding a WHERE tree, so finite literals in the clause as written are enough for the server to read its text |
| FiniteNumbers.BuildFinite | internal/translate/pg/expr.go:333-382 | the same equivalence for a WHERE tree |
| Emitted.NotANumberIsSent | internal/translate/es/expr.go:265-270 | a float field compared with the string NaN is planned, and the server cannot read the text it is sent |
| Emitted.QueryTextAnswers | internal/translate/es/request.go:49-118 | from a query to the text on the wire: the server can read it exactly when the literals left after folding are finite, and reading it selects exactly the rows Elasticsearch matches |
| Emitted.WhereTextAnswers | internal/translate/pg/expr.go:237-331 | for any tree the parser hands on: the text sent can be read exactly when the literals left after folding are finite, and selects exactly the rows the tree is true on |
| Emitted.SelectTextAnswers | internal/translate/pg/translate.go:190-226 | from a WHERE clause to the text on the wire: the server can read it exactly when the literals left after folding are finite, and reading it selects exactly the rows SQL passes |
| SqlLocal.TurnIsLocal | internal/catalog/lexer.go:54-137 | a turn of the lexer that ends before a semicolon or white space does not see how the text goes on |
| SqlLocal.TrimKeepsTokens | internal/catalog/lexer.go:54-137 | white space around a text that lexes changes no token |
| SqlSplit.FirstStatement | internal/catalog/split.go:22-35 | a text that lexes is its first statement, which lexes on its own into the tokens it has in place, and after a semicolon the rest |
| SqlSplit.SplitCommutes | internal/catalog/split.go:5-40 | of an input that lexes the parts are trimmed single statements exactly when it is more than white space and semicolons; and then their tokens, one part after another, are the input's without semicolons |
| SqlSplit.SplitOfStatement | internal/catalog/split.go:14-40 | splitting a part again gives back just that part |
| SqlSplit.Unsplit | internal/catalog/split.go:15-18 | an input that does not lex, or is blank, comes back unsplit |
| SqlLexerLoops.SplitStatements | internal/catalog/split.go:14-40 | the loop over the tokens computes Split |
| SqlLexerLoops.LexSource | internal/catalog/lexer.go:54-137 | the lexing loop computes Lex, offsets and end mark included, for either dialect |
| SqlLexerLoops.LexBlockComment | internal/catalog/lexer.go:142-161 | the depth counter finds the close of a nested comment, or that there is none |
| SqlLexerLoops.LexQuoted | internal/catalog/lexer.go:165-183 | a quoted literal with its doubled quotes undone, and its length |
| SqlLexerLoops.LexEscapeString | internal/catalog/lexer.go:187-231 | an E-string with its escapes undone, and its length |
| SqlLexer.EscapesStandFor | internal/catalog/lexer.go:203-222 | the letters after a backslash stand for line feed, tab, carriage return, backspace and form feed; everything else for itself |
| SqlLiterals.EscapedReads | internal/catalog/lexer.go:187-231 | an escaped string, however it is written, is read as the characters meant, up to the first quote that is neither doubled nor escaped |
| SqlLiterals.EscapedOpen | internal/catalog/lexer.go:187-231 | without that quote, or cut off after a backslash, it is refused |
| SqlLiterals.EscapeTurn | internal/catalog/lexer.go:92-101 | where the dialect has them, E or e before a quote opens an escaped string; elsewhere it is a word |
| SqlLiterals.NumeralReads | internal/catalog/lexer.go:235-259 | the length of a number is that of its digits, point, digits and exponent, whichever of them there are |
| SqlLiterals.NumeralTurn | internal/catalog/lexer.go:54-137 | such a text is one number token |
| SqlLiterals.UpperLetters | internal/catalog/lexer.go:107-112 | keywords are recognized in either case: a small letter counts as its capital, anything else as itself |
| Text.CharacterClasses | internal/catalog/lexer.go:261-267 | the characters that are white space, start an identifier or are digits, one by one |
| SqlLexerLoops.MeasureNumber | internal/catalog/lexer.go:235-259 | the length of a numeric literal with optional fraction and exponent |
| SqlLexerLoops.FindOperator | internal/translate/pg/lexer.go:123-134 | the first operator of the table the text starts with |
| SqlOperators.LongestExactlyUnshadowed | internal/translate/pg/lexer.go:55-60 | searching a table in order takes the longest operator on every source exactly when none is listed behind a prefix of itself |
| SqlOperators.QueryTakesLongest | internal/translate/pg/lexer.go:55-60 | the query dialect's table keeps its promise |
| SqlOperators.CatalogTakesLongestWhen | internal/catalog/lexer.go:46-51 | source by source: the catalog's table takes the longest operator exactly when the source starts with neither ~~ nor !~~ |
| SqlOperators.CatalogLosesTildes | internal/catalog/lexer.go:46-51 | the two doubled-tilde operators it lists are never tokens |
| SqlSource.SpelledLexes | internal/translate/pg/lexer.go:65-139 | spelling tokens and lexing them is the identity |
| SqlSource.PrintSpellable | internal/catalog/lexer.go:54-137 | every token of a clause that can be written is one the lexer knows |
| SqlSource.NamesAreSpellable | internal/translate/pg/lexer.go:65-139 | every column name without a dot, a keyword or not, is spelled as one token the lexer reads back |
| PgQualifiers.QualifiedKnows | internal/translate/pg/parser.go:736-776 | the world in which a table's columns also go by its name or alias exists |
| SqlSource.SourceAnswers | internal/translate/pg/translate.go:91-129 | any WHERE clause that can be written, given as SQL text, names quoted where needed and qualified or not, compiles to a filter text the server can read exactly when the literals left are finite, and that selects exactly the rows SQL passes |
| Rows.RowsOpposite | internal/store/milvus.go:762-781 | compareRows of one-kind columns is antisymmetric, missing values last either way |
| Rows.RowsChain | internal/store/milvus.go:762-781 | and transitive, strictly where a step is strict |
| SortMeaning.CellsCompare | internal/store/milvus.go:787-835 | strings compare by their first difference, numbers by size, false before true |
| SortMeaning.KeysCompare | internal/store/milvus.go:336-365 | keys stand in the order of the strings or numbers they are |
| NarrowSort.NarrowIntegersSortAsText | internal/store/milvus.go:787-824 | two int8, int16 or int32 cells compare as their numbers exactly where the printed text agrees: for 0 <= a < b when a is at most b cut to the length of a, for negative numbers the other way round, always across zero |
| NarrowSort.IntegersCompare | internal/store/milvus.go:787-824 | the order of two integers as printed text, for every pair |
| NarrowSort.TextColumnSorts | internal/store/milvus.go:762-824 | a sort, ascending or descending, on a column compared as text - int8, int16, int32 or float32 - returns the rows in number order, nulls last, if and only if of every two the one with the smaller number has the smaller text |
| NarrowSort.NarrowColumnSorts | internal/store/milvus.go:762-824 | for the integer columns: if and only if text and numbers agree on every two of the rows' integers |
| NarrowSort.TenComesBeforeNine | internal/store/milvus.go:787-824 | 9 and 10 do not |
| RowSort.SliceStable | internal/store/milvus.go:182-187 | the in-place sort computes StableSort |
| RowSort.SortOrders | internal/store/milvus.go:182-187 | rows that came in key order end up ordered by sort keys, missing last, then key |
| RowSort.OrderIsUnique | internal/store/milvus.go:182-187 | two arrangements of the same rows in that order are equal |
| Projection.ResolveSourceFields | internal/store/milvus.go:556-579 | each field some include covers and no exclude does, once |
| Projection.BuildProjection | internal/store/milvus.go:526-551 | refuses exactly an unsortable sort field; fetches the returned fields, the sort keys and the primary key, each once |
| Projection.MatchPattern | internal/store/milvus.go:584-605 | the names a pattern covers |
| Projection.CoversIs | internal/store/milvus.go:584-605 | a pattern covers a name that it is, every name when it is a star, and the names under it when it ends in a dot and a star |
| StoreSearch.JoinAndSays | internal/store/milvus.go:367-377 | joining filter and cursor as text is conjunction |
| StoreSearch.CursorSkips | internal/store/milvus.go:336-365 | past the k-th match in key order lie exactly the other matches |
| StoreSearch.StepAnswer | internal/store/milvus.go:338-358 | the cursor filter, as text, answers exactly the matches not yet seen |
| StoreSearch.ScanAll | internal/store/milvus.go:336-365 | every match once, in key order, by n div b + 1 page queries for n matches and batch size b; a filter the server cannot read fails at the first |
| StoreSearch.SortFetched | internal/store/milvus.go:182-187 | sorting the fetched parts of rows is fetching parts of the sorted rows |
| StoreSearch.TotalMatches | internal/store/milvus.go:298-311 | the total from the rows fetched or the count, and whether the server has to be asked |
| StoreSearch.Search | internal/store/milvus.go:135-199 | the hits are the wanted parts, nulls included, of the window of the arranged matches, whatever was fetched to get there, by the number of page queries the scan and the total need; refused exactly on an unsortable sort field or when the server is asked about a number that is none |
| StoreResults.SortedMatches | internal/store/milvus.go:135-199 | an arrangement of the matches is ordered by sort keys, then key, if and only if it is the one the search produces |
| SortMeaning.SortedMatchesMean | internal/store/milvus.go:135-199 | told without the comparison: the search's arrangement of the matches is the only one in which every row leads the next ones at the first clause they differ on, nulls last, or has the smaller key |
| SortMeaning.FirstColumnSorts | internal/store/milvus.go:762-835 | the first sort column reads from smallest to largest, or the other way round when descending, and ends with the rows that have none |
| SortMeaning.MatchesFollowKeys | internal/store/milvus.go:336-365 | unsorted matches come in ascending key order |
| StoreResults.HitIdIsKey | internal/store/milvus.go:711-724 | a hit's id is its key: the string, or the digits of the number |
| StoreResults.HitIdsDiffer | internal/store/milvus.go:711-724 | two rows of a collection share no id |
| StoreResults.TotalExactWhen | internal/store/milvus.go:298-311 | exactly when the total is the number of matches: sorted, some row is wanted or nothing matches; unsorted, no row is wanted or the offset is not past the end |
| StoreResults.SeenPageIsExact | internal/store/milvus.go:298-311 | unsorted, a page with a row in it or from offset 0 makes the total exact |
| StoreResults.PagesTile | internal/store/milvus.go:744-756 | consecutive windows tile the rows with no gap or overlap |
| StoreResults.PagedSearchTiles | internal/store/milvus.go:744-756 | requests that differ only in their window share one order |
| StoreWrite.StoredIsWritable | internal/store/write.go:257-368 | one cell: what writeValue stored it accepts again, unchanged, exactly when its field is not int8 or int16 |
| DocumentApi.OverlayAcceptedWhen | internal/store/write.go:176-238 | a stored row with a document laid over it is accepted exactly when no key is generated, the document fits the schema and it replaces every int8 and int16 cell the row holds |
| DocumentApi.StoredRowIsWritableWhen | internal/store/write.go:253-256 | what a read returned is taken back exactly when no key is generated and the row holds no int8 or int16 cell |
| StoreWrite.AcceptedIsTyped | internal/store/write.go:257-368 | what is accepted has the Go type its column is built from |
| StoreWrite.IntegersAreExact | internal/store/write.go:270-292 | an integer field takes a value exactly when it stands for an integer in range, spelled as a 64-bit integer or below 2^53, and stores that integer |
| StoreWrite.WritesWhatStores | internal/store/write.go:257-368 | a cell is stored exactly as its type says: texts within the length, floats as read and rounded to the column, JSON as bytes, vectors of the dimension, null where allowed |
| StoreWrite.BoundariesFit | internal/store/write.go:278-285 | the range an integer field checks is that of the two's-complement numbers of its width |
| GoValues.ByteLengthIsUtf8 | internal/store/write.go:266-275 | the length a text field checks is that of the text in UTF-8 |
| StoreWrite.CheckCell | internal/store/write.go:205-224 | one cell is good exactly when it fits its field; otherwise the class names what it did wrong |
| StoreWriteCells.FillRow | internal/store/write.go:204-225 | one row into the matrices, in whatever order its names come |
| StoreWriteCells.ValidateWriteCells | internal/store/write.go:176-238 | accepts exactly when every supplied cell fits and every required field is supplied; an error names a violation really present; accepted cells land where they belong |
| StoreColumns.ExpandInverts | internal/store/write.go:474-540 | expanding the compact values by the mask gives back the cells in row order |
| StoreColumns.Compact | internal/store/write.go:532-540 | the non-null cells in order |
| StoreColumns.ColumnOf | internal/store/write.go:474-579 | a column decodes to its cells; without a mask it has one value per row; no cast can fail |
| StoreColumns.WriteColumns | internal/store/write.go:147-174 | rejected rows send nothing; accepted ones send columns that decode to the rows' cells, one per field with an encoding |
| StoreColumns.UnsentIsEmpty | internal/store/write.go:162-167 | a field not sent had no value in any accepted row |
| JsonEquality.EqualsExactly | internal/esserver/write.go:612-651 | jsonValueEqual relates exactly the equal values, so it is an equivalence relation |
| JsonEquality.MemberOrderIsIrrelevant | internal/esserver/write.go:637-648 | objects that differ only in member order are equal |
| NoopCheck.CompareRows | internal/esserver/write.go:511-522 | the map loop decides RowsEqual |
| NoopCheck.ValuesEqualMeans | internal/esserver/write.go:524-584 | two values compare equal exactly when they are the same text, truth, vector or nothing, are numbers with one nearest double, or are JSON texts of one value |
| NoopCheck.EqualValueStoresSame | internal/esserver/write.go:524-584 | a stored cell equal to a merged value is what writing that value would store, within 2^53 |
| NoopCheck.NoopIsSound | internal/esserver/write.go:507-522 | with integer cells below 2^53, if the merged row compares equal, writing it would leave every cell as it is, up to the spelling of JSON |
| NoopCheck.EqualIntegerStoresWhen | internal/esserver/write.go:568-584 | a value equal to an integer cell stores that integer exactly when the cell is below 2^53 or the value spells it out |
| NoopCheck.NoopExactWhen | internal/esserver/write.go:568-584 | for an integer cell in range the check is right about every document if and only if the cell is below 2^53 |
| NoopCheck.NoopRowExactWhen | internal/esserver/write.go:507-522 | for a stored row the check is right about every document laid over it if and only if its integers are below 2^53 or it holds a cell nothing compares equal to |
| NoopCheck.NoopUnsoundBeyond | internal/esserver/write.go:568-584 | the input that shows it: two integers with one nearest double compare equal though writing would change the cell |
| DocumentApi.RunKeepsRows | internal/esserver/write.go:78-231 | over any run every row sits under its own key and satisfies the schema |
| DocumentApi.CreateNeverOverwrites | internal/esserver/write.go:103-125 | creating leaves every stored row as it was |
| DocumentApi.ResolvedKey | internal/esserver/write.go:281-323 | the key of a call to index is the id of the URL - as a string, or read as a number - or a generated one where there is none; it is refused where there is no such key or the document names another |
| DocumentApi.IndexAnswers | internal/esserver/write.go:78-148 | every answer of index: conflict, created, updated, or refused for want of a document, a key or a fit |
| DocumentApi.IndexedIsAddressed | internal/esserver/write.go:236-245 | what was indexed under an id is found by an update addressed by the same id |
| DocumentApi.RefusalChangesNothing | internal/esserver/write.go:78-231 | a call not answered created or updated changes nothing |
| DocumentApi.IndexPuts | internal/esserver/write.go:78-148 | afterwards the row under the key the call is for, of the URL or generated, holds exactly the document's cells, and no other row changed |
| DocumentApi.AddressKeptExactly | internal/esserver/write.go:157-231 | an update that goes through is written at the addressed key if and only if the document names no key or one stored as that key; otherwise the addressed row stays and another key is written |
| DocumentApi.SmallKeysKeepAddress | internal/esserver/write.go:191-194 | a string key or an integer key below 2^53 is always kept |
| DocumentApi.UpdateIsLocal | internal/esserver/write.go:157-231 | an update whose document names no key, or one stored as the addressed key, changes only the addressed row and only the named fields |
| DocumentApi.KeyDrifts | internal/esserver/write.go:191-194 | the input that drifts: beyond 2^53 a document naming another key with the same nearest double is written to that key |
| DocumentApi.NoopWouldChangeNothing | internal/esserver/write.go:212-217 | where the addressed row's integers are below 2^53, a noop answer means writing would have changed no cell, up to the spelling of JSON |
| DocumentApi.UpdatedExactlyWhen | internal/esserver/write.go:157-231 | when an update is answered updated: the row is there, the document names no other key, something would change, no key is generated, the document fits the schema and replaces the row's int8 and int16 cells |
| DocumentApi.NarrowRowsCannotBeUpdated | internal/esserver/write.go:206-221 | a row with a non-null int8 or int16 cell the document does not replace refuses every update, even one that changes nothing |
| DocumentApi.GeneratedKeysRefuseUpdates | internal/esserver/write.go:206-221 | where keys are generated no update goes through: every one that is not a noop is refused |
| DocumentServer.Server.WriteDocument | internal/esserver/write.go:78-148 | the handler makes the index transition |
| DocumentServer.Server.UpdateDocument | internal/esserver/write.go:157-231 | the handler makes the update transition |
| DocumentServer.Overlay | internal/esserver/write.go:206-212 | the merge loops lay the document over the stored row |
| StoredRows.ColumnsHoldRows | internal/store/write.go:147-174 | the row the store reads off the columns of an accepted write is the row's cells under its key |
| PgUpdate.Table.Execute | internal/pgserver/write.go:121-155 | fetch, overlay, upsert: the statement makes the update transition |
| PgUpdate.UpdateStatement | internal/pgserver/write.go:100-155 | with at most 10000 matches and a key not named in SET, the rows that pass are the old rows under the template, no other row or key changes, and the count is how many passed; a rejection changes nothing |
| PgUpdate.UpdateAcceptedWhen | internal/pgserver/write.go:121-145 | an UPDATE goes through exactly when it matches nothing, or no key is generated, the template fits the schema and it replaces the int8 and int16 cells of every row it rewrites |
| PgUpdate.UpdateWhere | internal/pgserver/write.go:100-155 | composed with the WHERE clause as text: it goes through exactly when the server can read its literals and every row SQL passes can be rewritten; then exactly those rows are |
| PgUpdate.UpdateRewrites | internal/pgserver/write.go:121-155 | the same for the first 10000 matches of any number |
| PgUpdate.CapIsSilent | internal/pgserver/write.go:121-127 | every match is rewritten if and only if there are at most 10000 |
| PgUpdate.GeneratedKeysRefuseUpdate | internal/pgserver/write.go:128-145 | where the key is auto-generated no update that matches a row goes through |
| JoinRows.JoinIsRelation | internal/catalog/eval.go:193-228 | the combinations of the relational definition, each exactly once, in the order of their rows from left to right |
| JoinRows.LeftKeeps | internal/catalog/eval.go:217-222 | a LEFT join keeps every combination to its left, and the null row is there exactly when nothing matched |
| JoinRows.JoinSucceedsWhen | internal/catalog/eval.go:193-228 | the join succeeds exactly when every ON condition can be decided on every combination it is asked of |
| JoinRows.JoinAll | internal/catalog/eval.go:196-228 | the nested loops compute the recursive left-deep join, errors included |
| JoinRows.JoinOne | internal/catalog/eval.go:201-223 | the row loop with its matched flag extends one combination |

## Left out

- EsKnn.KnnExactWhen: the equivalence is for one bool over constants and exists clauses; with comparisons or bools inside, whether a filter reads right depends on what the server makes of its literals, and EsKnn.KnnExactThroughout states when it does whatever they are
- PgExact.SelectAnswers: one direction for clauses that mix several NULLs, because the exact condition is as hard as satisfiability; the exact one is stated for single predicates
- StoreSearch.Search: the server only fails on a filter it cannot read; lost connections and the retry behind an auto-load are not modelled
- DocumentApi.ResolveDocumentId: a document number that is no 64-bit integer agrees with no id; Go leaves that conversion to the platform
- PgUpdate.UpdateStatement: SET on the primary key itself, which writes every match to one key, is outside the statement
- NoopCheck.ValuesEqual: the two Go encodings of a vector and the sign of a zero in one are not told apart
- Two-valued details of JSON decoding, duplicate members of a request body and the wording of errors
- The Elasticsearch body parsers other than minimum_should_match, date layouts, date math, float parsing and formatting, regular expressions, LIKE and vector literals
- SELECT lists, ORDER BY, LIMIT, INSERT statements and statement ends of the SQL grammar
- Vector search: its ordering is the server's, only its scalar filter matters here
- The rest of the catalog evaluator and its virtual tables
- HTTP, the PostgreSQL wire protocol, sessions, logging, the client pool, schema discovery and collection management
- Concurrent writers and consistency levels: runs are serial
- Optimistic concurrency parameters, _bulk and scripted updates, which the handlers refuse by name
