# Verified model of the data-pipeline core

This project models the self-contained logic of the platform's packages and proves what that logic is for. Four groups
of code are covered, roughly one module per source component.

1. **Graphs.** `CheckDag`, `AgentSetup` and `AgentSetupLaws` (over `Graphs`, `FilterExpr`, `ExprLaws`): the
   three-colour cycle search, the two worklist searches, the DAG report, the derivation of an agent job from a graph
   and the folding of its filter steps. `PublishedFilter` follows the folded filter to the agent and on into the query.
2. **Filters to SQL.** `ParamSink`, `Layout`, `Like`, `QuotedNames`, `FilterCompiler`, `SqlWhere`, `StructuredGuard`:
   tokens recorded in a sink, the WHERE compiler that prints them, the scan that binds them, a parser and a
   three-valued evaluator that read the finished text back, and the gate in front of it all. `KeysetSeek`,
   `ShownColumns`, `KeyOrder`, `KeysetPaging`, `ReadTask`, `TaskRunner`, `BigintKeys`: the seek condition of a paged
   read, the order its answers come in, one batch, and the task that reads batch after batch.
3. **Wire formats.** `Calendar`, `DateTime`, `DateTimeTexts`, `DateTimeLaws`: the calendar arithmetic of section 21.4.1
   of ECMA-262 and the serializer of datetimes and dates. `NdjsonWriter`: the row-stream protocol with its keep-alive
   timer.
4. **Canonical forms and boundaries.** `StableSort`, `Json`, `CanonicalForm`, `FieldNames`, `NativeTypes`,
   `AlterStatements`, `DestinationContract`, `AgentVersion`, `MongoPipeline`, `MongoScope`, `TransactionPool`.

`Common` holds the shared vocabulary. Where the program works step by step (searches, the sink, the compiler loop, the
writer, the validators, the comparison loops) the model is a class or a method with loops, proved against a
specification function or predicate; the laws are lemmas about that specification. Check everything with `dafny verify
dfyconfig.toml`.

## What is assumed

- A `char` stands for one UTF-16 code unit other than a surrogate. Numbers are mathematical integers and reals, not
  doubles.
- What the runtime or the database decides is a parameter: number coercion, text of a number and lower-casing in
  expression evaluation (`Runtime`), comparison and text form in SQL (`Database`), a dialect's type function, how a
  database spells a type when it is introspected (`Reporter`), and what a Mongo stage other than `$limit` does to
  documents or whether it fails; only `$unwind` and `$unionWith` may give more than one document and more than they
  get.
- `localeCompare` is some strict weak order. It does tie different names: ECMA-262 requires it to return 0 for
  canonically equivalent texts. No result assumes otherwise; where ties matter the result says exactly which.
- Where a result speaks of both the expression evaluator and SQL (`QuerySelectsWhatTheStepsPass`), the two are assumed
  to compare values alike.
- Where a read is paged, a bare column name in ORDER BY is the result column of that name, as in T-SQL and ISO/IEC
  9075-2, so answers are ordered by what they show; comparing a stored key with a shown one is assumed to be an order
  on the values of each key column; key columns are never NULL and no two rows have the same key.
- Error messages are values of error datatypes; their wording is not modelled. Node configurations are given as already
  parsed, or as failed to parse.
- In the pool model a callback issues plain statements only; a failed COMMIT or ROLLBACK ends the transaction or loses
  the session; a session can be lost at any moment.
- A JSON object is a list of entries with distinct keys in the order the runtime enumerates them.

## What the proofs found

- `deriveAgentJobSetupFromGraph` searches all edges and `checkDag` only those between existing nodes. Over all ids the
  two agree exactly when every dangling edge is a loop (`SearchesAgree`); between existing nodes, exactly when every
  detour through missing nodes is matched by a path of valid edges (`SearchesAgreeOnNodes`).
- A `contains` whose needle is not text never matches in the expression evaluator, but the condition it is flattened
  to compares its text form; flattening keeps the meaning of an expression exactly when all its needles are text, or
  some other condition fails anyway (`ContainsAgreesExactlyOnText`, `ConditionsKeepMeaning`). The agent refuses
  `contains`, so what it does take selects the right rows (`QuerySelectsWhatTheStepsPass`).
- An empty `in` list compiles to `IN ()`, which is not SQL. Both gates refuse it; nothing else breaks
  (`CompiledWhereMeansTheFilter`, `AcceptedCompiles`).
- `validateStructuredQuery` lets a `startsWith` with a value that is not text through, and the compiler then refuses it;
  this is the only accepted query that does not compile (`AcceptedCompiles`, `GateAdmitsNumericPrefix`).
- Prefix search is exact for every value exactly when the escape character is neither `%` nor `_`
  (`ExactOnlyForNonWildcardEscapes`).
- A key of type bigint, decimal, numeric, money, time or any datetime type is selected as text under its own name. The
  answer is then ordered by that text, while the seek condition compares the stored value. Of the ids 9 and 10, read
  one at a time, 9 is never delivered and the end is reported (`NineIsNeverRead`). With a key of one column every task
  delivers exactly the pending rows if and only if the values are shown in the order the seek condition has for them
  (`TasksDeliverExactlyWhenShownInOrder`). That is so whenever the key's type is not read as text, which the catalog
  tells (`PlainKeyTasksDeliver`), and for ids of one width (`IdsOfOneWidthAreReadExactly`).
- A read task reads one batch of a table with a composite key and reports it as the last. That is true exactly when the
  pending rows fit one batch (`TaskDelivers`).
- A datetime with an offset keeps its instant exactly when its year is at least 100, because Date.UTC reads the years
  0 to 99 as 1900 to 1999 (`OffsetOutput`), so texts of different instants print alike (`EarlyYearCollides`).
  Serialising an output again changes nothing exactly when it shows a year from 100 to 9999 (`OutputIsStable`, with
  `YearNinetyNineIsUnstable` and `YearTenThousandIsNoDateTime` on either side). A date prints as a date text exactly
  in the years 0 to 9999 (`DateOutput`).
- `sortKeysForHash` gives a tree the hash of all its rearrangements, and of them only, exactly when no object in the
  tree has two names the key order ties (`FormDecidesExactly`). Keys that are array indices are immune: objects list
  them first, by number. The same holds for steps, schemas and contracts. Idempotence needs no condition
  (`FormIsIdempotent`).
- The comment on `buildDestinationContract` says an already normalized name round-trips unchanged. It does exactly
  when the name is at most 63 characters long and has no two underscores in a row. A cut that falls right behind an
  underscore and a collision suffix on a long name both break that (`CleanTwice`, `PickedName`).
- `canonicalizeNativeType` is idempotent on a type text exactly when what the first cut leaves does not itself end in a
  parameter list (`CanonicalTypeIsIdempotent`), which takes a line break to happen (`LineBreaksBreakIdempotence`).
- `buildAlterStatement` quotes namespace, table and column without escaping. A statement reads back exactly when none
  of them holds the quote character (`AlterReadsBackExactly`); one with a quote in the entity's name addresses another
  table or none, so it never repairs anything (`MisaddressedAltersDoNothing`, `DoubledQuoteNamesAnotherTable`).
- Two contract columns of one name and different types can never both be met; names of a built contract are distinct
  (`ClashingNamesNeverConform`).
- The limit that `validateMongoPipeline` caps is the last one, not a trailing one: 1000 rows are the most exactly when
  no `$unwind` or `$unionWith` follows it (`CappedExactlyWithoutGrowth`, `UnwindOutgrowsTheCap`). Its scope check
  looks at the top of each stage: it covers every collection a pipeline names exactly when none is named only deeper,
  as in a `$facet` (`ScopeCoversExactlyTheTop`, `NestedLookupIsNotCovered`).
- The ALTERs suggested for a contract leave no diff exactly when the database reports each altered type in a spelling of
  the same identity (`AltersCloseTheDiff`); Postgres does not for `time`, which it reports as `time without time zone`.
- A callback that swallows a failed query and returns makes `withTransaction` return normally with nothing committed:
  COMMIT of an aborted transaction succeeds and rolls back (`SwallowedFailureReturnsWithoutCommit`). A normal return
  means committed exactly when no query of the callback failed (`OutcomesMeanWhatTheySay`).

## Model

| member | source | states |
|---|---|---|
| `Graphs.BuildAdjacency` | packages/schemas/src/checks.ts:195-201 | the adjacency map lists, for every node, exactly the targets of its edges, in edge order |
| `Graphs.ClosedHoldsReachable` | packages/schemas/src/checks.ts:242-253 | a set that holds a node and is closed under edges holds everything reachable from it: why an exhausted worklist proves unreachability |
| `Graphs.ReverseTopologicalIsAcyclic` | packages/schemas/src/checks.ts:211-226 | a finish order in which every edge leads backwards leaves no directed cycle |
| `CheckDag.ColouredSearch.Dfs` | packages/schemas/src/checks.ts:214-226 | each call keeps: GRAY nodes are the recursion stack and form a walk, BLACK nodes finish in reverse topological order, the flag is set only if there is a cycle; without a cycle the node and all before it end BLACK; WHITE nodes only shrink |
| `CheckDag.ColouredSearch.VisitTargets` | packages/schemas/src/checks.ts:217-224 | the loop over the successors: cut short whenever one of them was GRAY, and only with the flag set on a real cycle; without a cycle every successor is finished; coloured nodes keep their colour |
| `CheckDag.ColouredSearch.Finish` | packages/schemas/src/checks.ts:225 | colouring BLACK moves the top of the stack to the end of the finish order and keeps both well formed |
| `CheckDag.ColouredSearch.ClosesCycle` | packages/schemas/src/checks.ts:219-222 | an edge from the top of the stack into the stack is a directed cycle |
| `CheckDag.DetectCycle` | packages/schemas/src/checks.ts:227-233 | true if and only if the edges have a directed cycle; otherwise the finish order is a reverse topological order of all nodes |
| `CheckDag.SearchFrom` | packages/schemas/src/checks.ts:242-253 | the pop-marking worklist, whose stack may hold duplicates, ends and finds a destination if and only if one is reachable |
| `CheckDag.AnySourceReaches` | packages/schemas/src/checks.ts:238-255 | true if and only if some source node reaches some destination node |
| `CheckDag.FilterEdges` | packages/schemas/src/checks.ts:181-191 | two rows per broken edge at most, source before target, and exactly the edges with both ends kept, in order |
| `CheckDag.FindOrphans` | packages/schemas/src/checks.ts:196-208 | one row for each node no valid edge touches, in node order |
| `CheckDag.CheckDag` | packages/schemas/src/checks.ts:172-264 | the rows are the report the graph alone determines: broken edges, orphans, cycle, missing path, or the pass row |
| `CheckDag.EdgeRowsMeaning` | packages/schemas/src/checks.ts:181-191 | no edge row if and only if every edge end exists, and then no edge is dropped |
| `CheckDag.OrphanRowsMeaning` | packages/schemas/src/checks.ts:204-208 | no orphan row if and only if every node is touched |
| `CheckDag.DefectsMeaning` | packages/schemas/src/checks.ts:172-264 | no defect row if and only if no edge dangles, no node is isolated, the graph is acyclic and a source reaches a destination |
| `CheckDag.PassExactlyWhenClean` | packages/schemas/src/checks.ts:172-264 | exactly one pass row for a non-empty clean graph; for any other graph at least one row and only fail rows |
| `CheckDag.RowsNameTheirDefects` | packages/schemas/src/checks.ts:184-258 | each kind of row appears if and only if the graph has the defect it names, for the edge or node it names |
| `CheckDag.NoNodesRow` | packages/schemas/src/checks.ts:176-178 | the row about missing nodes appears if and only if there are none, and is then the whole report |
| `AgentSetup.FindPath` | packages/schemas/src/agentJobSetupFromGraph.ts:32-46 | null if and only if the target is unreachable; otherwise a walk from start to target along edges with no node repeated |
| `AgentSetup.SearchesAgree` | packages/schemas/src/agentJobSetupFromGraph.ts:62-69 | the two searches reach the same from the same, over all ids, if and only if every edge with a missing end is a loop |
| `AgentSetup.SearchesAgreeOnNodes` | packages/schemas/src/agentJobSetupFromGraph.ts:62-69 | between existing nodes they agree if and only if every detour through missing nodes is matched by valid edges |
| `AgentSetup.ValidEdgesReachLess` | packages/schemas/src/checks.ts:181-191 | what checkDag's edges reach, all edges reach |
| `AgentSetup.OnlyDanglingEdge` | packages/schemas/src/agentJobSetupFromGraph.ts:62-69 | an edge with a missing end that is no loop reaches what valid edges never reach |
| `AgentSetup.DanglingEdgesSeparateTheSearches` | packages/schemas/src/agentJobSetupFromGraph.ts:62-69 | a graph with dangling edges on which the two searches differ |
| `AgentSetup.TransformNodes` | packages/schemas/src/agentJobSetupFromGraph.ts:71-74 | the transform nodes at the inner places of the path, each the first node of its id, in path order |
| `AgentSetup.TransformsAreInside` | packages/schemas/src/agentJobSetupFromGraph.ts:71-74 | there are ascending inner places of the path, all that hold a transform, at which these nodes stand |
| `AgentSetup.FoldSteps` | packages/schemas/src/agentJobSetupFromGraph.ts:83-96 | the problems and the conditions of a node's steps, each in step order |
| `AgentSetup.FoldPath` | packages/schemas/src/agentJobSetupFromGraph.ts:76-97 | the problems and the joined conditions of all nodes on the path |
| `AgentSetup.Derive` | packages/schemas/src/agentJobSetupFromGraph.ts:49-153 | the error for a missing source, a missing destination and no connection, in that order; otherwise the result determined by a repetition-free path between them |
| `AgentSetup.PathFaults` | packages/schemas/src/agentJobSetupFromGraph.ts:77-96 | the path is without problems if and only if every node parses and every step is a filter that flattens |
| `AgentSetup.FoldKeepsMeaning` | packages/schemas/src/agentJobSetupFromGraph.ts:76-97 | a row passes every filter step if and only if it satisfies the joined conditions and every needle is text |
| `AgentSetupLaws.PublishedFilterMeaning` | packages/schemas/src/agentJobSetupFromGraph.ts:128-152 | when derivation over a path succeeds, a row passes every step of the first node with the id at each inner place of the path, where that is a transform, if and only if it satisfies the emitted filter and every `contains` needle is text |
| `AgentSetupLaws.PublishedMappingIsComplete` | packages/schemas/src/agentJobSetupFromGraph.ts:116-123 | a setup for a Planometry table maps every key column; no published mapping has an empty side |
| `AgentSetupLaws.PublishedSetupTakesEachEnd` | packages/schemas/src/agentJobSetupFromGraph.ts:128-146 | connection, table, columns and parameters of a published job are the source node's, connection, mapping, mode and delivery settings the destination node's |
| `AgentSetupLaws.EndpointFaults` | packages/schemas/src/agentJobSetupFromGraph.ts:99-123 | no endpoint problem if and only if both configs parse, connections, table and mode are chosen and the keys are mapped |
| `AgentSetupLaws.KeysUnmapped` | packages/schemas/src/agentJobSetupFromGraph.ts:117-119 | the list of unmapped keys is empty if and only if every key column is the source of a mapping entry |
| `AgentSetupLaws.DerivedExactlyWhenPublishable` | packages/schemas/src/agentJobSetupFromGraph.ts:76-152 | derivation over a path succeeds if and only if nothing at the inner places of the path or at its ends is wrong |
| `AgentSetupLaws.DerivedReportsTheFaults` | packages/schemas/src/agentJobSetupFromGraph.ts:76-152 | each problem is reported if and only if the node, step or end it speaks of has that fault; without any, exactly the mapping entries with an empty side; without these too there is a job |
| `AgentSetupLaws.EndsOfTheJob` | packages/schemas/src/agentJobSetupFromGraph.ts:52-60 | the ends are the first source with the agent manifest and the first destination with one of the two agent manifests |
| `PublishedFilter.ConvertSetupFilter` | apps/agent/src/link/setupManager.ts:51-74 | the refusal of the first condition the agent cannot take, or all conditions converted in order |
| `PublishedFilter.ConvertedKeepsMeaning` | apps/agent/src/link/setupManager.ts:51-74 | a row satisfies all converted conditions if and only if the published ones hold of it |
| `PublishedFilter.ConvertedCompiles` | apps/agent/src/link/setupManager.ts:51-74 | a converted filter compiles if and only if no field name holds the token delimiter |
| `PublishedFilter.QuerySelectsWhatTheStepsPass` | packages/schemas/src/agentJobSetupFromGraph.ts:76-152 | from graph to query: when a setup is derived and taken, the compiled text with its parameters selects exactly the rows that pass every filter step on the path |
| `FilterExpr.ExprToConditions` | packages/schemas/src/nodeConfig.ts:322-357 | the loop with its early returns gives the flattening or nothing, as specified |
| `FilterExpr.ConditionMeaning` | packages/schemas/src/nodeConfig.ts:326-355 | a flattened node passes a row if and only if its condition holds of the row and its needle, if any, is text |
| `FilterExpr.ComparisonMeaning` | packages/schemas/src/nodeConfig.ts:267-291 | the expression a condition is packed into passes exactly the rows the condition holds of |
| `FilterExpr.ConditionsKeepMeaning` | packages/schemas/src/nodeConfig.ts:322-357 | a row passes an expression that flattens if and only if every flattened condition holds and all needles are text |
| `FilterExpr.OperandsDecide` | packages/schemas/src/ops/residualEval.ts:1028-1043 | a three-valued AND is true if and only if each operand is |
| `ExprLaws.ComparisonsOfNumbers` | packages/schemas/src/ops/residualEval.ts:1008-1026 | two numbers compare as numbers do, and a comparison with null passes nothing |
| `ExprLaws.ContainsFindsTheNeedle` | packages/schemas/src/ops/residualEval.ts:989-997 | contains is true if and only if the needle stands somewhere in the text, or with the case flag in the lower-cased texts |
| `ExprLaws.LogicIsKleene` | packages/schemas/src/ops/residualEval.ts:1027-1043 | AND is the least of its operands, OR the greatest and NOT the mirror image, in the order false, unknown, true |
| `ExprLaws.FirstTruthyBranch` | packages/schemas/src/ops/residualEval.ts:1045-1050 | a conditional gives the result of its first branch with a truthy test, or else the last result |
| `ExprLaws.FlattensExactly` | packages/schemas/src/nodeConfig.ts:322-357 | an expression flattens if and only if it is true, a field compared with a value, a null test or a search of a field, or a conjunction of these |
| `ExprLaws.NeedlesAsText` | packages/schemas/src/nodeConfig.ts:275-279 | the text a contains condition looks for, for every kind of value |
| `FilterExpr.ContainsAgreesExactlyOnText` | packages/schemas/src/nodeConfig.ts:343-352 | a contains call and its condition agree on every row if and only if the needle is text |
| `FilterExpr.NormalisedIsStable` | packages/schemas/src/nodeConfig.ts:267-291 | packing and flattening one condition gives its normalised form, and normalising again changes nothing |
| `FilterExpr.ConditionsRoundTrip` | packages/schemas/src/nodeConfig.ts:304-357 | exprToConditions undoes conditionsToExpr for every list, up to normalisation |
| `FilterExpr.PackedMeaning` | packages/schemas/src/nodeConfig.ts:304-309 | the packed expression passes exactly the rows on which every condition holds |
| `ParamSink.Sink.Push` | packages/extract/src/paramSink.ts:32-37 | records the value under the next token and returns that token; the earlier records stay |
| `ParamSink.RecordedHoldsAll` | packages/extract/src/paramSink.ts:27-39 | after any pushes the map holds the k-th value under the k-th token and nothing else |
| `ParamSink.NthTokenInjective` | packages/extract/src/paramSink.ts:33-34 | different pushes get different tokens |
| `ParamSink.ScanInvertsRender` | packages/extract/src/paramSink.ts:15-16 | any mix of delimiter-free text and tokens is split back into exactly those pieces |
| `ParamSink.RenderInvertsScan` | packages/extract/src/paramSink.ts:60-70 | on any text at all the scan loses nothing |
| `ParamSink.ResolveParamSink` | packages/extract/src/paramSink.ts:57-76 | for arbitrary text: succeeds if and only if the scanned tokens are exactly the recorded ones, each once; then placeholders count 1..n from left to right and the parameters are the values in text order; on failure the error names the first duplicate or foreign token, or counts the orphans |
| `ParamSink.FirstFault` | packages/extract/src/paramSink.ts:61-66 | a token that is seen already or was never recorded is the first fault of the text, whatever follows |
| `ParamSink.AllBound` | packages/extract/src/paramSink.ts:71-74 | comparing the two sizes decides whether every recorded token was seen |
| `ParamSink.ParamsArePermutation` | packages/extract/src/paramSink.ts:57-76 | on success the parameters are the pushed values as a multiset |
| `ParamSink.TextOrderBinds` | packages/extract/src/paramSink.ts:8-14 | whatever the push order, the k-th placeholder binds the value of the k-th token in the text |
| `Layout.LayoutResolves` | packages/extract/src/paramSink.ts:57-76 | a clean layout filled with a sink's tokens in push order resolves to the same layout filled with placeholders 1, 2, ..., bound to the pushed values |
| `Like.ReplaceAllIsPerChar` | packages/extract/src/filterBuilder.ts:52 | split and join replaces character by character |
| `Like.SequentialEscapeIsOnePass` | packages/extract/src/filterBuilder.ts:51-54 | the three whole-string replacements equal one pass that puts the escape character before each special one |
| `Like.PrefixPatternIsExact` | packages/extract/src/filterBuilder.ts:95-102 | under LIKE as in section 8.5 of ISO/IEC 9075-2 the pattern is valid and matches exactly the strings that start with the value |
| `Like.ExactOnlyForNonWildcardEscapes` | packages/extract/src/filterBuilder.ts:51-60 | prefix search is exact for all values if and only if the escape character is neither wildcard |
| `FilterCompiler.CompileCondition` | packages/extract/src/filterBuilder.ts:69-107 | one condition: the error the source raises, or its fragment with the next tokens and exactly its values pushed |
| `FilterCompiler.CompileWhereClause` | packages/extract/src/filterBuilder.ts:68-109 | the error of the first bad condition, or all fragments, each numbered after the values before it, and all values pushed in order |
| `FilterCompiler.NoErrorMeansNone` | packages/extract/src/filterBuilder.ts:68-109 | compilation has no error if and only if no condition has one |
| `FilterCompiler.ConjunctionText` | packages/extract/src/mssql/buildSelectSql.ts:116 | the fragments joined with AND are one layout with as many slots as values |
| `FilterCompiler.BuildWhere` | packages/extract/src/mssql/buildSelectSql.ts:99-124 | sink, compile, join, resolve: fails if and only if a condition is refused by the compiler, never in resolution; otherwise the text has placeholders 1..n and the parameters are the values in order |
| `SqlWhere.SqlServerIsSafe` | packages/extract/src/mssql/quoteIdent.ts:1-4 | bracket quoting brings no token delimiter of its own into the text |
| `SqlWhere.ParseQuoted` | packages/extract/src/mssql/quoteIdent.ts:2-4 | a bracket-quoted name reads back as the name, whatever brackets it holds |
| `SqlWhere.ConditionReadsBack` | packages/extract/src/filterBuilder.ts:69-102 | each printed condition parses as itself in front of anything that can follow, except an empty IN list, which does not parse |
| `SqlWhere.ConjunctionReadsBack` | packages/extract/src/mssql/buildSelectSql.ts:116 | so does the whole conjunction, in front of whatever may follow: BETWEEN's own AND, IN lists and quoted names never confuse it |
| `SqlWhere.WhereReadsBack` | packages/extract/src/mssql/buildSelectSql.ts:111-124 | the finished WHERE text parses if and only if no IN list is empty, as exactly the predicates asked for |
| `SqlWhere.ConditionMeaning` | packages/extract/src/filterBuilder.ts:72-102 | each predicate with its parameters is true of a row if and only if the row satisfies the condition, NULLs included |
| `SqlWhere.CompiledWhereMeansTheFilter` | packages/extract/src/filterBuilder.ts:62-109 | on every row and every database the text with its parameters keeps exactly the rows that satisfy all conditions |
| `SqlWhere.CompileForSqlServer` | packages/extract/src/mssql/buildSelectSql.ts:99-124 | the same, end to end, for the text and parameters the code returns |
| `KeysetSeek.BuildKeysetWhere` | packages/extract/src/mssql/buildSelectSql.ts:70-80 | the error for a cursor of the wrong length, or the branches in layout, numbered on and bound in text order |
| `KeysetSeek.BuildSelectWhere` | packages/extract/src/mssql/buildSelectSql.ts:98-124 | filter, then key columns, then cursor are refused in that order; otherwise the whole WHERE text has placeholders 1..n and its parameters in order |
| `KeysetSeek.SeekReadsBack` | packages/extract/src/mssql/buildSelectSql.ts:74-79 | the printed branches parse as alternatives of conjunctions, AND binding closer than OR |
| `KeysetSeek.WholeReadsBack` | packages/extract/src/mssql/buildSelectSql.ts:111-116 | the WHERE text parses if and only if no IN list and no key is empty, as the conditions and, apart in its parentheses, the seek condition |
| `KeysetSeek.SomeBranchIsBehind` | packages/extract/src/mssql/buildSelectSql.ts:61-80 | the OR of ANDs holds of a row if and only if its key is lexicographically greater than the cursor, on every database and with NULLs |
| `KeysetSeek.SelectMeansWhatIsAsked` | packages/extract/src/mssql/buildSelectSql.ts:98-124 | the text with its parameters selects exactly the rows that pass the filter and stand behind the cursor |
| `KeysetSeek.SelectForSqlServer` | packages/extract/src/mssql/buildSelectSql.ts:98-124 | the same for the text and parameters the code returns |
| `KeysetPaging.ExtractKeysetBatch` | packages/extract/src/mssql/extractKeysetBatch.ts:41-97 | the first error that applies, or the first pending rows up to the limit in the order the answer has, the flag for a batch that is not full and otherwise the key of its last row as shown |
| `KeysetPaging.ReadingOnSkipsNothing` | packages/extract/src/mssql/extractKeysetBatch.ts:88-89 | where answers come in key order, behind the key shown of the k-th pending row stand exactly the pending rows after it: none is lost and none comes twice |
| `ShownColumns.TypesReadAsText` | packages/extract/src/mssql/buildSelectSql.ts:24-50 | which types are read as text and in what style, whatever the case of their names: exact numbers, money, times and points in time, and nothing else |
| `KeyOrder.ListingsAreInKeyOrder` | packages/extract/src/mssql/buildSelectSql.ts:22-48 | every table of a key's values is answered in key order if and only if whatever follows a row for the seek condition is also shown after it |
| `KeyOrder.PlainKeysAreShownInOrder` | packages/extract/src/mssql/nativeTypeMapping.ts:28-42 | that holds for every key without a column of a type read as text |
| `TaskRunner.ReadBatches` | apps/agent/src/link/taskRunner.ts:223-256 | the loop uploads what its rounds determine, each a new query from the cursor the last one showed, in whatever order the answers come; a fault shows before any upload |
| `TaskRunner.TasksDeliverExactlyWhenShownInOrder` | apps/agent/src/link/taskRunner.ts:234-255 | for a key of one column: every task over every table of its values, at every limit, delivers exactly the pending rows, each once, in key order, and reports the end when that is all, if and only if the values are shown in the order the seek condition has for them |
| `TaskRunner.OutOfOrderTask` | apps/agent/src/link/taskRunner.ts:234-255 | two rows shown against the order of their keys, read one at a time: the second is never read and the end is reported |
| `TaskRunner.PlainKeyTasksDeliver` | apps/agent/src/link/taskRunner.ts:234-255 | a task over a key of one column not read as text delivers exactly what it should |
| `TaskRunner.TaskDelivers` | apps/agent/src/link/taskRunner.ts:234-255 | a reported end means that everything was delivered, if and only if the key has one column, answered in order, or the rows fit one batch |
| `TaskRunner.NextTaskReadsOn` | apps/agent/src/link/taskRunner.ts:234-255 | reading m + n batches in one task, or m in one and n in a task from the last cursor on, uploads the same batches, in whatever order answers come |
| `BigintKeys.NineIsNeverRead` | packages/extract/src/mssql/buildSelectSql.ts:22-48 | bigint ids 10 and 9, one row a batch: 9 is never delivered, and the end is reported |
| `BigintKeys.IdsAreReadExactlyWhenTextsAscend` | packages/extract/src/mssql/buildSelectSql.ts:45-47 | tasks over a set of bigint ids deliver exactly if and only if greater ids have greater texts |
| `BigintKeys.IdsOfOneWidthAreReadExactly` | packages/extract/src/mssql/buildSelectSql.ts:45-47 | so ids that all have the same number of digits are read exactly |
| `StructuredGuard.IsSafeIdentifier` | packages/guardrails/src/structured.ts:33-40 | true if and only if 1 to 128 characters long without control characters |
| `StructuredGuard.ValidateCondition` | packages/guardrails/src/structured.ts:42-58 | accepts exactly the acceptable conditions; a refusal is true and the first that applies |
| `StructuredGuard.ValidateStructuredQuery` | packages/guardrails/src/structured.ts:60-95 | accepts exactly the acceptable queries, unchanged; a refusal names the first fault in the order table, columns, filter, cursor, limit |
| `StructuredGuard.AcceptedCompiles` | packages/guardrails/src/structured.ts:60-95 | an accepted query never has an empty IN list, and compiles if and only if its startsWith values are text |
| `StructuredGuard.GateAdmitsNumericPrefix` | packages/guardrails/src/structured.ts:42-58 | a query the gate accepts and the compiler refuses |
| `StructuredGuard.FindTable` | packages/extract/src/catalog.ts:22-26 | the first table of exactly that name, or none if there is none |
| `StructuredGuard.ValidateExtractRequest` | packages/extract/src/filterBuilder.ts:25-48 | succeeds if and only if table and columns are the catalog's own and the conditions are well formed, and returns the requested columns or all; an error names the first fault, table, columns, conditions |
| `Calendar.YearLength` | packages/extract/src/valueSerializer.ts:84-86 | DayFromYear advances by 365 or, in leap years, 366 days |
| `Calendar.DayNumberCountsDays` | packages/extract/src/valueSerializer.ts:84-86 | the day after a valid date, by the calendar's own rules, is valid and has the next day number; the epoch has number 0 |
| `Calendar.DateOfDayNumber` | packages/extract/src/valueSerializer.ts:86 | the date of a valid date's day number is that date |
| `Calendar.DayNumberOfDate` | packages/extract/src/valueSerializer.ts:86 | the date of any day number is valid and has that number |
| `Calendar.MakeDayOfValidDate` | packages/extract/src/valueSerializer.ts:84 | MakeDay of a valid date does not roll over |
| `Calendar.MakeDayRollsOver` | packages/extract/src/valueSerializer.ts:84 | twelve more months are one more year and more days are as many more days, within the month or beyond it |
| `DateTime.ClockShowsInstant` | packages/extract/src/valueSerializer.ts:86-87 | the UTC fields of an instant form a valid clock that denotes it |
| `DateTime.ClockIsUnique` | packages/extract/src/valueSerializer.ts:84-87 | no other valid clock does |
| `DateTime.FormatReadsBack` | packages/extract/src/valueSerializer.ts:68-88 | text put together from fields of the right width and any offset parses back into those fields |
| `DateTimeTexts.DatetimesAreRead` | packages/extract/src/valueSerializer.ts:68-70 | the parser takes exactly the texts put together from fields of the right width, T or space between date and time, a fraction of 1 to 9 digits or none, white space, and Z, a numeric offset or nothing, and gives back those fields |
| `DateTimeTexts.DatetimesAreSerialised` | packages/extract/src/valueSerializer.ts:68-88 | the serializer gives an error exactly for the other texts |
| `DateTime.OffsetReadsBack` | packages/extract/src/valueSerializer.ts:14-21 | the text of every offset of up to 99 hours and 59 minutes, with a colon or without, reads back as its minutes |
| `DateTime.OffsetReadsAsStated` | packages/extract/src/valueSerializer.ts:14-21 | every offset text reads as the hours and minutes its digits state, negative behind a minus sign |
| `DateTime.RemapMovesEarlyYears` | packages/extract/src/valueSerializer.ts:84 | Date.UTC denotes the instant written if and only if the year is at least 100 |
| `DateTime.OffsetOutput` | packages/extract/src/valueSerializer.ts:80-88 | a datetime with an offset always serialises; the result ends in Z, keeps the fraction digits, shows a valid date and time and denotes the same instant, exactly under the two conditions on the year |
| `DateTime.OrdinaryYearsAreExact` | packages/extract/src/valueSerializer.ts:80-88 | every valid calendar reading in the years 101 to 9998 is inside those conditions |
| `DateTimeLaws.OutputsAreCanonical` | packages/extract/src/valueSerializer.ts:80-88 | two inputs print the same text if and only if Date.UTC gives the same seconds for both and the fraction digits agree; those seconds are the instant written if and only if the year is at least 100 |
| `DateTimeLaws.OutputIsStable` | packages/extract/src/valueSerializer.ts:80-88 | serialising an output again changes nothing if and only if it shows a year from 100 to 9999 |
| `DateTimeLaws.NaivePassesThrough` | packages/extract/src/valueSerializer.ts:71-79 | without an offset the same digits come back, with .000 for a missing fraction, and stay put |
| `DateTimeLaws.DateOutput` | packages/extract/src/valueSerializer.ts:51-55 | a date prints as ten characters that read as a date if and only if its year is 0 to 9999; they then name the valid calendar date whose day contains the instant |
| `DateTimeLaws.ClockTextTells` | packages/extract/src/valueSerializer.ts:86-87 | the printed text of a valid clock tells the clock and the fraction digits, whatever the width of its year |
| `DateTimeLaws.EarlyYearCollides` | packages/extract/src/valueSerializer.ts:84 | the first instants of the years 50 and 1950 print the same text |
| `DateTimeLaws.YearNinetyNineIsUnstable` | packages/extract/src/valueSerializer.ts:80-88 | an input in the year 100 whose output shows the year 99 and changes when serialised again |
| `DateTimeLaws.YearTenThousandIsNoDateTime` | packages/extract/src/valueSerializer.ts:80-88 | an input whose output shows the year 10000 and is no datetime text |
| `StableSort.SortIsCanonical` | packages/schemas/src/cleanPlan.ts:100 | sorting by an order that separates the elements gives equal lists if and only if the inputs have the same elements |
| `StableSort.SortDecidesExactly` | packages/schemas/src/cleanPlan.ts:100 | for one list, sorting tells its rearrangements from all other lists if and only if no two of its elements tie |
| `Json.EquivalentByKey` | packages/schemas/src/cleanPlan.ts:97-104 | objects are equivalent if and only if they have the same keys with equivalent values |
| `CanonicalForm.ObjectForm` | packages/schemas/src/cleanPlan.ts:99-102 | sorting keys before or after canonicalising the values makes no difference |
| `CanonicalForm.IndexKeyIsNumeral` | packages/schemas/src/cleanPlan.ts:101 | the keys a rebuilt object lists first are exactly the decimal texts of the numbers below 2^32 - 1, and it places them by that number |
| `CanonicalForm.FormIsInOrder` | packages/schemas/src/cleanPlan.ts:99-102 | in a form the index keys come first and ascend by number, and the names behind them go by the key order |
| `CanonicalForm.FormDecidesEquivalence` | packages/schemas/src/cleanPlan.ts:97-104 | a tree without tied names has the form of another if and only if they are equal up to object key order at every depth |
| `CanonicalForm.FormDecidesExactly` | packages/schemas/src/cleanPlan.ts:97-104 | for one tree and every key order, that holds against all other trees if and only if no object in it has two names the order ties |
| `CanonicalForm.TiesAreExposed` | packages/schemas/src/cleanPlan.ts:97-104 | a tree with tied names has an equivalent twin with another form |
| `CanonicalForm.FormIsEquivalent` | packages/schemas/src/cleanPlan.ts:97-104 | the form is well formed and equivalent to its input |
| `CanonicalForm.FormIsIdempotent` | packages/schemas/src/cleanPlan.ts:97-104 | canonicalising twice is canonicalising once, for every key order, with ties or without |
| `CanonicalForm.TiedNamesKeepTheirOrder` | packages/schemas/src/cleanPlan.ts:100 | a key order that ties two names gives equivalent objects different forms |
| `CanonicalForm.CanonicalExactlyWhenSeparating` | packages/schemas/src/cleanPlan.ts:97-104 | the form decides equivalence for all trees if and only if the order separates all names |
| `CanonicalForm.KeptByKey` | packages/schemas/src/cleanPlan.ts:107-114 | the entries that are hashed are exactly those that count, with their values |
| `CanonicalForm.StepFormDecidesBehaviour` | packages/schemas/src/cleanPlan.ts:107-114 | a step without tied names hashes like another if and only if they agree on everything but id and provenance, and for aggregates observedCount and probedAt |
| `CanonicalForm.StepFormDecidesExactly` | packages/schemas/src/cleanPlan.ts:107-114 | for one step that holds against all other steps if and only if what is hashed of it has no tied names |
| `CanonicalForm.StepsFormDecidesBehaviour` | packages/schemas/src/cleanPlan.ts:117-119 | two plans hash alike if and only if they have as many steps and these agree one by one |
| `CanonicalForm.StepsFormDecidesExactly` | packages/schemas/src/cleanPlan.ts:117-119 | for one plan that holds against all other plans if and only if none of its steps has tied names |
| `CanonicalForm.SchemaFormDecidesColumns` | packages/schemas/src/cleanPlan.ts:122-124 | the hash of a schema decides against every other schema whether they have the same columns, in any order, if and only if the key order ties no two different columns of it |
| `FieldNames.BaseIsNormal` | packages/schemas/src/niaInference.ts:175-180 | the three replacements leave only lower-case letters, digits and single inner underscores, and never nothing |
| `FieldNames.BaseIsTheWords` | packages/schemas/src/niaInference.ts:175-180 | the base of a name is its runs of letters and digits, lower-cased, in order, joined by single underscores, or "field" if there are none |
| `FieldNames.FnvVectors` | packages/schemas/src/niaInference.ts:164-170 | the hash agrees with published values of 32-bit FNV-1a |
| `FieldNames.Base36ReadsBack` | packages/schemas/src/niaInference.ts:170 | the base 36 text of a number reads back as the number |
| `Common.LettersAreLowered` | packages/schemas/src/niaInference.ts:177 | of the ASCII characters each of the 26 capitals is lowered to its own small letter and no other is changed |
| `FieldNames.OtherCapitals` | packages/schemas/src/niaInference.ts:177 | of all other capitals only two leave a name character when lowered |
| `FieldNames.CleanShape` | packages/schemas/src/niaInference.ts:173-184 | a cleaned name has 1 to 63 such characters and no underscore at either end |
| `FieldNames.ComputeShortHash` | packages/schemas/src/niaInference.ts:164-171 | the loop computes the hash of the whole text |
| `FieldNames.HashIsLeadingDigits` | packages/schemas/src/niaInference.ts:170 | the short hash, read in base 36, is the hash, or the hash without its last digit when it has seven |
| `FieldNames.LongNamesStayApart` | packages/schemas/src/niaInference.ts:181-184 | two names too long to keep come out the same if and only if their hashes agree and so does as much of their bases as there is room for |
| `FieldNames.CleanKeeps` | packages/schemas/src/niaInference.ts:173-184 | a name survives cleaning if and only if it is normal and at most 63 long |
| `FieldNames.CleanTwice` | packages/schemas/src/niaInference.ts:181-184 | cleaning is idempotent on a name if and only if it is not cut right behind an underscore |
| `FieldNames.PickName` | packages/schemas/src/niaInference.ts:186-193 | the loop ends with a name not taken: the base, or the base with the first free number from 2 on |
| `FieldNames.PickedName` | packages/schemas/src/niaInference.ts:173-194 | a picked name holds only name characters, and survives cleaning if and only if it is at most 63 long and its base was normal |
| `DestinationContract.BuildColumn` | packages/schemas/src/destinationContract.ts:127-143 | one mapping entry: the unknown-field error, or the column it asks for under a name not taken |
| `DestinationContract.BuildDestinationContract` | packages/schemas/src/destinationContract.ts:123-150 | fails if and only if a source field is unknown, naming the first; otherwise one column per entry, in order, with distinct names |
| `DestinationContract.CleanDistinctNamesAreKept` | packages/schemas/src/destinationContract.ts:132 | when the cleaned names are distinct no suffix is added |
| `DestinationContract.RebuildingKeepsNames` | packages/schemas/src/destinationContract.ts:115-121 | building again from a contract's own names gives the same names if cleaning keeps each |
| `Common.SpacesAre` | packages/schemas/src/destinationContract.ts:263-266 | the white space that trimming removes is that of ECMA-262, character by character |
| `NativeTypes.BaseOfSpelling` | packages/schemas/src/destinationContract.ts:262-266 | a type name has one base form in all its spellings: in capitals, with white space around it, with parameters in parentheses behind it |
| `NativeTypes.CanonicalTypeIsIdempotent` | packages/schemas/src/destinationContract.ts:261-270 | canonicalising a type text twice is canonicalising it once if and only if what the first cut leaves does not end in a parameter list |
| `NativeTypes.IdentityIsTheType` | packages/schemas/src/destinationContract.ts:186-270 | two type texts have one identity if and only if their base forms stand for one type |
| `NativeTypes.OneLineIsCutOnce` | packages/schemas/src/destinationContract.ts:261-270 | a type text of one line is settled by one pass |
| `NativeTypes.LineBreaksBreakIdempotence` | packages/schemas/src/destinationContract.ts:261-266 | a type text with a line break on which the second pass cuts again |
| `DestinationContract.CompareContractToExisting` | packages/schemas/src/destinationContract.ts:310-337 | one diff per contract column that is missing or of another type, in order, with its statement |
| `DestinationContract.NoDiffsExactlyWhenConforming` | packages/schemas/src/destinationContract.ts:310-337 | no diff if and only if every contract column exists with a type of the same identity |
| `AlterStatements.AlterReadsBackExactly` | packages/schemas/src/destinationContract.ts:272-292 | read by the grammar of its dialect, the ALTER text adds or retypes just the column it was built for, in the table it names, if and only if neither entity nor column holds the quote character |
| `AlterStatements.TableReadsBackExactly` | packages/schemas/src/destinationContract.ts:280-288 | the quoted table reads back as the entity if its names are free of the quote character, and never as the entity otherwise |
| `AlterStatements.StatementAddresses` | packages/schemas/src/destinationContract.ts:272-292 | so the whole statement, however it reads, addresses that entity only if the names are free of it |
| `AlterStatements.DoubledQuoteNamesAnotherTable` | packages/schemas/src/destinationContract.ts:280 | two quotes in a row in a namespace read as one: the statement alters another table |
| `QuotedNames.BareReadsBackExactly` | packages/schemas/src/destinationContract.ts:280-288 | a name put between quotes as it is reads back as itself if and only if it holds no quote |
| `DestinationContract.MisaddressedAltersDoNothing` | packages/schemas/src/destinationContract.ts:310-337 | ALTERs of an entity with a quote in its name leave its table as it is |
| `DestinationContract.AltersCloseTheDiff` | packages/schemas/src/destinationContract.ts:310-337 | when no name holds the quote character, running all suggested ALTERs leaves no diff if and only if the database reports each altered type in a spelling of the same identity; no other column changes |
| `DestinationContract.BuiltContractsAreRepaired` | packages/schemas/src/destinationContract.ts:123-150 | for built contracts the ALTERs leave no diff if and only if there was none, or the entity is free of the quote character and each altered type is reported in a spelling of the same identity |
| `DestinationContract.BuiltNamesAreQuotable` | packages/schemas/src/destinationContract.ts:123-150 | the column names of a built contract never hold a quote |
| `DestinationContract.ClashingNamesNeverConform` | packages/schemas/src/destinationContract.ts:314-335 | two columns of one name and different types are never both met |
| `DestinationContract.ContractFormDecides` | packages/schemas/src/destinationContract.ts:352-369 | the hash of a contract decides against every other one whether they agree on everything but fidelity, columns in any order, if and only if the order ties no two different projected columns of it |
| `DestinationContract.BuiltContractFormDecides` | packages/schemas/src/destinationContract.ts:352-369 | for a built contract that is so if and only if the order ties no two of its column names |
| `AgentVersion.IsAgentVersionTooOld` | packages/schemas/src/agentVersion.ts:17-27 | true if and only if at the first differing segment, missing ones being 0, the version has the smaller one |
| `AgentVersion.SegmentReadsBack` | packages/schemas/src/agentVersion.ts:18-19 | the decimal text of a number reads as that number, or with a minus sign as its negative, whatever but a digit stands behind |
| `AgentVersion.OtherTextIsZero` | packages/schemas/src/agentVersion.ts:18-19 | a segment that begins with neither a digit, a sign nor white space counts as 0 |
| `AgentVersion.NumbersCompare` | packages/schemas/src/agentVersion.ts:17-27 | of two versions written as three numbers the first is older if and only if its numbers, one after the other, are smaller |
| `AgentVersion.TenIsNewerThanNine` | packages/schemas/src/agentVersion.ts:17-27 | 0.9.2 is older than 0.10.0 |
| `AgentVersion.OlderIsTransitive` | packages/schemas/src/agentVersion.ts:21-25 | older than older is older |
| `AgentVersion.Trichotomy` | packages/schemas/src/agentVersion.ts:21-26 | exactly one of older, newer, same up to trailing zero segments |
| `AgentVersion.OlderIsStrictWeakOrder` | packages/schemas/src/agentVersion.ts:17-27 | the comparison is a strict weak order |
| `AgentVersion.OlderIsLexicographic` | packages/schemas/src/agentVersion.ts:20-25 | it is the lexicographic order of the zero-padded segment lists |
| `AgentVersion.TrailingZeroIsIgnored` | packages/schemas/src/agentVersion.ts:18-23 | appending ".0" to either side changes no comparison |
| `NdjsonWriter.Writer.WriteColumns` | packages/extract/src/ndjsonWriter.ts:40-43 | one line sent, or refused when closed; passes the sink's answer on |
| `NdjsonWriter.Writer.WriteRow` | packages/extract/src/ndjsonWriter.ts:45-50 | the same with the row counted |
| `NdjsonWriter.Writer.WriteEnd` | packages/extract/src/ndjsonWriter.ts:52-56 | sends the trailer with the count and closes |
| `NdjsonWriter.Writer.WriteError` | packages/extract/src/ndjsonWriter.ts:58-62 | sends the error trailer and closes |
| `NdjsonWriter.Writer.Tick` | packages/extract/src/ndjsonWriter.ts:67-73 | a blank line exactly when open and idle for the interval |
| `NdjsonWriter.StepKeepsInvariant` | packages/extract/src/ndjsonWriter.ts:40-94 | every call and every tick keeps the protocol's invariant |
| `NdjsonWriter.EveryRunIsWellFormed` | packages/extract/src/ndjsonWriter.ts:40-94 | after any sequence of calls and ticks: a trailer is the last thing sent, an end trailer counts the rows before it, blanks follow real silence only, closed means a trailer was sent |
| `NdjsonWriter.EveryRunSendsWhatIsAsked` | packages/extract/src/ndjsonWriter.ts:40-62 | the lines sent, keep-alive blanks left out, are those the calls ask for up to the first trailer: columns, row values and error message as given, in the order of the calls |
| `NdjsonWriter.ClosedStaysSilent` | packages/extract/src/ndjsonWriter.ts:67-68 | nothing is ever sent after closing, whatever is called |
| `NdjsonWriter.SilenceIsBounded` | packages/extract/src/ndjsonWriter.ts:64-74 | with the timer running, ticks at most C apart and activity less than K before, silence stays below K + C, the wait for the trailer included |
| `NdjsonWriter.KeepAlivePromise` | packages/extract/src/ndjsonWriter.ts:64-74 | so does the gap before every line sent after the timer was started, the trailer included |
| `MongoPipeline.ScanIsExact` | packages/guardrails/src/mongodb.ts:44-60 | the scan reports a key that occurs, and reports nothing if and only if no forbidden key occurs at any depth |
| `MongoPipeline.ValidateStage` | packages/guardrails/src/mongodb.ts:75-99 | passes exactly the good stages; a refusal is true of the stage |
| `MongoPipeline.StagesName` | packages/guardrails/src/mongodb.ts:31-41 | a stage names the `from` of a `$lookup` unless it is empty, a text `$unionWith`, or the `coll` of an object one, and nothing else |
| `MongoPipeline.TruthyIs` | packages/guardrails/src/mongodb.ts:31-41 | which values of `from` count as empty |
| `MongoPipeline.ValidateMongoPipeline` | packages/guardrails/src/mongodb.ts:62-116 | accepts exactly the acceptable pipelines and returns them sanitised; a refusal concerns the first stage that is not good |
| `MongoScope.AcceptedByScope` | packages/guardrails/src/mongodb.ts:69-99 | a query is accepted under a scope if and only if it is accepted under none and the scope holds its collection and all targets at the top of its stages |
| `MongoScope.ScopeCoversExactlyTheTop` | packages/guardrails/src/mongodb.ts:31-41 | every scope that accepts a query holds all collections it names at any depth, if and only if none is named only deeper or no scope with a list accepts it |
| `MongoScope.NestedLookupIsNotCovered` | packages/guardrails/src/mongodb.ts:31-41 | an accepted pipeline with a `$lookup` inside a `$facet` that names a collection outside the scope |
| `MongoPipeline.AcceptedHoldsNothingForbidden` | packages/guardrails/src/mongodb.ts:43-60 | no forbidden key at any depth of an accepted pipeline, before or after sanitising |
| `MongoPipeline.SanitizingTouchesOnlyTheLastLimit` | packages/guardrails/src/mongodb.ts:102-110 | only the last limit changes; it ends numeric and at most 1000; one is appended when there was none |
| `MongoPipeline.SanitizedIsStable` | packages/guardrails/src/mongodb.ts:102-115 | the sanitised pipeline is accepted again and is a fixed point |
| `MongoPipeline.UnlimitedIsTruncated` | packages/guardrails/src/mongodb.ts:103-104 | without a limit the result is the first 1000 documents of the original |
| `MongoPipeline.HighLimitIsCut` | packages/guardrails/src/mongodb.ts:105-110 | a limit above the cap gives the first 1000 of the documents the original had at that stage |
| `MongoPipeline.OutputIsCapped` | packages/guardrails/src/mongodb.ts:102-110 | when no later stage adds documents, at most as many come out of a pipeline of allowed stages as the last limit says: 1000, or any smaller whole limit of the original |
| `MongoPipeline.CappedExactlyWithoutGrowth` | packages/guardrails/src/mongodb.ts:102-110 | at most 1000 documents come out of every run of a pipeline of allowed stages, if and only if no `$unwind` or `$unionWith` follows the last limit or some limit lets no run succeed |
| `MongoPipeline.UnwindOutgrowsTheCap` | packages/guardrails/src/mongodb.ts:102-110 | an accepted pipeline whose result is not capped |
| `MongoPipeline.BadLimitNeverRuns` | packages/guardrails/src/mongodb.ts:102-110 | a pipeline with a limit that is no positive whole number gives no result |
| `TransactionPool.QueryLeavesOrder` | packages/db/src/client.ts:61-82 | every query of a caller, whether it succeeds, is refused or loses the session, leaves caller and connection as its place demands |
| `TransactionPool.StepKeepsInvariant` | packages/db/src/client.ts:61-121 | every step of any caller, and the loss of any session, keeps the pool invariant |
| `TransactionPool.NothingLeaks` | packages/db/src/client.ts:75-81 | in every run no idle connection is in a transaction or carries a role or claims; each connection taken is given back exactly once and held by one caller at a time |
| `TransactionPool.CallbackRunsAsItsCaller` | packages/db/src/client.ts:89-121 | while a callback runs on a live session, an acting user is authenticated with its own claims, and the service has the service role and no claims |
| `TransactionPool.OutcomesMeanWhatTheySay` | packages/db/src/client.ts:63-74 | committed only on a normal return; a throwing callback means rolled back; a normal return means committed if and only if no query of the callback failed |
| `TransactionPool.CallbackDecides` | packages/db/src/client.ts:65-74 | in every run a caller comes to COMMIT if and only if its callback has returned, and once its callback has thrown it comes to ROLLBACK, sees an error and keeps nothing |
| `TransactionPool.UndisturbedCallCommits` | packages/db/src/client.ts:61-121 | from every orderly state an undisturbed call of either kind returns, is committed and leaves connection and pool as they were |
| `TransactionPool.SwallowedFailureReturnsWithoutCommit` | packages/db/src/client.ts:66-74 | a run that returns normally and has committed nothing |
| `TransactionPool.CallbackOverMeansReleased` | packages/db/src/client.ts:70-81 | however the last query ends, the connection is back in the pool two steps later |
| `TransactionPool.QueriesAlwaysEnd` | packages/db/src/client.ts:61-82 | a caller that holds a connection is never stuck in a query, and on a live session none of whose queries has failed each can succeed |

## Left out

- Message wordings, the labels in them, and the configuration schemas of graph nodes: findings and errors are data,
  configs come parsed.
- The text of the select list, ORDER BY and TOP of `buildSelectSql`; a paged read takes their effect: the key as shown,
  answers ordered by it and cut at the limit.
- SQL Server's bracket classes in LIKE patterns: the evaluator follows the SQL standard, where a bracket is an
  ordinary character.
- The `boolean`, `text` and `number` cases of `serializeValue`, `toISOString` on Date objects and the parsing of date
  strings: one-branch code or the runtime's own.
- AgentSetup.Derive: which of several paths `findPath` returns is not stated; every result is proved for the path that
  was found.
- PublishedFilter.QuerySelectsWhatTheStepsPass: parameter references in a filter and the check of literals against
  column types, which come between conversion and compilation in the agent, are not modelled.
- FilterExpr.ConditionsKeepMeaning: arithmetic on two values and the function library are parameters of the evaluator
  (`Runtime`); which functions exist and what they compute is not modelled, except for `is_null`, `is_not_null` and
  `contains`.
- CanonicalForm.FormDecidesEquivalence: hashing the form is not modelled; equal hashes stand for equal forms.
- DestinationContract.ContractFormDecides: hashing the form and the order of fields inside a column are not modelled.
- NativeTypes.CanonicalTypeIsIdempotent: lower-casing is that of ASCII letters, and an alias is looked up among the
  table's own entries only, not among properties every object inherits.
- DestinationContract.AltersCloseTheDiff: conversions that fail on existing data are not modelled.
- TaskRunner.TaskDelivers: the table does not change while it is read; requested columns other than the key, lock
  timeouts, upload size limits and the wire form of rows are not modelled, and keys are the scalars a filter may hold.
- DestinationContract.RebuildingKeepsNames: one direction; a name that cleaning changes could still come back through
  a collision suffix.
- FieldNames.CleanShape: for the default length of 63, the only one contracts use; that two different
  names get different hashes is not claimed.
- MongoScope.ScopeCoversExactlyTheTop: a collection counts as named wherever its key stands, whether or not a stage
  stands there.
- NdjsonWriter.StepKeepsInvariant: a line is an abstract record, not JSON text; each call reads the clock once; a sink
  that throws is not modelled.
- TransactionPool.StepKeepsInvariant: savepoints and transaction control inside a callback, pool size limits, waiting
  queues and connection timeouts are not modelled; neither is a callback that keeps its client and queries after it has
  returned, which would run in whatever transaction the connection then serves.
- The chunked ETL runner, the staging lifecycle, the pushdown compiler, routes, workers, authentication, encryption
  and user-interface code: service plumbing, or only easy members.
