# A model of the query compiler, the pagination, the scheduler and the write path

The framework compiles `Filter` trees and `Term` lists into SQL, pages through results, runs jobs
once across a deployment, reads event streams, defers effects until a transaction commits, and
keeps tenants apart when it merges rows. This project models those parts as the code writes them,
gives the rendered SQL a small semantics of its own (rows with NULL, three-valued conditions,
bags, ordered answers that may break ties either way), and proves the code's static checks and
protocols right against it.

## How it is laid out

- `Sql`, `Ordering`: cells with NULL, three-valued truth, ORDER BY as any sorting, OFFSET and LIMIT.
- `Like`, `Filters`, `FilterMeaning`, `FilterValues`, `FilterChain`: the filter renderer, what its output
  accepts under name-based lookup, and what each filter means about explicit rows. A filter the renderer cannot
  apply may have meant anything: a `Guess` gives it any answer, for every filter and row. The
  one-alternative OR connector of the ORM is modelled in `Where`.
- `Terms`, `Joins`, `JoinShape`, `JoinAccept`, `JoinProof`, `SqlJoins`, `SqlWhere`: the ON analysis, which
  joins it accepts, and joins that never repeat a row, in what they mean and as the statement is rendered.
- `DerivedKeys`, `DerivedProof`, `GroupTheorem`, `GroupSplit`, `GroupTower`: terms read from joined selects,
  and the key a grouped select is read on, at any depth.
- `Nullability`, `NullProof`, `NullFlags`, `NullTower`: the aliases a projection may answer NULL under,
  through selects joined to selects.
- `Unions`, `SelectShape`, `CountScan`: what a union pushes into its branches, what a projection is refused
  for, and the four statements a select builds.
- `SelectPages`, `SelectOrder`, `SelectRead`: what a select's pages and windows are completed with, when
  that is total, and the rows its joins and groups give it.
- `Paging`, `PagingProof`, `PageWalk`, `CursorWalk`: the chain's paging options, completed orders, pages
  and cursors.
- `Lease`, `LeaseProof`, `LeaseSafety`, `LeaseHolds`, `RoundEnds`: the lease row as a state machine whose
  steps are single statements of any replica, a claim's read and write apart, and what a round's end does to it.
- `Schedule`, `EverySchedule`, `JobLoop`, `JobProof`: schedule arithmetic and one job's loop.
- `EventLines`, `EventStream`: the event stream parser, against sections 9.2.5 and 9.2.6 of the WHATWG
  HTML Standard.
- `AfterCommit`, `AfterCommitProof`, `AfterCommitReports`, `Nesting`, `NestingExactly`: transaction boundaries.
- `Upsert`, `TenantIsolation`: the foreign-tenant guard.

## Where the code says less than its comments

Each of these is a concrete run or table proved to break the promise, beside the exact condition
under which the code keeps it, or, where one direction is proved, the condition that suffices.

- A column of a composite primary key counts as telling rows apart by itself. An order by one is not
  completed and its pages can lose rows (`CompositeKeyTies`, `CompletedOrderIsTotalExactly`,
  `PagesPartitionExactly`), and a cursor over one skips rows (`SharedRowsAreSkipped`, `CursorWalksExactly`). A
  select completes its pages and windows with the id alone, never the whole primary key, so its pages
  can lose rows and its row numbers change (`CompositeSelectTies`, `CompletedSelectIsTotalExactly`,
  `WindowIsDeterminedExactly`).
- A select without joins spells the appended id bare, and an output alias comes before a column in ORDER
  BY: a projection with another term under the alias id sorts its pages by that term (`ShadowedIdTies`,
  `BaseModelSelectCompletes`).
- A cursor at a row whose value is spelled as the empty string reads the feed from its start again
  (`EmptyValueRestarts`, `NextPageExactly`).
- A LEFT-joined select whose ON carries a condition on a column that is not grouped by splits groups
  that share the exported key (`ExtraConditionSplitsGroups`, `ConditionSplitsExactly`).
- A windowed MIN or MAX in a grouped projection without keys is not flagged, and is NULL over no rows
  (`UnflaggedIsSafeExactly`).
- A round that ends after its lease expired, before it notices, records the instants it overran
  without moving the term. A claim between its read and its write then moves the last instant on
  record back, and an overrun instant is claimed after all (`LateFinishLosesOverrun`,
  `OverrunIsHonouredExactly`). The documented promise that the last instant never decreases holds for
  runs whose rounds record under an unexpired lease (`OverrunStaysSkipped`).
- The scheduler reads a job's first instant off the clock before the catch-up reads its own. An instant
  that falls between is handed out twice when its catch-up is lost, and one before a later catch-up is in
  no entry (`LostCatchUpIsHandedTwice`, `HandedInstantsIncreaseExactly`, `LaterCatchUpLosesInstant`,
  `InstantsAreAccountedExactly`).
- A second round of an instant later than the one the loop waits for leaves instants that were neither
  handed out nor counted (`LaterSecondRoundLosesInstant`, `SecondRoundAccountsExactly`).
- `everySchedule.Next` skips an instant for a moment before the epoch off the grid, and wraps at the end
  of the int64 range (`EveryNextIsFirstExactly`).
- An action registered in a transaction on A, inside one on B, inside one on A, runs when B commits and
  A may still roll back (`ActionOfRolledBackWrite`, `ActionWaitsExactly`).
- A unique index over part of a composite primary key, over an expression or over a prefix is not among
  the keys the guard reads whole, so on MySQL, which merges on any unique key, a merge on it can write
  over another tenant's row (`UncoveredKeyIsMerged`, `TenantsAreIsolatedExactly`). A planned unique index
  without the tenant is refused at start; one declared in a tag, or as a unique column, is not.

## Model

| member | source | states |
|---|---|---|
| Like.EscapedLikeIsLiteral | database/dialect.go:103-135 | LIKE over "%" + esc(v) + "%", esc(v) + "%" or "%" + esc(v) accepts s exactly when s contains, starts with or ends with v, for the pipe and the backslash escaper and all strings |
| Like.EscapeIsInjective | database/dialect.go:118-135 | two values that escape alike are the same value |
| Like.EscaperSuitsReader | database/dialect.go:103-135 | the character values are escaped with is the one the database reads the pattern by: the declared one, or the backslash on ClickHouse |
| Like.OrdinaryTextIsKept | database/dialect.go:118-135 | a value without wildcards or the escape character is its own pattern |
| Filters.RenderFilters | database/filter.go:258-295 | the loop over a list gives the one combined predicate and the failure that stands for all, an OR of one alternative collapsed |
| FilterMeaning.PatternAgrees | database/filter.go:751-757 | the rendered Like, NotLike, StartsWith and EndsWith answer what the operator means of the stored text, NULL included |
| FilterMeaning.LeafAgrees | database/filter.go:300-394 | every plain filter that could be applied answers, by the names in the SQL, what it means of the row it is about |
| FilterValues.ComparisonIsAnswered | database/filter.go:679-707 | a rendered comparison accepts exactly the rows whose value stands to the caller's own in the relation of its operator, unknown exactly where one is NULL |
| FilterValues.MembershipIsAnswered | database/filter.go:722-747 | a rendered IN accepts exactly the rows whose value is one of the caller's list, NOT IN those that are none of it where no member is NULL; bytes are one member, an empty list selects nothing |
| FilterValues.SubqueryIsRefusedExactly | database/filter.go:799-841 | a subquery is taken on exactly when its model resolves, a path of AND and OR groups leads to an EqCol, and the query around it can be looked out of |
| FilterValues.SubqueriesNest | database/filter.go:799-893 | a subquery that could be taken on in a chain can be taken on inside any subquery of it |
| FilterValues.TieIsAnswered | database/filter.go:477-512 | in a subquery an equality with a column of the query directly around it is applied exactly when both columns exist, and accepts the rows holding the same value |
| FilterValues.JoinTieIsAnswered | database/filter.go:514-541 | in a join an equality with a column of a table read beside it is applied exactly when both columns exist, and accepts the pairs holding the same value |
| FilterMeaning.TiedColumn | database/filter.go:477-539 | an EqCol reads the row of the query directly around a subquery, or of the joined table beside it, whatever names repeat |
| FilterMeaning.NestedScopesRead | database/filter.go:842-892 | however deep subqueries nest, over one table throughout included, the names in the innermost one find the rows its conditions are about |
| FilterMeaning.FilterSafe | database/filter.go:300-394 | no filter accepts a row its author's meaning rejects, under NOT EXISTS too, whatever the filters that could not be applied would have meant; without failures the two agree |
| FilterMeaning.ExistsSafe | database/filter.go:799-893 | an EXISTS or NOT EXISTS means what it says where its predicates rendered; a failure among them is the condition's own and makes it accept nothing |
| FilterMeaning.RenderingNeverWidens | database/filter.go:258-295 | a rendered list accepts no row some filter of it rejects, and exactly the rows they all accept when no failure is reported |
| FilterMeaning.ReportCoversAll | database/filter.go:643-650 | a failure is reported exactly when one occurred, and narrows the query only when every failure may |
| FilterMeaning.AddedConditionNarrows | database/filter.go:278-291 | a predicate that is no OR connector narrows the conditions already on the chain |
| FilterMeaning.OrConnectorWidens | database/filter.go:278-291 | handed over uncollapsed, a one-alternative OR turns the condition before it into an alternative |
| FilterChain.Query.ApplyFilters | database/filter.go:178-194 | the chain takes on the combined predicate, or fails with the foreign-table or rendering failure, and otherwise keeps its conditions |
| FilterChain.AppliedFiltersNarrow | database/filter.go:178-194 | a chain that took filters on reads only rows its earlier conditions, a tenant's among them, and every filter accept |
| FilterChain.ReportedFailureStandsForAll | database/filter.go:591-650 | over a whole tree, one failure is reported exactly when some filter failed, narrowing only when all failures narrow |
| FilterChain.ClientListNarrows | database/filter.go:611-650 | a list of plain filters narrows to nothing, rather than failing, exactly when each filter that could not be applied is spelled as a client can and names a table in reach |
| FilterChain.ClientOperators | internal/types/filterop.go:53-76 | the operators whose failures narrow are exactly those some token of a URL query spells |
| FilterChain.ForeignFails | database/filter.go:196-240 | a tree that holds a foreign column fails to render anyway, and one that holds none has no failure of that kind |
| FilterChain.TopLevelIsForeignByTable | database/filter.go:196-240 | at the top level a filter is foreign by its own table alone |
| Joins.ResolveSelect | database/select_join.go:204-268 | a select is joined exactly when it is grouped by plain keys of its own model, each once; its key is all of them under their aliases |
| Joins.JoinedTable.PinnedColumns | database/select_join.go:286-326 | the columns pinned and the ties recorded are those the top-level conjuncts of the ON pin and tie, OR branches pinning nothing |
| JoinAccept.PinsExactly | database/select_join.go:328-352 | a conjunct pins a column exactly when it compares it with a value, or equates it, written on either side, with a column of a table read before |
| JoinAccept.EitherSideFirst | database/select_join.go:338-352 | whichever column an equality names first, it pins the joined table's and ties it to the other, and nothing else |
| JoinAccept.AndGroupsAreSpliced | database/select_join.go:286-326 | the members of an AND group count as if written beside it |
| Joins.SplitPins | database/select_join.go:286-326 | the pins of two lists together are the pins of either |
| Joins.CoversKey | database/select_join.go:354-371 | reports that some key is pinned whole |
| JoinShape.Shape.ResolveSource | database/select_join.go:85-158 | one source is refused for the first rule it breaks: repeated, untied, tied off its keys, not unique |
| JoinShape.Shape.ResolveJoins | database/select_join.go:85-158 | a list of joins is accepted exactly when every one is proved against the tables before it |
| JoinAccept.AcceptedExactly | database/select_join.go:85-158 | a list of joins is accepted exactly when each table is new and the filters of its ON, as written, tie it to a table read before, to a derived one by its key alone, and give every column of one of its keys |
| JoinAccept.QueriedTableFirst | database/select_join.go:338-352 | a join on a key column whose ON names the queried table first is accepted |
| JoinProof.OnIsRendered | database/select_join.go:463-545 | the rendered ON is true exactly when the ON means it, where its filters rendered |
| JoinProof.AtMostOneMatch | database/select_join.go:286-371 | on every table honouring its unique keys, NULL equal to nothing, an accepted ON matches at most one row |
| JoinProof.ChainOfOneRow | database/select_join.go:85-158 | through any chain of accepted joins one row becomes at most one, exactly one when all are LEFT |
| JoinProof.JoinsRepeatNoRow | database/select_join.go:85-158 | the main rows of the result are the surviving rows, each once and in order |
| JoinProof.SumIsNotInflated | database/select_join.go:85-158 | a SUM over a main column counts each surviving row once, so no join doubles it |
| SqlJoins.SqlRepeatsNoRow | database/select_join.go:463-545 | the joins as rendered, every column found by name, read the surviving main rows, each once and in order |
| SqlWhere.StatementReadsWhatIsMeant | database/select_join.go:463-545 | FROM, joins and WHERE as rendered, every column found by name, keep the rows the ONs and filters mean |
| SqlWhere.StatementRepeatsNoRow | database/select.go:514-524 | the main rows the rendered statement keeps are part of the surviving ones, each once and in order |
| DerivedKeys.DerivedTerms | database/select_join.go:551-625 | every term some joined select projects is recorded under that select; refused exactly when one could be the query's own or two selects answer for one alias |
| DerivedKeys.WrittenAlikeClashes | database/select_join.go:551-631 | a term one select projects is refused exactly when the query and the select could have written it independently, on a table the query reads itself and under its usual name |
| DerivedKeys.KeyNamesItsColumn | database/select_join.go:731-751 | a key names its own column of its own table; read through a select, only what that select groups by |
| DerivedKeys.GroupDerivedTerms | database/select_join.go:680-751 | terms read from joined selects join the group keys; refused exactly when one is joined on a column the projection does not group by |
| DerivedProof.RowsAreReached | database/select_join.go:463-490 | every row read came through each join from a matching row or, for a LEFT join, from none matching |
| DerivedProof.ConjunctsSuffice | database/select_join.go:286-326 | a list of filters is true of a row exactly when its conjuncts are |
| DerivedProof.OnTransfers | database/select_join.go:286-326 | an ON answers alike beside rows agreeing on every earlier column it names |
| GroupTheorem.RowsDetermined | database/select_join.go:680-751 | along the chain of joins, the row read of every select the projection groups by is fixed by its own keys |
| GroupTheorem.OwnKeysDetermineGroups | database/nested.go:152-190 | rows that agree on a grouped select's own keys are in one group, whatever else it groups by, where the ON of each LEFT join it groups through names only grouped columns of earlier tables |
| GroupTheorem.DerivedTableHonoursItsKey | database/nested.go:167-176 | the derived table is unique on the keys it exports, so joining it on them matches one row |
| GroupTheorem.GroupsAgreeExactly | database/select_join.go:674-751 | through any chain of joins and whatever their ONs say, rows with the same own keys are in one group exactly when the LEFT joins grouped through found a row for both or neither, where what they offer shows a value |
| GroupTower.TowerRepeatsNoRow | database/nested.go:152-190 | over selects that join selects, to any depth, no row of the model is repeated, on any models honouring the keys they declare |
| GroupTower.AnswersAreUnique | database/nested.go:167-176 | at every depth the rows a grouped select answers are unique on the keys it exports |
| GroupSplit.ConditionSplitsExactly | database/select_join.go:680-751 | for a select grouping through one LEFT join on ties and one condition on its model, the own keys decide the groups on every database exactly when the condition's column is grouped by |
| GroupSplit.ExtraConditionSplitsGroups | database/select_join.go:680-751 | a report every rule accepts whose own key does not decide its groups |
| Nullability.NotNullColumns | database/select_validate.go:567-591 | the columns proved are those a top-level conjunct of the filters proves |
| Nullability.NullableAliases | database/select_validate.go:502-560 | the aliases flagged are those of the terms that may answer NULL, by the code's rules |
| NullProof.ProvenColumnIsNotNull | database/select_validate.go:567-591 | a proved column holds a value in every row whose WHERE is true under three-valued logic |
| NullProof.AggregateIsNotNull | database/select_group.go:73-120 | an aggregate is NULL exactly for MIN, MAX and AVG over no value |
| NullProof.UnflaggedIsNeverNull | database/select_validate.go:502-560 | an alias not flagged is NULL in no result row, over columns, keys, conditional aggregates, windows, LEFT joins and derived terms, the keyless window aside |
| NullProof.KeylessWindowIsNull | database/select_validate.go:551-552 | the keyless window not flagged is NULL where the filters match no row |
| NullProof.UnflaggedIsSafeExactly | database/select_validate.go:502-560 | not being flagged is safe over every database exactly when the term is no MIN or MAX windowed over a keyless group |
| NullFlags.FlaggedExactly | database/select_validate.go:502-560 | where no condition restricts the rows, an alias is flagged exactly when it is NULL in some row of some database honouring the schema, the keyless window aside |
| NullFlags.OwnColumnIsFlaggedExactly | database/select_validate.go:502-591 | a column of the queried model is flagged exactly when the schema lets it be NULL and no filter AND-ed at the top requires a value of it, however either spells the table |
| NullFlags.JoinedColumnIsFlaggedExactly | database/select_validate.go:502-591 | the same of a column of a model under an inner join |
| NullTower.TermIsNeverNull | database/nested.go:152-190 | through selects joined to selects, to any depth, an alias not flagged is NULL in no row, each joined select's aliases being as it describes them |
| Ordering.SortingIsUnique | database/query_options.go:355-367 | an order under which different rows never tie has one sorting |
| Ordering.PageIsDetermined | database/query_options.go:355-367 | under such an order a page is the same whenever it is read |
| Unions.Union.OrderBy | database/union.go:123-126 | orders are added after those set before |
| Unions.Union.Limit | database/union.go:131-139 | a limit reads from the first row and drops an earlier page's skip; below 1 it is none |
| Unions.Union.Page | database/union.go:143-153 | page and size give limit and offset; a page below 1 is the first, a size below 1 pages nothing |
| Unions.Union.Build | database/union.go:265-319 | a read orders every branch and caps it at offset plus limit, then orders and slices the stack, and refuses an unordered page; a count adds up the branches' counts and pages nothing |
| Unions.FirstRowsSuffice | database/union.go:381-391 | the first k rows of the stacked first k rows are the first k rows of some sorting of everything |
| Unions.PushdownKeepsPage | database/union.go:265-319 | any page the pushed-down query answers is one the query could give with nothing pushed |
| Unions.UnorderedLimitIsSubBag | database/union.go:386-391 | a limit without an order answers some of the rows, as many as it allows |
| SelectShape.Validate | database/select_validate.go:32-173 | a projection is refused exactly for the rules of its terms together - altered terms of joined selects, windows, plain columns, aliases, conditions, orders, result row - and otherwise told whether it is grouped and by what |
| SelectShape.KeysAre | database/select_validate.go:32-173 | a grouped projection groups by its own key terms and by every term read from a joined select, and by nothing else |
| SelectShape.FieldsAreAliases | database/select_validate.go:406-445 | a result row fits a projection exactly when its fields are the aliases in some order |
| SelectShape.VariantIsRefused | database/select_validate.go:32-173 | a term the query cannot compute itself, and a joined select projects under another alias, window or condition, is refused |
| CountScan.Build | database/select.go:445-514 | the four statements: a count keeps the keys, COUNT(*) for a keyless group, a constant for a row-level read, or everything under Qualify; a union's member reads in the result row's order |
| CountScan.CountsAreBare | database/select.go:445-514 | a statement that is counted lists group keys only, or one item standing in for them |
| CountScan.OrderAnswersAlike | database/nested.go:133-146 | the result row's order of a union's member changes no row, and none that Qualify keeps |
| CountScan.CountAnswersAsManyRows | database/select.go:337-385 | a count, alone or in a union, answers as many rows as the read, for every select, rows and reading of keys, Having and Qualify |
| CountScan.Count | database/select.go:344-385 | Count is the number of rows Scan returns without a page |
| CountScan.CountUnion | database/union.go:216-252 | the branches' own counts, added up, are the rows the branches stack unpaged |
| SelectPages.Selector.SetLimit | database/select.go:206-214 | a limit drops a page's skip; below 1 it is none |
| SelectPages.Selector.SetPage | database/select.go:222-231 | page and size give limit and offset; a size below 1 pages nothing |
| SelectPages.Selector.PageTieBreakers | database/select.go:578-621 | what a paged select's order is completed with, in the last ordering's direction, and nothing for a read that is not paged |
| SelectOrder.CompletedSelectIsTotalExactly | database/select.go:565-621 | the completed order of a row-level page leaves no ties on any table honouring the model exactly when the model's columns its names stand for, an output alias before a column, cover a key |
| SelectOrder.BaseModelSelectCompletes | database/select.go:565-621 | with the id for a primary key and no other unique index, exactly when an order names the id or the appended id is in reach: projected under Qualify, or qualified by joins, or not the alias of another term |
| SelectOrder.CompositeSelectTies | database/select.go:600-621 | a model keyed by a kind and an id is paged by the id alone, and ties |
| SelectOrder.ShadowedIdTies | database/select.go:606-621 | a select without joins that numbers its rows as id is paged by that number, and ties |
| SelectRead.MainRowsHonour | database/select_join.go:85-158 | the main rows read through proved joins and kept by the filters honour the model's keys, as none is read twice |
| SelectRead.JoinedPagesPartition | database/select.go:565-621 | the pages of a row-level select, through any joins and filters, hold each of its rows once and in one order, where its order covers a key |
| SelectRead.GroupedPagesPartition | database/select.go:565-598 | the pages of a grouped select hold each group once and in one order, for every projection |
| SelectPages.OverOrder | database/select_window.go:107-143 | an ordered window is completed with the keys it does not order by yet, an unordered one is left so |
| SelectPages.ExtendedIs | database/select_window.go:107-143 | the caller's orders stay first, and each key they do not name follows, ascending and once |
| SelectPages.LeftAlone | database/select_window.go:182-203 | RANK and DENSE_RANK, and windows over a model without the id, are ordered by what their caller gave alone |
| SelectOrder.BaseModelWindowCompletes | database/select_window.go:182-203 | with the id for a primary key every ordered window over rows, a ranking one aside, sorts by a key and has one order on every table |
| SelectOrder.WindowIsDeterminedExactly | database/select_window.go:94-143 | row numbers and ROWS-frame totals do not depend on how rows are held, on any table, exactly when the model's columns the window sorts by cover a key |
| SelectRead.JoinedWindowIsDetermined | database/select_window.go:94-143 | the same through any joins and filters |
| SelectRead.GroupedWindowIsDetermined | database/select_window.go:184-202 | an ordered window over groups has one order, for every projection |
| Paging.IdentifyingColumns | internal/modelschema/identifyingcolumns.go:27-63 | the columns taken to tell rows apart: each primary key column, and the sole column of a unique index that is not nullable |
| Paging.Chain.WithOrder | database/query_options.go:334-353 | orders are added until one is refused beside a cursor or for another model's column |
| Paging.AcceptedIs | database/query_options.go:334-353 | the first order not taken on names a column beside a cursor, or of another model, and none before it does |
| Paging.Chain.WithPagination | database/query_options.go:429-447 | page and size become offset and limit, a page below 1 the first and a size below 1 all rows |
| Paging.Chain.WithCursor | database/query_options.go:52-113 | a cursor is taken on only over an identifying column of the model and beside no order; an empty column is the id |
| Paging.Chain.ApplyCursorPagination | database/query_options.go:123-148 | a cursor orders every page, flipped when it travels backward, and a bounded one adds its comparison |
| Paging.Chain.CompleteOrder | database/query_options.go:368-392 | only the order of a page without a cursor is completed, with the primary key in the last order's direction |
| PagingProof.OrderIsTotalExactly | internal/modelschema/identifyingcolumns.go:8-26 | an order leaves no ties on any table honouring the model exactly when it covers a key that tells rows apart |
| PagingProof.CompletedOrderIsTotalExactly | database/query_options.go:355-392 | the completed order is total on every table exactly when the caller's order covers a key or names no identifying column |
| PagingProof.SingleKeyCompletes | database/query_options.go:355-392 | with a primary key of one column the completed order is always total |
| PagingProof.CompositeKeyTies | internal/modelschema/identifyingcolumns.go:27-63 | an order by one column of a composite primary key is left as it is, and ties |
| PageWalk.PagesPartitionExactly | database/query_options.go:404-447 | pages of any size partition the rows, whatever the statements answer, exactly when different rows never sort equal |
| PageWalk.CompletedPagesPartition | database/query_options.go:355-447 | pages 1 to n of a model keyed by one column are the first n times size rows, none skipped or repeated |
| CursorWalk.Reverse | database/read.go:116-118 | reverses a page in place |
| CursorWalk.List | database/read.go:68-136 | a list delivers a page of its cursor in the feed's own order, or a page of its completed order |
| CursorWalk.ForwardPageIsNext | database/query_options.go:115-148 | a forward cursor at a row delivers exactly the rows that follow it, in both feed directions |
| CursorWalk.BackwardPageIsPrevious | database/read.go:106-118 | a backward cursor at a row delivers, reversed, exactly the rows before it |
| CursorWalk.BackUndoesForward | internal/types/cursor.go:17-25 | paging on from a page and back from the next one's first row delivers the page again |
| CursorWalk.TraversalEnumerates | database/query_options.go:29-51 | following forward cursors enumerates the feed once, in order, and ends |
| CursorWalk.NextPageExactly | internal/types/cursor.go:72-74 | the page after a row is the rows that follow exactly when its value is not the empty one |
| CursorWalk.EmptyValueRestarts | internal/types/cursor.go:72-74 | the cursor at a row whose code is empty delivers that row again |
| CursorWalk.CursorWalksExactly | database/query_options.go:84-100 | an accepted cursor walks every table whole exactly when its column is a key by itself |
| LeaseProof.StepKeeps | internal/lease/slot.go:69-262 | every statement of every replica keeps the record honest and the row, handles, pending reads and found rounds in agreement with it |
| LeaseSafety.EveryRunIsSafe | internal/lease/slot.go:46-262 | over every interleaving, crash, loss and expiry, claimed instants increase, no instant has more than two rounds, and a second one is owed |
| LeaseSafety.RerunIsOwed | internal/lease/slot.go:225-262 | an instant is claimed again only after its claim, not recorded finished, with no later instant claimed, and never a third time |
| LeaseSafety.ClaimsFenceEarlierHandles | internal/lease/lease.go:288-291 | a claim's term is above every term handed out before, and its handle alone holds the name |
| LeaseHolds.RenewalHolds | internal/lease/lease.go:317-332 | a renewal of an unexpired lease holds the name for fifteen seconds from when it is written: whatever the replicas do, its holder giving it back aside, no round starts before |
| LeaseHolds.ClaimHolds | internal/lease/slot.go:69-138 | every claim that lands, of a new instant or of a round cut short, holds the name for as long |
| LeaseHolds.ExpiredNameIsClaimed | internal/lease/slot.go:69-138 | from the moment a lease expires, a claim read since its last is written, under the next term and for its instant |
| LeaseHolds.StatementsAreSentOnce | internal/lease/slot.go:69-262 | no statement of a claim or of a round's end is sent twice |
| LeaseSafety.OverrunStaysSkipped | internal/lease/slot.go:140-193 | when rounds record overruns under unexpired leases, no overrun instant is claimed, by a catch-up or otherwise, and the last instant never decreases |
| LeaseSafety.OverrunIsHonouredExactly | internal/lease/slot.go:158-193 | a recorded overrun binds every replica, wherever it stands in its claim, exactly when it lands before the lease expires |
| LeaseSafety.LateFinishLosesOverrun | internal/lease/slot.go:69-193 | a run of two replicas in which the last instant goes back and an overrun instant is claimed |
| RoundEnds.FinishedNeverRunsAgain | cronjob/job.go:254-306 | once a round that ran to its end has sent its record, its lease lost or not, no run from there on claims its instant again |
| RoundEnds.CutShortRunsAgain | cronjob/job.go:241-306 | a first round cut short under its lease is found by any look, and claimed a second time by any finder, as long as nothing else is put on record, whatever the replicas do meanwhile |
| RoundEnds.FinishedLeavesNameFree | internal/lease/slot.go:140-179 | after a recorded round a claim read at any time since is written, as long as nothing else is put on record |
| RoundEnds.OverrunIsNotCaughtUp | cronjob/job.go:116-145 | once a round has recorded its end under its lease, no replica starting later, in any run whose rounds do so, catches up an instant that came by then |
| RoundEnds.LostRoundEndsLate | cronjob/job.go:254-306 | a round that knows its lease lost sends the late record of its end alone, and nothing when cut short |
| Schedule.PreviousInstant | cronjob/schedule.go:78-92 | the bisection returns the greatest instant at or before now and within a day, or none exactly when there is none |
| EverySchedule.EveryNextIsFirstExactly | cronjob/schedule.go:60-66 | the answer is the least multiple of the period above t exactly when t is not before the epoch off the grid and the multiple fits int64 |
| EverySchedule.SkipsBeforeEpoch | cronjob/schedule.go:60-66 | before the epoch and off the grid the answer is one period late |
| EverySchedule.EveryAnswersRange | cronjob/schedule.go:51-66 | a periodic schedule answers every moment from the epoch on whose next instant an int64 holds |
| EverySchedule.EveryCanBeCaughtUp | cronjob/schedule.go:60-92 | a schedule of whole seconds has what the bisection asks of it, for moments at least a day past the epoch |
| JobLoop.InstantsBetween | cronjob/job.go:108-114 | counts exactly the instants strictly between two moments |
| JobLoop.NextAfter | cronjob/job.go:94-104 | the first instant after now and after the one run, and the record of those skipped |
| JobLoop.CatchUp | cronjob/job.go:128-145 | an instant is caught up exactly when it is the most recent within a day and later than the last on record of a job that has run |
| JobLoop.ClaimSlot | cronjob/job.go:186-208 | the claim is tried until answered, stopped or too near the next instant, and not beyond |
| JobLoop.RetriesInTwoSeconds | cronjob/job.go:186-208 | a failed claim is tried again two seconds on, unless the next instant comes by then |
| JobLoop.RunLoop | cronjob/job.go:63-88 | the loop's hand-outs, second rounds, skips and next instant over any sequence of wake-ups |
| JobProof.HandedInstantsIncreaseExactly | cronjob/job.go:63-104 | with a clock that never steps back the instants handed out strictly increase, across catch-up, due and second rounds, whatever wakes the loop, exactly when a lost catch-up lies before the loop's first instant |
| JobProof.LostCatchUpIsHandedTwice | cronjob/job.go:63-82 | a loop of every ten seconds that hands out the instant at 10 again after a catch-up of it was lost |
| JobProof.LostCatchUpChangesNothing | cronjob/job.go:63-68 | a lost catch-up leaves the loop as it would be without it |
| JobProof.DueInstantsIncrease | cronjob/job.go:90-104 | consecutive due rounds hand out later instants wherever the clock goes |
| JobProof.WaitsPastExactly | cronjob/job.go:90-104 | the loop waits past an instant exactly when the round it ran or its clock has reached it |
| JobProof.InstantsAreAccountedExactly | cronjob/job.go:63-114 | at every turn every instant up to the latest waited for was handed out, run a second time or counted exactly when the won catch-up and the second rounds were of instants no later than the latest waited for by then |
| JobProof.LaterCatchUpLosesInstant | cronjob/job.go:63-68 | a catch-up of the instant at 20 while the first one read is at 10 leaves 10 in no entry |
| JobProof.SecondRoundAccountsExactly | cronjob/job.go:77-84 | a second round keeps every instant accounted for exactly when its own is not later than the one waited for |
| JobProof.LaterSecondRoundLosesInstant | cronjob/job.go:77-84 | a loop of every ten seconds that loses the instant at 10 to a second round of the one at 20 |
| JobProof.EveryLoopIsRight | cronjob/job.go:63-114 | the loop of a periodic schedule hands out increasing instants where it begins apart, and accounts for each where its rounds are behind |
| EventLines.TokenIsFirstLine | client/stream.go:148-172 | a token split off what has been read is the first line of the whole stream, a CR at the edge of a read included |
| EventLines.MebibyteFits | client/stream.go:74-77 | a line fits with its line feed while the two are no more than a mebibyte |
| EventLines.Scanner.Scan | client/stream.go:74-77 | the scanner yields the stream's lines however the body is cut, and fails only on a line too long for its buffer |
| EventStream.MarkOfFirstLine | client/stream.go:87-91 | dropping the byte order mark from the first line or from the body dispatches the same events |
| EventStream.JoinIsData | client/stream.go:94-101 | the data lines joined are the standard's data buffer without its last line feed |
| EventStream.IsAllDigits | client/stream.go:176-186 | reports a non-empty string of ASCII digits |
| EventStream.RetryIsRead | client/stream.go:125-133 | a retry field sets the reconnection time to the number it spells, if an int holds it |
| EventStream.TakeLine | client/stream.go:93-138 | one line does to the parser what it does to the standard's buffers |
| EventStream.ParseStream | client/stream.go:74-144 | the events delivered are the standard's, up to where the stream ends, the callback stops it or a line does not fit, for every body and every way of reading it |
| AfterCommit.TransactionBoundary.Add | database/transaction_boundary.go:22-26 | appends an action |
| AfterCommit.TransactionBoundary.Run | database/transaction_boundary.go:40-55 | runs the actions in order up to the first failure, and leaves none |
| AfterCommit.UpToFailureIs | database/transaction_boundary.go:28-55 | what runs is a prefix that ends at the first failure |
| AfterCommitProof.DoAllKeeps | database/transaction_boundary.go:94-140 | every program of nested transactions and hooked writes keeps the record honest |
| AfterCommitProof.CommittedKeeps | database/transaction_boundary.go:139-140 | a commit runs exactly the registered actions up to the first failure |
| AfterCommitProof.ActionsAreSafe | database/after_commit.go:7-43 | an action runs only after its boundary's transaction commits, never of one rolled back, once at most, in registration order |
| AfterCommitReports.TransactReports | database/transaction_boundary.go:94-140 | a transaction returns nil exactly when its commit is on record and no action after it failed, and is rolled back exactly when its body returned an error or its commit failed |
| AfterCommitReports.ReturnIsOnRecord | database/transaction_boundary.go:94-140 | every program, joined transactions and actions outside any included, returns nil exactly when the record shows that it succeeded |
| AfterCommitReports.FailedActionRollsBackCaller | database/transaction_boundary.go:139-140 | an action that fails after a nested commit rolls back the transaction of the code around it |
| Nesting.StraightActionsWait | database/transaction.go:73-110 | where a transaction joins only the innermost one open, no action runs before the transaction its caller is in commits |
| Nesting.OneInstanceIsStraight | database/transaction.go:83-85 | programs on one instance are such |
| Nesting.ActionOfRolledBackWrite | database/transaction_boundary.go:57-65 | A inside B inside A: the action runs and the write it belongs to is rolled back |
| NestingExactly.ActionWaitsExactly | database/after_commit.go:30-43 | however the open transactions end, an action waits for its caller's exactly when that is the innermost |
| Upsert.CollectUniqueIndexes | database/upsert.go:462-531 | the indexes looked through are the usable tagged and planned ones and the unique columns outside the primary key |
| Upsert.RefuseForeignTenantRows | database/upsert.go:249-321 | a batch is accepted exactly when every row under one of its keys is the caller's; zero primary keys and keys with NULL hold no row |
| Upsert.RefusedForSharedKeyExactly | database/upsert.go:249-321 | a batch is refused exactly when a row of another tenant holds, with no NULL, the whole primary key given or the columns of a unique index over all rows or a unique column that reaches beside it |
| TenantIsolation.HitIsOwn | database/upsert.go:223-248 | whatever row a merge of an accepted object writes over is the caller's tenant's, on indexes over prefixes, expressions and part of the rows too |
| TenantIsolation.HitsExactly | database/upsert.go:223-248 | the rows a merge may write over are those holding the primary key, a unique column, or what a unique index holds |
| TenantIsolation.AcceptedBatchKeepsForeign | database/upsert.go:223-321 | merging an accepted batch, however conflicts resolve, leaves every other tenant's rows as they were |
| TenantIsolation.UncoveredKeyIsMerged | database/upsert.go:462-484 | a unique index not covered is merged on though the guard accepted: one within part of the primary key, over an expression, or over a prefix |
| TenantIsolation.PlainIndexIsCovered | database/upsert.go:511-531 | an index of whole columns is covered when it reaches beside the primary key, holds all of it, or holds the tenant |
| TenantIsolation.TenantsAreIsolatedExactly | database/upsert.go:223-321 | isolation holds for all rows, batches and index expressions exactly when every unique index holds whole the tenant, the primary key or an index the guard looks through |

## Left out

- GroupTheorem.OwnKeysDetermineGroups: in general the condition on the ONs suffices and need not be necessary. GroupTheorem.GroupsAgreeExactly is exact about the rows read, and GroupSplit.ConditionSplitsExactly about the projection, for selects grouping through one LEFT join with one condition on their model.
- NullFlags.FlaggedExactly: where filters or the conditions of a measure restrict the rows a flag can be needless, since the code reads top-level conjuncts alone; what is not flagged is safe there too (NullProof.UnflaggedIsNeverNull).
- FilterChain.ForeignFails: a constant filter is taken to name no table, as its constructor leaves it.
- JobLoop.ClaimSlot: the lease's answers and the clock are inputs, and a claim that never settles is cut where the inputs end.
- EventLines.Scanner.Scan: the buffer's doubling, empty reads and read errors of the body are not modelled; every read returns a byte or the end.
- EventStream.ParseStream: the callback is a function of the events it has been given.
- TenantIsolation.AcceptedBatchKeepsForeign: one statement after another, as the code documents its read-then-write window open; the database is taken to number a zero primary key with a value no row holds, and to merge on any unique key as MySQL does, where the others merge on the primary key alone.
- CursorWalk.List: model hooks, dry runs, selected columns and the deleted scope.
- Paging.Chain.WithPagination: the product of page and size is not bounded by the width of an int, here and in the pages of unions and selects.
- Nesting.StraightActionsWait: an action is its success or failure; an action that registers another or opens a transaction is not modelled.
- SelectShape.Validate: the rules each term has to keep by itself, windows and plain columns aside, the values of conditions, and the types of the result row.
- RoundEnds.FinishedNeverRunsAgain: a record the database fails to take leaves the round unfinished, which the steps allow but this statement is not about.
- The instant a claim reports having given up, which is only logged.
- Lease timings other than the expiry, the renewal loop, and the statement of the claim for names other than a scheduler's.
- Spellings of times, dates and JSON values, text casts, the regular expressions of the databases and their collations: regular expressions and JSON containment are parameters of the model, and text compares by code.
- Values a filter cannot bind other than those of the wrong shape, such as a struct.
- The alias a joined select is read under clashing with a model's own table name.
- Statement building by the ORM and drivers, beyond the connector of a one-alternative OR; statement comments, tracing, logging and metrics.
- The parser of cron expressions: a schedule is what its Next answers.
- The sweep's timing, the warnings of a round that overruns, and shutdown of the scheduler.
- Reading rows back into the caller's objects after an upsert, and versioned conflict updates.
- Validation of values given to Having and Qualify, of result rows, and of terms beyond what the proofs need.
- Configuration, bootstrap, HTTP verbs, caches, authentication and database migration.
