# Operator layer of learning-db, in Dafny

This project models the operator layer of learning-db, a small in-memory relational engine. A `Table` is a re-iterable sequence of `Row`s. Its abstract base class supplies four operators, each written as a loop that builds a new list-backed table:

- `filter` keeps the rows that satisfy an equality filter.
- `project` replaces each row by the values of a list of expressions.
- `join` is the unrestricted cross product, built with nested loops.
- `aggregate` groups the rows by a key in a hash map. For each group it makes fresh `Count`/`Sum` accumulators, feeds them the group's rows and emits the key followed by the final values.

Layout:

- `rows.dfy` (`Rows`): `Value` is a tagged union of null, string, integer and boolean. `Row` is `seq<Value>`, and `Rows.Join` is row concatenation.
- `expressions.dfy` (`Expressions`): `Expression = FieldRef(i) | Literal(v)` and `Filter = EqualFilter(l, r)`, with their evaluation.
- `aggregates.dfy` (`Aggregates`): aggregate templates (`Count | Sum(e)`) and the per-instance accumulator state. The file also models the `fresh` / `apply` / `finalValue` protocol.
- `filter_spec.dfy`, `project_spec.dfy`, `join_spec.dfy`, `aggregate_spec.dfy`: each operator's meaning as pure functions, with the lemmas that state its properties.
- `table.dfy` (`Tables`): the class `ListBackedTable` holds a `rows: seq<Row>` field. The four operators are methods with the source's loops, and each `ensures` ties the method's result to the pure definition. Both passes of `aggregate` are methods as well. Its accumulators are kept in an array and updated in place.
- `scenarios.dfy` (`Scenarios`): the repository's test scenarios, stated as lemmas over the model.

The source walks the grouping map in `HashMap` order. The model picks the next key nondeterministically instead. `aggregate` is specified by the order-free predicate `AggregateSpec.AggregateResult`, and every property of `aggregate` is proved for every output that satisfies it. `AggregateDeterministic` shows that all such outputs hold the same rows.

The model also proves that `join` is associative on whole row sequences, order included: `(A join B) join C` and `A join (B join C)` are the same sequence. This is stronger than only the row widths being equal.

## Model

| member | source | states |
|---|---|---|
| `Rows.Join` | src/main/java/com/one211/learning/db/Table.java:59 | a joined row has length \|left\| + \|right\|, its first \|left\| fields are the left row and the rest are the right row |
| `Expressions.Eval` | src/main/java/com/one211/learning/db/Table.java:41 | `Expression.apply`: a field reference reads that field of the row and a literal gives its constant whatever the row; EvalJoinLeft and EvalJoinRight state what it reads from a joined row |
| `Expressions.Test` | src/main/java/com/one211/learning/db/Table.java:25 | `Filter.apply` for an equality filter: true exactly when both expressions evaluate to equal values; FilterMembers and BucketIsFilter state what filtering with it keeps |
| `Expressions.EvalJoinLeft` | src/main/java/com/one211/learning/db/Table.java:59 | an expression in scope on the left row still is on the joined row and evaluates to the same value |
| `Expressions.EvalJoinRight` | src/test/java/com/one211/learning/db/TableTest.java:71-75 | field \|left\| + i of a joined row is field i of the right row |
| `Aggregates.Fresh` | src/main/java/com/one211/learning/db/Table.java:104-107 | `fresh()` keeps the aggregate's configuration (including Sum's inner expression) and starts with final value 0 |
| `Aggregates.Apply` | src/main/java/com/one211/learning/db/Table.java:112 | `agg.apply(r)` keeps the instance's configuration; its effect on the state over any number of rows is stated by FeedCount and FeedSum |
| `Aggregates.FinalValue` | src/main/java/com/one211/learning/db/Table.java:120 | `finalValue()` is always a number; CountFinal and SumFinal state which number it is for a fresh instance fed a group |
| `Aggregates.Feed` | src/main/java/com/one211/learning/db/Table.java:110-114 | feeding an instance every row of a group, in order, keeps its configuration; FeedCount and FeedSum state the resulting state |
| `Aggregates.FeedCount` | src/main/java/com/one211/learning/db/Table.java:110-114 | applying a Count instance to n rows adds n to its counter |
| `Aggregates.FeedSum` | src/main/java/com/one211/learning/db/Table.java:110-114 | applying a Sum instance to rows adds the sum of its inner expression over those rows to its total |
| `Aggregates.CountFinal` | src/main/java/com/one211/learning/db/Table.java:103-121 | a fresh Count fed a group's rows reports the number of rows in the group |
| `Aggregates.SumFinal` | src/main/java/com/one211/learning/db/Table.java:103-121 | a fresh Sum fed a group's rows reports the sum of its inner expression over the group |
| `FilterSpec.FilterRows` | src/main/java/com/one211/learning/db/Table.java:19-31 | the filtered rows number at most the input's and each is an input row that passes the filter |
| `FilterSpec.FilterAppend` | src/main/java/com/one211/learning/db/Table.java:19-31 | filtering distributes over concatenation, so the kept rows keep their relative order |
| `FilterSpec.SelectsExtend` | src/main/java/com/one211/learning/db/Table.java:23-27 | one more loop iteration selects the new row's position exactly when the row passes, and leaves the earlier selection unchanged |
| `FilterSpec.FilterSelects` | src/main/java/com/one211/learning/db/Table.java:19-31 | the result is the input at strictly increasing positions, and a position is selected exactly when its row passes |
| `FilterSpec.FilterMembers` | src/main/java/com/one211/learning/db/Table.java:23-27 | a row is in the result exactly when it is an input row that passes the filter |
| `FilterSpec.FilterIdempotent` | src/main/java/com/one211/learning/db/Table.java:19-31 | filtering the result again with the same filter returns it unchanged |
| `ProjectSpec.ProjectRow` | src/main/java/com/one211/learning/db/Table.java:39-43 | a projected row has one field per projection |
| `ProjectSpec.ProjectRows` | src/main/java/com/one211/learning/db/Table.java:33-47 | projection yields exactly one output row per input row |
| `ProjectSpec.ProjectRowAt` | src/main/java/com/one211/learning/db/Table.java:40-42 | field j of a projected row is projection j evaluated on the row |
| `ProjectSpec.ProjectRowsAt` | src/main/java/com/one211/learning/db/Table.java:37-44 | output row i is the projection of input row i, so order is preserved |
| `ProjectSpec.ProjectAt` | src/main/java/com/one211/learning/db/Table.java:33-47 | output row i has \|projections\| fields and field j is projection j evaluated on input row i |
| `ProjectSpec.Substitute` | src/main/java/com/one211/learning/db/Table.java:33-47 | composing outer projections over inner ones yields one expression per outer projection |
| `ProjectSpec.SubstituteAt` | src/main/java/com/one211/learning/db/Table.java:33-47 | composed expression j is outer projection j rewritten over the inner projections |
| `ProjectSpec.ProjectCompose` | src/main/java/com/one211/learning/db/Table.java:33-47 | projecting twice equals projecting once with the composed projections |
| `JoinSpec.JoinOne` | src/main/java/com/one211/learning/db/Table.java:56-60 | the inner loop yields one row per inner row |
| `JoinSpec.JoinRows` | src/main/java/com/one211/learning/db/Table.java:50-63 | the cross product has \|this\| x \|input\| rows |
| `JoinSpec.JoinOneAt` | src/main/java/com/one211/learning/db/Table.java:57-60 | inner-loop row j is the outer row concatenated with inner row j |
| `JoinSpec.JoinAt` | src/main/java/com/one211/learning/db/Table.java:50-63 | result row i * \|input\| + j is outer row i concatenated with inner row j, so outer rows vary slowest |
| `JoinSpec.JoinPosition` | src/main/java/com/one211/learning/db/Table.java:50-63 | each result row p is outer row p / \|input\| concatenated with inner row p % \|input\| |
| `JoinSpec.JoinWidth` | src/main/java/com/one211/learning/db/Table.java:59 | when the inputs have uniform widths wa and wb, every result row has width wa + wb |
| `JoinSpec.JoinOneAppend` | src/main/java/com/one211/learning/db/Table.java:56-60 | the inner loop over a concatenation is the concatenation of the inner loops |
| `JoinSpec.JoinRowsAppend` | src/main/java/com/one211/learning/db/Table.java:52-61 | the outer loop over a concatenation is the concatenation of the outer loops |
| `JoinSpec.JoinOneNested` | src/main/java/com/one211/learning/db/Table.java:56-60 | joining x with (y joined with each row of c) equals joining x + y with each row of c |
| `JoinSpec.JoinOneThenRows` | src/main/java/com/one211/learning/db/Table.java:50-63 | one outer row joined with b and then with c equals that row joined with (b join c) |
| `JoinSpec.JoinAssociative` | src/main/java/com/one211/learning/db/Table.java:50-63 | (a join b) join c is the same row sequence as a join (b join c) |
| `AggregateSpec.KeyColumn` | src/main/java/com/one211/learning/db/Table.java:91-95 | the grouping pass computes one key per input row |
| `AggregateSpec.GroupKeys` | src/main/java/com/one211/learning/db/Table.java:87-95 | the key set of the grouping map; GroupKeysMembers states it is exactly the set of keys of the input rows and GroupKeysBound that it has at most one key per row |
| `AggregateSpec.GroupKeysBound` | src/main/java/com/one211/learning/db/Table.java:87-95 | there are at most as many group keys as input rows, and none exactly when the input is empty |
| `AggregateSpec.Bucket` | src/main/java/com/one211/learning/db/Table.java:87-95 | a key's bucket holds only input rows with that key, and at most as many rows as the input |
| `AggregateSpec.GroupRow` | src/main/java/com/one211/learning/db/Table.java:116-123 | a group's output row has 1 + \|aggregates\| fields and field 0 is the group key |
| `AggregateSpec.AggregateResult` | src/main/java/com/one211/learning/db/Table.java:86-127 | what `aggregate` may return: each output row is the group row of an input key, no key appears twice, and every input key appears; the AggregateKeys, AggregateCardinality, AggregateCount, AggregateSum and AggregateDeterministic lemmas state its consequences |
| `AggregateSpec.EmitStep` | src/main/java/com/one211/learning/db/Table.java:99-124 | emitting the row of one more key keeps the output one row per key emitted so far |
| `AggregateSpec.GroupKeysMembers` | src/main/java/com/one211/learning/db/Table.java:87-95 | the map's key set is exactly the set of keys of the input rows |
| `AggregateSpec.BucketNonEmpty` | src/main/java/com/one211/learning/db/Table.java:94 | a key's bucket is non-empty exactly when the key occurs in the input |
| `AggregateSpec.BucketIsFilter` | src/main/java/com/one211/learning/db/Table.java:87-95 | a key's bucket is what filtering on "group key equals k" keeps, in input order |
| `AggregateSpec.BucketCount` | src/main/java/com/one211/learning/db/Table.java:87-95 | a key's bucket size is the number of input rows with that key |
| `AggregateSpec.BucketSum` | src/main/java/com/one211/learning/db/Table.java:87-95 | the sum of e over a key's bucket is the sum of e over the input rows with that key |
| `AggregateSpec.GroupRowCount` | src/main/java/com/one211/learning/db/Table.java:103-121 | a Count field of a group row is the group's size |
| `AggregateSpec.GroupRowSum` | src/main/java/com/one211/learning/db/Table.java:103-121 | a Sum(e) field of a group row is the sum of e over the group |
| `AggregateSpec.BucketSnoc` | src/main/java/com/one211/learning/db/Table.java:94 | appending one row adds it to the end of its own key's bucket and leaves every other bucket unchanged |
| `AggregateSpec.GroupingStep` | src/main/java/com/one211/learning/db/Table.java:92-94 | `computeIfAbsent(key, new list).add(row)` keeps the map equal to the grouping of the rows seen so far |
| `AggregateSpec.KeyColumnKeys` | src/main/java/com/one211/learning/db/Table.java:87-95 | the set of distinct keys is the set of values in the key column |
| `AggregateSpec.AggregateKeys` | src/main/java/com/one211/learning/db/Table.java:86-127 | the output's keys are exactly the input rows' keys |
| `AggregateSpec.AggregateCardinality` | src/main/java/com/one211/learning/db/Table.java:86-127 | the output has one row per distinct key |
| `AggregateSpec.AggregateEmpty` | src/main/java/com/one211/learning/db/Table.java:86-127 | an empty input gives an empty output |
| `AggregateSpec.AggregateShape` | src/main/java/com/one211/learning/db/Table.java:116-123 | every output row has 1 + \|aggregates\| fields and starts with an input key |
| `AggregateSpec.AggregateCount` | src/main/java/com/one211/learning/db/Table.java:103-123 | a Count field is the number of input rows with that row's key |
| `AggregateSpec.AggregateSum` | src/main/java/com/one211/learning/db/Table.java:103-123 | a Sum(e) field is the sum of e over the input rows with that row's key |
| `AggregateSpec.AggregateDeterministic` | src/main/java/com/one211/learning/db/Table.java:99 | whatever order the map gives its keys in, aggregate produces the same multiset of rows |
| `Tables.ListBackedTable.constructor` | src/main/java/com/one211/learning/db/Table.java:137-140 | the table holds exactly the rows it was built with |
| `Tables.ListBackedTable.Filter` | src/main/java/com/one211/learning/db/Table.java:19-31 | the while loop builds a new table whose rows are the filtered rows |
| `Tables.ListBackedTable.Project` | src/main/java/com/one211/learning/db/Table.java:33-47 | the outer while loop and the inner loop over `projectedVal` build a new table of the projected rows |
| `Tables.ListBackedTable.Join` | src/main/java/com/one211/learning/db/Table.java:50-63 | the nested loops build a new table of the cross product |
| `Tables.ListBackedTable.Aggregate` | src/main/java/com/one211/learning/db/Table.java:86-127 | builds a new table with one group row per distinct key |
| `Tables.GroupRows` | src/main/java/com/one211/learning/db/Table.java:87-95 | the grouping map's keys are the group keys, and each key maps to its bucket in input order |
| `Tables.EmitGroups` | src/main/java/com/one211/learning/db/Table.java:97-124 | visiting the map's entries in any order emits exactly one group row per key |
| `Tables.AggregateGroup` | src/main/java/com/one211/learning/db/Table.java:103-123 | fresh instances are fed every row of the bucket in place, and the result row equals the group row |
| `Scenarios.FilterScenario` | src/test/java/com/one211/learning/db/TableTest.java:17-35 | filtering on field 1 = 22 keeps ("abc", 22) and ("zxc", 22) |
| `Scenarios.ProjectScenario` | src/test/java/com/one211/learning/db/TableTest.java:38-62 | projecting fields 0 and 1 gives three rows, the first two being ("abc", 22) and ("xyz", 15) |
| `Scenarios.JoinScenario` | src/test/java/com/one211/learning/db/TableTest.java:65-76 | joining the rows directly, the widths are 4 and then 5, and field 4 is "email@gmail.com" |
| `Scenarios.JoinTableScenario` | src/test/java/com/one211/learning/db/TableTest.java:65-76 | the same joins on one-row tables give one row of width 4 and then one of width 5 whose field 4 is "email@gmail.com" |
| `Scenarios.AggregateScenario` | src/test/java/com/one211/learning/db/TableTest.java:96-136 | grouping by name with Count and Sum gives exactly ("Alice", 2, 40) and ("Bob", 2, 45) |

## Left out

- `AbstractTable.fromJson` (Jackson file parsing and I/O) is not modelled.
- Floating point: `Value` has no float variant. `Sum` accumulates integers and its final value is an integer, whereas the source produces a double (the test expects 40.0 and 45.0).
- `Row`, `Expression`, `Filter` and `AggregateExpression` are defined in files that are not part of this model. Their behaviour is inferred from how `Table.java` and `TableTest.java` use them.
- `IndexError`: an out-of-range field reference is excluded by `requires` (`InScope` and the predicates built on it) rather than modelled as an aborting error.
- The `(Boolean)` cast on the filter result is not modelled: a filter evaluates directly to a boolean.
- A `Sum` over a non-integer value, which the source leaves to the caller, is excluded by `requires` (`Accepts`).
- `HashMap` iteration order is not modelled. The emit loop picks any remaining key, and the properties hold for every order.
- Java iterators and streams are modelled as indexing into `rows`. The `iterator()` method has no member of its own.
- `join` takes a `ListBackedTable` argument, the only `Table` implementation, rather than any `Table`.
- Row widths are not validated, as in the source. Width results for `join` are stated only for inputs of uniform width.
- Aliasing is not modelled: the list passed to the `ListBackedTable` constructor is held by value (`seq<Row>`).
