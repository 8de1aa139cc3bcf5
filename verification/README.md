# reactPHP-SQLite, modelled in Dafny

This project models the deterministic core of the `Chrissileinus\React\SQLite`
library. That library is a pool of asynchronous SQLite connections with a small
set of statement builders on top. The model covers four parts:

- **Statement builders** of `Command` (`command.dfy`, `where.dfy`, `patterns.dfy`):
  - `tableName` and `genLimit`;
  - the `WHERE` generator `genWhere`;
  - the statement text of `insert` (with its `ON CONFLICT … DO UPDATE SET` upsert clause), `update` (with its raw-expression escape hatch for values such as `now()`), `delete` and `select`.

  The three regular expressions these builders use are hand-coded as string functions, including PCRE's rule that `$` also matches before a final line break.
- **Value quoting** `tools::quote` (`tools.dfy`). `SQLite3::escapeString` is modelled as doubling `'`. A reader-side `Unescape` is defined, so that every string literal can be shown to read back as the original string.
- **The pool scheduler** (`pool.dfy`):
  - a `Pool` class with the pointer, the selector policy and one request counter per connection in an array;
  - `ShiftPointer`, `Dispatch` (the counting half of `pooledCallbackPromise`) and `Settle` (the `then` callback);
  - from `init`, the counter setup, the bootstrap decision and the schema-text splitter.

  Ghost multisets of pending and leaked requests explain every counter value. The invariant `Valid()` says each counter equals its slot's pending requests plus its leaked ones.
- **Connection startup** (`connection.dfy`):
  - the merge of caller pragmas over `PRAGMAdefault` with `??=`, as a loop proved equal to a closed form;
  - the one `PRAGMA name = value;` statement issued per entry;
  - the `onError` routing of `exec`/`query`, and how that routing decides whether the pool's counter comes down.

`php.dfy` holds the slice of PHP's value model these need:

- ordered arrays with int or string keys;
- truthiness;
- decimal interpolation of ints;
- the `array_filter` key filters;
- `implode`/`explode`.

Every statement builder returns `Result<string>`. Its one error, `InvalidDataType`, is the exception `quote` throws for a truthy non-scalar.

The model fixes one PHP version, 7.4, the first with `??=`, wherever the version changes the outcome:

- `count()` of an int is 1, so a one-element limit array reaches the int branch;
- `array_filter` given a non-array warns and returns null, so a non-array under a leading `AND`/`OR` key yields an empty `WHERE` fragment;
- `preg_match` on a non-string set value never matches the raw-expression pattern, so the value goes through `quote`;
- `$inserts[0]` on a list without key 0 is an undefined index and gives null, and `array_keys`/`array_values` given a non-array warn and return null, which `foreach` runs over zero times. So such a list names no columns and assigns none on conflict, and an entry that is not an array renders as an empty tuple `(  )`.

There is one exception. When several slots tie for the least load, the model breaks the tie the way PHP 8's stable `asort` does, not the way PHP 7.4's sort does; "## Left out" gives the input on which they differ.

Some things a reader might expect are absent from the code itself, and so from the model:

- the code never decrements a counter on a rejected request;
- it has no storage statistics, no migrations and no version markers.

Statements are built by hand-coded interpolation, exactly as the code writes them. The quirks stay in:

- a skipped entry in a multi-entry `WHERE` level still gets its connective written before it (see `WhereClause.SkipStep`);
- the one-element limit `[0]` renders as `LIMIT 0`, while a bare `0` renders as no clause at all (see `Command.LimitCollapse`);
- the field `"*"`, which the documentation of `select` names as a valid `$fields`, is backticked like any single name, so it selects a column called `*` (see `Command.StarFieldIsQuoted`);
- an insert takes its columns from the row under key 0, not from the first row visited (see `Command.ColumnsFromKeyZero`).

## Model

| member | source | states |
|---|---|---|
| Tools.EscapeRoundTrip | src/tools.php:25 | the escaped text has every `'` doubled and reads back as the original string |
| Tools.QuoteContract | src/tools.php:16-31 | `quote` raises "Invalid data type" exactly on a truthy non-scalar; an int reads back as itself; a bool is `1`/`0`; a string is a `'`-delimited literal with paired inner quotes that reads back as the string; null and a falsy array are `NULL` |
| Patterns.PlainKey | src/Command.php:201-203 | a bracket-free key is the column name with the default operator `=` |
| Patterns.AnnotatedRoundTrip | src/Command.php:201-203 | a key or order entry written `name[op]` is parsed back into exactly `name` and `op` by both the filter-key and the order patterns |
| Patterns.ParseKeySound | src/Command.php:201-203 | whatever the filter-key pattern accepts is `name` or `name[op]` (up to a final line break), with a non-empty bracket-free name and a non-empty one-line operator |
| Patterns.CallShapeMatches | src/Command.php:107 | every text ending in a word character and `()`, optionally followed by one line break, matches the raw-expression pattern |
| Patterns.CallShapeHasParens | src/Command.php:107 | every text the raw-expression pattern accepts contains `()` |
| Php.StringKeyedMembers | src/Command.php:197 | the string-key filter keeps exactly the string-keyed entries |
| Php.StringKeyedConcat | src/Command.php:197 | the string-key filter distributes over concatenation |
| Php.SplitJoin | src/Pool.php:47 | `implode` undoes `explode` on the same separator |
| Php.JoinNoSep | src/Pool.php:47 | `explode` undoes `implode` when no part contains the separator |
| Command.TableName | src/Command.php:25-29 | the rendered identifier starts and ends with a backtick |
| Command.TableNameRoundTrip | src/Command.php:25-29 | a name, or a `[database, name]` pair, without backticks is recovered from its rendering |
| Command.TableNameInjective | src/Command.php:25-29 | two different tables without backticks never render alike |
| Command.GenLimit | src/Command.php:247-259 | the clause is empty exactly for a falsy limit, and otherwise starts with `"\n LIMIT "` |
| Command.LimitNestedPair | src/Command.php:251-255 | `[[a, b]]` collapses to `[a, b]` and renders as `"\n LIMIT a b"` |
| Command.LimitRoundTrip | src/Command.php:258 | a non-zero int `n` renders as `"\n LIMIT n"`, and `n` reads back from the clause |
| Command.LimitCollapse | src/Command.php:249-258 | a one-element array `[n]` renders as `"\n LIMIT n"`, like the int `n` when `n` is non-zero; the int 0 renders nothing |
| Command.LimitPair | src/Command.php:251-255 | `[a, b]` renders as `"\n LIMIT a b"` |
| Command.LimitAnyPair | src/Command.php:251-255 | every array whose int-keyed, collapsed form is a printable array of two or more entries renders `"\n LIMIT "`, its index 0, a space and its index 1 |
| Command.LimitOffsetCount | src/Command.php:251-255 | every array holding ints `a` and `b` under keys 0 and 1 renders `"\n LIMIT a b"`, whatever its entry order and other entries |
| Command.RowsOf | src/Command.php:45-59 | a single row becomes a one-row list; a list's entries are the rows, in order, and an entry that is not an array counts as an empty row |
| Command.FirstRow | src/Command.php:49 | `$inserts[0]` is the single row itself, or the array stored under key 0 of a list; a list without one gives no columns |
| Command.FieldNames | src/Command.php:47-53 | defined as the keys of the column row, each in backticks; there is one per key |
| Command.FieldList | src/Command.php:47-53 | the loop yields the backticked keys of the column row, joined by `", "` |
| Command.Literals | src/Command.php:59-61 | a row's values quote without error exactly when each one does, and then give one literal per value, in order |
| Command.Tuple | src/Command.php:58-64 | a row's tuple fails exactly when some value fails to quote, and otherwise is delimited by `( ` and ` )` |
| Command.RowTuple | src/Command.php:58-64 | the inner loop yields `"( " + literals joined ", " + " )"`, or the first quoting error |
| Command.Tuples | src/Command.php:55-67 | all rows render exactly when each row does, one tuple per row in order |
| Command.ValuesList | src/Command.php:55-67 | the outer loop yields the tuples joined by `",\n "`, or the first error |
| Command.Assignments | src/Command.php:72-77 | there are never more assignments than columns |
| Command.ConflictClause | src/Command.php:69-79 | the loop yields `"\n ON CONFLICT(idx)\n DO UPDATE SET\n"` and the assignments, and the empty string without indexes |
| Command.Insert | src/Command.php:42-84 | the insert statement is `INSERT INTO table (fields) VALUES tuples` with the upsert clause, the fields and the upsert columns taken from `$inserts[0]` and the tuples from every row in order; or the first quoting error |
| Command.AssignmentInjective | src/Command.php:75 | an assignment `` `f` = excluded.f`` determines its column |
| Command.AssignmentsExact | src/Command.php:73-77 | the upsert assigns a column exactly when the first row has it and it is not a conflict index |
| Command.UpsertOnlyWithIndexes | src/Command.php:69-79 | the upsert clause is present exactly when the index list is non-empty, and then starts with `ON CONFLICT(` and the indexes |
| Command.InsertFailsIff | src/Command.php:55-67 | an insert fails exactly when some value of some row is a truthy non-scalar |
| Command.NoFirstRow | src/Command.php:47-79 | a list with no array under key 0 gives the empty column list `(  )` and an upsert clause that assigns nothing |
| Command.ColumnsFromKeyZero | src/Command.php:49-57 | with `[1 => a, 0 => b]` the rows are visited as `a`, `b` while the columns come from `b` |
| Command.SetEntries | src/Command.php:104-115 | the assignments render exactly when each one does, one per pair in order |
| Command.SetList | src/Command.php:104-115 | the loop yields the assignments joined by `",\n  "`, or the first error |
| Command.Update | src/Command.php:98-120 | the update statement is `UPDATE table SET assignments` with the filter and the limit; a filter error comes first |
| Command.RawExpression | src/Command.php:107-109 | a string ending in `word()` is assigned verbatim |
| Command.QuotedAssignment | src/Command.php:112 | any other string is assigned as a quoted literal that reads back as the string |
| Command.UpdateFailsIff | src/Command.php:98-117 | an update fails exactly when the filter fails or some assigned value is a truthy non-scalar |
| Command.DeleteFilter | src/Command.php:133-142 | a delete fails exactly when its filter does; with no string key in the filter and no limit it is `DELETE FROM table;` |
| Command.OrderDirection | src/Command.php:172-177 | an order entry `field[dir]` renders as `` `field` dir`` |
| Command.OrderPlain | src/Command.php:178 | a bracket-free order entry renders as the backticked name |
| Command.OneFieldList | src/Command.php:161-166 | a one-element field list renders like the single field name |
| Command.FieldListOfNames | src/Command.php:161-166 | a list of n names renders as the n backticked names joined by `", "` |
| Command.FieldListSnoc | src/Command.php:161-166 | appending a name to a non-empty field list appends `, ` and that backticked name to the rendering |
| Command.SelectOnlyFields | src/Command.php:157-192 | without filter, order or limit, a select is `SELECT`, its field list, `FROM` and the table, and nothing more |
| Command.SelectEverything | src/Command.php:157-192 | a select with only a table is `SELECT * FROM table;` |
| Command.StarFieldIsQuoted | src/Command.php:161-162 | the field `"*"` renders as the backticked name `` `*` ``, unlike the default `*` |
| WhereClause.GenWhere | src/Command.php:194-245 | the recursive loop form of `genWhere` equals the reference definition `Where` |
| WhereClause.AppendItems | src/Command.php:225-244 | the `foreach` over a level yields the opened group, the entries with their connectives, and ` )`, or the first error |
| WhereClause.AppendEntry | src/Command.php:228-241 | one turn renders an `AND`/`OR` group recursively without prefix, skips arrays under other keys, objects and bools, and renders anything else as a comparison |
| WhereClause.WhereOfGroup | src/Command.php:231-232 | the recursive call on `[AND/OR => array]` is that array's level without prefix |
| WhereClause.EmptyFilter | src/Command.php:196-217 | a non-array, a filter without string keys, or an `AND`/`OR` value that is not an array or has no string keys renders as the empty string |
| WhereClause.LeadingConnective | src/Command.php:208-216 | a first string key `AND`/`OR` becomes the level's connective and its value the level's entries; later siblings are dropped; a non-array value gives the empty fragment, as `array_filter` returns null for it |
| WhereClause.SingleEntry | src/Command.php:219-222 | one remaining entry renders without parentheses, as the prefix followed by the comparison |
| WhereClause.SingleComparison | src/Command.php:200-222 | a single `name => v` renders as prefix, `` `name` = ``, and `v`'s literal |
| WhereClause.SingleAnnotatedComparison | src/Command.php:200-222 | a single `name[op] => v` renders as prefix, `` `name` op ``, and `v`'s literal |
| WhereClause.ManyEntriesParenthesised | src/Command.php:225-244 | a level of two or more entries is the prefix, `"\n  ("`, the entries, and `" )"` |
| WhereClause.Rendered | src/Command.php:200-205 | each plain entry renders as its comparison, one per entry |
| WhereClause.FlatItems | src/Command.php:226-242 | the loop over plain comparisons yields them joined by the connective |
| WhereClause.FlatLevel | src/Command.php:225-244 | a level of plain comparisons is the comparisons joined by the connective, inside the parentheses |
| WhereClause.FlatAnd | src/Command.php:208-244 | without a leading `AND`/`OR` key, plain sibling comparisons are joined by `AND` |
| WhereClause.FlatOr | src/Command.php:208-244 | under a leading `OR` key, plain comparisons are joined by `OR` |
| WhereClause.SkipStep | src/Command.php:228-238 | a skipped entry (bool, object, or array under another key) adds nothing but the connective, which is written when an entry was already rendered, and does not change the first-entry flag |
| Pool.FirstMin | src/Pool.php:94-96 | the first least-loaded index is a valid slot |
| Pool.FirstMinIsLeast | src/Pool.php:94-96 | the stable `asort` + `key` pick has the least counter, and every earlier slot carries more load |
| Pool.Advance | src/Pool.php:89 | the advanced pointer is always a valid slot |
| Pool.Choose | src/Pool.php:87-100 | the chosen slot is always in `[0, size)` |
| Pool.RoundRobinTurns | src/Pool.php:89-99 | under round-robin, the slot is the pointer plus one, modulo the size |
| Pool.ByLoadPicksLeastLoaded | src/Pool.php:91-96 | under the load policy, the chosen slot has the least counter; an idle advanced slot is taken; otherwise ties go to the lowest index |
| Pool.TieGoesToLowestSlot | src/Pool.php:94-96 | with counters `[2, 1, 1]` and the pointer at 2, the load policy picks slot 1, the lower of the two tied slots |
| Pool.IdlePoolTakesNextSlot | src/Pool.php:89-92 | with every counter at zero both policies take the next slot, so the first dispatch after `init` goes to `1 mod size` |
| Pool.Pool.constructor | src/Pool.php:36-76 | the first `init` of a process leaves `size` counters, all zero, the pointer at 0, and the policy chosen by the selector; the statistic is then `poolSize` with `poolSize` zeros |
| Pool.Pool.Stat | src/Pool.php:79-85 | the statistic reports the pool's size and, slot by slot, its current counters |
| Pool.Pool.FirstLeastLoaded | src/Pool.php:94-96 | the scan yields the first index of the least counter |
| Pool.Pool.ShiftPointer | src/Pool.php:87-100 | the pointer moves to the chosen slot, and that slot is returned; the counters are untouched |
| Pool.Pool.Dispatch | src/Pool.php:102-106 | the chosen slot's counter goes up by one and no other counter changes; the invariant is kept |
| Pool.Pool.Settle | src/Pool.php:107-110 | a fulfilled request decrements its slot's counter and nothing else; a rejected one leaves every counter as it was and stays counted as leaked |
| Pool.ShouldBootstrap | src/Pool.php:41-46 | the schema is applied only to a database file that did not exist before and from a schema file that exists and has a truthy name (not empty, not `0`); every such case is applied |
| Pool.StripEngine | src/Pool.php:49 | defined as the left-to-right removal of each ` ENGINE=` with its word; the text never grows |
| Pool.StripComments | src/Pool.php:50 | defined as the left-to-right removal of each `--` up to and including the next line break; the text never grows |
| Pool.Without | src/Pool.php:51 | the line breaks are all removed |
| Pool.NonEmpty | src/Pool.php:60-62 | the filter keeps exactly the non-empty fragments |
| Pool.SchemaStatements | src/Pool.php:47-62 | every statement of the split schema is non-empty and contains neither `;` nor a line break |
| Pool.SchemaStatementsCover | src/Pool.php:47-62 | the statements, run together, are the cleaned schema text without its `;`: nothing but separators and empty fragments is lost, and nothing is reordered |
| Pool.NoEngineUntouched | src/Pool.php:49 | text in which no ` ENGINE=` is followed by a word character passes the engine replacement unchanged |
| Pool.NoCommentUntouched | src/Pool.php:50 | text in which no `--` has a line break somewhere after it passes the comment replacement unchanged |
| Connection.DefaultsDistinct | src/Connection.php:24-31 | the default pragma names are distinct |
| Connection.DefaultOf | src/Connection.php:24-31 | a name has a default exactly when it is one of the six, and then it is that default |
| Connection.MergePragma | src/Connection.php:47-50 | the `??=` loop yields the closed-form merge: caller entries in place with nulls under default names filled, then the missing defaults in default order |
| Connection.Connection.constructor | src/Connection.php:33-55 | the connection keeps the caller's `onError` handler, and exactly one `PRAGMA` statement is issued per merged entry, in merged order |
| Connection.AllDefaultsPresent | src/Connection.php:48-50 | every default name is in the merged list |
| Connection.CallerEntries | src/Connection.php:47-50 | each caller entry keeps its place and name; a non-null value is kept; a name without a default keeps its entry unchanged; a null under a default name takes the default |
| Connection.EmptyGivesDefaults | src/Connection.php:47-50 | an empty pragma argument yields exactly the six defaults, in order |
| Connection.StatementShape | src/Connection.php:53 | each statement starts with `PRAGMA ` followed by the entry's name, and ends in `;` |
| Connection.Route | src/Connection.php:62-88 | a fulfilled call passes through; a failure becomes the handler's value when a handler is set, and is rethrown otherwise |
| Connection.Complete | src/Pool.php:107-110 | the outcome is routed through the connection's own `onError` handler, and the request's counter comes down exactly when the call succeeded or that handler absorbed its failure |

## Left out

- Promises, the React event loop and `\React\Async\await`. A request's completion is an explicit `Settle`/`Complete` call, and the counters are single-threaded state.
- The `query` dispatch at the end of each builder. The model stops at the statement text.
- `Command::ping` (wall-clock floats), `Pool::ping` and `Connection::ping`.
- The driver calls of `Connection`: opening the database, re-emitting the `error` and `close` events, forwarding `exec`/`query`, `quit`, `close`, and the `PRAGMA optimize` of the destructor. These are foreign I/O.
- `file_exists` and `file_get_contents` in `init`. They become the boolean and text inputs of `ShouldBootstrap` and `SchemaStatements`.
- Running the schema statements, and the `echo` of their results.
- Opening the connections themselves.
- `Pool.Pool.constructor`: a pool size below 1 is excluded by a precondition. With size 0 the first dispatch divides by zero.
- `Pool.Pool.constructor`: the model allows one `init` per process, with fresh static state. The code never resets `$poolPointer`. A second `init` keeps the old pointer, and it keeps the counters at slots from the new size upward, which `statistic` then reports and `asort`/`key` can pick. Those stale counters are not modelled.
- Floats in `quote` and anywhere else. Only ints are modelled.
- Ints are unbounded, so PHP's 64-bit overflow to float is not modelled.
- PHP's normalisation of numeric-string array keys such as `"5"` to int keys is not modelled. The filters see keys as given.
- Loose comparison is not modelled:
  - `array_search` in the upsert clause compares column names by plain string equality;
  - the `== 'AND'`/`== 'OR'` tests are on string keys only, where loose and strict comparison agree.
- `array_depth` is not part of this model. The choice between one row and a list of rows is an explicit input (`Command.Inserts`).
- `Php.Value` can hold an array that repeats a key or has a decimal-integer string key. No PHP array has either, and the model gives such values no PHP meaning.
- `SQLite3::escapeString` is taken to double `'` and change nothing else.
- Non-scalar interpolation is excluded by preconditions (`Printable`, `LimitDefined`):
  - an array or object as a field name, order entry or limit part;
  - `tableName` on anything but a string or a pair;
  - `genLimit` on input for which it falls off its end without returning: a truthy non-int scalar, or an array whose collapsed form is neither an int nor an array of two or more entries.
- `Command.LimitCollapse` relies on PHP 7.4, where `count()` of an int is 1. Under PHP 8 that call raises a `TypeError`.
- `Pool.Choose`, `Pool.Pool.ShiftPointer`, `Pool.ByLoadPicksLeastLoaded` (and `Pool.FirstMinIsLeast`) break ties among the least-loaded slots by lowest index, as PHP 8's stable `asort` does. PHP 7.4's sort is not stable. With counters `[2, 1, 1]` and the pointer at 2, PHP 7.4 sorts the three elements by swapping the first and the last, so `key()` gives slot 2; the model picks slot 1.
- `Command.Update`: a set value that is not a string is never taken as a raw expression; it always goes through `quote`. Its string form (digits, `1`, or empty) cannot end in `()`.
- An `onError` handler that itself throws is not modelled. The handler is a total function.
- `Connection.Connection.constructor` models the caller's pragma values as already interpolated text, or null.
- `WhereClause.SkipStep` keeps the source's behaviour of writing the connective before an entry it then skips. This can double the connective or leave one before the closing parenthesis. The model renders it as written.
- The code has no storage statistics, no migrations and no version markers, and never decrements a counter on a rejected request. The model has none of these either.
