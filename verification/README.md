# TinyDB in Dafny

A model of the TinyDB SQL engine and proofs of what its design promises: an index that agrees with
its table, transactions that survive a crash, queries whose fast forms mean what the simple ones
mean, and text that reads back.

Each module follows one part of the engine:

- `Values`, `Catalog`: run-time values with Python's equality and order, schemas, CREATE TABLE.
- `BTreeNodes`, `BTreeInsert`, `BTreeBulk`, `BTreeDelete`, `BTreeCheck`, `BTreeIndex`: the B-tree,
  its written invariant, and index generations on pages. Trees are values; a node's traversal is the
  specification of every operation.
- `Storage`, `Table`: row and index pages as decoded values, and the table store over them.
- `Expressions`, `Planner`, `Agreement`, `Plans`: evaluation, plan choice, and why a plan keeps the
  meaning of a WHERE.
- `Consistency`, `Statements`, `Executor`, `Runs`: statements row by row, keeping every constraint
  index in step, and what that means over whole scripts.
- `Pages`, `FileStore`, `Recovery`, `FileManager`, `Transactions`: the file as bytes, the snapshot in
  its own pages, crash recovery, savepoints, and the objects that do it.
- `Engine`: the executor's statements on the bytes of the file.
- `HeaderRoom`: the header page has no room for every state, so some BEGIN is refused.
- `SingleWriter`: any number of instances and processes as a state machine of small steps.
- `Join`, `Ordering`, `Grouping`: the nested-loop join, ORDER BY and paging, GROUP BY and aggregates.
- `Queries`: the whole SELECT, from the chosen or joined rows to the answer, and what of it depends on the
  plan.
- `Lexer`, `Script`, `Syntax`, `Parser`, `Definitions`, `Texts`: tokenizer, script splitter, grammar, the
  parser object, the text of `.schema`, and conditions as text.

Methods carry the loops and field updates of the source and are proved against functions on values;
lemmas state what the design promises about those functions. Parameters stand for what lies outside:
the JSON text of the header (`Codec`, with a round-trip hypothesis), whether a page or header fits
its size, Python's character tables and number conversions (`Chars`, with the hypotheses `Plain` and
`Capitals`), and the file lock (taken or refused). A page write and the restore of a snapshot are
atomic; a crash may fall between any two of them.

Where the code and a natural expectation differ, the code is kept and the difference is a lemma:

- Index names join table and column by an underscore, so two can collide (`NamesCanCollide`). CREATE
  then empties the other index, and rows are no longer found through it (`OvertakenRowIsLost`,
  `CollisionExists`). `TableCreated` gives the exact condition for one CREATE, `MomentsExactIff` for
  whole scripts. Afterwards two tables share the index; what each statement keeps is the agreement of
  a table with its own entries, which is all the read step looks at (`ReadsOwn`). That an index holds
  nothing else needs distinct names (`IndexesAgree`, `SharedIndexExists`,
  `SharedIndexIsExactOnlyIfEmpty`).
- A literal that does not fit the column makes an index lookup raise where the scan's `=` is false
  (`LookupRaisesIff`, `PlanRunsIff` give the exact condition, `MisfitExists` an input).
- The order of an answer, and so what a LIMIT cuts off, can depend on the plan: rows are found in index
  order or in record order, and a sort keeps that order among tied rows. It cannot exactly if no two
  different rows are tied (`FindingOrderIsInvisibleIff`), as under ORDER BY a key (`AnswerIgnoresPlan`).
- A BEGIN refused while writing the marked header keeps the marker in memory and the appended pages
  in the file, and every later BEGIN of that instance is refused (`RefusedBeginSticks`). `Begin` states
  exactly when that happens, and `SomeBeginIsRefused` that it can for every header encoding.
- The in-process set of active writers can miss a live writer (`RegistryCanMissLiveWriter`): exactly
  after another instance of the process has left it (`RegistryMissesIff`), and never when check and
  join fall together (`CheckedJoinsAreExact`). The file lock is what keeps writers apart.
- The marker of a live transaction can be taken out of the file by an instance that is not in one
  (`OutsideReadErasesMarker`), exactly by its writing a header (`MarkerStaysIff`).

The executor writes decoded pages and the file holds bytes; `Storage` keeps a ghost log of every
write, with a precondition at each that only recorded pages are overwritten and only recorded or new
pages named, and `Engine` replays that log on the bytes. Between statements the header in the file is
the state in memory and fits its page, which a successful BEGIN establishes (`BeginShows`).

## Model

| member | source | states |
|---|---|---|
| Values.LessTrichotomy | tinydb/index/btree.py:468-469 | Any two key values are less, greater or the same, never two of these: equality joins integers, floats and booleans, order is defined within a kind |
| Values.LessNegTransitive | tinydb/index/btree.py:461-469 | Not-less is transitive, so sorting and placement by comparison are meaningful |
| Values.LessMeans | tinydb/index/btree.py:468-469 | The order of two comparable values is that of their numbers, or of their texts: a proper prefix, or the smaller first differing character, comes first |
| Catalog.Validate | tinydb/types.py:22-36 | A column takes NULL and values of its own kind, a FLOAT column integers too, and nothing else; the stored value has the column's type or is NULL, compares equal to the given one, and typed values pass unchanged |
| Catalog.ApplyCreateTable | tinydb/catalog.py:37-67 | CREATE succeeds exactly when the table is new, column names differ and at most one column is the primary key; the schema gives key columns NOT NULL and UNIQUE; on failure the catalog is as before |
| BTreeNodes.MaxKeyIsLast | tinydb/index/btree.py:429-432 | The separator source of a populated tree is the key of its last entry |
| BTreeInsert.EntryInsertPosition | tinydb/index/btree.py:390-394 | The position is the first whose entry is greater; for a newest entry it is behind every entry with a key at most the new one |
| BTreeInsert.ChildIndexForKey | tinydb/index/btree.py:397-401 | The child is the first whose separator is greater than the key |
| BTreeInsert.ChildWindow | tinydb/index/btree.py:397-401 | Everything left of the chosen child is at most the key and everything right of it is above, from separators that are child maxima |
| BTreeInsert.InsertedSorted | tinydb/index/btree.py:390-394 | Placing a newest entry behind all keys at most its own keeps the entries sorted by key and then sequence |
| BTreeInsert.InsertedMultiset | tinydb/index/btree.py:144-151 | Insertion adds exactly one entry |
| BTreeInsert.SplitLeaf | tinydb/index/btree.py:338-340 | An overfull leaf splits in two leaves within the occupancy bounds with the same entries in order |
| BTreeInsert.SplitInternal | tinydb/index/btree.py:343-345 | An overfull inner node splits in two valid nodes of the same height with the same entries in order |
| BTreeInsert.InsertIntoNode | tinydb/index/btree.py:144-163 | For every order of at least 3 the result (one node or two) is valid at the same height and its traversal is the old one with the entry behind all keys at most its own |
| BTreeInsert.AfterDescent | tinydb/index/btree.py:153-160 | Replacing the chosen child by the result of the descent inserts the entry at its place of the whole traversal |
| BTreeInsert.InsertAtRoot | tinydb/index/btree.py:100-106 | Insertion keeps every invariant of the tree and places the entry after all entries with key at most its own |
| BTreeBulk.QuotientIsEnough | tinydb/index/btree.py:368-378 | For the leaf and inner bounds of any order of at least 3 and any total above the maximum, the even shares of the first count already reach the minimum, so the lowering loop never lowers it |
| BTreeBulk.BalancedSizes | tinydb/index/btree.py:368-378 | The sizes sum to the total, differ by at most one and lie between minimum and maximum |
| BTreeBulk.OrderPairsShareable | tinydb/index/btree.py:408-417 | The (maximum, minimum) pairs of leaves and of inner nodes of any order of at least 3 can always be shared evenly |
| BTreeBulk.PackLeaves | tinydb/index/btree.py:351-357 | The leaves of the given sizes hold the entries in order |
| BTreeBulk.PackInner | tinydb/index/btree.py:359-365 | Grouping a level gives valid parents one level higher with the same traversal |
| BTreeBulk.BulkLoadEntries | tinydb/index/btree.py:348-365 | Terminates for every order of at least 3 with a valid tree whose traversal is the input |
| BTreeBulk.CeilDivShrinks | tinydb/index/btree.py:359-365 | Each level is strictly shorter than the one below |
| BTreeDelete.KeptCounts | tinydb/index/btree.py:174-180 | Deletion removes every entry with the key and pointer (any pointer if none is given) and no other copy of anything |
| BTreeDelete.DeleteFromNode | tinydb/index/btree.py:165-194 | The traversal of the possibly unbalanced intermediate tree is the old one without the matching entries; it is empty or populated throughout, so separators are only computed on non-empty children |
| BTreeDelete.DeleteAtRoot | tinydb/index/btree.py:116-121 | After the rebuild the tree satisfies every invariant again and holds exactly the remaining entries in order; with no match it is untouched |
| BTreeCheck.AssertedIffValid | tinydb/index/btree.py:251-323 | The repository's own invariant check passes on a tree exactly when the structural invariant used in these proofs holds |
| BTreeIndex.LatestIsNewest | tinydb/index/btree.py:196-211 | The image chosen by the scan has the highest generation of its name, and is on the last page among equals |
| BTreeIndex.LatestAppend | tinydb/index/btree.py:196-243 | A page of a new generation becomes the chosen image of its name and of no other name |
| BTreeIndex.LatestOverwrite | tinydb/index/btree.py:196-211 | Overwriting a row page changes the chosen image of no index |
| BTreeIndex.Index.constructor | tinydb/index/btree.py:76-89 | A loaded index is the newest image of its name, or empty |
| BTreeIndex.Index.Insert | tinydb/index/btree.py:100-107 | On success the stored entries are the old ones with the new one placed, and one page is appended, the image of what is in memory, order and next sequence included; it raises a type error exactly on NULL or a key incomparable with the stored ones, a storage error exactly when its new image is too large for a page, and then no page changed |
| BTreeIndex.Index.Build | tinydb/index/btree.py:109-114 | The content becomes the given pairs, numbered on from the last sequence and sorted, and the image of what is in memory is appended; it raises exactly on NULL, on keys incomparable with each other, or on an image too large for a page |
| BTreeIndex.Index.Delete | tinydb/index/btree.py:116-122 | Removes exactly the matching entries and appends the image of what is in memory, and nothing when none matches; it raises exactly on NULL, on a key incomparable with the stored ones, or, if something matched, on an image too large for a page |
| BTreeIndex.Index.Matches | tinydb/index/btree.py:64-72 | A lookup returns exactly the pointers of the selected entries in key order, or raises exactly when a comparison it makes is between incomparable keys (with one bound, as the planner makes them: when that bound is incomparable with a stored key) |
| BTreeIndex.Probe | tinydb/index/btree.py:435-450 | One entry's comparisons agree with the selection, and raise exactly on an incomparable bound that is looked at |
| BTreeIndex.SelectsMeans | tinydb/index/btree.py:435-450 | A lookup selects exactly the keys that are the same as its key, or that lie within its bounds as numbers or texts, the bounds themselves exactly where included |
| BTreeIndex.NewestImageWins | tinydb/index/btree.py:196-243 | After any sequence of images, row pages and overwrites, with several indexes interleaved, loading a name gives its last persisted tree, order and next sequence |
| Table.ScanIsRows | tinydb/storage/table.py:69-80 | The scan lists every live row once, in record order |
| Table.TableStore.NormalizeRow | tinydb/storage/table.py:82-94 | A row is accepted exactly when it has no unknown column, its values fit their types and required columns are given; the result is its stored form, with every column |
| Table.NormalRowOk | tinydb/storage/table.py:82-94 | The stored form of an accepted row is well typed, has no NULL where none may be, and its values compare equal to the given ones |
| Table.NormalNoClash | tinydb/storage/table.py:82-114 | The stored form of a row clashes with the same live rows as the row given, so uniqueness can be judged on either |
| Table.FittingMeans | tinydb/storage/table.py:82-114 | A table takes a row exactly when it has no unknown column, every column a value of a kind its type takes, or NULL where that may be, and no key or UNIQUE column a value that is the same as another row's |
| Table.TableStore.CheckUnique | tinydb/storage/table.py:96-114 | Raises exactly when another live row shares a non-NULL value of a key or UNIQUE column |
| Table.TableStore.Insert | tinydb/storage/table.py:27-34 | Adds exactly the stored form of the row under a new pointer and keeps every table constraint; a constraint error is raised exactly when the row is not acceptable or clashes, and nothing else can fail while no write is refused for its size |
| Table.TableStore.Update | tinydb/storage/table.py:46-53 | Replaces exactly the row of the pointer by the stored form of the new one; a constraint error is raised exactly when the pointer is live and the new row is not acceptable or clashes with another, and otherwise it succeeds for every live pointer whose write is not refused for its size |
| Table.TableStore.Delete | tinydb/storage/table.py:55-67 | Removes exactly the row of the pointer; it succeeds for every live pointer if none of its writes is refused for its size |
| Table.TableStore.Read | tinydb/storage/table.py:36-44 | Reads the live row of a pointer and raises for any other pointer |
| Table.AppendedRow | tinydb/storage/table.py:27-34 | Appending a checked row keeps rows typed, required columns non-NULL and unique values distinct |
| Table.RewrittenRow | tinydb/storage/table.py:46-53 | Rewriting a row in place does the same and changes no other row |
| Table.DeletedRow | tinydb/storage/table.py:55-67 | Marking a record deleted removes its row only |
| Planner.CandidateIsIndexed | tinydb/planner.py:181-235 | A plan only ever uses a key or UNIQUE column and one non-NULL bound |
| Planner.ComparisonImplied | tinydb/planner.py:196-245 | A row accepted by an indexed comparison, with the literal on either side, is selected by its lookup |
| Planner.LookupImplied | tinydb/planner.py:181-227 | A row accepted by the whole AND/OR/comparison tree is selected by the chosen lookup |
| Planner.CandidateIff | tinydb/planner.py:181-227 | An index is used exactly when some condition that AND joins at the top compares (=, <, <=, >, >=) a key or UNIQUE column with a literal other than NULL, on either side, and then for the first such condition |
| Planner.LookupIsComparison | tinydb/planner.py:190-245 | On keys comparable with its literal a lookup selects exactly those of which the comparison holds |
| Expressions.LeavesMean | tinydb/sql/expressions.py:7-33 | A missing WHERE accepts every row, a literal when it is true, not zero or not empty; a name is the value of its column and raises without one; an aggregate raises |
| Expressions.OrMeans | tinydb/sql/expressions.py:63-64 | OR accepts a row when its left or its right side does; it raises exactly when the left side does, or does not accept the row and the right side raises |
| Expressions.AndMeans | tinydb/sql/expressions.py:61-62 | AND accepts a row when both sides do; it raises exactly when the left side does, or accepts the row and the right side raises |
| Expressions.ComparisonRaises | tinydb/sql/expressions.py:66-87 | A comparison raises exactly when a side does, the left one first, or an order is asked of two values that are neither both numbers nor both texts |
| Expressions.ComparisonMeans | tinydb/sql/expressions.py:66-87 | The truth of the six comparisons in terms of numbers and texts: equality joins all numbers and otherwise a value with itself, NULL included; != is its negation, <= and >= add it to < and > |
| Agreement.DeleteMirrors | tinydb/executor.py:335-347 | Deleting a row's entry turns an index that mirrors the table, exactly or with entries missing, into one that so mirrors the table without it |
| Agreement.InsertMirrors | tinydb/executor.py:321-333 | Inserting a row's entry does the converse |
| Agreement.OwnInserted | tinydb/executor.py:321-333 | Inserting an entry shows only among the entries of its own table, also when two tables share an index name |
| Agreement.OwnKept | tinydb/executor.py:335-347 | Deleting the entries of a pointer shows only among the entries of its own table |
| Agreement.EmptyMirrorsIff | tinydb/executor.py:78-85 | An index without entries of a table still mirrors it exactly if and only if no live row has a value in the column |
| Agreement.IndexRows | tinydb/executor.py:218-240 | Reading the pointers of a lookup gives exactly the live rows whose value it selects, each once |
| Agreement.IndexPlanPreservesMeaning | tinydb/executor.py:208-240 | With an exact index, possibly shared with another table, the rows accepted through it are a permutation of those accepted by the scan, for every predicate tree |
| Agreement.ReadsOwn | tinydb/executor.py:228-240 | Reading the pointers of a lookup passes over entries of other tables |
| Agreement.IndexPlanIsSound | tinydb/executor.py:218-240 | Even an index that has lost entries answers with live rows only, none twice |
| Agreement.IndexPlanFinishes | tinydb/executor.py:208-240 | Where the scan evaluates without error, so does the index plan |
| Agreement.LookupRaisesIff | tinydb/index/btree.py:124-139 | In an index of the table's own, a lookup raises if and only if some live value is not NULL and the literal does not fit the column's type, where the scan's equality would just be false |
| Agreement.PureTakes | tinydb/index/btree.py:461-469 | In such an index a stored key can be compared with a value exactly if that value fits the type of the column, so index maintenance never raises |
| Plans.PlanKeepsMeaning | tinydb/executor.py:208-240 | With exact indexes the rows chosen are a permutation of those a scan accepts, the accepted live rows each once, and filtering them raises nothing that the scan's filtering would not |
| Plans.MatchedAreAccepted | tinydb/executor.py:208-240 | The rows chosen are accepted live rows, each once, and with exact indexes all of them |
| Plans.PlanRunsIff | tinydb/executor.py:218-240 | With exact indexes of the table's own the lookup of a plan raises nothing if and only if its literal fits the column or no live row has a value there |
| Plans.EitherOrBoth | tinydb/executor.py:208-240 | With exact indexes, whatever plans are chosen, the rows chosen for OR are those chosen for either side and for AND those chosen for both, as far as both evaluate |
| Plans.ComparisonChooses | tinydb/executor.py:208-240 | With exact indexes a comparison of a column with a literal chooses exactly the live rows whose value is in that relation to it, as numbers or texts; without a WHERE all are chosen |
| Consistency.NamesCanCollide | tinydb/planner.py:97-98 | Two different (table, column) pairs can have one index name |
| Consistency.SharedIndexIsExactOnlyIfEmpty | tinydb/planner.py:97-98 | No index can hold exactly the pairs of each of two tables, unless neither has a value in its column |
| Consistency.OneTableChanged | tinydb/executor.py:94-134 | A change to one table leaves the rows of every other table and its index entries as they were, shared index names or not |
| Consistency.SeparateIsExact | tinydb/executor.py:321-365 | With distinct index names and no leftover entries, an exact index holds exactly the (value, pointer) pairs of the live rows whose value is not NULL |
| Consistency.StaysSeparate | tinydb/executor.py:94-134 | Changing rows of one table leaves no entries of one table in another table's indexes |
| Consistency.ConsistentUnderForeignPage | tinydb/storage/file.py:284-298 | Appending a snapshot page keeps every table and index as it is |
| Statements.ReassignMeans | tinydb/executor.py:105-121 | Reassigning the chosen rows in turn gives every accepted row the stored form of a row whose columns have the values of their last assignments, each evaluated on the old row, and their old values otherwise; the other rows stay |
| Statements.AssignedMeans | tinydb/executor.py:112-116 | The assignments raise exactly when one of them does on the old row, with the first one's error; otherwise every column has the value on the old row of the last assignment to it, and its old value without one |
| Statements.AssignedFromUnique | tinydb/executor.py:112-116 | There is only one such row |
| Statements.ValidColumnsIff | tinydb/executor.py:289-319 | A WHERE is taken exactly when every plain name in it, at any depth, is a column of the table and none is `*` |
| Statements.DeleteMeans | tinydb/executor.py:123-134 | Removing the chosen rows leaves the rows the WHERE does not accept, and with exact indexes only those |
| Statements.TableCreated | tinydb/executor.py:78-85 | CREATE keeps all indexes exact if and only if no live row of another table has a value in a column whose index name the new table takes; rows of other tables stay in any case |
| Statements.CreatedSeparate | tinydb/executor.py:78-85 | A CREATE that takes no index name in use keeps every index its table's own |
| Statements.TableDropped | tinydb/executor.py:87-92 | DROP leaves all other tables and their indexes as they were |
| Statements.EffectMeans | tinydb/executor.py:105-134 | With exact indexes UPDATE and DELETE change exactly the rows that the WHERE accepts; with indexes that have lost entries they may pass over some but touch no others |
| Executor.Executor.InsertIndexEntries | tinydb/executor.py:321-333 | After the loop every constraint index mirrors the table with the new row, entries of other tables untouched; unless a write is refused for its size it raises only if a value cannot be compared with the keys of its index |
| Executor.Executor.DeleteIndexEntries | tinydb/executor.py:335-347 | After the loop every constraint index mirrors the table without the row, entries of other tables untouched; unless a write is refused for its size it raises only if a value cannot be compared with the keys of its index |
| Executor.Executor.UpdateIndexEntries | tinydb/executor.py:349-365 | After the loop every constraint index mirrors the table with the row replaced, unchanged values being skipped; unless a write is refused for its size it raises only if an old or new value cannot be compared with the keys of its index |
| Executor.Executor.ExecutePlan | tinydb/executor.py:218-240 | Returns the live rows behind the pointers of the lookup, or all rows in record order, and raises exactly when the lookup does |
| Executor.Executor.MatchingRows | tinydb/executor.py:208-216 | Returns the rows of the plan that the WHERE accepts and raises exactly when the lookup or the WHERE on one of them does; with exact indexes of the table's own these are the accepted rows of a scan, and a literal that does not fit a column with values raises |
| Executor.Executor.RowFromInsert | tinydb/executor.py:242-254 | Succeeds exactly when columns are known, distinct and as many as the values, which evaluate; other columns are NULL |
| Executor.Executor.AssignedRow | tinydb/executor.py:112-116 | The loop over the assignments raises exactly when one raises on the old row, and gives every column the value on the old row of the last assignment to it |
| Executor.Executor.ExecuteInsert | tinydb/executor.py:94-103 | Adds one row with the given values, every index of every table mirrored; succeeds only if, and whenever indexes are the tables' own and none of its writes is refused for its size if, the table exists, the values make a row, and the row is acceptable and clashes with no other |
| Executor.Executor.UpdateMatched | tinydb/executor.py:105-121 | The rows become those of reassigning in turn, it succeeds, none of its writes refused for its size, whenever each new row fits beside the rows as they are by then, and the database is consistent after each row: rows typed, unique values distinct, indexes in step |
| Executor.Executor.ExecuteUpdate | tinydb/executor.py:105-121 | The chosen rows get the assigned values, each evaluated on the old row (`EffectMeans`, `ReassignMeans`); succeeds only if, and in the same circumstances whenever, table and columns exist, choosing the rows raises nothing and each new row fits in its turn |
| Executor.Executor.ExecuteDelete | tinydb/executor.py:123-134 | Exactly the chosen rows disappear; succeeds only if, and in the same circumstances whenever, table and columns exist and choosing the rows raises nothing |
| Executor.Executor.ExecuteQuery | tinydb/executor.py:136-152 | The reading part of a SELECT changes nothing and succeeds exactly when the table and columns exist and choosing the rows raises nothing |
| Executor.Executor.ExecuteCreateTable | tinydb/executor.py:78-85 | Succeeds only if, and unless one of its writes is refused for its size whenever, the definition can be created; the new table is empty, all other tables keep their rows, and all indexes stay exact if and only if no live row has a value in a column whose index name the new table takes |
| Executor.Executor.ExecuteDropTable | tinydb/executor.py:87-92 | The table leaves the catalog, all others keep their rows; refused exactly for a missing table, and otherwise successful unless one of its writes is refused for its size |
| Executor.Executor.Execute | tinydb/executor.py:49-76 | For every statement on every sound database, whatever the index names: it has its effect on the catalog and all tables, or raises and leaves pages, header and memory as they were; where the indexes are the tables' own it succeeds exactly when rows and schema allow and none of the writes it made was refused for its size; its writes go only to recorded pages and pages of its own |
| Executor.Executor.Run | tinydb/executor.py:49-134 | Of every script, succeeding or failing and whatever the index names: every moment between two statements is sound (rows typed, unique values distinct, indexes naming live rows only) and comes from the one before by its statement |
| Runs.MomentsExactIff | tinydb/executor.py:49-134 | At every moment of a script every index agrees with its table if and only if no CREATE of the script took the name of an index that had entries |
| Runs.SuccessesAlone | tinydb/transaction.py:70-78 | The successful statements alone are a script with the same end |
| Runs.IndexesAgree | tinydb/executor.py:78-134 | Over every script with distinct index names, whichever statements fail, each constraint index holds at every moment exactly the (value, pointer) pairs of the live rows whose value is not NULL |
| Runs.SucceedsIff | tinydb/executor.py:49-134 | Over such a script a statement succeeds if and only if the rows and the schema allow it and none of the writes it made was refused for its size |
| Runs.MisfitRaises | tinydb/executor.py:218-240 | On every database with exact indexes of the tables' own, where an indexed column has a value: `column = literal` with a literal that does not fit the column raises through the index, while a scan would evaluate it on every row and find none |
| Runs.MisfitExists | tinydb/executor.py:218-240 | There is such a database, given with its column and literal |
| Runs.OvertakenRowIsLost | tinydb/executor.py:78-85 | After a CREATE that takes the name of a column's index, `column = value` no longer finds a row that a scan accepts |
| Runs.CollisionExists | tinydb/executor.py:78-85 | There is such a database: a row with `a.b_c` = 1, and CREATE of `a_b` with a UNIQUE column `c` |
| Runs.SharedIndexExists | tinydb/planner.py:97-98 | Two tables can share an index, each mirrored exactly among its own entries, while the index does not hold the pairs of one of them alone |
| Pages.Be32RoundTrip | tinydb/storage/page.py:33-48 | The length prefix reads back |
| Pages.BigEndian | tinydb/storage/page.py:33-48 | The first of the four bytes counts most, and every four bytes are the encoding of their number |
| Pages.NormalizePageData | tinydb/storage/page.py:27-30 | Data of at most a page is padded to one page and kept in front |
| Pages.PayloadRoundTrip | tinydb/storage/page.py:33-48 | Every payload of at most 4092 bytes unpacks from its packed page |
| Pages.PackedLayout | tinydb/storage/page.py:33-48 | A packed page is the size of its payload in four bytes, the payload, and zeros |
| FileStore.HeaderRoundTrip | tinydb/storage/file.py:209-247 | A header that fits its page reads back as the state it was written from |
| FileStore.HeaderLayout | tinydb/storage/file.py:235-247 | The header page is the magic bytes, the version 1 and the size of the state in four bytes each, the state, and zeros |
| FileStore.JoinChunks | tinydb/storage/file.py:284-291 | The 4092-byte chunks of any byte string join to it |
| FileStore.SnapshotReadsBack | tinydb/storage/file.py:300-316 | The pages named by a marker give back the bytes of the original file, cut to their length |
| FileStore.RecoverableReopens | tinydb/storage/file.py:252-274 | Opening a file with a marker over intact snapshot pages restores the original file byte for byte |
| Recovery.CrashBeforeMarker | tinydb/storage/file.py:175-188 | A crash while the snapshot pages are being appended leaves the decoded state and all old pages as they were |
| Recovery.PublishedIsRecoverable | tinydb/storage/file.py:175-188 | Once the marker is written the file can be restored to its bytes before BEGIN |
| Recovery.StepOk | tinydb/storage/file.py:96-174 | Every page allocation, row write, header write and savepoint restore keeps the snapshot pages and the marker intact |
| Recovery.CrashInTransaction | tinydb/storage/file.py:175-194 | A crash after any such steps before COMMIT: reopening gives exactly the bytes of the file before BEGIN |
| Recovery.CrashAfterCommit | tinydb/storage/file.py:190-194 | Once the cleared header is written, reopening keeps the new state and pages; if that write fails, reopening gives the file before BEGIN |
| Recovery.StatementAtomic | tinydb/transaction.py:70-78 | A failing statement inside a transaction restores file and memory |
| Recovery.NestedAtomicity | tinydb/transaction.py:70-78 | Statements and queries of which some fail have exactly the joint effect of the successful ones, in order, and memory is always the decoded header |
| Recovery.LookChangesNothing | tinydb/storage/table.py:22-25 | In a transaction a SELECT, whose opening of an empty table writes the header outside any savepoint, changes neither file nor memory; it fails exactly on a missing table |
| Recovery.StatementIsEvents | tinydb/transaction.py:70-78 | A statement inside a transaction is a sequence of the steps that crash recovery covers |
| Recovery.CrashDuringStatements | tinydb/transaction.py:35-78 | A crash at any step of any statements and queries of a transaction, header writes of a SELECT included: reopening gives the file before BEGIN |
| Recovery.CommitKeepsSuccessful | tinydb/transaction.py:49-54 | COMMIT keeps the effect of the successful statements only; if it fails, reopening gives the file before BEGIN |
| Recovery.RollbackRestoresAll | tinydb/transaction.py:56-67 | ROLLBACK, and closing inside a transaction, restore the bytes and the decoded state before BEGIN |
| Recovery.StandaloneAtomic | tinydb/transaction.py:80-87 | All outcomes of a statement on its own: it succeeds exactly if marker, writes and cleared header fit and it does not raise, and is then durable; raising leaves file and memory as before; a refused commit is undone at the next opening; a refused begin leaves the old state and pages |
| Recovery.CrashDuringStandalone | tinydb/transaction.py:80-87 | A crash at any write of a statement on its own: reopening gives the file before it |
| Engine.WriteShows | tinydb/storage/file.py:96-159 | Each write of tables and indexes has on the bytes the effect it has on the decoded pages, and is refused for the same reason |
| Engine.LogShows | tinydb/executor.py:49-134 | The writes of a statement of the executor are steps that leave the snapshot alone: rows are written to recorded pages only, and record lists name recorded pages or pages of the statement |
| Engine.BeginShows | tinydb/storage/file.py:175-188 | BEGIN leaves pages and catalog as they were under the appended snapshot pages, and a header that fits |
| Engine.BeginKeepsTables | tinydb/storage/file.py:284-298 | The snapshot pages change no table, no index and no agreement |
| Engine.CrashDuringScript | tinydb/transaction.py:35-78 | Whatever statements the executor runs in a transaction, succeeding or failing, and at whichever of their writes it crashes: reopening gives the bytes from before BEGIN |
| Engine.CommitScript | tinydb/transaction.py:49-54 | COMMIT makes the pages and the catalog that the executor has reached durable; a refused one is undone at the next opening |
| Engine.RollbackScript | tinydb/transaction.py:56-67 | BEGIN, any script of the executor, then ROLLBACK: bytes and decoded state are those from before BEGIN |
| Engine.StatementAlone | tinydb/transaction.py:80-87 | The same of a single statement of the executor outside BEGIN and COMMIT |
| FileManager.StorageManager.Create | tinydb/storage/file.py:61-90 | A new database file holds one header page with the empty state |
| FileManager.StorageManager.Open | tinydb/storage/file.py:61-90 | Opening succeeds exactly when the header (and a marked snapshot) is readable, and the file is then what recovery specifies |
| FileManager.StorageManager.RecoverIncompleteTransaction | tinydb/storage/file.py:252-274 | Restores the file exactly as specified and re-reads the header |
| FileManager.StorageManager.AllocatePage | tinydb/storage/file.py:96-102 | Appends one page at the next id, or raises for oversized data |
| FileManager.StorageManager.ReadPage | tinydb/storage/file.py:104-111 | Gives the page of an id in range, or raises |
| FileManager.StorageManager.WritePage | tinydb/storage/file.py:113-118 | Overwrites exactly the page of the id, or raises |
| FileManager.StorageManager.WriteCatalog | tinydb/storage/file.py:131-134 | Changes the catalog in memory and writes the header, whose write may fail |
| FileManager.StorageManager.WriteTableRecords | tinydb/storage/file.py:155-159 | Changes one record list in memory and writes the header, whose write may fail |
| FileManager.StorageManager.OpenTables | tinydb/storage/table.py:22-25 | Opening the tables of a SELECT has exactly the specified effect: it writes an empty record list for each table without records |
| FileManager.StorageManager.RestoreFileSnapshot | tinydb/storage/file.py:167-173 | The file becomes the snapshot and the state what its header says |
| FileManager.StorageManager.AppendSnapshotPages | tinydb/storage/file.py:284-291 | Appends the packed chunks of the snapshot and returns their page ids |
| FileManager.StorageManager.BeginTransactionRecoverySnapshot | tinydb/storage/file.py:175-188 | Publishes the snapshot; on a failing header write the marker stays in memory and the appended pages in the file |
| FileManager.StorageManager.ClearTransactionRecoverySnapshot | tinydb/storage/file.py:190-194 | Clears the marker and writes the header, or does nothing without one |
| Transactions.LockHandle.Release | tinydb/locking.py:25-30 | Releasing frees the lock once; further releases do nothing |
| Transactions.AcquireExclusive | tinydb/locking.py:54-73 | Succeeds exactly when the lock is free |
| Transactions.TransactionManager.AcquireWriter | tinydb/transaction.py:93-104 | Takes registry entry and lock, or neither |
| Transactions.TransactionManager.ReleaseWriter | tinydb/transaction.py:106-111 | Gives both back |
| Transactions.TransactionManager.Begin | tinydb/transaction.py:35-47 | Succeeds exactly when the caller is not in a transaction, no writer is active, the lock is free, no marker is pending and the marked header fits; then the snapshot is the file; a refused BEGIN leaves lock and registry as they were, and leaves a marker and pages behind exactly when nothing but the room in the header page is missing |
| Transactions.TransactionManager.Commit | tinydb/transaction.py:49-54 | Clears the marker and always ends the transaction with lock and registry released |
| Transactions.TransactionManager.Rollback | tinydb/transaction.py:56-63 | Restores the snapshot and always ends the transaction with lock and registry released |
| Transactions.TransactionManager.Close | tinydb/transaction.py:65-67 | Closing inside a transaction restores the snapshot |
| Transactions.TransactionManager.StatementInTransaction | tinydb/transaction.py:70-78 | A failing statement restores the savepoint, whatever its steps |
| Transactions.TransactionManager.StatementAlone | tinydb/transaction.py:80-87 | A statement outside a transaction begins, and commits or rolls back |
| HeaderRoom.SomeBeginIsRefused | tinydb/storage/file.py:175-188 | Whatever the round-tripping header codec, there is a database at rest on which BEGIN is refused: its header fits, the marked one does not |
| Transactions.RefusedBeginSticks | tinydb/storage/file.py:180-188 | A BEGIN refused at the header write keeps the marker in memory and the pages in the file: every later BEGIN of that instance is refused, while reopening keeps the logical state |
| SingleWriter.StepKeepsInv | tinydb/transaction.py:35-116 | The invariant on lock, snapshot and marker is kept by every step of every instance, with the registry check and registration as separate steps, rollbacks and recoveries putting back any bytes taken earlier, headers written by a SELECT without the lock, and by a process dying |
| SingleWriter.RunKeepsInv | tinydb/transaction.py:35-116 | The invariant holds in every reachable state of any number of instances and processes |
| SingleWriter.AtMostOneTransaction | tinydb/transaction.py:93-104 | At most one instance is in a transaction; it holds the lock and has a snapshot |
| SingleWriter.RestoreDisturbsNobody | tinydb/storage/file.py:252-282 | A recovery restore never happens while another instance holds the lock or any is in a transaction |
| SingleWriter.RestHoldsNothing | tinydb/transaction.py:106-116 | After a commit, rollback, close or failed begin the instance holds neither lock nor snapshot |
| SingleWriter.TransactionEndsItself | tinydb/transaction.py:35-67 | Only its own commit or rollback, or the death of its process, ends a transaction |
| SingleWriter.MarkerStaysIff | tinydb/storage/file.py:155-188 | A live transaction's own marker stays in the file from its publication on if and only if no instance outside it has written a header without that marker |
| SingleWriter.OutsideReadErasesMarker | tinydb/storage/table.py:22-25 | A SELECT of another instance on an empty table can take the marker of a live transaction out of the file |
| SingleWriter.CheckedJoinsAreExact | tinydb/storage/file.py:41-58 | In every run where each join finds its process not yet active, the active writers are at every moment exactly the processes of the joined instances, one of each |
| SingleWriter.RegistryMissesIff | tinydb/storage/file.py:41-58 | The process of a live transaction is missing from the active writers if and only if, since the last join of that process, another of its instances has given up or unregistered |
| SingleWriter.RegistryCanMissLiveWriter | tinydb/storage/file.py:41-58 | The in-process registry alone does not protect: an interleaving of its separate steps leaves a live writer unregistered, so the lock is what the safety rests on |
| Join.NamesDiffer | tinydb/executor.py:171-194 | Qualified names of different columns differ |
| Join.CheckQualifiers | tinydb/planner.py:101-111 | A join is refused exactly when two sources share a qualifier |
| Join.ResolveColumn | tinydb/planner.py:156-167 | A column reference resolves exactly when its source exists and has the column |
| Join.ExtendAllPosition | tinydb/executor.py:176-192 | Row i of the left with row j of the source stands at position i times n plus j: the order is lexicographic |
| Join.JoinPredicatesMatch | tinydb/executor.py:196-206 | A partial row is dropped exactly when some predicate that it can already evaluate fails |
| Join.JoinRows | tinydb/executor.py:171-194 | The nested loop with early dropping returns exactly the rows of those choices of one row per source whose named values are the same for every predicate, NULL like NULL, each with the values of the chosen rows and in the lexicographic order of the choices; predicates that mention later sources included |
| Join.QualifiedValue | tinydb/executor.py:185-190 | A column of a source row stands, with its value, under the qualifier, a dot and its name |
| Join.CrossOfChoice | tinydb/executor.py:176-192 | Every choice of one row per source has its position in the product, and the row there has, under qualified names, exactly the values of the chosen rows |
| Join.ChoiceAt | tinydb/executor.py:176-192 | Every position of the product is that of a choice |
| Join.PositionLex | tinydb/executor.py:176-192 | Positions are in the lexicographic order of the choices, different choices at different positions |
| Join.SelectedIsJoin | tinydb/executor.py:171-206 | The product filtered by all predicates consists of exactly the rows of the choices whose named values match, in the order of the choices |
| Join.PruneThenExtend | tinydb/executor.py:176-192 | Dropping before extending loses nothing that would be kept after it |
| Join.PruningEarly | tinydb/executor.py:176-192 | At every prefix of the sources, dropping early and then again equals dropping once from the full product |
| Join.AllEvaluable | tinydb/executor.py:196-206 | On full rows every resolved predicate can be evaluated |
| Join.PredicateOrderIsIrrelevant | tinydb/executor.py:196-206 | Permuting the ON predicates changes nothing |
| Join.HoldsIsEquality | tinydb/sql/expressions.py:70-71 | A join predicate holds exactly when the values are equal, NULL equal to NULL |
| Ordering.NullPlacement | tinydb/executor.py:444-451 | NULL comes last ascending and first descending |
| Ordering.InOrderMeans | tinydb/executor.py:438-452 | In rows in order, the first key on which two of them differ decides: ascending the smaller number or text comes first and NULL last, descending the reverse |
| Ordering.TiedMeans | tinydb/executor.py:438-452 | Rows are tied, and so keep their order, exactly when their values are the same under all keys |
| Ordering.LexIsWeakOrder | tinydb/executor.py:438-452 | The multi-key order is a strict weak order |
| Ordering.SortByIsStable | tinydb/executor.py:445-451 | One sort is a permutation in order that keeps ties as they were |
| Ordering.StableSortUnique | tinydb/executor.py:445-451 | There is only one stable sort, so the sorting method does not matter |
| Ordering.SortsCompose | tinydb/executor.py:444-451 | A stable sort by a key after a stable sort by other keys is the stable sort by the key and then the others |
| Ordering.ApplyOrdering | tinydb/executor.py:438-452 | One sort per key from last to first gives the stable sort by all keys: of two rows the one in front has, at the first key on which they differ, the smaller number or text (NULL last) ascending and the greater one (NULL first) descending |
| Ordering.PagesConcatenate | tinydb/executor.py:454-462 | Consecutive LIMIT/OFFSET pages concatenate to the rows they cover, enough of them to all rows |
| Ordering.PageHas | tinydb/executor.py:454-462 | A page has the rows from the offset on, in their order, and as many as the limit allows |
| Grouping.GroupRows | tinydb/executor.py:394-398 | The dictionary filled row by row is the partition of the rows by key |
| Grouping.GroupsPartition | tinydb/executor.py:394-398 | Every row is in exactly one group with all rows of its key in their order, and groups come in first-seen order |
| Grouping.GroupsByValues | tinydb/executor.py:394-398 | Two rows are in one group exactly when their values are the same in all grouping columns |
| Grouping.GroupsAddUp | tinydb/executor.py:394-402 | Whatever is added up over rows is the sum of what is added up over each group |
| Grouping.AggregateMeaning | tinydb/executor.py:473-490 | COUNT and SUM raise exactly when some row's expression raises or, for SUM, is not numeric; their values are what each row adds, and a SUM of no values is NULL |
| Grouping.AggregateSteps | tinydb/executor.py:473-490 | One row more adds nothing to COUNT and SUM if its value is NULL, and otherwise one and its number |
| Grouping.AverageIsSumOverCount | tinydb/executor.py:473-490 | AVG is SUM over COUNT, NULL and raising together with SUM |
| Grouping.CountsAddUp | tinydb/executor.py:473-480 | The group COUNT(*)s add up to the ungrouped COUNT(*) |
| Grouping.ColumnCountsAddUp | tinydb/executor.py:473-480 | The group COUNTs of an expression add up to the ungrouped one, and some group raises exactly if it does |
| Grouping.SumsCombine | tinydb/executor.py:482-488 | The group SUMs, NULL counting as nothing, combine to the ungrouped SUM, which is NULL exactly when all are, and some group raises exactly if it does |
| Grouping.EvaluateProjectionGroup | tinydb/executor.py:419-436 | Every projection is an aggregate or a grouping column; the first fault decides |
| Grouping.NamedAggregates | tinydb/executor.py:473-490 | COUNT, SUM and AVG name the aggregates of these names, and no other name is one |
| Grouping.SelectAggregate | tinydb/executor.py:384-413 | Succeeds exactly when every projection of every group evaluates (without GROUP BY all must be aggregates) and ORDER BY names result columns; the result shows the values computed for each group in first-seen order, under a repeated title the last, stably sorted by the shown columns and paged; otherwise the first fault decides |
| Grouping.DistinctTitlesShow | tinydb/executor.py:413-417 | With distinct titles the result is a page of a permutation of the rows computed from the groups, ordered as asked, and just these rows without ORDER BY, LIMIT and OFFSET |
| Grouping.CellsAreProjections | tinydb/executor.py:413-417 | Every cell of a result row is its projection of one and the same group; under a repeated title it is that of the last column with it |
| Grouping.GroupColumnOfEveryRow | tinydb/executor.py:419-431 | The grouping column shown for a group equals that column in each of its rows |
| Queries.ExecuteSelect | tinydb/executor.py:136-150 | A SELECT changes nothing and raises for an unknown table or column; otherwise it answers with the accepted rows of the table, each once, sorted, paged and projected, or grouped and aggregated |
| Queries.ArgumentsAllowed | tinydb/executor.py:289-319 | `*` is a projection by itself and the argument of COUNT only; any other argument must be a column |
| Queries.ProjectRows | tinydb/executor.py:367-382 | Each answer row shows all columns for `*`, or the values of the projections on that row; the first projection that raises decides the error |
| Queries.FindingOrderIsInvisibleIff | tinydb/executor.py:438-452 | The sorted rows are the same in whatever order they were found exactly if no two different ones are tied |
| Queries.AnswerIgnoresPlan | tinydb/executor.py:136-150 | Ordered by a key, a SELECT without aggregates has one answer or error, by whatever plan its rows were found, LIMIT and OFFSET included |
| Queries.AnswersAsScan | tinydb/executor.py:136-150 | With exact indexes such a SELECT answers as if the table had been scanned |
| Queries.WholeAnswersArePermuted | tinydb/executor.py:136-150 | Without LIMIT and OFFSET the order of finding decides at most the order of the answer, never whether it raises |
| Queries.AggregateIgnoresOrder | tinydb/executor.py:473-490 | An aggregate does not see the order of its rows |
| Queries.GroupsIgnoreOrder | tinydb/executor.py:394-402 | The groups hold the same rows in whatever order the rows were found |
| Queries.ExecuteJoinSelect | tinydb/executor.py:152-169 | A joined SELECT answers with the joined rows its WHERE accepts, sorted, paged and projected; it raises if the WHERE does on a joined row |
| Lexer.ReadString | tinydb/sql/lexer.py:123-141 | A string literal ends at its first undoubled quote, doubled ones read as one, or never ends |
| Lexer.ReadNumber | tinydb/sql/lexer.py:107-121 | Digits, or digits, a dot and at least one digit, make a number; a dot without digits is a fault |
| Lexer.Tokenize | tinydb/sql/lexer.py:71-182 | The loop over positions gives the tokens, with positions, or the first fault, that the text has read from its front |
| Script.StatementIsTerminated | tinydb/cli.py:90-105 | True exactly when a semicolon has an even number of quotes before it |
| Script.SplitScript | tinydb/cli.py:47-75 | The statements are the stripped, non-empty texts between the semicolons that have an even number of quotes before them |
| Script.ReadCut | tinydb/sql/lexer.py:71-182 | The text before the first such semicolon tokenizes by itself without a semicolon token, and the rest by itself |
| Script.ReadStrip | tinydb/cli.py:47-75 | Stripping changes no token, and leaves nothing exactly when there is no token |
| Script.SplitAgreesWithLexer | tinydb/cli.py:47-75 | For every script that tokenizes, its statements tokenize one by one to the non-empty stretches of its tokens between semicolons |
| Script.TerminatedIffSemicolon | tinydb/cli.py:90-105 | A script that tokenizes is terminated exactly when a token is a semicolon |
| Texts.ConditionReadsBack | tinydb/sql/lexer.py:71-182 | Any AND/OR tree over comparisons, printed as text with numerals, quoted strings, keywords and signs, tokenizes and parses to the tree |
| Texts.AnyCase | tinydb/sql/lexer.py:86-105 | Keywords, truth values and NULL are read the same in any letter case, never as names |
| Syntax.PredicateRoundTrip | tinydb/sql/parser.py:314-373 | Printing any AND/OR tree over comparisons with parentheses only where precedence or left association needs them and parsing it gives the tree back |
| Syntax.ComparisonTokens | tinydb/sql/parser.py:339-345 | Each comparison sign between two values gives its comparison |
| Syntax.WordTokens | tinydb/sql/parser.py:314-337 | OR between conditions is their disjunction, AND their conjunction, and AND binds closer |
| Syntax.PrintMinimal | tinydb/sql/parser.py:314-373 | Whatever parses is such a tree, and no token list that parses to it is shorter than its print |
| Definitions.LexedNamesAreProper | tinydb/sql/lexer.py:86-105 | The tokens of any text satisfy what that minimality assumes of names |
| Syntax.ValueReads | tinydb/sql/parser.py:347-393 | Printed names, qualified names, literals and aggregate calls parse back |
| Syntax.ValueMinimal | tinydb/sql/parser.py:347-393 | Whatever parses as a value expression is one, printed no longer than it was |
| Syntax.ParseOr | tinydb/sql/parser.py:317-322 | A predicate consumes at least one token and never the end marker |
| Parser.Parser.constructor | tinydb/sql/parser.py:49-52 | The parser stands at the first token and the list ends with an end marker |
| Parser.Parser.Advance | tinydb/sql/parser.py:447-448 | The index moves one token on and stays inside the list |
| Parser.Parser.ParseOrPredicate | tinydb/sql/parser.py:317-322 | The OR loop terminates on every token list with the specified tree, or a syntax error at the specified token's position; the index never passes the end marker |
| Parser.Parser.ParseAndPredicate | tinydb/sql/parser.py:324-329 | The same for the AND loop |
| Parser.Parser.ParsePredicateLeaf | tinydb/sql/parser.py:331-337 | A parenthesised predicate or a comparison |
| Parser.Parser.ParseComparisonPredicate | tinydb/sql/parser.py:339-345 | Two values around a comparison operator |
| Parser.Parser.ParseValueExpression | tinydb/sql/parser.py:347-366 | A call, a column, a literal or a parenthesised value |
| Parser.Parser.ParseFunctionCall | tinydb/sql/parser.py:381-393 | An aggregate with one argument, `*` for COUNT only |
| Parser.Parser.ParseColumnDef | tinydb/sql/parser.py:99-129 | A name, a type and constraints in any order and number |
| Parser.Parser.ParseCreate | tinydb/sql/parser.py:85-97 | CREATE TABLE with a non-empty column list, or a syntax error at the specified token |
| Parser.ParseCreateStatement | tinydb/sql/parser.py:36-45 | Text gives the statement of the grammar function, or the lexical fault with its position, or the position of the token where the grammar function stops |
| Definitions.FormatColumn | tinydb/cli_commands.py:132-141 | The branches append the parts of the column's text, only PRIMARY KEY for key columns |
| Definitions.TableReads | tinydb/cli_commands.py:124-129 | The printed schema tokenizes to the tokens of a CREATE TABLE statement |
| Definitions.TableParses | tinydb/sql/parser.py:85-129 | Those tokens parse to the definitions of the printed columns |
| Definitions.TypeTokens | tinydb/sql/parser.py:99-129 | Each type name in a definition gives the column that type |
| Definitions.ConstraintTokens | tinydb/sql/parser.py:99-129 | PRIMARY KEY, NOT NULL and UNIQUE each set their own flag and no other |
| Definitions.TextKeepsNames | tinydb/sql/parser.py:85-129 | Table and column names of a parsed CREATE TABLE are words that the tokenizer reads as names |
| Definitions.PrintedSchemaReadsBack | tinydb/cli_commands.py:124-141 | Printing, tokenizing and parsing a schema gives a statement that creates that schema wherever no such table exists |
| Definitions.SchemaRoundTrip | tinydb/cli_commands.py:124-141 | The same for every schema that CREATE TABLE builds from SQL text |

## Left out

- The JSON text of rows, headers and index nodes: rows and index images are decoded values, the header codec a parameter; snapshot pages are assumed not to decode as index pages.
- A crash inside the restore of a snapshot, torn page writes, flushing and syncing: page writes and the restore are atomic steps.
- Durability with several open instances: the header is cached per instance, so only the locking facts are stated for several.
- BTreeIndex.Index.Insert: an incomparable key raises before the descent instead of inside it; stored keys of one index are always comparable with each other, so the outcome is the same.
- Ordering.ApplyOrdering: uses a total order where Python raises on values of different kinds; a column of a table holds values of one kind.
- Executor.Executor.UpdateIndexEntries: an index is loaded again between its deletion and its insertion instead of being the same object; both see the image just persisted.
- Grouping.SelectAggregate: the texts of the projections, which title the columns, are parameters.
- Executor.Executor.Execute: the marker and the commit of a statement belong to `Engine`, `Recovery` and `Transactions`, not to its contract.
- Join.ResolveColumn: the expressions of a joined WHERE, ORDER BY and projection, which the planner rewrites by it, are not rewritten here.
- Expressions: `*` evaluated as a whole row, and operators as text in any letter case (the parser only produces upper case).
- Floats are exact reals; rounding, infinities and NaN are not modelled.
- Statements other than CREATE TABLE in the parser (their predicates and values are covered), and the text of error messages; the position of the end marker is a parameter.
- The index format without a root, corrupt files beyond the header checks, index order changes on an existing index.
- Queries.ExecuteJoinSelect: takes the sources' rows, and the names and `*` of its expressions as the planner binds them.
- The column titles of an answer, `.explain`, result rendering, the interactive loop, argument parsing and the other dot commands.
