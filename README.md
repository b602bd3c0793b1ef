# DataSpace record store, modelled in Dafny

The data space is the store of a decision engine. It keeps records for task
managers in three SQLite tables: `dataproduct` holds the value, `header` holds
provenance columns and `metadata` holds lifecycle columns. Each row of each
table is addressed by the triple (taskmanager_id, generation_id, key). No table
has a uniqueness constraint, so several rows can share a triple.

This project models the `DataSpace` class at the level of rows. It leaves out
the SQL text and the database connection.

- `records.dfy` (module `Records`) holds the row address `Triple` and one
  generic row type `Row<P>`, which is the address plus the table's own columns.
  It also holds the header and metadata columns and the errors the class raises.
- `tables.dfy` (module `Tables`) gives the row-level effect of each SQL statement
  the class runs, on one table kept as a sequence in storage order:
  - the select-by-triple and its last row (`Matching`, `LastMatch`);
  - `UPDATE ... WHERE` (`UpdateWhere`);
  - the `INSERT ... SELECT` of a duplication (`Copies`);
  - `COALESCE(MAX(generation_id), 0)` (`MaxGeneration`).

  It also holds the lemmas that relate these statements to each other. All
  three tables use these same definitions.
- `dataspace.dfy` (module `DataSpaces`) holds the class `DataSpace`:
  - one `seq` field per table;
  - the set of tables the database holds;
  - a shared `DataSpaceClass` object standing for the class-wide
    `_tables_created` flag;
  - one method per mutating operation, whose `ensures` gives the new tables in
    terms of the old ones;
  - one function per query.

  Every mutating method also keeps the three tables aligned on their triples.
- `scenario.dfy` (module `Scenarios`) holds client methods. They check, from the
  contracts alone, the end-to-end uses of the store: round trip, duplication,
  last generation, repeated addresses, a second data space refused.

Where the code differs from what a reader might expect, this model follows the
code:
- `get_last_generation_id` takes the maximum over the whole `dataproduct`
  table. It ignores its task-manager argument.
- `update` of an address with no rows silently changes nothing. It raises no
  error.
- `update` rewrites every row with the address, not only the latest one.
- Reading an absent address fails because `[-1]` is taken on an empty list
  (`IndexOutOfRange`). There is no dedicated not-found error.
- `delete` does nothing.
- The `schema` table is created but never written or read.

## Model

| member | source | states |
|---|---|---|
| `Tables.Matching` | framework/dataspace/dataspace.py:264-269 | the fetched rows all carry the requested triple, are no more than the table's rows, and are empty exactly when no row has the triple |
| `Tables.MatchingMultiplicity` | framework/dataspace/dataspace.py:264-269 | the fetch is the table filtered by triple: each row with the triple is fetched exactly as often as the table holds it, and no other row is fetched |
| `Tables.MatchingAppend` | framework/dataspace/dataspace.py:264-269 | the fetch keeps storage order: fetching from a table made of two parts gives the fetch from the first part followed by the fetch from the second |
| `Tables.LastIndex` | framework/dataspace/dataspace.py:264-275 | reference answer for a read, by scanning from the end: -1 exactly when no row has the triple, otherwise the last position with the triple |
| `Tables.MatchingLast` | framework/dataspace/dataspace.py:264-275 | the fetch is empty exactly when the reference scan finds nothing; otherwise the last fetched row is the row the reference scan finds |
| `Tables.LastMatch` | framework/dataspace/dataspace.py:254-275 | `_get_table_row`: fails with an index error exactly when no row has the triple; otherwise returns the last row, in insertion order, that has it (the row at `LastIndex`) |
| `Tables.LastMatchSnoc` | framework/dataspace/dataspace.py:264-275 | appending a row makes it the answer for its own triple and changes the answer for no other triple |
| `Tables.LastMatchAppend` | framework/dataspace/dataspace.py:264-275 | after appending rows, the newest appended row with the triple wins; the older rows answer only when the appended ones have none |
| `Tables.InsertReadBack` | framework/dataspace/dataspace.py:170-199 | round trip: right after an insert, reading its triple gives the inserted row; every other triple reads as before |
| `Tables.UpdateWhere` | framework/dataspace/dataspace.py:226-247 | `UPDATE ... WHERE triple`: same row count and order; every row with the triple gets the new columns; every other row is unchanged |
| `Tables.UpdateNoMatch` | framework/dataspace/dataspace.py:227-230 | an update of a triple no row has leaves the table unchanged |
| `Tables.UpdateReadBack` | framework/dataspace/dataspace.py:226-247 | after updating a triple that has rows, reading it gives the new columns |
| `Tables.UpdateOtherReads` | framework/dataspace/dataspace.py:226-247 | an update leaves the reading of every other triple as it was |
| `Tables.Copies` | framework/dataspace/dataspace.py:349-365 | the rows a duplication appends all belong to (taskmanager_id, new generation) and are no more than the table's rows |
| `Tables.CopiesMultiplicity` | framework/dataspace/dataspace.py:349-365 | each appended row occurs exactly as often as the original row occurs in the old table, where the original is identical but for generation_id; no other row is appended |
| `Tables.CopiesCount` | framework/dataspace/dataspace.py:349-365 | a duplication appends exactly as many rows as the source generation of that task manager holds |
| `Tables.CopiesLastMatch` | framework/dataspace/dataspace.py:349-365 | among the copies, (tm, g2, k) reads the copy of what (tm, g, k) reads among the originals, and fails exactly when that fails |
| `Tables.DuplicateReadBack` | framework/dataspace/dataspace.py:333-367 | after duplicate(tm, g, g2), reading (tm, g2, k) gives the copy of the row (tm, g, k) read before; without such a row, it reads as before |
| `Tables.DuplicateOtherReads` | framework/dataspace/dataspace.py:346-367 | a duplication leaves the reading of every triple outside (tm, g2) as it was |
| `Tables.DuplicateMaxGeneration` | framework/dataspace/dataspace.py:140-147 | after a duplication that copies at least one row, the last generation id is the larger of the old one and the new generation |
| `Tables.InsertKeepsAlignment` | framework/dataspace/dataspace.py:170-199 | inserting one triple into two tables aligned on their triples keeps them aligned |
| `Tables.UpdateKeepsAlignment` | framework/dataspace/dataspace.py:226-247 | updating one triple in two aligned tables keeps them aligned |
| `Tables.CopiesKeepAlignment` | framework/dataspace/dataspace.py:349-365 | tables aligned on their triples yield copies aligned on their triples |
| `Tables.DuplicateKeepsAlignment` | framework/dataspace/dataspace.py:346-367 | duplicating one generation in two aligned tables keeps them aligned |
| `Tables.MaxGeneration` | framework/dataspace/dataspace.py:140-147 | `COALESCE(MAX(generation_id), 0)`: 0 for an empty table, otherwise a generation_id some row has and that no row exceeds |
| `DataSpaces.DataSpaceClass.constructor` | framework/dataspace/dataspace.py:30-31 | the class-wide flag starts unset |
| `DataSpaces.DataSpace.Connect` | framework/dataspace/dataspace.py:83-90 | a connection to a freshly recreated database file holds no table and no row |
| `DataSpaces.DataSpace.Open` | framework/dataspace/dataspace.py:75-98 | `__init__`: fails with "tables already created" exactly when the class-wide flag was set; otherwise yields a new data space holding every table, empty, and sets the flag |
| `DataSpaces.DataSpace.Create` | framework/dataspace/dataspace.py:106-124 | creates the tables one by one and sets the flag; it succeeds exactly when none of them existed; when one exists it fails naming the first existing one in definition order, keeps the tables created before it, and leaves the flag alone |
| `DataSpaces.DataSpace.GetLastGenerationId` | framework/dataspace/dataspace.py:127-147 | 0 for an empty dataproduct table, otherwise the largest generation_id of the whole table; the task manager argument plays no part |
| `DataSpaces.DataSpace.Insert` | framework/dataspace/dataspace.py:150-203 | appends exactly one row with the triple and the supplied columns to each table; the earlier rows are unchanged; alignment is kept |
| `DataSpaces.DataSpace.Update` | framework/dataspace/dataspace.py:206-251 | each table becomes its `UpdateWhere` for the triple; a table without the triple is unchanged; alignment is kept |
| `DataSpaces.DataSpace.GetDataproduct` | framework/dataspace/dataspace.py:279-294 | fails with an index error exactly when no dataproduct row has the triple; otherwise the value of the last such row |
| `DataSpaces.DataSpace.GetHeader` | framework/dataspace/dataspace.py:297-312 | fails with an index error exactly when no header row has the triple; otherwise the last such row, all columns |
| `DataSpaces.DataSpace.GetMetadata` | framework/dataspace/dataspace.py:315-330 | fails with an index error exactly when no metadata row has the triple; otherwise the last such row, all columns |
| `DataSpaces.DataSpace.Duplicate` | framework/dataspace/dataspace.py:333-367 | each table becomes the old table followed by its `Copies` for (tm, g, g2); the old rows are untouched; alignment is kept |
| `DataSpaces.DataSpace.Delete` | framework/dataspace/dataspace.py:370-373 | changes nothing |

## Left out

- SQLite and the file system are not modelled:
  - removing an existing database file and opening the connection are summed
    up in `Connect` as "a fresh database with no table";
  - a connection failure is not modelled;
  - neither are cursors or commits.
- `close` is not modelled. It only releases the connection, and connections
  are not modelled.
- The SQL text is not modelled. Values are interpolated with `%s`, `%f` and
  `%i`, and the model does not render them:
  - `%f` renders the REAL columns with six decimals, so a timestamp with more
    digits is stored rounded;
  - a value or creator containing a double quote breaks the statement;
  - `update` writes `value="%s"`, `creator="%s"` and `state="%s"` in double
    quotes, which SQLite reads as a column name when one matches: an update
    with the value `key` stores the row's own key, and a state of `state`
    leaves the state as it was. The model stores the supplied string;
  - SQLite's INTEGER is 64 bits wide, so a generation_id or count outside that
    range is stored as a REAL. The model's `int` is unbounded.

  The model stores the supplied field values as they are.
- `GetDataproduct`: returns the bare value, where `get_dataproduct` returns
  the one-column row `(value,)` that holds it.
- The REAL columns are Dafny `real` values carried through unchanged. Nothing
  about floating-point arithmetic is modelled.
- Missing entries are not modelled. A `None` from `header.get(...)` or
  `metadata.get(...)`, and a missing `config['dataspace']['filename']`, are
  left out. `Header` and `Metadata` always carry every field.
- Transaction failure and rollback are not modelled. Each operation either
  succeeds or fails as a whole. The code has no rollback, and `duplicate` has
  no error handling.
- Storage order is insertion order. SQLite returns rows without `ORDER BY` in
  rowid order, and `UPDATE` keeps a row's rowid.
- The `INSERT ... SELECT` of `duplicate` reads the table as it was before the
  statement, which is how SQLite evaluates it. Duplicating a generation into
  itself therefore doubles it once and does not loop.
- `create` iterates over a Python 2 dict, whose order is unspecified. The model
  walks the definitions in a fixed order. The order matters only for which
  existing table is named in the error.
- The `isinstance(cols, list)` test in `create` is left out. Every definition
  is a list.
- Concurrency and connection sharing are out of scope.
- The predicate evaluator of the logic engine (`NamedFact.evaluate`) is not
  part of this model. It hands an arbitrary expression to Python's `eval`.
