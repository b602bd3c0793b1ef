/** Record identity and the row layouts of the data space's tables. */
module Records {

  /** The address of a row in every table: (taskmanager_id, generation_id, key).
      No table has a uniqueness constraint on it, so several rows may share one. */
  datatype Triple = Triple(taskmanagerId: string, generationId: int, key: string)

  /** A row: its three address columns followed by the table's own columns. */
  datatype Row<P> = Row(id: Triple, fields: P)

  /** The `value` column of the dataproduct table: the text the caller's object is
      rendered to when it is written. Its contents are not interpreted here. */
  type Value = string

  /** The own columns of the header table. The REAL columns are carried unchanged. */
  datatype Header = Header(
    createTime: real,
    expirationTime: real,
    scheduledCreateTime: real,
    creator: string,
    schemaId: int)

  /** The own columns of the metadata table. */
  datatype Metadata = Metadata(
    state: string,
    generationTime: real,
    missedUpdateCount: int)

  /** The failures the data space raises. */
  datatype Error =
    | TablesAlreadyCreated            // the class-wide flag is already set when a data space is built
    | TableAlreadyExists(name: string) // CREATE TABLE on a table the database already holds
    | IndexOutOfRange                 // `[-1]` taken on an empty list of fetched rows

  datatype Result<T> = Ok(value: T) | Err(error: Error)

  datatype Outcome = Pass | Fail(error: Error)

  /** The row with its generation_id column replaced by `g` and every other column kept. */
  function WithGeneration<P>(row: Row<P>, g: int): (r: Row<P>)
  {
    row.(id := row.id.(generationId := g))
  }
}
