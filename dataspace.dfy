/** The data space: the dataproduct, header and metadata tables of one database,
    the class-wide flag that forbids creating the tables twice, and the
    operations that write and read the three tables together. */
module DataSpaces {
  import opened Records
  import opened Tables

  /** A table definition: the table's name and its column declarations. */
  datatype TableDef = TableDef(name: string, columns: seq<string>)

  /** The tables the database is created with, in the order `create` walks them. */
  const TableDefs: seq<TableDef> := [
    TableDef("header", ["taskmanager_id TEXT", "generation_id INT", "key TEXT",
                        "create_time REAL", "expiration_time REAL",
                        "scheduled_create_time REAL", "creator TEXT", "schema_id INT"]),
    TableDef("schema", ["schema_id INT", "schema BLOB"]),
    TableDef("metadata", ["taskmanager_id TEXT", "generation_id INT", "key TEXT",
                          "state TEXT", "generation_time REAL", "missed_update_count INT"]),
    TableDef("dataproduct", ["taskmanager_id TEXT", "generation_id INT", "key TEXT", "value BLOB"])
  ]

  /** The names of the given table definitions. */
  function Names(defs: seq<TableDef>): set<string>
  {
    set d | d in defs :: d.name
  }

  /** The state the source keeps on the class rather than on an instance: whether
      some data space has created its tables. Every data space of one process
      shares the same object. */
  class DataSpaceClass {
    var tablesCreated: bool

    constructor ()
      ensures !tablesCreated
    {
      tablesCreated := false;
    }
  }

  class DataSpace {
    /** The class-level state this data space shares with every other one. */
    const cls: DataSpaceClass
    /** The names of the tables the database holds. */
    var tables: set<string>
    /** The rows of each table, in storage (insertion) order. */
    var dataproductTable: seq<Row<Value>>
    var headerTable: seq<Row<Header>>
    var metadataTable: seq<Row<Metadata>>

    /** The database holds every table of the definitions. */
    predicate Valid()
      reads this
    {
      tables == Names(TableDefs)
    }

    /** The three tables hold the same sequence of addresses, row by row. */
    ghost predicate Aligned()
      reads this
    {
      SameTriples(dataproductTable, headerTable) && SameTriples(headerTable, metadataTable)
    }

    /** A connection to a freshly made database file: any earlier file at the
        configured location is removed first, so no table exists yet. */
    constructor Connect(cls: DataSpaceClass)
      ensures this.cls == cls && tables == {}
      ensures dataproductTable == [] && headerTable == [] && metadataTable == []
      ensures Aligned()
    {
      this.cls := cls;
      tables := {};
      dataproductTable, headerTable, metadataTable := [], [], [];
    }

    /** Building a data space: connect to a fresh database, refuse when the
        class-wide flag says the tables were already created, else create them. */
    static method Open(cls: DataSpaceClass) returns (r: Result<DataSpace>)
      modifies cls
      ensures r.Err? <==> old(cls.tablesCreated)
      ensures r.Err? ==> r.error == TablesAlreadyCreated && cls.tablesCreated
      ensures r.Ok? ==> && fresh(r.value) && r.value.cls == cls && cls.tablesCreated
                        && r.value.Valid() && r.value.Aligned()
                        && r.value.dataproductTable == [] && r.value.headerTable == []
                        && r.value.metadataTable == []
    {
      var ds := new DataSpace.Connect(cls);
      if cls.tablesCreated {
        return Err(TablesAlreadyCreated);
      }
      var created := ds.Create();
      assert created.Pass?;  // a fresh database holds no table yet
      r := Ok(ds);
    }

    /** Creating every table of the definitions, one after the other, then setting
        the class-wide flag. CREATE TABLE fails on a table the database already
        holds; the tables created before the failing one stay created. */
    method Create() returns (r: Outcome)
      modifies this`tables, cls`tablesCreated
      ensures r.Pass? <==> old(tables) !! Names(TableDefs)
      ensures r.Pass? ==> tables == old(tables) + Names(TableDefs) && cls.tablesCreated
      ensures r.Fail? ==> cls.tablesCreated == old(cls.tablesCreated)
      ensures r.Fail? ==> exists i :: && 0 <= i < |TableDefs|
                                      && r.error == TableAlreadyExists(TableDefs[i].name)
                                      && TableDefs[i].name in old(tables)
                                      && old(tables) !! Names(TableDefs[..i])
                                      && tables == old(tables) + Names(TableDefs[..i])
    {
      for i := 0 to |TableDefs|
        invariant tables == old(tables) + Names(TableDefs[..i])
        invariant old(tables) !! Names(TableDefs[..i])
        invariant cls.tablesCreated == old(cls.tablesCreated)
      {
        var def := TableDefs[i];
        assert TableDefs[..i + 1] == TableDefs[..i] + [def];
        if def.name in tables {
          return Fail(TableAlreadyExists(def.name));
        }
        tables := tables + {def.name};
      }
      assert TableDefs[..|TableDefs|] == TableDefs;
      cls.tablesCreated := true;
      r := Pass;
    }

    /** `SELECT COALESCE(MAX(generation_id), 0) FROM dataproduct`: the largest
        generation_id of the whole dataproduct table, whichever task manager owns
        it, or 0 when the table is empty. The task manager argument is not used. */
    function GetLastGenerationId(taskmanagerId: string): (g: int)
      requires Valid()
      reads this
      ensures dataproductTable == [] ==> g == 0
      ensures dataproductTable != [] ==>
                exists i :: 0 <= i < |dataproductTable| && dataproductTable[i].id.generationId == g
      ensures forall i :: 0 <= i < |dataproductTable| ==> dataproductTable[i].id.generationId <= g
    {
      MaxGeneration(dataproductTable)
    }

    /** Appending one row for (taskmanagerId, generationId, key) to each table,
        committed together. */
    method Insert(taskmanagerId: string, generationId: int, key: string,
                  value: Value, header: Header, metadata: Metadata)
      requires Valid()
      modifies this`dataproductTable, this`headerTable, this`metadataTable
      ensures dataproductTable == old(dataproductTable) + [Row(Triple(taskmanagerId, generationId, key), value)]
      ensures headerTable == old(headerTable) + [Row(Triple(taskmanagerId, generationId, key), header)]
      ensures metadataTable == old(metadataTable) + [Row(Triple(taskmanagerId, generationId, key), metadata)]
      ensures old(Aligned()) ==> Aligned()
    {
      var t := Triple(taskmanagerId, generationId, key);
      if Aligned() {
        InsertKeepsAlignment(dataproductTable, headerTable, t, value, header);
        InsertKeepsAlignment(headerTable, metadataTable, t, header, metadata);
      }
      dataproductTable := dataproductTable + [Row(t, value)];
      headerTable := headerTable + [Row(t, header)];
      metadataTable := metadataTable + [Row(t, metadata)];
    }

    /** Rewriting, in each table, the own columns of every row addressed by
        (taskmanagerId, generationId, key), committed together. An address with
        no rows changes nothing and is not an error. */
    method Update(taskmanagerId: string, generationId: int, key: string,
                  value: Value, header: Header, metadata: Metadata)
      requires Valid()
      modifies this`dataproductTable, this`headerTable, this`metadataTable
      ensures dataproductTable == UpdateWhere(old(dataproductTable), Triple(taskmanagerId, generationId, key), value)
      ensures headerTable == UpdateWhere(old(headerTable), Triple(taskmanagerId, generationId, key), header)
      ensures metadataTable == UpdateWhere(old(metadataTable), Triple(taskmanagerId, generationId, key), metadata)
      ensures NoMatch(old(dataproductTable), Triple(taskmanagerId, generationId, key)) ==> dataproductTable == old(dataproductTable)
      ensures NoMatch(old(headerTable), Triple(taskmanagerId, generationId, key)) ==> headerTable == old(headerTable)
      ensures NoMatch(old(metadataTable), Triple(taskmanagerId, generationId, key)) ==> metadataTable == old(metadataTable)
      ensures old(Aligned()) ==> Aligned()
    {
      var t := Triple(taskmanagerId, generationId, key);
      if NoMatch(dataproductTable, t) { UpdateNoMatch(dataproductTable, t, value); }
      if NoMatch(headerTable, t) { UpdateNoMatch(headerTable, t, header); }
      if NoMatch(metadataTable, t) { UpdateNoMatch(metadataTable, t, metadata); }
      if Aligned() {
        UpdateKeepsAlignment(dataproductTable, headerTable, t, value, header);
        UpdateKeepsAlignment(headerTable, metadataTable, t, header, metadata);
      }
      dataproductTable := UpdateWhere(dataproductTable, t, value);
      headerTable := UpdateWhere(headerTable, t, header);
      metadataTable := UpdateWhere(metadataTable, t, metadata);
    }

    /** `_get_table_row` on dataproduct, selecting the value column: the value of
        the last row addressed by the triple; no such row is an index error. */
    function GetDataproduct(taskmanagerId: string, generationId: int, key: string): (r: Result<Value>)
      requires Valid()
      reads this
      ensures r.Err? <==> NoMatch(dataproductTable, Triple(taskmanagerId, generationId, key))
      ensures r.Err? ==> r.error == IndexOutOfRange
      ensures r.Ok? ==> var i := LastIndex(dataproductTable, Triple(taskmanagerId, generationId, key));
                        IsLastMatch(dataproductTable, Triple(taskmanagerId, generationId, key), i)
                        && r.value == dataproductTable[i].fields
    {
      match LastMatch(dataproductTable, Triple(taskmanagerId, generationId, key))
      case Ok(row) => Ok(row.fields)
      case Err(e) => Err(e)
    }

    /** `_get_table_row` on header, selecting every column: the last row addressed
        by the triple; no such row is an index error. */
    function GetHeader(taskmanagerId: string, generationId: int, key: string): (r: Result<Row<Header>>)
      requires Valid()
      reads this
      ensures r.Err? <==> NoMatch(headerTable, Triple(taskmanagerId, generationId, key))
      ensures r.Err? ==> r.error == IndexOutOfRange
      ensures r.Ok? ==> var i := LastIndex(headerTable, Triple(taskmanagerId, generationId, key));
                        IsLastMatch(headerTable, Triple(taskmanagerId, generationId, key), i)
                        && r.value == headerTable[i]
    {
      LastMatch(headerTable, Triple(taskmanagerId, generationId, key))
    }

    /** `_get_table_row` on metadata, selecting every column: the last row
        addressed by the triple; no such row is an index error. */
    function GetMetadata(taskmanagerId: string, generationId: int, key: string): (r: Result<Row<Metadata>>)
      requires Valid()
      reads this
      ensures r.Err? <==> NoMatch(metadataTable, Triple(taskmanagerId, generationId, key))
      ensures r.Err? ==> r.error == IndexOutOfRange
      ensures r.Ok? ==> var i := LastIndex(metadataTable, Triple(taskmanagerId, generationId, key));
                        IsLastMatch(metadataTable, Triple(taskmanagerId, generationId, key), i)
                        && r.value == metadataTable[i]
    {
      LastMatch(metadataTable, Triple(taskmanagerId, generationId, key))
    }

    /** Appending to each table a copy of every row of generation `generationId`
        of `taskmanagerId`, with generation_id `newGenerationId`; the existing rows
        are kept as they are. */
    method Duplicate(taskmanagerId: string, generationId: int, newGenerationId: int)
      requires Valid()
      modifies this`dataproductTable, this`headerTable, this`metadataTable
      ensures dataproductTable == old(dataproductTable) + Copies(old(dataproductTable), taskmanagerId, generationId, newGenerationId)
      ensures headerTable == old(headerTable) + Copies(old(headerTable), taskmanagerId, generationId, newGenerationId)
      ensures metadataTable == old(metadataTable) + Copies(old(metadataTable), taskmanagerId, generationId, newGenerationId)
      ensures old(Aligned()) ==> Aligned()
    {
      if Aligned() {
        DuplicateKeepsAlignment(dataproductTable, headerTable, taskmanagerId, generationId, newGenerationId);
        DuplicateKeepsAlignment(headerTable, metadataTable, taskmanagerId, generationId, newGenerationId);
      }
      dataproductTable := dataproductTable + Copies(dataproductTable, taskmanagerId, generationId, newGenerationId);
      headerTable := headerTable + Copies(headerTable, taskmanagerId, generationId, newGenerationId);
      metadataTable := metadataTable + Copies(metadataTable, taskmanagerId, generationId, newGenerationId);
    }

    /** Meant to remove the latest generation, or every generation, of a task
        manager; as written it does nothing. */
    method Delete(taskmanagerId: string, allGenerations: bool)
      requires Valid()
      modifies this`dataproductTable, this`headerTable, this`metadataTable
      ensures unchanged(this)
    {
    }
  }
}
