/** A client of the data space: end-to-end uses of the store, shown to
    follow from the contracts of the operations and the lemmas about the tables. */
module Scenarios {
  import opened Records
  import opened Tables
  import opened DataSpaces

  method EndToEnd()
  {
    var cls := new DataSpaceClass();
    var built := DataSpace.Open(cls);
    var ds := built.value;
    assert ds.GetLastGenerationId("tm1") == 0;

    var header := Header(100.0, 200.0, 90.0, "c1", 1);
    var metadata := Metadata("ready", 100.0, 0);
    ds.Insert("tm1", 1, "x", "42", header, metadata);
    InsertReadBack([], Triple("tm1", 1, "x"), "42", Triple("tm1", 1, "x"));
    assert ds.GetDataproduct("tm1", 1, "x") == Ok("42");
    assert ds.GetLastGenerationId("tm1") == 1;

    var before := ds.dataproductTable;
    ds.Duplicate("tm1", 1, 2);
    DuplicateReadBack(before, "tm1", 1, 2, "x");
    assert ds.GetDataproduct("tm1", 2, "x") == Ok("42");
    assert GenerationIndices(before, "tm1", 1) == {0};
    DuplicateMaxGeneration(before, "tm1", 1, 2);
    assert ds.GetLastGenerationId("tm1") == 2;
    assert ds.GetLastGenerationId("some other task manager") == 2;

    // A second data space in the same process is refused.
    var again := DataSpace.Open(cls);
    assert again == Err(TablesAlreadyCreated);
  }

  method RepeatedAddress()
  {
    var cls := new DataSpaceClass();
    var built := DataSpace.Open(cls);
    var ds := built.value;
    var header := Header(100.0, 200.0, 90.0, "c1", 1);
    var metadata := Metadata("ready", 100.0, 0);
    var x := Triple("tm1", 1, "x");

    // Two rows with one address: the later one is read.
    ds.Insert("tm1", 1, "x", "first", header, metadata);
    ds.Insert("tm1", 1, "x", "second", header, metadata);
    assert ds.dataproductTable == [Row(x, "first"), Row(x, "second")];
    InsertReadBack([Row(x, "first")], x, "second", x);
    assert ds.GetDataproduct("tm1", 1, "x") == Ok("second");

    // An update rewrites both rows.
    ds.Update("tm1", 1, "x", "third", header, metadata);
    assert ds.dataproductTable == [Row(x, "third"), Row(x, "third")];
  }

  method AbsentAddress()
  {
    var cls := new DataSpaceClass();
    var built := DataSpace.Open(cls);
    var ds := built.value;
    var header := Header(100.0, 200.0, 90.0, "c1", 1);
    var metadata := Metadata("ready", 100.0, 0);

    // An update of an absent address changes nothing; reading it fails.
    ds.Insert("tm1", 1, "x", "v", header, metadata);
    ds.Update("tm1", 7, "x", "w", header, metadata);
    assert ds.dataproductTable == [Row(Triple("tm1", 1, "x"), "v")];
    assert ds.GetDataproduct("tm1", 7, "x") == Err(IndexOutOfRange);
  }

  method LargestGeneration()
  {
    var cls := new DataSpaceClass();
    var built := DataSpace.Open(cls);
    var ds := built.value;
    var header := Header(100.0, 200.0, 90.0, "c1", 1);
    var metadata := Metadata("ready", 100.0, 0);

    // Generations 1, 3 and 2, in that order: the largest is reported.
    ds.Insert("tm1", 1, "x", "v", header, metadata);
    ds.Insert("tm1", 3, "x", "v", header, metadata);
    ds.Insert("tm1", 2, "x", "v", header, metadata);
    assert ds.dataproductTable[1].id.generationId == 3;
    assert ds.GetLastGenerationId("tm1") == 3;
  }
}
