/** The row-level effect of the SQL statements the data space runs on one table.
    A table keeps its rows in storage (insertion) order, as a sequence; the
    header, metadata and dataproduct tables all use these definitions. */
module Tables {
  import opened Records

  /** No row of `rows` is addressed by `t`. */
  ghost predicate NoMatch<P>(rows: seq<Row<P>>, t: Triple)
  {
    forall i :: 0 <= i < |rows| ==> rows[i].id != t
  }

  /** `i` is the position of the last row of `rows` addressed by `t`. */
  ghost predicate IsLastMatch<P>(rows: seq<Row<P>>, t: Triple, i: int)
  {
    && 0 <= i < |rows|
    && rows[i].id == t
    && forall j :: i < j < |rows| ==> rows[j].id != t
  }

  /** The row belongs to generation `g` of task manager `tm`. */
  predicate InGeneration<P>(row: Row<P>, tm: string, g: int)
  {
    row.id.taskmanagerId == tm && row.id.generationId == g
  }

  /** The positions of the rows of generation `g` of task manager `tm`. */
  ghost function GenerationIndices<P>(rows: seq<Row<P>>, tm: string, g: int): set<int>
  {
    set i | 0 <= i < |rows| && InGeneration(rows[i], tm, g)
  }

  /** Two tables hold the same sequence of addresses, row by row. */
  ghost predicate SameTriples<P, Q>(a: seq<Row<P>>, b: seq<Row<Q>>)
  {
    |a| == |b| && forall i :: 0 <= i < |a| ==> a[i].id == b[i].id
  }

  // ---------------------------------------------------------------------------
  // Reading: SELECT <cols> FROM <table> WHERE taskmanager_id=? AND
  // generation_id=? AND key=?, then the last fetched row.

  /** The rows the SELECT fetches, in storage order. */
  function Matching<P>(rows: seq<Row<P>>, t: Triple): (r: seq<Row<P>>)
    ensures |r| <= |rows|
    ensures forall j :: 0 <= j < |r| ==> r[j].id == t
    ensures r == [] <==> NoMatch(rows, t)
  {
    if rows == [] then []
    else
      var n := |rows| - 1;
      Matching(rows[..n], t) + if rows[n].id == t then [rows[n]] else []
  }

  /** The last position of the table addressed by `t`, found by scanning from the
      end; -1 when no row is addressed by `t`. */
  ghost function LastIndex<P>(rows: seq<Row<P>>, t: Triple): (i: int)
    ensures -1 <= i < |rows|
    ensures i == -1 ==> NoMatch(rows, t)
    ensures i != -1 ==> IsLastMatch(rows, t, i)
  {
    if rows == [] then -1
    else
      var n := |rows| - 1;
      if rows[n].id == t then n
      else
        var i := LastIndex(rows[..n], t);
        if i == -1 then -1 else IsLastMatchSnoc(rows, t, i); i
  }

  /** The last row addressed by `t` stays the last one when a row with another
      address is appended. */
  lemma IsLastMatchSnoc<P>(rows: seq<Row<P>>, t: Triple, i: int)
    requires rows != [] && rows[|rows| - 1].id != t
    requires IsLastMatch(rows[..|rows| - 1], t, i)
    ensures IsLastMatch(rows, t, i)
  {
    var n := |rows| - 1;
    forall j | i < j < |rows|
      ensures rows[j].id != t
    {
      if j < n {
        assert rows[j] == rows[..n][j];
      }
    }
  }

  /** The fetch is the table filtered by address: every row addressed by `t` is
      fetched as often as the table holds it, and no other row is fetched. */
  lemma {:induction false} MatchingMultiplicity<P(!new)>(rows: seq<Row<P>>, t: Triple)
    ensures forall x :: multiset(Matching(rows, t))[x] == if x.id == t then multiset(rows)[x] else 0
  {
    if rows != [] {
      var n := |rows| - 1;
      assert rows == rows[..n] + [rows[n]];
      MatchingMultiplicity(rows[..n], t);
    }
  }

  /** The fetch keeps storage order: fetching from two stretches of the table one
      after the other gives the two fetches one after the other. */
  lemma {:induction false} MatchingAppend<P>(a: seq<Row<P>>, b: seq<Row<P>>, t: Triple)
    ensures Matching(a + b, t) == Matching(a, t) + Matching(b, t)
  {
    if b != [] {
      var n := |b| - 1;
      assert (a + b)[..|a + b| - 1] == a + b[..n];
      MatchingAppend(a, b[..n], t);
    } else {
      assert a + b == a;
    }
  }

  /** Something is fetched exactly when some row is addressed by `t`, and the
      last fetched row is the last row of the table addressed by `t`. */
  lemma {:induction false} MatchingLast<P>(rows: seq<Row<P>>, t: Triple)
    ensures var r := Matching(rows, t);
            && (r == [] <==> LastIndex(rows, t) == -1)
            && (r != [] ==> r[|r| - 1] == rows[LastIndex(rows, t)])
  {
    if rows != [] {
      var n := |rows| - 1;
      var front := Matching(rows[..n], t);
      if rows[n].id == t {
        assert Matching(rows, t) == front + [rows[n]];
      } else {
        assert Matching(rows, t) == front;
        MatchingLast(rows[..n], t);
      }
    }
  }

  /** The last fetched row (`value[-1]`); indexing the empty list of an absent
      address fails. */
  function LastMatch<P>(rows: seq<Row<P>>, t: Triple): (r: Result<Row<P>>)
    ensures r.Err? <==> NoMatch(rows, t)
    ensures r.Err? ==> r.error == IndexOutOfRange
    ensures r.Ok? ==> IsLastMatch(rows, t, LastIndex(rows, t)) && r.value == rows[LastIndex(rows, t)]
  {
    var fetched := Matching(rows, t);
    MatchingLast(rows, t);
    if |fetched| == 0 then Err(IndexOutOfRange) else Ok(fetched[|fetched| - 1])
  }

  /** Appending a row makes it the answer for its own address and changes the
      answer for no other address. */
  lemma LastMatchSnoc<P>(rows: seq<Row<P>>, x: Row<P>, t: Triple)
    ensures LastMatch(rows + [x], t) == if x.id == t then Ok(x) else LastMatch(rows, t)
  {
    assert (rows + [x])[..|rows|] == rows;
    assert Matching(rows + [x], t) == Matching(rows, t) + if x.id == t then [x] else [];
  }

  /** Reading after appending rows `b`: the last row of `b` for the address wins,
      and the older rows answer only when `b` has none. */
  lemma {:induction false} LastMatchAppend<P>(a: seq<Row<P>>, b: seq<Row<P>>, t: Triple)
    ensures LastMatch(a + b, t) == if NoMatch(b, t) then LastMatch(a, t) else LastMatch(b, t)
  {
    if b == [] {
      assert a + b == a;
    } else {
      var n := |b| - 1;
      assert b == b[..n] + [b[n]];
      assert a + b == (a + b[..n]) + [b[n]];
      LastMatchAppend(a, b[..n], t);
      LastMatchSnoc(a + b[..n], b[n], t);
      LastMatchSnoc(b[..n], b[n], t);
    }
  }

  // ---------------------------------------------------------------------------
  // INSERT INTO <table> VALUES (...): the table gains one row at its end.

  /** Reading the address just inserted gives the inserted row; every other
      address reads as before. */
  lemma InsertReadBack<P>(rows: seq<Row<P>>, t: Triple, p: P, u: Triple)
    ensures LastMatch(rows + [Row(t, p)], t) == Ok(Row(t, p))
    ensures u != t ==> LastMatch(rows + [Row(t, p)], u) == LastMatch(rows, u)
  {
    LastMatchSnoc(rows, Row(t, p), t);
    LastMatchSnoc(rows, Row(t, p), u);
  }

  // ---------------------------------------------------------------------------
  // UPDATE <table> SET <own columns> WHERE taskmanager_id=? AND
  // generation_id=? AND key=?

  /** Every row addressed by `t` gets the own columns `p`, in place; the address
      columns, the other rows, the row count and the row order are kept. */
  function UpdateWhere<P>(rows: seq<Row<P>>, t: Triple, p: P): (r: seq<Row<P>>)
    ensures |r| == |rows|
    ensures forall i :: 0 <= i < |rows| && rows[i].id == t ==> r[i] == Row(t, p)
    ensures forall i :: 0 <= i < |rows| && rows[i].id != t ==> r[i] == rows[i]
  {
    if rows == [] then []
    else
      var n := |rows| - 1;
      UpdateWhere(rows[..n], t, p) + [if rows[n].id == t then rows[n].(fields := p) else rows[n]]
  }

  /** An update of an address no row has changes nothing. */
  lemma UpdateNoMatch<P>(rows: seq<Row<P>>, t: Triple, p: P)
    requires NoMatch(rows, t)
    ensures UpdateWhere(rows, t, p) == rows
  {
  }

  /** After updating an address that has rows, reading it gives the new columns. */
  lemma UpdateReadBack<P>(rows: seq<Row<P>>, t: Triple, p: P)
    requires !NoMatch(rows, t)
    ensures LastMatch(UpdateWhere(rows, t, p), t) == Ok(Row(t, p))
  {
  }

  /** An update leaves the reading of every other address as it was. */
  lemma {:induction false} UpdateOtherReads<P>(rows: seq<Row<P>>, t: Triple, p: P, u: Triple)
    requires u != t
    ensures LastMatch(UpdateWhere(rows, t, p), u) == LastMatch(rows, u)
  {
    if rows != [] {
      var n := |rows| - 1;
      var updated := UpdateWhere(rows, t, p);
      assert rows == rows[..n] + [rows[n]];
      assert updated == UpdateWhere(rows[..n], t, p) + [updated[n]];
      UpdateOtherReads(rows[..n], t, p, u);
      LastMatchSnoc(rows[..n], rows[n], u);
      LastMatchSnoc(UpdateWhere(rows[..n], t, p), updated[n], u);
    }
  }

  // ---------------------------------------------------------------------------
  // INSERT INTO <table> SELECT taskmanager_id, g2, key, <own columns>
  // FROM <table> WHERE taskmanager_id=? AND generation_id=?

  /** The rows the duplication appends: for each row of generation `g` of `tm`, in
      storage order, a copy whose generation_id is `g2`. The SELECT reads the
      table as it was before the statement. */
  function Copies<P>(rows: seq<Row<P>>, tm: string, g: int, g2: int): (r: seq<Row<P>>)
    ensures |r| <= |rows|
    ensures forall j :: 0 <= j < |r| ==> InGeneration(r[j], tm, g2)
  {
    if rows == [] then []
    else
      var n := |rows| - 1;
      Copies(rows[..n], tm, g, g2)
        + if InGeneration(rows[n], tm, g) then [WithGeneration(rows[n], g2)] else []
  }

  /** Each row the duplication appends occurs exactly as often as the original
      row, identical but for its generation_id, occurs in generation `g`. */
  lemma {:induction false} CopiesMultiplicity<P(!new)>(rows: seq<Row<P>>, tm: string, g: int, g2: int)
    ensures var r := Copies(rows, tm, g, g2);
            forall x :: multiset(r)[x] ==
                        if InGeneration(x, tm, g2) then multiset(rows)[WithGeneration(x, g)] else 0
  {
    if rows != [] {
      var n := |rows| - 1;
      assert rows == rows[..n] + [rows[n]];
      CopiesMultiplicity(rows[..n], tm, g, g2);
    }
  }

  /** The positions of a generation in a table with one more row. */
  lemma GenerationIndicesSnoc<P>(rows: seq<Row<P>>, tm: string, g: int)
    requires rows != []
    ensures var n := |rows| - 1;
            GenerationIndices(rows, tm, g) ==
              GenerationIndices(rows[..n], tm, g) + if InGeneration(rows[n], tm, g) then {n} else {}
  {
    var n := |rows| - 1;
    assert forall i :: 0 <= i < n ==> rows[..n][i] == rows[i];
  }

  /** A duplication appends exactly as many rows as generation `g` of `tm` holds. */
  lemma {:induction false} CopiesCount<P>(rows: seq<Row<P>>, tm: string, g: int, g2: int)
    ensures |Copies(rows, tm, g, g2)| == |GenerationIndices(rows, tm, g)|
  {
    if rows != [] {
      var n := |rows| - 1;
      CopiesCount(rows[..n], tm, g, g2);
      GenerationIndicesSnoc(rows, tm, g);
      assert n !in GenerationIndices(rows[..n], tm, g);
    }
  }

  /** Among the copies, the answer for (tm, g2, k) is the copy of the answer for
      (tm, g, k) among the originals. */
  lemma {:induction false} CopiesLastMatch<P>(rows: seq<Row<P>>, tm: string, g: int, g2: int, k: string)
    ensures var src := LastMatch(rows, Triple(tm, g, k));
            var dst := LastMatch(Copies(rows, tm, g, g2), Triple(tm, g2, k));
            && (dst.Err? <==> src.Err?)
            && (src.Ok? ==> dst == Ok(WithGeneration(src.value, g2)))
  {
    if rows != [] {
      var n := |rows| - 1;
      var front := Copies(rows[..n], tm, g, g2);
      assert rows == rows[..n] + [rows[n]];
      CopiesLastMatch(rows[..n], tm, g, g2, k);
      LastMatchSnoc(rows[..n], rows[n], Triple(tm, g, k));
      if InGeneration(rows[n], tm, g) {
        assert Copies(rows, tm, g, g2) == front + [WithGeneration(rows[n], g2)];
        LastMatchSnoc(front, WithGeneration(rows[n], g2), Triple(tm, g2, k));
      } else {
        assert Copies(rows, tm, g, g2) == front;
      }
    }
  }

  /** After duplicating generation `g` of `tm` into `g2`, reading (tm, g2, k) gives
      the copy of what (tm, g, k) read before; when (tm, g, k) had no row, it
      reads as before the duplication. */
  lemma DuplicateReadBack<P>(rows: seq<Row<P>>, tm: string, g: int, g2: int, k: string)
    ensures var src := LastMatch(rows, Triple(tm, g, k));
            var dst := LastMatch(rows + Copies(rows, tm, g, g2), Triple(tm, g2, k));
            && (src.Ok? ==> dst == Ok(WithGeneration(src.value, g2)))
            && (src.Err? ==> dst == LastMatch(rows, Triple(tm, g2, k)))
  {
    CopiesLastMatch(rows, tm, g, g2, k);
    LastMatchAppend(rows, Copies(rows, tm, g, g2), Triple(tm, g2, k));
  }

  /** A duplication into `g2` leaves the reading of every address outside
      generation `g2` of `tm` as it was. */
  lemma DuplicateOtherReads<P>(rows: seq<Row<P>>, tm: string, g: int, g2: int, u: Triple)
    requires u.taskmanagerId != tm || u.generationId != g2
    ensures LastMatch(rows + Copies(rows, tm, g, g2), u) == LastMatch(rows, u)
  {
    LastMatchAppend(rows, Copies(rows, tm, g, g2), u);
  }

  // ---------------------------------------------------------------------------
  // Row alignment of two tables on the address columns.

  /** Inserting the same address into two aligned tables keeps them aligned. */
  lemma InsertKeepsAlignment<P, Q>(a: seq<Row<P>>, b: seq<Row<Q>>, t: Triple, p: P, q: Q)
    requires SameTriples(a, b)
    ensures SameTriples(a + [Row(t, p)], b + [Row(t, q)])
  {
  }

  /** Updating the same address in two aligned tables keeps them aligned. */
  lemma UpdateKeepsAlignment<P, Q>(a: seq<Row<P>>, b: seq<Row<Q>>, t: Triple, p: P, q: Q)
    requires SameTriples(a, b)
    ensures SameTriples(UpdateWhere(a, t, p), UpdateWhere(b, t, q))
  {
  }

  /** Aligned tables yield aligned copies. */
  lemma {:induction false} CopiesKeepAlignment<P, Q>(a: seq<Row<P>>, b: seq<Row<Q>>, tm: string, g: int, g2: int)
    requires SameTriples(a, b)
    ensures SameTriples(Copies(a, tm, g, g2), Copies(b, tm, g, g2))
  {
    if a != [] {
      var n := |a| - 1;
      assert SameTriples(a[..n], b[..n]);
      CopiesKeepAlignment(a[..n], b[..n], tm, g, g2);
      var ca, cb := Copies(a[..n], tm, g, g2), Copies(b[..n], tm, g, g2);
      if InGeneration(a[n], tm, g) {
        assert Copies(a, tm, g, g2) == ca + [WithGeneration(a[n], g2)];
        assert Copies(b, tm, g, g2) == cb + [WithGeneration(b[n], g2)];
        SameTriplesAppend(ca, cb, [WithGeneration(a[n], g2)], [WithGeneration(b[n], g2)]);
      } else {
        assert Copies(a, tm, g, g2) == ca && Copies(b, tm, g, g2) == cb;
      }
    }
  }

  /** Appending aligned tables to aligned tables keeps them aligned. */
  lemma SameTriplesAppend<P, Q>(a: seq<Row<P>>, b: seq<Row<Q>>, c: seq<Row<P>>, d: seq<Row<Q>>)
    requires SameTriples(a, b) && SameTriples(c, d)
    ensures SameTriples(a + c, b + d)
  {
    forall i | 0 <= i < |a + c|
      ensures (a + c)[i].id == (b + d)[i].id
    {
      if i >= |a| {
        assert (a + c)[i] == c[i - |a|] && (b + d)[i] == d[i - |a|];
      }
    }
  }

  /** Duplicating the same generation in two aligned tables keeps them aligned. */
  lemma DuplicateKeepsAlignment<P, Q>(a: seq<Row<P>>, b: seq<Row<Q>>, tm: string, g: int, g2: int)
    requires SameTriples(a, b)
    ensures SameTriples(a + Copies(a, tm, g, g2), b + Copies(b, tm, g, g2))
  {
    CopiesKeepAlignment(a, b, tm, g, g2);
    SameTriplesAppend(a, b, Copies(a, tm, g, g2), Copies(b, tm, g, g2));
  }

  // ---------------------------------------------------------------------------
  // SELECT COALESCE(MAX(generation_id), 0) FROM <table>

  /** The largest generation_id of the table, or 0 for an empty table. */
  function MaxGeneration<P>(rows: seq<Row<P>>): (m: int)
    ensures rows == [] ==> m == 0
    ensures rows != [] ==> exists i :: 0 <= i < |rows| && rows[i].id.generationId == m
    ensures forall i :: 0 <= i < |rows| ==> rows[i].id.generationId <= m
  {
    if |rows| <= 1 then
      if rows == [] then 0 else rows[0].id.generationId
    else
      var n := |rows| - 1;
      var front := MaxGeneration(rows[..n]);
      if rows[n].id.generationId > front then rows[n].id.generationId else front
  }

  /** After a duplication that copies at least one row, the largest generation_id
      is the larger of the old one and `g2`. */
  lemma DuplicateMaxGeneration<P>(rows: seq<Row<P>>, tm: string, g: int, g2: int)
    requires GenerationIndices(rows, tm, g) != {}
    ensures var old_max := MaxGeneration(rows);
            MaxGeneration(rows + Copies(rows, tm, g, g2)) == if g2 > old_max then g2 else old_max
  {
    var copies := Copies(rows, tm, g, g2);
    CopiesCount(rows, tm, g, g2);
    assert (rows + copies)[|rows|] == copies[0];
    var m := MaxGeneration(rows + copies);
    assert forall i :: 0 <= i < |rows| ==> (rows + copies)[i] == rows[i];
    assert forall j :: 0 <= j < |copies| ==> (rows + copies)[|rows| + j] == copies[j];
  }
}
