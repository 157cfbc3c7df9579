/** What saving and loading a store guarantees. */
module StoreProperties {
  import opened Wrappers
  import opened Lex
  import opened CsvText
  import opened CsvRecord
  import opened CsvObjects
  import opened CsvStorage

  /** Some group's first object writes `name`. */
  ghost predicate Representative(c: Groups, name: string)
  {
    exists id :: id in c && |c[id]| > 0 && name in c[id][0].Fields()
  }

  /** No stored value holds the delimiter, the quote or the line break. */
  ghost predicate CleanStore(c: Groups)
  {
    forall id, o :: id in c && o in c[id] ==> CleanObject(o)
  }

  /** No field value of `o` holds the delimiter, the quote or the line break. */
  predicate CleanObject(o: CsvObject)
  {
    forall k :: k in o.Fields() ==> Clean(o.Fields()[k])
  }

  /** The objects of one discriminator, in order. */
  function OfClass(objs: seq<CsvObject>, id: string): seq<CsvObject>
    decreases |objs|
  {
    if objs == [] then []
    else
      var last := objs[|objs| - 1];
      OfClass(objs[..|objs| - 1], id) + (if last.GetClassId() == id then [last] else [])
  }

  lemma AddAllValid(c: Groups, objs: seq<CsvObject>)
    requires GroupsValid(c)
    ensures GroupsValid(AddAll(c, objs))
    decreases |objs|
  {
    if objs != [] {
      AddAllValid(c, objs[..|objs| - 1]);
      AddToValid(AddAll(c, objs[..|objs| - 1]), objs[|objs| - 1]);
    }
  }

  lemma {:induction false} HeaderMapNames(c: Groups, ids: seq<string>)
    requires Within(c, ids)
    ensures forall name :: name in HeaderMap(c, ids) <==> exists k :: k in ids && name in c[k][0].Fields()
    decreases |ids|
  {
    if ids != [] {
      var front := ids[..|ids| - 1];
      var last := ids[|ids| - 1];
      assert ids == front + [last];
      HeaderMapNames(c, front);
      forall name | name in HeaderMap(c, ids)
        ensures exists k :: k in ids && name in c[k][0].Fields()
      {
        if name !in HeaderMap(c, front) {
          assert last in ids && name in c[last][0].Fields();
        } else {
          var k :| k in front && name in c[k][0].Fields();
          assert k in ids;
        }
      }
      forall name | exists k :: k in ids && name in c[k][0].Fields()
        ensures name in HeaderMap(c, ids)
      {
        var k :| k in ids && name in c[k][0].Fields();
        if k != last {
          assert k in front;
        }
      }
    }
  }

  /** The header is the sorted union of the names written by the first object
      of each group. */
  lemma HeaderColumnsNames(c: Groups)
    requires GroupsValid(c)
    ensures StrictlySorted(HeaderColumns(c))
    ensures forall name :: name in HeaderColumns(c) <==> Representative(c, name)
  {
    SortedKeysSpec(c.Keys);
    var ids := SortedKeys(c.Keys);
    HeaderMapNames(c, ids);
    SortedKeysSpec(HeaderRecord(c).Keys);
    forall name | Representative(c, name)
      ensures name in HeaderColumns(c)
    {
      var id :| id in c && |c[id]| > 0 && name in c[id][0].Fields();
      assert id in ids;
    }
  }

  /** Every object written lies in the group of its own discriminator. */
  lemma {:induction false} FlattenMembers(c: Groups, ids: seq<string>, o: CsvObject)
    requires GroupsValid(c) && forall k :: k in ids ==> k in c
    requires o in Flatten(c, ids)
    ensures o.GetClassId() in ids && o in c[o.GetClassId()]
    decreases |ids|
  {
    var front := ids[..|ids| - 1];
    var last := ids[|ids| - 1];
    if o in Flatten(c, front) {
      FlattenMembers(c, front, o);
      assert o.GetClassId() in front;
    } else {
      assert o in c[last];
    }
  }

  /** Since every variant with a given discriminator writes the same names,
      the header covers every field of every object written. */
  lemma HeaderCoversAll(c: Groups)
    requires GroupsValid(c)
    ensures forall o, name :: o in AllObjects(c) && name in o.Fields() ==> name in HeaderColumns(c)
  {
    SortedKeysSpec(c.Keys);
    HeaderColumnsNames(c);
    forall o, name | o in AllObjects(c) && name in o.Fields()
      ensures name in HeaderColumns(c)
    {
      FlattenMembers(c, SortedKeys(c.Keys), o);
      var id := o.GetClassId();
      ColumnsOfClass(o, c[id][0]);
      assert Representative(c, name);
    }
  }

  lemma {:induction false} OfClassAppend(a: seq<CsvObject>, b: seq<CsvObject>, id: string)
    ensures OfClass(a + b, id) == OfClass(a, id) + OfClass(b, id)
    decreases |b|
  {
    if b == [] {
      assert a + b == a;
    } else {
      var front := b[..|b| - 1];
      assert (a + b)[..|a + b| - 1] == a + front;
      OfClassAppend(a, front, id);
    }
  }

  lemma {:induction false} OfClassUniform(g: seq<CsvObject>, k: string, id: string)
    requires forall i :: 0 <= i < |g| ==> g[i].GetClassId() == k
    ensures OfClass(g, id) == if k == id then g else []
    decreases |g|
  {
    if g != [] {
      var front, last := g[..|g| - 1], g[|g| - 1];
      forall i | 0 <= i < |front|
        ensures front[i].GetClassId() == k
      {
        assert front[i] == g[i];
      }
      OfClassUniform(front, k, id);
      assert last.GetClassId() == k;
      assert OfClass(g, id) == OfClass(front, id) + (if k == id then [last] else []);
      if k == id {
        assert g == front + [last];
      }
    }
  }

  /** A group holds only objects of its own discriminator. */
  lemma GroupOfClass(c: Groups, k: string, id: string)
    requires GroupsValid(c) && k in c
    ensures OfClass(c[k], id) == if k == id then c[k] else []
  {
    OfClassUniform(c[k], k, id);
  }

  lemma DistinctFront(ids: seq<string>)
    requires |ids| > 0 && Distinct(ids)
    ensures Distinct(ids[..|ids| - 1]) && ids[|ids| - 1] !in ids[..|ids| - 1]
  {
    var front := ids[..|ids| - 1];
    forall i | 0 <= i < |front|
      ensures front[i] != ids[|ids| - 1]
    {
      assert front[i] == ids[i];
    }
  }

  /** The written objects of one class, split at the last group. */
  lemma FlattenOfClassStep(c: Groups, ids: seq<string>, id: string)
    requires ids != [] && forall k :: k in ids ==> k in c
    ensures OfClass(Flatten(c, ids), id) ==
      OfClass(Flatten(c, ids[..|ids| - 1]), id) + OfClass(c[ids[|ids| - 1]], id)
  {
    var front := ids[..|ids| - 1];
    assert forall k :: k in front ==> k in ids;
    OfClassAppend(Flatten(c, front), c[ids[|ids| - 1]], id);
  }

  lemma {:induction false} FlattenOfClass(c: Groups, ids: seq<string>, id: string)
    requires GroupsValid(c) && Distinct(ids) && forall k :: k in ids ==> k in c
    ensures OfClass(Flatten(c, ids), id) == if id in ids then c[id] else []
    decreases |ids|
  {
    if ids != [] {
      var front := ids[..|ids| - 1];
      var last := ids[|ids| - 1];
      assert ids == front + [last];
      DistinctFront(ids);
      FlattenOfClass(c, front, id);
      FlattenOfClassStep(c, ids, id);
      GroupOfClass(c, last, id);
      var a, b := OfClass(Flatten(c, front), id), OfClass(c[last], id);
      if id == last {
        assert a == [] && b == c[id];
        assert a + b == c[id];
      } else if id in front {
        assert a == c[id] && b == [];
        assert a + b == c[id];
      } else {
        assert a == [] && b == [];
      }
    }
  }

  /** Within the written objects every group keeps its insertion order. */
  lemma AllObjectsByClass(c: Groups, id: string)
    requires GroupsValid(c)
    ensures OfClass(AllObjects(c), id) == if id in c then c[id] else []
  {
    SortedKeysSpec(c.Keys);
    SortedDistinct(SortedKeys(c.Keys));
    FlattenOfClass(c, SortedKeys(c.Keys), id);
  }

  /** The discriminators of written objects never decrease. */
  lemma {:induction false} FlattenOrdered(c: Groups, ids: seq<string>)
    requires GroupsValid(c) && StrictlySorted(ids) && forall k :: k in ids ==> k in c
    ensures forall i, j :: 0 <= i < j < |Flatten(c, ids)| ==>
      var a := Flatten(c, ids)[i].GetClassId();
      var b := Flatten(c, ids)[j].GetClassId();
      a == b || Less(a, b)
    decreases |ids|
  {
    if ids != [] {
      var front := ids[..|ids| - 1];
      var last := ids[|ids| - 1];
      var f := Flatten(c, front);
      var all := Flatten(c, ids);
      assert all == f + c[last];
      FlattenOrdered(c, front);
      forall i, j | 0 <= i < j < |all|
        ensures all[i].GetClassId() == all[j].GetClassId() || Less(all[i].GetClassId(), all[j].GetClassId())
      {
        if j >= |f| {
          assert all[j] == c[last][j - |f|];
          if i < |f| {
            assert all[i] in f;
            FlattenMembers(c, front, all[i]);
            var x :| 0 <= x < |front| && front[x] == all[i].GetClassId();
            assert Less(ids[x], ids[|ids| - 1]);
          } else {
            assert all[i] == c[last][i - |f|];
          }
        } else {
          assert all[i] == f[i] && all[j] == f[j];
        }
      }
    }
  }

  /** Rows come grouped by ascending discriminator. */
  lemma AllObjectsOrdered(c: Groups)
    requires GroupsValid(c)
    ensures forall i, j :: 0 <= i < j < |AllObjects(c)| ==>
      var a := AllObjects(c)[i].GetClassId();
      var b := AllObjects(c)[j].GetClassId();
      a == b || Less(a, b)
  {
    SortedKeysSpec(c.Keys);
    FlattenOrdered(c, SortedKeys(c.Keys));
  }

  lemma {:induction false} AddAllAppend(d: Groups, a: seq<CsvObject>, b: seq<CsvObject>)
    ensures AddAll(d, a + b) == AddAll(AddAll(d, a), b)
    decreases |b|
  {
    if b == [] {
      assert a + b == a;
    } else {
      var front := b[..|b| - 1];
      assert (a + b)[..|a + b| - 1] == a + front;
      assert (a + b)[|a + b| - 1] == b[|b| - 1];
      AddAllAppend(d, a, front);
    }
  }

  lemma AddToGroup(d: Groups, k: string, g: seq<CsvObject>, o: CsvObject)
    requires o.GetClassId() == k
    ensures AddTo(d[k := g], o) == d[k := g + [o]]
  {
  }

  lemma AddToFresh(d: Groups, o: CsvObject)
    requires o.GetClassId() !in d
    ensures AddTo(d, o) == d[o.GetClassId() := [o]]
  {
    assert [] + [o] == [o];
  }

  lemma AddAllLast(d: Groups, g: seq<CsvObject>)
    requires |g| > 0
    ensures AddAll(d, g) == AddTo(AddAll(d, g[..|g| - 1]), g[|g| - 1])
  {
  }

  lemma SplitLast(g: seq<CsvObject>)
    requires |g| > 0
    ensures g == g[..|g| - 1] + [g[|g| - 1]]
  {
  }

  lemma SameClassFront(g: seq<CsvObject>, front: seq<CsvObject>, k: string)
    requires |g| > 0 && front == g[..|g| - 1]
    requires forall i :: 0 <= i < |g| ==> g[i].GetClassId() == k
    ensures forall i :: 0 <= i < |front| ==> front[i].GetClassId() == k
  {
    forall i | 0 <= i < |front|
      ensures front[i].GetClassId() == k
    {
      assert front[i] == g[i];
    }
  }

  lemma {:induction false} AddAllGroup(d: Groups, g: seq<CsvObject>, k: string)
    requires |g| > 0 && k !in d
    requires forall i :: 0 <= i < |g| ==> g[i].GetClassId() == k
    ensures AddAll(d, g) == d[k := g]
    decreases |g|
  {
    var front := g[..|g| - 1];
    var last := g[|g| - 1];
    AddAllLast(d, g);
    SplitLast(g);
    if |g| == 1 {
      assert AddAll(d, front) == d;
      AddToFresh(d, last);
    } else {
      SameClassFront(g, front, k);
      AddAllGroup(d, front, k);
      AddToGroup(d, k, front, last);
    }
  }

  /** The groups of `c` named in `ids`. */
  function Restrict(c: Groups, ids: seq<string>): Groups
  {
    map k | k in c && k in ids :: c[k]
  }

  lemma RestrictSnoc(c: Groups, ids: seq<string>, k: string)
    requires k in c
    ensures Restrict(c, ids + [k]) == Restrict(c, ids)[k := c[k]]
  {
  }

  lemma {:induction false} FlattenRestores(c: Groups, ids: seq<string>)
    requires GroupsValid(c) && Distinct(ids) && forall k :: k in ids ==> k in c
    ensures AddAll(map[], Flatten(c, ids)) == Restrict(c, ids)
    decreases |ids|
  {
    if ids == [] {
      assert Restrict(c, ids) == map[];
    } else {
      var front := ids[..|ids| - 1];
      var last := ids[|ids| - 1];
      assert ids == front + [last];
      DistinctFront(ids);
      FlattenRestores(c, front);
      AddAllAppend(map[], Flatten(c, front), c[last]);
      AddAllGroup(Restrict(c, front), c[last], last);
      RestrictSnoc(c, front, last);
    }
  }

  /** Adding the written objects, in order, to an empty store rebuilds the
      store. */
  lemma ReloadRestores(c: Groups)
    requires GroupsValid(c)
    ensures AddAll(map[], AllObjects(c)) == c
  {
    SortedKeysSpec(c.Keys);
    var ids := SortedKeys(c.Keys);
    SortedDistinct(ids);
    FlattenRestores(c, ids);
    assert Restrict(c, ids) == c;
  }

  /** The cells of an object's body line. */
  lemma RowValuesClean(o: CsvObject, columns: seq<string>)
    requires CleanObject(o)
    ensures AllClean(BodyValues(o.Fields(), columns))
  {
    var vals := BodyValues(o.Fields(), columns);
    forall i | 0 <= i < |vals|
      ensures Clean(vals[i])
    {
      if columns[i] !in o.Fields() {
        assert vals[i] == "";
      }
    }
  }

  /** A body line of clean values decodes to one cell per column. */
  lemma RowWidth(o: CsvObject, columns: seq<string>)
    requires CleanObject(o)
    ensures |Decode(Row(o, columns))| == |columns|
  {
    RowValuesClean(o, columns);
    DecodeEncode(BodyValues(o.Fields(), columns));
  }

  /** A body line written against columns that cover the object's fields reads
      back as that object. */
  lemma RowRoundTrip(o: CsvObject, columns: seq<string>)
    requires CleanObject(o) && forall k :: k in o.Fields() ==> k in columns
    ensures DecodeRow(columns, Row(o, columns)) == Ok(o)
  {
    var m := o.Fields();
    var vals := BodyValues(m, columns);
    RowValuesClean(o, columns);
    DecodeEncode(vals);
    assert columns[..|vals|] == columns;
    var cells := RowCells(columns, vals);
    assert ClassIdColumn in m;
    AssignBodyValues(m, columns, ClassIdColumn);
    FactoryKnowsVariants(o);
    var blank := GetObject(o.GetClassId()).value;
    ReadColumnsWritten(blank);
    ColumnsOfClass(blank, o);
    forall k | k in blank.ReadColumns()
      ensures Lookup(cells, k) == Lookup(m, k)
    {
      AssignBodyValues(m, columns, k);
    }
    PopulateAgrees(blank, cells, m);
    PopulateFields(blank, o);
  }

  /** Lines that all decode load as the objects they decode to. */
  lemma LoadRowsAll(columns: seq<string>, rows: seq<string>, objs: seq<CsvObject>)
    requires |rows| == |objs|
    requires forall i :: 0 <= i < |rows| ==> DecodeRow(columns, rows[i]) == Ok(objs[i])
    ensures LoadRows(columns, rows) == LoadOutcome(objs, None)
  {
    LoadRowsSpec(columns, rows);
    var r := LoadRows(columns, rows);
    assert r.error.None?;
    assert r.objects == objs;
  }

  lemma HeaderNamesClean(c: Groups)
    requires GroupsValid(c)
    ensures forall k :: k in HeaderRecord(c) ==> Clean(k)
  {
    SortedKeysSpec(c.Keys);
    var ids := SortedKeys(c.Keys);
    HeaderMapNames(c, ids);
    forall k | k in HeaderMap(c, ids)
      ensures Clean(k)
    {
      var id :| id in ids && k in c[id][0].Fields();
      FieldNamesClean(c[id][0]);
    }
  }

  lemma AllObjectsClean(c: Groups)
    requires GroupsValid(c) && CleanStore(c)
    ensures forall o :: o in AllObjects(c) ==> CleanObject(o)
  {
    SortedKeysSpec(c.Keys);
    forall o | o in AllObjects(c)
      ensures CleanObject(o)
    {
      FlattenMembers(c, SortedKeys(c.Keys), o);
    }
  }

  lemma RowsWidth(objs: seq<CsvObject>, columns: seq<string>)
    requires forall o :: o in objs ==> CleanObject(o)
    ensures forall i :: 0 <= i < |objs| ==> |Decode(Rows(objs, columns)[i])| == |columns|
  {
    forall i | 0 <= i < |objs|
      ensures |Decode(Rows(objs, columns)[i])| == |columns|
    {
      assert objs[i] in objs;
      RowWidth(objs[i], columns);
    }
  }

  lemma SavedHeader(c: Groups)
    requires GroupsValid(c)
    ensures Decode(SaveLines(c)[0]) == HeaderColumns(c)
  {
    SortedKeysSpec(c.Keys);
    HeaderNamesClean(c);
    HeaderRoundTrip(HeaderRecord(c));
  }

  lemma SavedRow(c: Groups, i: nat)
    requires GroupsValid(c) && 1 <= i < |SaveLines(c)|
    ensures SaveLines(c)[i] == Rows(AllObjects(c), HeaderColumns(c))[i - 1]
  {
    var header := EncodeCells(HeaderColumns(c));
    var rows := Rows(AllObjects(c), HeaderColumns(c));
    assert SaveLines(c) == [header] + rows;
    BehindHeader(header, rows, i);
  }

  /** Line `i` of a file is body line `i - 1`. */
  lemma BehindHeader(header: string, rows: seq<string>, i: nat)
    requires 1 <= i <= |rows|
    ensures ([header] + rows)[i] == rows[i - 1]
  {
  }

  lemma SavedRowsWidth(c: Groups)
    requires GroupsValid(c) && CleanStore(c)
    ensures forall i :: 1 <= i < |SaveLines(c)| ==> |Decode(SaveLines(c)[i])| == |HeaderColumns(c)|
  {
    var all := AllObjects(c);
    var columns := HeaderColumns(c);
    var rows := Rows(all, columns);
    AllObjectsClean(c);
    RowsWidth(all, columns);
    forall i | 1 <= i < |SaveLines(c)|
      ensures |Decode(SaveLines(c)[i])| == |columns|
    {
      SavedRow(c, i);
    }
  }

  /** The saved header decodes to the header columns and every saved body line
      to exactly one cell per column. */
  lemma SavedLinesShape(c: Groups)
    requires GroupsValid(c) && CleanStore(c)
    ensures |SaveLines(c)| == 1 + |AllObjects(c)|
    ensures Decode(SaveLines(c)[0]) == HeaderColumns(c)
    ensures forall i :: 1 <= i < |SaveLines(c)| ==> |Decode(SaveLines(c)[i])| == |HeaderColumns(c)|
  {
    SavedHeader(c);
    SavedRowsWidth(c);
  }

  /** Loading what a store saves gives back its objects, by ascending
      discriminator and in insertion order within a group, and adding them to
      an empty store rebuilds the store. */
  lemma SaveLoadRoundTrip(c: Groups)
    requires GroupsValid(c) && CleanStore(c)
    ensures Load(SaveLines(c)) == Ok(AllObjects(c))
    ensures AddAll(map[], LoadLines(SaveLines(c)).objects) == c
  {
    SortedKeysSpec(c.Keys);
    var lines := SaveLines(c);
    var all := AllObjects(c);
    var columns := HeaderColumns(c);
    HeaderNamesClean(c);
    HeaderRoundTrip(HeaderRecord(c));
    assert HeaderLine(lines) == EncodeCells(columns);
    assert BodyLines(lines) == Rows(all, columns);
    HeaderCoversAll(c);
    var rows := Rows(all, columns);
    AllObjectsClean(c);
    forall i | 0 <= i < |rows|
      ensures DecodeRow(columns, rows[i]) == Ok(all[i])
    {
      assert all[i] in all;
      RowRoundTrip(all[i], columns);
    }
    LoadRowsAll(columns, rows, all);
    ReloadRestores(c);
  }
}
