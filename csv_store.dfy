/** `CSVStore`: objects grouped by discriminator, saved as one header line plus one
    body line per object, and loaded back. The file is modelled as its sequence of
    lines; writing and reading the file itself is left to the caller. */
module CsvStorage {
  import opened Wrappers
  import opened Lex
  import opened CsvText
  import opened CsvRecord
  import opened CsvObjects

  /** Discriminator to the objects added under it, in insertion order. */
  type Groups = map<string, seq<CsvObject>>

  /** What `Add` keeps true: every group is non-empty and holds only objects with
      its own discriminator. */
  predicate GroupsValid(c: Groups)
  {
    forall id :: id in c ==> |c[id]| > 0 && forall i :: 0 <= i < |c[id]| ==> c[id][i].GetClassId() == id
  }

  /** `collection[object->GetClassId()].push_back(object)`. */
  function AddTo(c: Groups, o: CsvObject): (r: Groups)
    ensures r.Keys == c.Keys + {o.GetClassId()}
    ensures var g := r[o.GetClassId()];
      && |g| == (if o.GetClassId() in c then |c[o.GetClassId()]| else 0) + 1
      && g[|g| - 1] == o
      && (o.GetClassId() in c ==> c[o.GetClassId()] <= g)
    ensures forall k :: k in c && k != o.GetClassId() ==> r[k] == c[k]
  {
    var id := o.GetClassId();
    c[id := (if id in c then c[id] else []) + [o]]
  }

  /** `Add` of each object in turn. */
  function AddAll(c: Groups, objs: seq<CsvObject>): Groups
    decreases |objs|
  {
    if objs == [] then c else AddTo(AddAll(c, objs[..|objs| - 1]), objs[|objs| - 1])
  }

  predicate Within(c: Groups, ids: seq<string>)
  {
    forall k :: k in ids ==> k in c && |c[k]| > 0
  }

  /** The shared header record after the first object of each group in `ids` has
      serialized itself into it. */
  function HeaderMap(c: Groups, ids: seq<string>): map<string, string>
    requires Within(c, ids)
  {
    if ids == [] then map[] else HeaderMap(c, ids[..|ids| - 1]) + c[ids[|ids| - 1]][0].Fields()
  }

  /** The groups' objects one group after another. */
  function Flatten(c: Groups, ids: seq<string>): seq<CsvObject>
    requires forall k :: k in ids ==> k in c
  {
    if ids == [] then [] else Flatten(c, ids[..|ids| - 1]) + c[ids[|ids| - 1]]
  }

  /** The shared header record once the first object of every group, in key
      order, has written into it. */
  ghost function HeaderRecord(c: Groups): map<string, string>
    requires GroupsValid(c)
  {
    SortedKeysSpec(c.Keys);
    HeaderMap(c, SortedKeys(c.Keys))
  }

  /** The header columns: the sorted names written by the first object of every
      group. */
  ghost function HeaderColumns(c: Groups): seq<string>
    requires GroupsValid(c)
  {
    SortedKeys(HeaderRecord(c).Keys)
  }

  /** The objects in the order they are written: groups by ascending
      discriminator, each group in insertion order. */
  ghost function AllObjects(c: Groups): seq<CsvObject>
  {
    SortedKeysSpec(c.Keys);
    Flatten(c, SortedKeys(c.Keys))
  }

  /** The body line of one object against the header columns. */
  function Row(o: CsvObject, columns: seq<string>): string
  {
    EncodeCells(BodyValues(o.Fields(), columns))
  }

  function Rows(objs: seq<CsvObject>, columns: seq<string>): (r: seq<string>)
    ensures |r| == |objs|
  {
    seq(|objs|, i requires 0 <= i < |objs| => Row(objs[i], columns))
  }

  /** The lines `Serialize` writes. */
  ghost function SaveLines(c: Groups): seq<string>
    requires GroupsValid(c)
  {
    [EncodeCells(HeaderColumns(c))] + Rows(AllObjects(c), HeaderColumns(c))
  }

  /** Why a load stops. Both are undefined behaviour in the code: a cell
      beyond the last column indexes past the column list, and an unknown
      discriminator leaves `GetObject` without a return value. */
  datatype LoadError = FieldCountMismatch | UnknownClassId(classId: string)

  /** The record a body line decodes to when it has no more cells than columns. */
  function RowCells(columns: seq<string>, values: seq<string>): map<string, string>
    requires |values| <= |columns|
  {
    AssignCells(map[], columns[..|values|], values)
  }

  /** One body line to one object. */
  function DecodeRow(columns: seq<string>, line: string): (r: Result<CsvObject, LoadError>)
    ensures r == Err(FieldCountMismatch) <==> |Decode(line)| > |columns|
    ensures (r.Err? && r.error.UnknownClassId?) <==>
      |Decode(line)| <= |columns| && Lookup(RowCells(columns, Decode(line)), ClassIdColumn) !in KnownClassIds
    ensures r.Ok? ==> r.value.GetClassId() == Lookup(RowCells(columns, Decode(line)), ClassIdColumn)
    ensures r.Ok? ==>
      var cells := RowCells(columns, Decode(line));
      GetObject(Lookup(cells, ClassIdColumn)).Some? &&
      r.value == GetObject(Lookup(cells, ClassIdColumn)).value.Populate(cells)
  {
    var values := Decode(line);
    if |values| > |columns| then Err(FieldCountMismatch)
    else
      var cells := RowCells(columns, values);
      var id := Lookup(cells, ClassIdColumn);
      match GetObject(id)
      case None => Err(UnknownClassId(id))
      case Some(blank) => Ok(blank.Populate(cells))
  }

  /** The objects read before the first failing line, and that line's error. */
  datatype LoadOutcome = LoadOutcome(objects: seq<CsvObject>, error: Option<LoadError>)

  /** The body lines one by one, stopping at the first that fails. */
  function LoadRows(columns: seq<string>, rows: seq<string>): (r: LoadOutcome)
    ensures |r.objects| <= |rows|
    ensures r.error.None? <==> |r.objects| == |rows|
    decreases |rows|
  {
    if rows == [] then LoadOutcome([], None)
    else
      match DecodeRow(columns, rows[0])
      case Err(e) => LoadOutcome([], Some(e))
      case Ok(o) =>
        var rest := LoadRows(columns, rows[1..]);
        LoadOutcome([o] + rest.objects, rest.error)
  }

  /** The first line read from the file: "" when there is none. */
  function HeaderLine(lines: seq<string>): string
  {
    if |lines| > 0 then lines[0] else ""
  }

  function BodyLines(lines: seq<string>): seq<string>
  {
    if |lines| > 0 then lines[1..] else []
  }

  /** Every line after the header decoded against the header's own columns. */
  function LoadLines(lines: seq<string>): LoadOutcome
  {
    LoadRows(Decode(HeaderLine(lines)), BodyLines(lines))
  }

  /** What `Deserialize` returns. */
  function Load(lines: seq<string>): (r: Result<seq<CsvObject>, LoadError>)
    ensures r.Ok? <==> LoadLines(lines).error.None?
    ensures r.Ok? ==> r.value == LoadLines(lines).objects
    ensures r.Ok? ==> |r.value| == |BodyLines(lines)|
    ensures r.Err? ==> r.error == LoadLines(lines).error.value
  {
    var outcome := LoadLines(lines);
    if outcome.error.None? then Ok(outcome.objects) else Err(outcome.error.value)
  }

  class CsvStore {
    var collection: Groups

    ghost predicate Valid()
      reads this
    {
      GroupsValid(collection)
    }

    constructor ()
      ensures Valid() && collection == map[]
    {
      collection := map[];
    }

    method Add(o: CsvObject)
      modifies this
      ensures collection == AddTo(old(collection), o)
      ensures old(Valid()) ==> Valid()
    {
      var id := o.GetClassId();
      var group := if id in collection then collection[id] else [];
      collection := collection[id := group + [o]];
    }

    /** One header line from the first object of each group, then one line per
        object. */
    method Serialize() returns (lines: seq<string>)
      requires Valid()
      ensures lines == SaveLines(collection)
    {
      var columns, header, all := CollectHeader();
      lines := [header];
      var i := 0;
      while i < |all|
        invariant 0 <= i <= |all|
        invariant lines == [header] + Rows(all[..i], columns)
      {
        var body := WriteRow(all[i], columns);
        RowsSnoc(all, columns, i);
        assert lines + [body] == [header] + (Rows(all[..i], columns) + [body]);
        lines := lines + [body];
        i := i + 1;
      }
      assert all[..i] == all;
      assert lines == [EncodeCells(HeaderColumns(collection))] + Rows(AllObjects(collection), HeaderColumns(collection));
    }

    /** The first half of `Serialize`: walks the groups in key order, lets each
        group's first object write into one shared record, gathers every object,
        and reads the columns and the header line off the shared record. */
    method CollectHeader() returns (columns: seq<string>, header: string, all: seq<CsvObject>)
      requires Valid()
      ensures columns == HeaderColumns(collection)
      ensures header == EncodeCells(columns)
      ensures all == AllObjects(collection)
    {
      all := [];
      var headerLine := new CsvLine();
      ghost var done: seq<string> := [];
      var rest := collection.Keys;
      VisitStart(rest);
      while rest != {}
        invariant rest <= collection.Keys
        invariant VisitedInOrder(done, rest, collection.Keys)
        invariant Within(collection, done)
        invariant headerLine.collection == HeaderMap(collection, done)
        invariant all == Flatten(collection, done)
        decreases rest
      {
        var id := LeastKey(rest);
        VisitNext(done, rest, collection.Keys, id);
        var group := collection[id];
        HeaderStep(collection, done, id);
        group[0].Serialize(headerLine);
        all := all + group;
        done := done + [id];
        rest := rest - {id};
      }
      VisitEnd(done, collection.Keys);
      columns := headerLine.GetColumns();
      header := headerLine.SerializeHeader();
    }

    /** Reads the header's columns, then builds one object per remaining line and
        also adds it to this store. The first failing line ends the load; the
        objects read before it stay added. */
    method Deserialize(lines: seq<string>) returns (r: Result<seq<CsvObject>, LoadError>)
      requires Valid()
      modifies this
      ensures Valid()
      ensures r == Load(lines)
      ensures collection == AddAll(old(collection), LoadLines(lines).objects)
    {
      var text := if |lines| > 0 then lines[0] else "";
      var body := if |lines| > 0 then lines[1..] else [];
      var headerLine := new CsvLine();
      var columns := headerLine.DeserializeHeader(text);
      assert text == HeaderLine(lines) && body == BodyLines(lines);
      ghost var total := LoadLines(lines);
      assert total == LoadRows(columns, body);
      var objects: seq<CsvObject> := [];
      var i := 0;
      assert body[0..] == body;
      while i < |body|
        invariant 0 <= i <= |body|
        invariant GroupsValid(collection)
        invariant collection == AddAll(old(collection), objects)
        invariant total == Resume(objects, LoadRows(columns, body[i..]))
      {
        var row := ReadRow(columns, body[i]);
        if row.Err? {
          LoadRowsStop(columns, body, i, objects, row.error);
          assert total == LoadOutcome(objects, Some(row.error));
          return Err(row.error);
        }
        LoadRowsNext(columns, body, i, objects, row.value);
        AddToValid(collection, row.value);
        AddAllSnoc(old(collection), objects, row.value);
        Add(row.value);
        objects := objects + [row.value];
        i := i + 1;
      }
      assert body[i..] == [];
      assert total == LoadOutcome(objects, None);
      r := Ok(objects);
    }
  }

  /** One object's body line: a fresh record the object serializes into, written
      against the header columns. */
  method WriteRow(o: CsvObject, columns: seq<string>) returns (text: string)
    ensures text == Row(o, columns)
  {
    var line := new CsvLine();
    o.Serialize(line);
    assert line.collection == o.Fields();
    text := line.SerializeBody(columns);
  }

  /** One body line to one object: a fresh record filled from the line, the
      factory picked by its `ClassID`, and the object read from the record. */
  method ReadRow(columns: seq<string>, text: string) returns (r: Result<CsvObject, LoadError>)
    ensures r == DecodeRow(columns, text)
  {
    var line := new CsvLine();
    var ok := line.DeserializeBody(columns, text);
    if !ok {
      return Err(FieldCountMismatch);
    }
    ghost var cells := RowCells(columns, Decode(text));
    TakeAll(columns, Decode(text));
    var classId := line.GetClassID();
    var blank := GetObject(classId);
    if blank.None? {
      return Err(UnknownClassId(classId));
    }
    var o := blank.value.Deserialize(line);
    PopulateAgrees(blank.value, cells[ClassIdColumn := classId], cells);
    r := Ok(o);
  }

  /** `Deserialize`'s progress: the objects read so far ahead of what the
      remaining lines give. */
  function Resume(done: seq<CsvObject>, later: LoadOutcome): LoadOutcome
  {
    LoadOutcome(done + later.objects, later.error)
  }

  lemma HeaderStep(c: Groups, done: seq<string>, id: string)
    requires Within(c, done) && id in c && |c[id]| > 0
    ensures Within(c, done + [id])
    ensures HeaderMap(c, done + [id]) == HeaderMap(c, done) + c[id][0].Fields()
    ensures Flatten(c, done + [id]) == Flatten(c, done) + c[id]
  {
    assert (done + [id])[..|done|] == done;
  }

  lemma RowsSnoc(objs: seq<CsvObject>, columns: seq<string>, i: nat)
    requires i < |objs|
    ensures Rows(objs[..i + 1], columns) == Rows(objs[..i], columns) + [Row(objs[i], columns)]
  {
    assert objs[..i + 1][i] == objs[i];
  }

  lemma TakeAll(columns: seq<string>, values: seq<string>)
    requires |values| <= |columns|
    ensures AssignCells(map[], columns[..|values|], values[..|values|]) == RowCells(columns, values)
  {
    assert values[..|values|] == values;
  }

  lemma LoadRowsStop(columns: seq<string>, body: seq<string>, i: nat, done: seq<CsvObject>, e: LoadError)
    requires i < |body| && DecodeRow(columns, body[i]) == Err(e)
    requires LoadRows(columns, body) == Resume(done, LoadRows(columns, body[i..]))
    ensures LoadRows(columns, body) == LoadOutcome(done, Some(e))
  {
    assert body[i..][0] == body[i];
  }

  lemma LoadRowsCons(columns: seq<string>, rows: seq<string>, o: CsvObject)
    requires |rows| > 0 && DecodeRow(columns, rows[0]) == Ok(o)
    ensures LoadRows(columns, rows) == Resume([o], LoadRows(columns, rows[1..]))
  {
  }

  lemma LoadRowsNext(columns: seq<string>, body: seq<string>, i: nat, done: seq<CsvObject>, o: CsvObject)
    requires i < |body| && DecodeRow(columns, body[i]) == Ok(o)
    requires LoadRows(columns, body) == Resume(done, LoadRows(columns, body[i..]))
    ensures LoadRows(columns, body) == Resume(done + [o], LoadRows(columns, body[i + 1..]))
  {
    var rest := body[i..];
    assert rest[0] == body[i] && rest[1..] == body[i + 1..];
    LoadRowsCons(columns, rest, o);
    var later := LoadRows(columns, body[i + 1..]).objects;
    assert done + ([o] + later) == (done + [o]) + later;
  }

  lemma AddAllSnoc(c: Groups, objs: seq<CsvObject>, o: CsvObject)
    ensures AddAll(c, objs + [o]) == AddTo(AddAll(c, objs), o)
  {
    assert (objs + [o])[..|objs|] == objs;
  }

  /** One object per body line in file order, up to the first line that fails;
      the outcome's error is that line's. */
  lemma {:induction false} LoadRowsSpec(columns: seq<string>, rows: seq<string>)
    ensures var r := LoadRows(columns, rows);
      && |r.objects| <= |rows|
      && (forall i :: 0 <= i < |r.objects| ==> DecodeRow(columns, rows[i]) == Ok(r.objects[i]))
      && (r.error.None? <==> |r.objects| == |rows|)
      && (r.error.Some? ==> DecodeRow(columns, rows[|r.objects|]) == Err(r.error.value))
    decreases |rows|
  {
    if rows != [] && DecodeRow(columns, rows[0]).Ok? {
      LoadRowsSpec(columns, rows[1..]);
      var r := LoadRows(columns, rows);
      forall i | 0 <= i < |r.objects|
        ensures DecodeRow(columns, rows[i]) == Ok(r.objects[i])
      {
        if i > 0 {
          assert rows[i] == rows[1..][i - 1];
        }
      }
    }
  }

  lemma AddToValid(c: Groups, o: CsvObject)
    requires GroupsValid(c)
    ensures GroupsValid(AddTo(c, o))
  {
  }
}
