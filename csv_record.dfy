/** `CSVLine`: one row of the file as a sparse record, a map from column name to
    cell value kept in key order. `operator[]` on the map inserts an empty cell for
    a name it does not hold, so reading can change the record; the methods below
    say exactly how. */
module CsvRecord {
  import opened Wrappers
  import opened Lex
  import opened CsvText

  /** The reserved column that holds an object's class discriminator. */
  const ClassIdColumn: string := "ClassID"

  /** The value `collection[name]` yields: the stored one, or "" when absent. */
  function Lookup(m: map<string, string>, name: string): string
  {
    if name in m then m[name] else ""
  }

  /** The record once `collection[n]` has been evaluated for every `n` in `names`:
      the missing names are present with "", nothing else changed. */
  function Declared(m: map<string, string>, names: set<string>): (r: map<string, string>)
    ensures r.Keys == m.Keys + names
    ensures forall k :: k in r ==> r[k] == Lookup(m, k)
  {
    map k | k in m.Keys + names :: Lookup(m, k)
  }

  /** Writing a cell after a union is writing it into the right-hand side. */
  lemma UnionUpdate(m: map<string, string>, n: map<string, string>, k: string, v: string)
    ensures (m + n)[k := v] == m + n[k := v]
  {
  }

  lemma DeclaredNone(m: map<string, string>)
    ensures Declared(m, {}) == m
  {
  }

  /** One more `collection[name]` after a run of them. */
  lemma DeclaredStep(m: map<string, string>, names: set<string>, name: string)
    ensures Lookup(Declared(m, names), name) == Lookup(m, name)
    ensures Declared(m, names)[name := Lookup(m, name)] == Declared(m, names + {name})
  {
  }

  /** The cells a record holds for a caller's column list, "" for absent columns. */
  function BodyValues(m: map<string, string>, columns: seq<string>): (r: seq<string>)
    ensures |r| == |columns|
  {
    seq(|columns|, i requires 0 <= i < |columns| => Lookup(m, columns[i]))
  }

  /** Encoding one more column of a body line. */
  lemma BodyStep(m: map<string, string>, columns: seq<string>, i: nat)
    requires i < |columns|
    ensures EncodeCells(BodyValues(m, columns[..i + 1])) ==
            EncodeCells(BodyValues(m, columns[..i])) + Cell(Lookup(m, columns[i]))
    ensures Elements(columns[..i + 1]) == Elements(columns[..i]) + {columns[i]}
  {
    var before := BodyValues(m, columns[..i]);
    var v := Lookup(m, columns[i]);
    assert BodyValues(m, columns[..i + 1]) == before + [v];
    EncodeCellsSnoc(before, v);
    assert columns[..i + 1] == columns[..i] + [columns[i]];
  }

  /** `collection[columns[i]] = values[i]` for i = 0, 1, ... in turn. */
  function AssignCells(m: map<string, string>, columns: seq<string>, values: seq<string>): map<string, string>
    requires |columns| == |values|
  {
    if columns == [] then m
    else AssignCells(m, columns[..|columns| - 1], values[..|values| - 1])[columns[|columns| - 1] := values[|values| - 1]]
  }

  function Elements(s: seq<string>): set<string>
  {
    set x | x in s
  }

  lemma AssignCellsSnoc(m: map<string, string>, columns: seq<string>, values: seq<string>, c: string, v: string)
    requires |columns| == |values|
    ensures AssignCells(m, columns + [c], values + [v]) == AssignCells(m, columns, values)[c := v]
  {
    assert (columns + [c])[..|columns|] == columns;
    assert (values + [v])[..|values|] == values;
  }

  /** Assigning one more cell of a row. */
  lemma AssignCellsNext(m: map<string, string>, columns: seq<string>, values: seq<string>, index: nat)
    requires index < |columns| && index < |values|
    ensures AssignCells(m, columns[..index + 1], values[..index + 1]) ==
            AssignCells(m, columns[..index], values[..index])[columns[index] := values[index]]
  {
    assert columns[..index + 1] == columns[..index] + [columns[index]];
    assert values[..index + 1] == values[..index] + [values[index]];
    AssignCellsSnoc(m, columns[..index], values[..index], columns[index], values[index]);
  }

  predicate Distinct(s: seq<string>)
  {
    forall i, j :: 0 <= i < j < |s| ==> s[i] != s[j]
  }

  lemma SortedDistinct(s: seq<string>)
    requires StrictlySorted(s)
    ensures Distinct(s)
  {
    forall i, j | 0 <= i < j < |s|
      ensures s[i] != s[j]
    {
      LessIrreflexive(s[i]);
    }
  }

  /** A column the row does not assign keeps the value it had. */
  lemma {:induction false} AssignCellsOutside(m: map<string, string>, columns: seq<string>, values: seq<string>, c: string)
    requires |columns| == |values|
    requires c !in columns
    ensures Lookup(AssignCells(m, columns, values), c) == Lookup(m, c)
    decreases |columns|
  {
    if columns != [] {
      var n := |columns| - 1;
      assert forall k :: 0 <= k < n ==> columns[..n][k] == columns[k];
      AssignCellsOutside(m, columns[..n], values[..n], c);
    }
  }

  /** With distinct columns, the i-th value lands in the i-th column. */
  lemma {:induction false} AssignCellsAt(m: map<string, string>, columns: seq<string>, values: seq<string>, i: nat)
    requires |columns| == |values| && Distinct(columns) && i < |columns|
    ensures columns[i] in AssignCells(m, columns, values)
    ensures AssignCells(m, columns, values)[columns[i]] == values[i]
    decreases |columns|
  {
    var n := |columns| - 1;
    if i < n {
      assert Distinct(columns[..n]);
      assert columns[..n][i] == columns[i] && values[..n][i] == values[i];
      AssignCellsAt(m, columns[..n], values[..n], i);
    }
  }

  /** Body round trip at the level of cells: assigning a record's own body cells
      for `columns` to a fresh record reproduces every one of those columns. */
  lemma {:induction false} AssignBodyValues(m: map<string, string>, columns: seq<string>, c: string)
    requires c in columns
    ensures Lookup(AssignCells(map[], columns, BodyValues(m, columns)), c) == Lookup(m, c)
    decreases |columns|
  {
    var n := |columns| - 1;
    var values := BodyValues(m, columns);
    assert values[..n] == BodyValues(m, columns[..n]);
    if c != columns[n] {
      assert c in columns[..n] by {
        var k :| 0 <= k < |columns| && columns[k] == c;
        assert k < n && columns[..n][k] == c;
      }
      AssignBodyValues(m, columns[..n], c);
    }
  }

  /** Header round trip: `DeserializeHeader(SerializeHeader())` is `GetColumns()`
      when no column name contains `;`, `"` or a line break. */
  lemma HeaderRoundTrip(m: map<string, string>)
    requires forall k :: k in m ==> Clean(k)
    ensures Decode(EncodeCells(SortedKeys(m.Keys))) == SortedKeys(m.Keys)
  {
    var columns := SortedKeys(m.Keys);
    SortedKeysSpec(m.Keys);
    assert forall i :: 0 <= i < |columns| ==> columns[i] in m;
    DecodeEncode(columns);
  }

  /** Body round trip: decoding `SerializeBody(columns)` into a fresh record gives
      `Get(c)` its old value back for every `c` in `columns`, when the values avoid
      `;`, `"` and the line break. */
  lemma BodyRoundTrip(m: map<string, string>, columns: seq<string>, c: string)
    requires forall k :: k in columns ==> Clean(Lookup(m, k))
    requires c in columns
    ensures |Decode(EncodeCells(BodyValues(m, columns)))| == |columns|
    ensures Lookup(AssignCells(map[], columns, Decode(EncodeCells(BodyValues(m, columns)))), c) == Lookup(m, c)
  {
    var values := BodyValues(m, columns);
    assert forall i :: 0 <= i < |values| ==> values[i] == Lookup(m, columns[i]) && columns[i] in columns;
    DecodeEncode(values);
    AssignBodyValues(m, columns, c);
  }

  /** One successful `getline` call that reads cell `index` of a line. */
  lemma ReadStep(line: string, pos: nat, values: seq<string>, index: nat)
    requires Getline(line, pos).Some?
    requires index <= |values| && Decode(line[pos..]) == values[index..]
    ensures index < |values| && values[index] == Unquote(Getline(line, pos).value.0)
    ensures Decode(line[Getline(line, pos).value.1..]) == values[index + 1..]
  {
    var next := Getline(line, pos).value;
    GetlineTokens(line, pos);
    UnquoteAllCons(next.0, Tokens(line[next.1..]));
    var tail := Decode(line[next.1..]);
    assert values[index..] == [Unquote(next.0)] + tail;
    assert values[index..][1..] == values[index + 1..];
  }

  class CsvLine {
    /** Column name to cell value. */
    var collection: map<string, string>

    constructor ()
      ensures collection == map[]
    {
      collection := map[];
    }

    /** `collection[name]`: the cell, or "" when absent; an absent name is
        inserted with "" as a side effect. */
    method Get(name: string) returns (value: string)
      modifies this
      ensures value == Lookup(old(collection), name)
      ensures collection == old(collection)[name := value]
    {
      if name !in collection {
        collection := collection[name := ""];
      }
      value := collection[name];
    }

    /** `Add(name)`: the column is set to "", overwriting any value it had. */
    method AddColumn(name: string)
      modifies this
      ensures collection == old(collection)[name := ""]
    {
      collection := collection[name := ""];
    }

    /** `Add(name, value)`: inserts or overwrites. */
    method Add(name: string, value: string)
      modifies this
      ensures collection == old(collection)[name := value]
    {
      collection := collection[name := value];
    }

    method GetClassID() returns (id: string)
      modifies this
      ensures id == Lookup(old(collection), ClassIdColumn)
      ensures collection == old(collection)[ClassIdColumn := id]
    {
      id := Get(ClassIdColumn);
    }

    /** Every column name once, ascending: the map's iteration order. */
    method GetColumns() returns (columns: seq<string>)
      ensures columns == SortedKeys(collection.Keys)
    {
      columns := [];
      var rest := collection.Keys;
      VisitStart(rest);
      while rest != {}
        invariant VisitedInOrder(columns, rest, collection.Keys)
        decreases rest
      {
        var name := LeastKey(rest);
        VisitNext(columns, rest, collection.Keys, name);
        columns := columns + [name];
        rest := rest - {name};
      }
      VisitEnd(columns, collection.Keys);
    }

    /** `"name";` for every column, in column order. */
    method SerializeHeader() returns (text: string)
      ensures text == EncodeCells(SortedKeys(collection.Keys))
    {
      text := "";
      ghost var done: seq<string> := [];
      var rest := collection.Keys;
      VisitStart(rest);
      while rest != {}
        invariant VisitedInOrder(done, rest, collection.Keys)
        invariant text == EncodeCells(done)
        decreases rest
      {
        var name := LeastKey(rest);
        VisitNext(done, rest, collection.Keys, name);
        EncodeCellsSnoc(done, name);
        text := text + Cell(name);
        done := done + [name];
        rest := rest - {name};
      }
      VisitEnd(done, collection.Keys);
    }

    /** `"value";` for every element of the caller's column list, in that order;
        `collection[c]` inserts each absent column with "" on the way. */
    method SerializeBody(columns: seq<string>) returns (text: string)
      modifies this
      ensures text == EncodeCells(BodyValues(old(collection), columns))
      ensures collection == Declared(old(collection), Elements(columns))
    {
      text := "";
      var i := 0;
      while i < |columns|
        invariant 0 <= i <= |columns|
        invariant text == EncodeCells(BodyValues(old(collection), columns[..i]))
        invariant collection == Declared(old(collection), Elements(columns[..i]))
      {
        DeclaredStep(old(collection), Elements(columns[..i]), columns[i]);
        var value := Get(columns[i]);
        BodyStep(old(collection), columns, i);
        text := text + Cell(value);
        i := i + 1;
      }
      assert columns[..i] == columns;
    }

    /** The column names of a header line, in the file's own order. */
    method DeserializeHeader(line: string) returns (columns: seq<string>)
      ensures columns == Decode(line)
    {
      columns := [];
      var pos := 0;
      var got := Getline(line, pos);
      while got.Some?
        invariant 0 <= pos <= |line|
        invariant got == Getline(line, pos)
        invariant columns + Decode(line[pos..]) == Decode(line)
        decreases |line| - pos
      {
        var item := got.value.0;
        GetlineTokens(line, pos);
        assert Decode(line[pos..]) == [Unquote(item)] + Decode(line[got.value.1..]);
        columns := columns + [Unquote(item)];
        pos := got.value.1;
        got := Getline(line, pos);
      }
      assert line[pos..] == [];
    }

    /** Assigns the i-th cell of a body line to `columns[i]`. With fewer cells than
        columns the remaining columns are left as they were; a cell beyond the last
        column (an out-of-bounds index in the code) stops the read with `false`
        once every column has been assigned. */
    method DeserializeBody(columns: seq<string>, line: string) returns (ok: bool)
      modifies this
      ensures ok == (|Decode(line)| <= |columns|)
      ensures var n := if ok then |Decode(line)| else |columns|;
              collection == AssignCells(old(collection), columns[..n], Decode(line)[..n])
    {
      ghost var values := Decode(line);
      var pos := 0;
      var index := 0;
      var got := Getline(line, pos);
      while got.Some?
        invariant 0 <= pos <= |line|
        invariant got == Getline(line, pos)
        invariant index <= |columns| && index <= |values|
        invariant Decode(line[pos..]) == values[index..]
        invariant collection == AssignCells(old(collection), columns[..index], values[..index])
        decreases |line| - pos
      {
        var item := Unquote(got.value.0);
        ReadStep(line, pos, values, index);
        if index >= |columns| {
          assert index == |columns| < |values|;
          return false;
        }
        AssignCellsNext(old(collection), columns, values, index);
        collection := collection[columns[index] := item];
        index := index + 1;
        pos := got.value.1;
        got := Getline(line, pos);
      }
      assert line[pos..] == [];
      assert index == |values| && values[..index] == values;
      ok := true;
    }
  }
}
