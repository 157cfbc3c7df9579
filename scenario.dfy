/** The driver's first save: two teachers and a programmer. */
module Scenario {
  import opened Wrappers
  import opened Lex
  import opened CsvText
  import opened CsvRecord
  import opened CsvObjects
  import opened CsvStorage
  import opened StoreProperties

  const Pavel: CsvObject := Teacher(EmployeeFields("Pavel", "Novak", "Czech technical university", "Praha", "pavel.novak@seznam.cz"), "Computer science")
  const Karel: CsvObject := Programmer(EmployeeFields("Karel", "Novak", "Red Hat", "Brno", "karel.novak@seznam.cz"), "C++")
  const Petr: CsvObject := Teacher(EmployeeFields("Petr", "Novak", "University of Technology", "Brno", "petr.novak@seznam.cz"), "Computer science")

  /** The store after `Add(pavel)`, `Add(karel)`, `Add(petr)`. */
  function DriverStore(): Groups
  {
    AddTo(AddTo(AddTo(map[], Pavel), Karel), Petr)
  }

  const DriverHeader: seq<string> :=
    ["Address", "ClassID", "Company", "Email", "First name", "Language", "Last name", "Subject"]

  lemma DriverGroups()
    ensures DriverStore() == map["Teacher" := [Pavel, Petr], "Programmer" := [Karel]]
  {
    assert Pavel.GetClassId() == "Teacher" && Petr.GetClassId() == "Teacher";
    assert Karel.GetClassId() == "Programmer";
    var empty: seq<CsvObject> := [];
    assert empty + [Pavel] == [Pavel] && empty + [Karel] == [Karel];
    var m1 := AddTo(map[], Pavel);
    assert m1 == map["Teacher" := [Pavel]];
    var m2 := AddTo(m1, Karel);
    assert m2 == map["Teacher" := [Pavel], "Programmer" := [Karel]];
    assert [Pavel] + [Petr] == [Pavel, Petr];
  }

  lemma DriverKeys()
    ensures SortedKeys(DriverStore().Keys) == ["Programmer", "Teacher"]
  {
    var c := DriverStore();
    assert c.Keys == {"Programmer", "Teacher"};
    ChainSorted(["Programmer", "Teacher"]);
    SortedKeysSpec(c.Keys);
    SortedUnique(SortedKeys(c.Keys), ["Programmer", "Teacher"]);
  }

  lemma DriverHeaderSorted()
    ensures StrictlySorted(DriverHeader)
  {
    assert Less("Address", "ClassID") && Less("ClassID", "Company") && Less("Company", "Email");
    assert Less("Email", "First name") && Less("First name", "Language");
    assert Less("Language", "Last name") && Less("Last name", "Subject");
    ChainSorted(DriverHeader);
  }

  lemma DriverValid()
    ensures GroupsValid(DriverStore())
  {
    DriverGroups();
  }

  /** The shared header record: the programmer's cells overridden by the first
      teacher's. */
  lemma DriverHeaderMap()
    ensures Within(DriverStore(), ["Programmer", "Teacher"])
    ensures HeaderMap(DriverStore(), ["Programmer", "Teacher"]) == Karel.Fields() + Pavel.Fields()
  {
    DriverGroups();
    var ids := ["Programmer", "Teacher"];
    assert ids[..1] == ["Programmer"] && ids[..1][..0] == [];
  }

  lemma DriverHeaderNames()
    ensures GroupsValid(DriverStore())
    ensures HeaderMap(DriverStore(), ["Programmer", "Teacher"]).Keys == set k | k in DriverHeader
  {
    DriverValid();
    DriverHeaderMap();
    assert (Karel.Fields() + Pavel.Fields()).Keys == Karel.Fields().Keys + Pavel.Fields().Keys;
  }

  /** The header holds both variants' names, sorted. */
  lemma DriverHeaderColumns()
    ensures HeaderColumns(DriverStore()) == DriverHeader
  {
    var c := DriverStore();
    DriverHeaderNames();
    DriverKeys();
    DriverHeaderSorted();
    var names := HeaderMap(c, ["Programmer", "Teacher"]).Keys;
    assert HeaderColumns(c) == SortedKeys(names);
    SortedKeysSpec(names);
    assert forall x :: x in SortedKeys(names) <==> x in DriverHeader;
    SortedUnique(SortedKeys(names), DriverHeader);
  }

  /** The rows come as the programmer, then the teachers in the order they
      were added. */
  lemma DriverRows()
    ensures AllObjects(DriverStore()) == [Karel, Pavel, Petr]
  {
    var c := DriverStore();
    DriverKeys();
    DriverGroups();
    var ids := ["Programmer", "Teacher"];
    assert ids[..1] == ["Programmer"] && ids[..1][..0] == [];
    assert Flatten(c, ids[..1]) == [Karel];
    assert Flatten(c, ids) == [Karel] + [Pavel, Petr];
  }
}
