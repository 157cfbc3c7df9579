/** The persisted object types. `CSVObject` and the `Employee` hierarchy become one
    datatype with a variant per concrete class; the five `Employee` fields are one
    embedded group. Each variant writes a `ClassID` cell and its fields into a
    record and reads its fields back; `GetObject` maps a discriminator to a fresh
    default instance. */
module CsvObjects {
  import opened Wrappers
  import opened CsvText
  import opened CsvRecord

  const FirstNameColumn: string := "First name"
  const LastNameColumn: string := "Last name"
  const CompanyColumn: string := "Company"
  const AddressColumn: string := "Address"
  const EmailColumn: string := "Email"
  const SubjectColumn: string := "Subject"
  const LanguageColumn: string := "Language"
  const RoleColumn: string := "Role"

  /** The fields `Employee` declares and every other variant inherits. */
  datatype EmployeeFields = EmployeeFields(
    firstName: string,
    lastName: string,
    company: string,
    address: string,
    email: string)

  /** A default-constructed object's fields: every string empty. */
  const NoFields: EmployeeFields := EmployeeFields("", "", "", "", "")

  datatype CsvObject =
    | Employee(employee: EmployeeFields)
    | Teacher(employee: EmployeeFields, subject: string)
    | Programmer(employee: EmployeeFields, language: string)
    | FilmCharacterEmployee(employee: EmployeeFields, role: string)
  {
    /** The discriminator stored in the `ClassID` column. */
    function GetClassId(): (id: string)
      ensures id in KnownClassIds
      ensures id == "Employee" <==> Employee?
      ensures id == "Teacher" <==> Teacher?
      ensures id == "Programmer" <==> Programmer?
      ensures id == "FilmCharacterEmployee" <==> FilmCharacterEmployee?
    {
      match this
      case Employee(_) => "Employee"
      case Teacher(_, _) => "Teacher"
      case Programmer(_, _) => "Programmer"
      case FilmCharacterEmployee(_, _) => "FilmCharacterEmployee"
    }

    /** The cells `Serialize` writes: `ClassID`, the five employee fields and the
        variant's own field. */
    function Fields(): map<string, string>
    {
      var base := map[][ClassIdColumn := GetClassId()]
        [FirstNameColumn := employee.firstName]
        [LastNameColumn := employee.lastName]
        [CompanyColumn := employee.company]
        [AddressColumn := employee.address]
        [EmailColumn := employee.email];
      match this
      case Employee(_) => base
      case Teacher(_, subject) => base[SubjectColumn := subject]
      case Programmer(_, language) => base[LanguageColumn := language]
      case FilmCharacterEmployee(_, role) => base[RoleColumn := role]
    }

    /** The names `Deserialize` reads: every field but `ClassID`, which only
        selected the variant. */
    function ReadColumns(): set<string>
    {
      match this
      case Employee(_) => EmployeeColumns
      case Teacher(_, _) => EmployeeColumns + {SubjectColumn}
      case Programmer(_, _) => EmployeeColumns + {LanguageColumn}
      case FilmCharacterEmployee(_, _) => EmployeeColumns + {RoleColumn}
    }

    /** This variant with every field read from the record, "" for absent ones. */
    function Populate(m: map<string, string>): (r: CsvObject)
      ensures r.GetClassId() == GetClassId()
      ensures r.ReadColumns() == ReadColumns()
    {
      var e := EmployeeOf(m);
      match this
      case Employee(_) => Employee(e)
      case Teacher(_, _) => Teacher(e, Lookup(m, SubjectColumn))
      case Programmer(_, _) => Programmer(e, Lookup(m, LanguageColumn))
      case FilmCharacterEmployee(_, _) => FilmCharacterEmployee(e, Lookup(m, RoleColumn))
    }

    /** `Serialize(line)`: `ClassID` first, then the employee fields, then the
        variant's own field, each with `Add(name, value)`. */
    method Serialize(line: CsvLine)
      modifies line
      ensures line.collection == old(line.collection) + Fields()
    {
      ghost var start := line.collection;
      ghost var written: map<string, string> := map[];
      assert start + written == start;
      line.Add(ClassIdColumn, GetClassId());
      UnionUpdate(start, written, ClassIdColumn, GetClassId());
      written := written[ClassIdColumn := GetClassId()];
      line.Add(FirstNameColumn, employee.firstName);
      UnionUpdate(start, written, FirstNameColumn, employee.firstName);
      written := written[FirstNameColumn := employee.firstName];
      line.Add(LastNameColumn, employee.lastName);
      UnionUpdate(start, written, LastNameColumn, employee.lastName);
      written := written[LastNameColumn := employee.lastName];
      line.Add(CompanyColumn, employee.company);
      UnionUpdate(start, written, CompanyColumn, employee.company);
      written := written[CompanyColumn := employee.company];
      line.Add(AddressColumn, employee.address);
      UnionUpdate(start, written, AddressColumn, employee.address);
      written := written[AddressColumn := employee.address];
      line.Add(EmailColumn, employee.email);
      UnionUpdate(start, written, EmailColumn, employee.email);
      written := written[EmailColumn := employee.email];
      match this
      case Employee(_) =>
      case Teacher(_, subject) =>
        line.Add(SubjectColumn, subject);
        UnionUpdate(start, written, SubjectColumn, subject);
      case Programmer(_, language) =>
        line.Add(LanguageColumn, language);
        UnionUpdate(start, written, LanguageColumn, language);
      case FilmCharacterEmployee(_, role) =>
        line.Add(RoleColumn, role);
        UnionUpdate(start, written, RoleColumn, role);
    }

    /** `Deserialize(line)` on an instance of this variant: `Employee::Deserialize`
        first, then the variant's own field, each read with `Get`, which inserts
        absent names into the record with "". */
    method Deserialize(line: CsvLine) returns (r: CsvObject)
      modifies line
      ensures r == Populate(old(line.collection))
      ensures line.collection == Declared(old(line.collection), ReadColumns())
    {
      ghost var start := line.collection;
      var e := DeserializeEmployee(line);
      match this
      case Employee(_) =>
        r := Employee(e);
      case Teacher(_, _) =>
        DeclaredStep(start, EmployeeColumns, SubjectColumn);
        var subject := line.Get(SubjectColumn);
        r := Teacher(e, subject);
      case Programmer(_, _) =>
        DeclaredStep(start, EmployeeColumns, LanguageColumn);
        var language := line.Get(LanguageColumn);
        r := Programmer(e, language);
      case FilmCharacterEmployee(_, _) =>
        DeclaredStep(start, EmployeeColumns, RoleColumn);
        var role := line.Get(RoleColumn);
        r := FilmCharacterEmployee(e, role);
    }
  }

  /** The columns of the employee field group. */
  const EmployeeColumns: set<string> :=
    {FirstNameColumn} + {LastNameColumn} + {CompanyColumn} + {AddressColumn} + {EmailColumn}

  /** The employee fields read from a record, "" for absent ones. */
  function EmployeeOf(m: map<string, string>): EmployeeFields
  {
    EmployeeFields(
      Lookup(m, FirstNameColumn),
      Lookup(m, LastNameColumn),
      Lookup(m, CompanyColumn),
      Lookup(m, AddressColumn),
      Lookup(m, EmailColumn))
  }

  /** `Employee::Deserialize(line)`. */
  method DeserializeEmployee(line: CsvLine) returns (e: EmployeeFields)
    modifies line
    ensures e == EmployeeOf(old(line.collection))
    ensures line.collection == Declared(old(line.collection), EmployeeColumns)
  {
    ghost var start := line.collection;
    DeclaredNone(start);
    DeclaredStep(start, {}, FirstNameColumn);
    var firstName := line.Get(FirstNameColumn);
    ghost var names := {} + {FirstNameColumn};
    DeclaredStep(start, names, LastNameColumn);
    var lastName := line.Get(LastNameColumn);
    names := names + {LastNameColumn};
    DeclaredStep(start, names, CompanyColumn);
    var company := line.Get(CompanyColumn);
    names := names + {CompanyColumn};
    DeclaredStep(start, names, AddressColumn);
    var address := line.Get(AddressColumn);
    names := names + {AddressColumn};
    DeclaredStep(start, names, EmailColumn);
    var email := line.Get(EmailColumn);
    names := names + {EmailColumn};
    assert names == EmployeeColumns;
    e := EmployeeFields(firstName, lastName, company, address, email);
  }

  /** `Populate` reads nothing but the variant's read columns. */
  lemma PopulateAgrees(p: CsvObject, m: map<string, string>, n: map<string, string>)
    requires forall k :: k in p.ReadColumns() ==> Lookup(m, k) == Lookup(n, k)
    ensures p.Populate(m) == p.Populate(n)
  {
    assert FirstNameColumn in EmployeeColumns && LastNameColumn in EmployeeColumns;
    assert CompanyColumn in EmployeeColumns && AddressColumn in EmployeeColumns;
    assert EmailColumn in EmployeeColumns;
  }

  /** Field names are written unquoted into the header, so none holds the
      delimiter, the quote or the line break. */
  lemma FieldNamesClean(o: CsvObject)
    ensures forall k :: k in o.Fields() ==> Clean(k)
  {
  }

  /** Objects with the same discriminator write the same field names. */
  lemma ColumnsOfClass(a: CsvObject, b: CsvObject)
    requires a.GetClassId() == b.GetClassId()
    ensures a.Fields().Keys == b.Fields().Keys
  {
  }

  /** The names `Deserialize` reads are the ones `Serialize` writes, less
      `ClassID`. */
  lemma ReadColumnsWritten(o: CsvObject)
    ensures o.ReadColumns() == o.Fields().Keys - {ClassIdColumn}
  {
  }

  /** Reading a record that holds an object's fields into a default object of
      the same variant gives back that object. */
  lemma PopulateFields(p: CsvObject, o: CsvObject)
    requires p.GetClassId() == o.GetClassId()
    ensures p.Populate(o.Fields()) == o
  {
  }

  /** The factory knows every variant's discriminator and returns a default
      object of that variant. */
  lemma FactoryKnowsVariants(o: CsvObject)
    ensures GetObject(o.GetClassId()).Some?
    ensures GetObject(o.GetClassId()).value.GetClassId() == o.GetClassId()
  {
  }

  /** The discriminators the factory knows. */
  const KnownClassIds: set<string> := {"Employee", "Teacher", "Programmer", "FilmCharacterEmployee"}

  /** `GetObject(classID)`: a fresh default instance of the named variant. An
      unknown name falls off the end of the function in `main.cpp` without a return
      value; here it is `None`. */
  function GetObject(classId: string): (r: Option<CsvObject>)
    ensures r.Some? <==> classId in KnownClassIds
    ensures r.Some? ==> r.value.GetClassId() == classId && r.value.employee == NoFields
    ensures r.Some? ==> r.value == r.value.Populate(map[])
  {
    if classId == "Employee" then Some(Employee(NoFields))
    else if classId == "Teacher" then Some(Teacher(NoFields, ""))
    else if classId == "Programmer" then Some(Programmer(NoFields, ""))
    else if classId == "FilmCharacterEmployee" then Some(FilmCharacterEmployee(NoFields, ""))
    else None
  }
}
