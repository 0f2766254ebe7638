/** The employee database: a map in memory, written through to its file by every operation that changes it. */
module EmployeeStore {
  import opened Common
  import opened Doubles
  import opened EmployeeCsv

  /** The object's map and the text of its file; a missing file counts as the empty text. */
  datatype Store = Store(emp: map<int32, Employee>, file: string)

  /** What the user typed for an update; a failed read of a number is `None`. */
  datatype Change =
    | ChangeName(name: string)
    | ChangeSalary(salary: Option<Salary>)
    | ChangeDesignation(designation: string)
    | ChangeDate(date: string)
    | InvalidChoice

  datatype Command =
    | Create(id: Option<int32>, name: string, designation: string, salary: Option<Salary>, date: string)
    | Update(id: Option<int32>, change: Change)
    | Delete(id: Option<int32>)
    | Read
    | Restart

  // ---------- what each command means ----------

  /** The inputs that `createData` accepts. */
  predicate Acceptable(emp: map<int32, Employee>, c: Command)
    requires c.Create?
  {
    && c.id.Some? && c.id.value !in emp && c.salary.Some?
    && IsValidName(c.name) && IsValidName(c.designation) && IsValidDate(c.date)
  }

  /** The changed record; a rejected value leaves it as it was. */
  function Changed(e: Employee, change: Change): Employee {
    match change
    case ChangeName(n) => if IsValidName(n) then e.(name := n) else e
    case ChangeSalary(s) => if s.Some? then e.(salary := s.value) else e
    case ChangeDesignation(d) => if IsValidName(d) then e.(designation := d) else e
    case ChangeDate(d) => if IsValidDate(d) then e.(date := d) else e
    case InvalidChoice => e
  }

  /** The map after a command, if the file agreed with it before: reading leaves what the file has kept. */
  function NextMap(emp: map<int32, Employee>, c: Command): map<int32, Employee> {
    match c
    case Create(id, name, designation, salary, date) =>
      if Acceptable(emp, c) then emp[id.value := Employee(id.value, name, salary.value, designation, date)] else emp
    case Update(id, change) =>
      if id.Some? && id.value in emp then emp[id.value := Changed(emp[id.value], change)] else emp
    case Delete(id) => if id.Some? then emp - {id.value} else emp
    case Read => RoundedTable(emp)
    case Restart => RoundedTable(emp)
  }

  /** The store after a command; reading fails when a line cannot be parsed. */
  function Step(s: Store, c: Command): Result<Store> {
    match c
    case Read => WithFile(Load(s.file, s.emp), s.file)
    case Restart => WithFile(Load(s.file, map[]), s.file)
    case _ =>
      var next := NextMap(s.emp, c);
      Ok(Store(next, if Saves(s.emp, c) then Serialise(next) else s.file))
  }

  function WithFile(r: Result<map<int32, Employee>>, file: string): Result<Store> {
    match r
    case Ok(emp) => Ok(Store(emp, file))
    case Err(e) => Err(e)
  }

  /** Whether the command rewrites the file. */
  predicate Saves(emp: map<int32, Employee>, c: Command) {
    match c
    case Create(_, _, _, _, _) => Acceptable(emp, c)
    case Update(id, change) => id.Some? && id.value in emp && !change.InvalidChoice?
    case Delete(id) => id.Some? && id.value in emp
    case _ => false
  }

  // ---------- the class ----------

  class Operation {
    var emp: map<int32, Employee>
    var file: string

    ghost function View(): Store
      reads this
    {
      Store(emp, file)
    }

    constructor (text: string)
      ensures View() == Store(map[], text)
    {
      emp, file := map[], text;
    }

    /** Truncates the file, then writes the records in key order. */
    method SaveData()
      modifies `file
      ensures file == Serialise(emp)
    {
      var entries := emp;
      file := "";
      while entries != map[]
        invariant file + Serialise(entries) == Serialise(emp)
        decreases |entries|
      {
        var k := MinKey(entries.Keys);
        ConcatAssociates(file, Record(entries[k]) + "\n", Serialise(entries - {k}));
        file := file + (Record(entries[k]) + "\n");
        entries := entries - {k};
      }
      assert file + "" == file;
    }

    /** The line loop that `loadData` and `readData` share; a malformed number ends it with an exception. */
    method ReadLines() returns (error: Option<Error>)
      modifies `emp
      ensures Step(old(View()), Read) == if error.None? then Ok(View()) else Err(error.value)
      ensures emp == Loaded(file, old(emp))
    {
      var text := file;
      while text != ""
        invariant Load(text, emp) == Load(file, old(emp)) && Loaded(text, emp) == Loaded(file, old(emp))
        decreases |text|
      {
        var (line, rest) := FirstLine(text);
        var parsed := ParseLine(line);
        if parsed.Err? {
          return Some(parsed.error);
        }
        emp := emp[parsed.value.id := parsed.value];
        text := rest;
      }
      error := None;
    }

    method CreateData(id: Option<int32>, name: string, designation: string, salary: Option<Salary>, date: string)
      modifies this
      ensures Step(old(View()), Create(id, name, designation, salary, date)) == Ok(View())
    {
      if id.None? {
        return;
      }
      if id.value in emp {
        return;
      }
      if !IsValidName(name) {
        return;
      }
      if !IsValidName(designation) {
        return;
      }
      if salary.None? {
        return;
      }
      if !IsValidDate(date) {
        return;
      }
      emp := emp[id.value := Employee(id.value, name, salary.value, designation, date)];
      SaveData();
    }

    method UpdateData(id: Option<int32>, change: Change)
      modifies this
      ensures Step(old(View()), Update(id, change)) == Ok(View())
    {
      if id.None? || id.value !in emp {
        return;
      }
      var e := emp[id.value];
      match change {
        case ChangeName(n) =>
          if IsValidName(n) {
            e := e.(name := n);
          }
        case ChangeSalary(s) =>
          if s.Some? {
            e := e.(salary := s.value);
          }
        case ChangeDesignation(d) =>
          if IsValidName(d) {
            e := e.(designation := d);
          }
        case ChangeDate(d) =>
          if IsValidDate(d) {
            e := e.(date := d);
          }
        case InvalidChoice =>
          assert emp == emp[id.value := e];
          return;
      }
      emp := emp[id.value := e];
      SaveData();
    }

    method DeleteData(id: Option<int32>)
      modifies this
      ensures Step(old(View()), Delete(id)) == Ok(View())
    {
      if id.Some? && id.value in emp {
        emp := emp - {id.value};
        SaveData();
      } else {
        assert id.Some? ==> emp - {id.value} == emp;
      }
    }
  }

  // ---------- whole sessions ----------

  /** The file is the printed map, and the map holds only valid records under their own ids. */
  ghost predicate Agrees(s: Store) {
    IsTable(s.emp) && s.file == Serialise(s.emp)
  }

  function Session(s: Store, commands: seq<Command>): Result<Store>
    decreases |commands|
  {
    if commands == [] then Ok(s)
    else
      match Step(s, commands[0])
      case Err(e) => Err(e)
      case Ok(t) => Session(t, commands[1..])
  }

  lemma ChangedIsValid(e: Employee, change: Change)
    requires IsValidRecord(e)
    ensures IsValidRecord(Changed(e, change)) && Changed(e, change).id == e.id
  {
  }

  lemma TableUpdate(emp: map<int32, Employee>, e: Employee)
    requires IsTable(emp) && IsValidRecord(e)
    ensures IsTable(emp[e.id := e])
  {
  }

  lemma NextMapIsTable(emp: map<int32, Employee>, c: Command)
    requires IsTable(emp)
    ensures IsTable(NextMap(emp, c))
  {
    if c.Update? && c.id.Some? && c.id.value in emp {
      ChangedIsValid(emp[c.id.value], c.change);
      TableUpdate(emp, Changed(emp[c.id.value], c.change));
    } else if c.Read? || c.Restart? {
      RoundedIsTable(emp);
    } else if c.Create? && Acceptable(emp, c) {
      TableUpdate(emp, Employee(c.id.value, c.name, c.salary.value, c.designation, c.date));
    }
  }

  lemma UnsavedIsUnchanged(emp: map<int32, Employee>, c: Command)
    requires !Saves(emp, c) && !c.Read? && !c.Restart?
    ensures NextMap(emp, c) == emp
  {
  }

  /** Reading the file again, and starting afresh from it, both give the map to the nearest cent. */
  lemma ReadingRounds(s: Store)
    requires Agrees(s)
    ensures Step(s, Read) == Ok(Store(RoundedTable(s.emp), s.file)) == Step(s, Restart)
    ensures Agrees(Store(RoundedTable(s.emp), s.file))
  {
    LoadRestores(s.emp);
    RoundedIsTable(s.emp);
    SerialiseRounded(s.emp);
  }

  /** They change nothing if and only if every salary is the double nearest to a whole number of cents. */
  lemma ReadingChangesNothing(s: Store)
    requires Agrees(s)
    ensures Step(s, Read) == Ok(s) <==> AllCents(s.emp)
    ensures Step(s, Restart) == Ok(s) <==> AllCents(s.emp)
  {
    ReadingRounds(s);
    TableKept(s.emp);
  }

  lemma StepAgrees(s: Store, c: Command)
    requires Agrees(s)
    ensures Step(s, c).Ok? && Agrees(Step(s, c).value)
    ensures Step(s, c).value.emp == NextMap(s.emp, c)
  {
    NextMapIsTable(s.emp, c);
    if c.Read? || c.Restart? {
      ReadingRounds(s);
    } else if !Saves(s.emp, c) {
      UnsavedIsUnchanged(s.emp, c);
    }
  }

  /** After every sequence of commands from an empty store the file agrees with the map. */
  lemma {:induction false} SessionAgrees(s: Store, commands: seq<Command>)
    requires Agrees(s)
    ensures Session(s, commands).Ok? && Agrees(Session(s, commands).value)
    decreases |commands|
  {
    if commands != [] {
      StepAgrees(s, commands[0]);
      SessionAgrees(Step(s, commands[0]).value, commands[1..]);
    }
  }

  /**
   * After any session from an empty store the file is the printed map, and a restart finds exactly the map
   * that was in memory if and only if every salary in it is the double nearest to a whole number of cents.
   */
  lemma WriteThrough(commands: seq<Command>)
    ensures Session(Store(map[], ""), commands).Ok?
    ensures var s := Session(Store(map[], ""), commands).value;
      Agrees(s) && (Step(s, Read) == Ok(s) <==> AllCents(s.emp)) && (Step(s, Restart) == Ok(s) <==> AllCents(s.emp))
  {
    SessionAgrees(Store(map[], ""), commands);
    ReadingChangesNothing(Session(Store(map[], ""), commands).value);
  }

  /** The salaries that the user typed. */
  ghost predicate TypedCents(c: Command) {
    match c
    case Create(_, _, _, salary, _) => salary.Some? ==> IsCents(salary.value)
    case Update(_, change) => change.ChangeSalary? && change.salary.Some? ==> IsCents(change.salary.value)
    case _ => true
  }

  lemma UpdateWhole(emp: map<int32, Employee>, id: int32, change: Change)
    requires AllCents(emp) && TypedCents(Update(Some(id), change))
    ensures AllCents(NextMap(emp, Update(Some(id), change)))
  {
    if id in emp {
      assert IsCents(Changed(emp[id], change).salary);
    }
  }

  lemma NextMapWhole(emp: map<int32, Employee>, c: Command)
    requires AllCents(emp) && TypedCents(c)
    ensures AllCents(NextMap(emp, c))
  {
    TableKept(emp);
    match c
    case Update(id, change) =>
      if id.Some? {
        UpdateWhole(emp, id.value, change);
      }
    case _ =>
  }

  /** If every salary typed is the double nearest to a whole number of cents, then so is every one in the map. */
  lemma {:induction false} WholeSessions(s: Store, commands: seq<Command>)
    requires Agrees(s) && AllCents(s.emp) && forall i :: 0 <= i < |commands| ==> TypedCents(commands[i])
    ensures Session(s, commands).Ok? && AllCents(Session(s, commands).value.emp)
    decreases |commands|
  {
    if commands != [] {
      StepAgrees(s, commands[0]);
      NextMapWhole(s.emp, commands[0]);
      WholeSessions(Step(s, commands[0]).value, commands[1..]);
    }
  }

  // ---------- what each command does ----------

  /** Nothing but the record under `id` differs. */
  ghost predicate OthersKept(before: map<int32, Employee>, after: map<int32, Employee>, id: int32) {
    forall k :: k != id ==> (k in after <==> k in before) && (k in before ==> after[k] == before[k])
  }

  /** A valid name replaces the old one, in memory and in the file. */
  lemma UpdatesName(s: Store, id: int32, name: string, t: Store)
    requires id in s.emp && IsValidName(name) && Step(s, Update(Some(id), ChangeName(name))) == Ok(t)
    ensures id in t.emp && OthersKept(s.emp, t.emp, id) && t.file == Serialise(t.emp)
    ensures t.emp[id].name == name && t.emp[id].id == s.emp[id].id && t.emp[id].salary == s.emp[id].salary
    ensures t.emp[id].designation == s.emp[id].designation && t.emp[id].date == s.emp[id].date
  {
  }

  lemma UpdatesSalary(s: Store, id: int32, salary: Salary, t: Store)
    requires id in s.emp && Step(s, Update(Some(id), ChangeSalary(Some(salary)))) == Ok(t)
    ensures id in t.emp && OthersKept(s.emp, t.emp, id) && t.file == Serialise(t.emp)
    ensures t.emp[id].salary == salary && t.emp[id].id == s.emp[id].id && t.emp[id].name == s.emp[id].name
    ensures t.emp[id].designation == s.emp[id].designation && t.emp[id].date == s.emp[id].date
  {
  }

  lemma UpdatesDesignation(s: Store, id: int32, designation: string, t: Store)
    requires id in s.emp && IsValidName(designation)
    requires Step(s, Update(Some(id), ChangeDesignation(designation))) == Ok(t)
    ensures id in t.emp && OthersKept(s.emp, t.emp, id) && t.file == Serialise(t.emp)
    ensures t.emp[id].designation == designation && t.emp[id].id == s.emp[id].id && t.emp[id].name == s.emp[id].name
    ensures t.emp[id].salary == s.emp[id].salary && t.emp[id].date == s.emp[id].date
  {
  }

  lemma UpdatesDate(s: Store, id: int32, date: string, t: Store)
    requires id in s.emp && IsValidDate(date) && Step(s, Update(Some(id), ChangeDate(date))) == Ok(t)
    ensures id in t.emp && OthersKept(s.emp, t.emp, id) && t.file == Serialise(t.emp)
    ensures t.emp[id].date == date && t.emp[id].id == s.emp[id].id && t.emp[id].name == s.emp[id].name
    ensures t.emp[id].salary == s.emp[id].salary && t.emp[id].designation == s.emp[id].designation
  {
  }

  /** Neither does an update of an unknown record change the map, nor one with a value that is rejected. */
  lemma RejectsUpdate(s: Store, id: Option<int32>, change: Change, t: Store)
    requires Step(s, Update(id, change)) == Ok(t)
    requires || id == None || id.value !in s.emp || change == InvalidChoice || change == ChangeSalary(None)
             || (change.ChangeName? && !IsValidName(change.name))
             || (change.ChangeDesignation? && !IsValidName(change.designation))
             || (change.ChangeDate? && !IsValidDate(change.date))
    ensures t.emp == s.emp
  {
    if id.Some? && id.value in s.emp {
      assert s.emp[id.value := s.emp[id.value]] == s.emp;
    }
  }

  /** A new id with valid values gets exactly the record that was typed, in memory and in the file. */
  lemma Creates(s: Store, c: Command, id: int32, salary: Salary, t: Store)
    requires c.Create? && c.id == Some(id) && c.salary == Some(salary) && Step(s, c) == Ok(t)
    requires id !in s.emp && IsValidName(c.name) && IsValidName(c.designation) && IsValidDate(c.date)
    ensures id in t.emp && OthersKept(s.emp, t.emp, id) && t.file == Serialise(t.emp)
    ensures t.emp[id].id == id && t.emp[id].name == c.name && t.emp[id].salary == salary
    ensures t.emp[id].designation == c.designation && t.emp[id].date == c.date
  {
  }

  /** A taken id or an invalid value leaves the map and the file as they were. */
  lemma RejectsCreate(s: Store, c: Command)
    requires c.Create?
    requires || c.id == None || c.id.value in s.emp || c.salary == None
             || !IsValidName(c.name) || !IsValidName(c.designation) || !IsValidDate(c.date)
    ensures Step(s, c) == Ok(s)
  {
  }

  /** A known record goes, from memory and from the file; and nothing else does. */
  lemma Deletes(s: Store, id: int32, t: Store)
    requires Step(s, Delete(Some(id))) == Ok(t)
    ensures id !in t.emp && OthersKept(s.emp, t.emp, id)
    ensures t.file == if id in s.emp then Serialise(t.emp) else s.file
  {
  }

  // ---------- what undoes what ----------

  lemma SessionOfTwo(s: Store, a: Command, b: Command)
    requires Step(s, a).Ok?
    ensures Session(s, [a, b]) == Step(Step(s, a).value, b)
  {
    var t := Step(s, a).value;
    assert [a, b][1..] == [b] && [b][1..] == [];
    assert Step(t, b).Ok? ==> Session(Step(t, b).value, []) == Step(t, b);
    assert Session(t, [b]) == Step(t, b);
  }

  /** Two commands restore the store as soon as they restore the map. */
  lemma BackToTheStart(s: Store, a: Command, b: Command)
    requires Agrees(s)
    ensures Session(s, [a, b]) == Ok(s) <==> NextMap(NextMap(s.emp, a), b) == s.emp
  {
    StepAgrees(s, a);
    StepAgrees(Step(s, a).value, b);
    SessionOfTwo(s, a, b);
  }

  /** The change that puts the old value of the same field back. */
  function Inverse(e: Employee, change: Change): Change {
    match change
    case ChangeName(_) => ChangeName(e.name)
    case ChangeSalary(_) => ChangeSalary(Some(e.salary))
    case ChangeDesignation(_) => ChangeDesignation(e.designation)
    case ChangeDate(_) => ChangeDate(e.date)
    case InvalidChoice => InvalidChoice
  }

  lemma ChangedBack(e: Employee, change: Change)
    requires IsValidRecord(e)
    ensures Changed(Changed(e, change), Inverse(e, change)) == e
  {
  }

  lemma UpdateBack(emp: map<int32, Employee>, id: int32, a: Change, b: Change)
    requires id in emp ==> Changed(Changed(emp[id], a), b) == emp[id]
    ensures NextMap(NextMap(emp, Update(Some(id), a)), Update(Some(id), b)) == emp
  {
  }

  /** An update touches one field of one record, so updating that field back restores the map and the file. */
  lemma UpdateUndone(s: Store, id: int32, change: Change, back: Change)
    requires Agrees(s) && (id in s.emp ==> back == Inverse(s.emp[id], change))
    ensures Session(s, [Update(Some(id), change), Update(Some(id), back)]) == Ok(s)
  {
    if id in s.emp {
      ChangedBack(s.emp[id], change);
    }
    UpdateBack(s.emp, id, change, back);
    BackToTheStart(s, Update(Some(id), change), Update(Some(id), back));
  }

  lemma CreateBack(emp: map<int32, Employee>, id: int32, c: Command)
    requires c.Create? && c.id == Some(id)
    ensures NextMap(NextMap(emp, c), Delete(Some(id))) == emp <==> id !in emp
  {
    var next := NextMap(emp, c);
    assert id !in next - {id};
    if id !in emp {
      assert next - {id} == emp;
    }
  }

  /** Deleting the id just created restores the map and the file exactly when the id was new to them. */
  lemma CreateUndone(s: Store, id: int32, c: Command)
    requires Agrees(s) && c.Create? && c.id == Some(id)
    ensures Session(s, [c, Delete(Some(id))]) == Ok(s) <==> id !in s.emp
  {
    CreateBack(s.emp, id, c);
    BackToTheStart(s, c, Delete(Some(id)));
  }

  // ---------- a session in which reading changes the map ----------

  lemma SerialiseOne(e: Employee, one: map<int32, Employee>)
    requires one == map[e.id := e]
    ensures Serialise(one) == Record(e) + "\n"
  {
    assert e.id in one.Keys;
    var k := MinKey(one.Keys);
    assert k == e.id && one - {k} == map[];
    assert Serialise(one) == Record(e) + "\n" + "";
  }

  lemma CreateOne(e: Employee, c: Command, s: Store)
    requires IsValidRecord(e) && s == Store(map[], "")
    requires c == Create(Some(e.id), e.name, e.designation, Some(e.salary), e.date)
    ensures Step(s, c) == Ok(Store(map[e.id := e], Record(e) + "\n"))
  {
    SerialiseOne(e, map[e.id := e]);
  }

  lemma OneAgrees(e: Employee, s: Store)
    requires IsValidRecord(e) && s == Store(map[e.id := e], Record(e) + "\n")
    ensures Agrees(s) && RoundedTable(s.emp) == map[e.id := RoundedRecord(e)]
  {
    SerialiseOne(e, s.emp);
  }

  lemma ReadOne(e: Employee, s: Store)
    requires Agrees(s) && RoundedTable(s.emp) == map[e.id := RoundedRecord(e)]
    ensures Step(s, Read) == Ok(Store(map[e.id := RoundedRecord(e)], s.file))
  {
    ReadingRounds(s);
  }

  lemma CreateThenRead(e: Employee, c: Command, s: Store)
    requires IsValidRecord(e) && s == Store(map[], "")
    requires c == Create(Some(e.id), e.name, e.designation, Some(e.salary), e.date)
    ensures Session(s, [c]) == Ok(Store(map[e.id := e], Record(e) + "\n"))
    ensures Session(s, [c, Read]) == Ok(Store(map[e.id := RoundedRecord(e)], Record(e) + "\n"))
  {
    CreateOne(e, c, s);
    var t := Step(s, c).value;
    OneAgrees(e, t);
    ReadOne(e, t);
    SessionOfTwo(s, c, Read);
    assert [c][1..] == [] && Session(t, []) == Step(s, c);
  }

  lemma EighthPrinted(salary: Salary)
    requires salary == Salary(false, Eighth())
    ensures PrintSalary(salary) == "0.12" && RoundedSalary(salary) == Salary(false, FromCents(12)) != salary
  {
    EighthIsLost();
    assert Digits(0) == "0" && [DigitChar(1), DigitChar(2)] == "12";
  }

  /** A salary of 0.125 is kept in memory and printed as 0.12: reading the file then changes the map. */
  lemma EighthChangesOnReading(e: Employee, c: Command, s: Store)
    requires e == Employee(1, "A", Salary(false, Eighth()), "B", PrintDate(1, 1, 2000)) && s == Store(map[], "")
    requires c == Create(Some(1), e.name, e.designation, Some(e.salary), e.date)
    ensures PrintSalary(e.salary) == "0.12"
    ensures Session(s, [c]) == Ok(Store(map[1 := e], Record(e) + "\n"))
    ensures Session(s, [c, Read]) == Ok(Store(map[1 := e.(salary := Salary(false, FromCents(12)))], Record(e) + "\n"))
    ensures FromCents(12) != e.salary.size
  {
    PrintedDateIsValid(1, 1, 2000);
    CreateThenRead(e, c, s);
    EighthPrinted(e.salary);
  }
}
