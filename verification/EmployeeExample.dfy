/** Numbers, dates, records and a session by their characters. */
module EmployeeExample {
  import opened Common
  import opened Doubles
  import opened EmployeeCsv
  import opened EmployeeStore

  // ---------- numbers ----------

  lemma DigitCharacters()
    ensures DigitChar(0) == '0' && DigitChar(1) == '1' && DigitChar(2) == '2' && DigitChar(7) == '7'
  {
  }

  /** -120 is printed with its highest digit first. */
  lemma PrintedNumber(n: nat)
    requires n == 120
    ensures PrintInt(-(n as int)) == "-120"
  {
    DigitCharacters();
    assert Digits(1) == "1";
    assert Digits(12) == Digits(1) + [DigitChar(2)] == "12";
    assert Digits(n) == Digits(12) + [DigitChar(0)] == "120";
  }

  /** White space and a sign are read before the digits, and what follows the digits is ignored. */
  lemma ReadNumber()
    ensures Stoi(" +7x") == Ok(7) && Stoi("x7") == Err(InvalidNumber)
  {
    assert " +7x"[1..] == "+7x" && "+7x"[1..] == "7x" && "7x"[1..] == "x";
    assert SkipSpace("+7x") == "+7x";
    assert DigitRun("x") == "" && DigitRun("7x") == "7" + "" == "7";
    assert "7"[..0] == "" && NatValue("7") == 7;
    assert SkipSpace("x7") == "x7" && DigitRun("x7") == "";
  }

  lemma OneMoreDigit(s: string, c: char, more: string)
    requires AllDigits(s) && IsDigit(c) && more == s + [c]
    ensures AllDigits(more) && NatValue(more) == 10 * NatValue(s) + (c - '0') as nat
  {
    assert more[..|more| - 1] == s;
  }

  lemma ValueOf0125()
    ensures AllDigits("0" + "125") && NatValue("0" + "125") == 125
  {
    OneMoreDigit("", '0', "0");
    OneMoreDigit("0", '1', "01");
    OneMoreDigit("01", '2', "012");
    OneMoreDigit("012", '5', "0125");
    assert "0" + "125" == "0125";
  }

  lemma ReadUnsigned(t: string)
    requires t == "0.125x"
    ensures ParseUnsigned(t) == Ok(Eighth())
  {
    RunStops("0", ".125x");
    assert "0" + ".125x" == t && t[1..] == ".125x" && ".125x"[1..] == "125x";
    RunStops("125", "x");
    assert "125" + "x" == "125x" && ".125x"[4..] == "x";
    ValueOf0125();
    assert Pow10(3) == 1000 && Scaled(125, -3) == 0.125;
    assert !IsSpecial(t) && Exponent("x") == 0;
    assert IsDouble(Eighth()) && Nearest(0.125) == 0.125;
  }

  /** The decimals of a salary may be any number. */
  lemma ReadSalary(s: string, t: string)
    requires s == "-0.125x" && t == s[1..]
    ensures Stod(s) == Ok(Salary(true, Eighth()))
  {
    assert t == "0.125x" && SkipSpace(s) == s && s[..1] == "-";
    ReadUnsigned(t);
  }

  lemma PlainExponent(e: string, run: string)
    requires e == "e" + run && run != "" && AllDigits(run)
    ensures Exponent(e) == NatValue(run)
  {
    assert e[0] == 'e' && 'e' in "eE" && e[1..] == run && e[1] == run[0];
    RunOfDigits(run);
  }

  lemma ReadWithExponent(s: string)
    requires s == "1e2"
    ensures ParseUnsigned(s) == Ok(Hundred())
  {
    RunStops("1", "e2");
    assert "1" + "e2" == s && s[1..] == "e2" && "1" + "" == "1";
    OneMoreDigit("", '1', "1");
    OneMoreDigit("", '2', "2");
    PlainExponent("e2", "2");
    assert Pow10(2) == 100 && Scaled(1, 2) == 100.0;
    assert !IsSpecial(s) && IsDouble(Hundred()) && Nearest(100.0) == 100.0;
  }

  /** An exponent multiplies by a power of ten. */
  lemma ReadExponent(s: string)
    requires s == "1e2"
    ensures Stod(s) == Ok(Salary(false, Hundred()))
  {
    ReadWithExponent(s);
    assert SkipSpace(s) == s && s[..1] == "1";
  }

  function Hundred(): (d: Double)
    ensures d == 100.0
  {
    WholeIsDouble(100);
    100.0
  }

  /** Text without a digit is no number, and a hexadecimal number is not modelled. */
  lemma RejectSalary()
    ensures Stod("x") == Err(InvalidNumber) && Stod(".") == Err(InvalidNumber) && Stod("0x1") == Err(UnsupportedSalary)
  {
    assert DigitRun("x") == "" && DigitRun(".") == "" && "."[1..] == "" && DigitRun("") == "";
    assert SkipSpace("x") == "x" && SkipSpace(".") == "." && SkipSpace("0x1") == "0x1";
  }

  // ---------- names and dates ----------

  /** Letters and spaces, and none of the characters next to them. */
  lemma Letters()
    ensures IsLetterOrSpace('A') && IsLetterOrSpace('Z') && IsLetterOrSpace('a') && IsLetterOrSpace('z')
    ensures IsLetterOrSpace(' ') && !IsLetterOrSpace('@') && !IsLetterOrSpace('[') && !IsLetterOrSpace('`')
    ensures !IsLetterOrSpace('{') && !IsLetterOrSpace(',') && !IsLetterOrSpace('0') && !IsLetterOrSpace('-')
    ensures IsValidName("Ann Lee") && !IsValidName("") && !IsValidName("Ann2")
  {
    assert !IsLetterOrSpace("Ann2"[3]);
  }

  lemma TwoCharacters(s: string, a: nat, b: nat)
    requires a < 10 && b < 10 && s == [DigitChar(a), DigitChar(b)]
    ensures AllDigits(s) && NatValue(s) == 10 * a + b
  {
    TwoMoreDigits("", a, b);
    assert "" + [DigitChar(a), DigitChar(b)] == s && NatValue("") == 0;
  }

  /** The 29th of February is valid in 2000 and not in 1900. */
  lemma LeapDay(s: string, t: string)
    requires s == "29-02-2000" && t == "29-02-1900"
    ensures IsValidDate(s) && !IsValidDate(t)
  {
    DateOf(s, 29, 2, 20, 0);
    DateOf(t, 29, 2, 19, 0);
  }

  /** The day comes before the month, and both have two digits. */
  lemma DayFirst(s: string, t: string, u: string)
    requires s == "31-12-1999" && t == "12-31-1999" && u == "1-1-2000"
    ensures IsValidDate(s) && !IsValidDate(t) && !IsValidDate(u)
  {
    DateOf(s, 31, 12, 19, 99);
    DateOf(t, 12, 31, 19, 99);
  }

  /** `a` and `b` are the digits of a number below 100. */
  predicate AreDigitsOf(a: char, b: char, n: nat) {
    n < 100 && a == DigitChar(n / 10) && b == DigitChar(n % 10)
  }

  lemma PartOf(s: string, part: string, i: nat, n: nat)
    requires i + 2 <= |s| && AreDigitsOf(s[i], s[i + 1], n) && part == s[i..i + 2]
    ensures AllDigits(part) && NatValue(part) == n
  {
    TwoCharacters(part, n / 10, n % 10);
  }

  lemma YearOf(s: string, part: string, a: nat, b: nat)
    requires |s| == 10 && AreDigitsOf(s[6], s[7], a) && AreDigitsOf(s[8], s[9], b) && part == s[6..]
    ensures AllDigits(part) && NatValue(part) == 100 * a + b
  {
    PartOf(s, s[6..8], 6, a);
    assert part == s[6..8] + [DigitChar(b / 10), DigitChar(b % 10)];
    TwoMoreDigits(s[6..8], b / 10, b % 10);
  }

  lemma DateOf(s: string, day: nat, month: nat, century: nat, year: nat)
    requires |s| == 10 && s[2] == '-' && s[5] == '-'
    requires AreDigitsOf(s[0], s[1], day) && AreDigitsOf(s[3], s[4], month)
    requires AreDigitsOf(s[6], s[7], century) && AreDigitsOf(s[8], s[9], year)
    ensures IsValidDate(s) <==> 1 <= month <= 12 && 1 <= day <= DaysInMonth(month, 100 * century + year)
  {
    PartOf(s, s[..2], 0, day);
    PartOf(s, s[3..5], 3, month);
    YearOf(s, s[6..], century, year);
  }

  // ---------- a record and its file ----------

  /** The five fields of a line, in their order. */
  lemma PrintedRecord(e: Employee)
    requires e == Employee(-7, "Ann Lee", Salary(false, Eighth()), "Clerk", "29-02-2000")
    ensures Record(e) == "-7,Ann Lee,0.12,Clerk,29-02-2000"
  {
    DigitCharacters();
    EighthPrinted(e.salary);
    assert PrintInt(-7) == "-" + Digits(7) == "-7";
    assert "-7" + "," == "-7," && "-7," + "Ann Lee" == "-7,Ann Lee";
    assert "-7,Ann Lee" + "," + "0.12" == "-7,Ann Lee,0.12";
    assert "-7,Ann Lee,0.12" + "," + "Clerk" == "-7,Ann Lee,0.12,Clerk";
  }

  lemma ExampleIsValid(e: Employee)
    requires e.name == "Ann Lee" && e.designation == "Clerk" && e.date == "29-02-2000"
    ensures IsValidRecord(e)
  {
    LeapDay(e.date, "29-02-1900");
  }

  /** One record created in an empty store, and the file it leaves. */
  lemma OneRecordFile(e: Employee, c: Command, s: Store, line: string)
    requires e == Employee(-7, "Ann Lee", Salary(false, Eighth()), "Clerk", "29-02-2000") && s == Store(map[], "")
    requires c == Create(Some(e.id), e.name, e.designation, Some(e.salary), e.date)
    requires line == "-7,Ann Lee,0.12,Clerk,29-02-2000"
    ensures Step(s, c) == Ok(Store(map[e.id := e], line + "\n"))
  {
    ExampleIsValid(e);
    PrintedRecord(e);
    CreateOne(e, c, s);
  }
}
