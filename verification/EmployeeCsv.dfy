/** The employee file: one record a line, printed and parsed back; and the validators that make the two inverse. */
module EmployeeCsv {
  import opened Common
  import opened Doubles

  /** A `double`: its sign, which zero has too, and its size. */
  datatype Salary = Salary(negative: bool, size: Double)

  datatype Employee = Employee(id: int32, name: string, salary: Salary, designation: string, date: string)

  datatype Error = InvalidNumber | OutOfRange | UnsupportedSalary
  datatype Result<+T> = Ok(value: T) | Err(error: Error)

  // ---------- decimal numbers ----------

  predicate IsDigit(c: char) {
    '0' <= c <= '9'
  }

  predicate AllDigits(s: string) {
    forall i :: 0 <= i < |s| ==> IsDigit(s[i])
  }

  function DigitChar(d: nat): (c: char)
    requires d < 10
    ensures IsDigit(c)
  {
    '0' + d as char
  }

  function Digits(n: nat): (s: string)
    ensures s != "" && AllDigits(s)
  {
    if n < 10 then [DigitChar(n)] else Digits(n / 10) + [DigitChar(n % 10)]
  }

  /** The number that a digit string denotes. */
  function NatValue(s: string): nat
    requires AllDigits(s)
  {
    if s == "" then 0 else 10 * NatValue(s[..|s| - 1]) + (s[|s| - 1] - '0') as nat
  }

  lemma {:induction false} DigitsValue(n: nat)
    ensures NatValue(Digits(n)) == n
  {
    if n < 10 {
      assert NatValue("") == 0;
    } else {
      DigitsValue(n / 10);
      assert Digits(n)[..|Digits(n)| - 1] == Digits(n / 10);
    }
  }

  function PrintInt(n: int): string {
    if n < 0 then "-" + Digits(-n) else Digits(n)
  }

  /** `fixed << setprecision(2)`. */
  function PrintSalary(s: Salary): string {
    if s.negative then "-" + PrintUnsigned(ToCents(s.size)) else PrintUnsigned(ToCents(s.size))
  }

  /** The salary that is left of `s` in the file. */
  function RoundedSalary(s: Salary): Salary {
    Salary(s.negative, FromCents(ToCents(s.size)))
  }

  /** The double nearest to some whole number of cents, with either sign. */
  ghost predicate IsCents(s: Salary) {
    IsWholeCents(s.size)
  }

  /** The file keeps exactly these salaries; and what has been printed and read once it keeps. */
  lemma RoundingKeeps(s: Salary)
    ensures RoundedSalary(s) == s <==> IsCents(s)
    ensures IsCents(RoundedSalary(s)) && PrintSalary(RoundedSalary(s)) == PrintSalary(s)
  {
    KeptIfWholeCents(s.size);
    PrintedAgain(s.size, ToCents(s.size));
  }

  function PrintUnsigned(c: nat): string {
    Digits(c / 100) + "." + [DigitChar(c % 100 / 10), DigitChar(c % 10)]
  }

  predicate IsSpace(c: char) {
    c == ' ' || '\t' <= c <= '\r'
  }

  function SkipSpace(s: string): string {
    if s != "" && IsSpace(s[0]) then SkipSpace(s[1..]) else s
  }

  /** The longest prefix of digits. */
  function DigitRun(s: string): (r: string)
    ensures AllDigits(r) && |r| <= |s|
  {
    if s != "" && IsDigit(s[0]) then [s[0]] + DigitRun(s[1..]) else ""
  }

  /** `stoi`: white space, a sign, digits; what follows them is ignored. */
  function Stoi(s: string): Result<int32> {
    var t := SkipSpace(s);
    var signed := t != "" && (t[0] == '-' || t[0] == '+');
    var run := DigitRun(if signed then t[1..] else t);
    if run == "" then Err(InvalidNumber)
    else
      var n: int := if t[0] == '-' then -(NatValue(run) as int) else NatValue(run) as int;
      if -0x8000_0000 <= n < 0x8000_0000 then Ok(n) else Err(OutOfRange)
  }

  /** `stod`: white space, a sign, and a decimal number with or without a point and an exponent; the rest is ignored. */
  function Stod(s: string): Result<Salary> {
    var t := SkipSpace(s);
    var signed := t != "" && (t[0] == '-' || t[0] == '+');
    match ParseUnsigned(if signed then t[1..] else t)
    case Ok(size) => Ok(Salary(t[..1] == "-", size))
    case Err(e) => Err(e)
  }

  /** The other forms that `stod` knows: hexadecimal numbers, infinities and NaN. */
  predicate IsSpecial(s: string) {
    || (s != "" && s[0] in "iInN")
    || (|s| >= 2 && s[0] == '0' && s[1] in "xX")
  }

  function ParseUnsigned(s: string): Result<Double> {
    if IsSpecial(s) then Err(UnsupportedSalary)
    else
      var whole := DigitRun(s);
      var rest := s[|whole|..];
      var fraction := if rest != "" && rest[0] == '.' then DigitRun(rest[1..]) else "";
      if whole == "" && fraction == "" then Err(InvalidNumber)
      else
        var behind := if rest != "" && rest[0] == '.' then rest[|fraction| + 1..] else rest;
        var size := Scaled(NatValue(whole + fraction), Exponent(behind) - |fraction|);
        NearestIsDouble(size);
        Ok(Nearest(size))
  }

  /** The exponent at the beginning of `s`, or 0 if there is none. */
  function Exponent(s: string): int {
    if s == "" || s[0] !in "eE" then 0
    else
      var signed := |s| > 1 && (s[1] == '-' || s[1] == '+');
      var run := DigitRun(if signed then s[2..] else s[1..]);
      if signed && s[1] == '-' then -(NatValue(run) as int) else NatValue(run)
  }

  /** `n` times 10 to the power `exponent`. */
  function Scaled(n: nat, exponent: int): (x: real)
    ensures x >= 0.0
  {
    if exponent >= 0 then n as real * Pow10(exponent) as real else n as real / Pow10(-exponent) as real
  }

  function Pow10(n: nat): (p: nat)
    ensures p >= 1
  {
    if n == 0 then 1 else 10 * Pow10(n - 1)
  }

  lemma {:induction false} RunStops(digits: string, rest: string)
    requires AllDigits(digits) && (rest == "" || !IsDigit(rest[0]))
    ensures DigitRun(digits + rest) == digits
  {
    if digits == "" {
      assert digits + rest == rest;
    } else {
      assert (digits + rest)[1..] == digits[1..] + rest;
      RunStops(digits[1..], rest);
    }
  }

  lemma RunOfDigits(s: string)
    requires AllDigits(s)
    ensures DigitRun(s) == s
  {
    RunStops(s, "");
    assert s + "" == s;
  }

  lemma StoiUnsigned(n: nat)
    requires n < 0x8000_0000
    ensures Stoi(Digits(n)) == Ok(n)
  {
    var d := Digits(n);
    RunOfDigits(d);
    DigitsValue(n);
    assert IsDigit(d[0]);
    assert SkipSpace(d) == d;
  }

  lemma StoiNegative(n: nat)
    requires 0 < n <= 0x8000_0000
    ensures Stoi("-" + Digits(n)) == Ok(-(n as int))
  {
    var d := Digits(n);
    RunOfDigits(d);
    DigitsValue(n);
    assert ("-" + d)[1..] == d;
    assert SkipSpace("-" + d) == "-" + d;
  }

  /** A number that is no int is an error, whatever its sign. */
  lemma StoiTooLarge(n: nat)
    requires n > 0x8000_0000
    ensures Stoi(Digits(n)) == Err(OutOfRange) && Stoi("-" + Digits(n)) == Err(OutOfRange)
  {
    var d := Digits(n);
    RunOfDigits(d);
    DigitsValue(n);
    assert IsDigit(d[0]) && SkipSpace(d) == d;
    assert ("-" + d)[1..] == d && SkipSpace("-" + d) == "-" + d;
  }

  /** Parsing undoes printing for every int. */
  lemma StoiPrint(n: int32)
    ensures Stoi(PrintInt(n)) == Ok(n)
  {
    if n < 0 {
      var size := -(n as int);
      assert PrintInt(n) == "-" + Digits(size);
      StoiNegative(size);
    } else {
      assert PrintInt(n) == Digits(n);
      StoiUnsigned(n);
    }
  }

  lemma TwoMoreDigits(whole: string, a: nat, b: nat)
    requires AllDigits(whole) && a < 10 && b < 10
    ensures NatValue(whole + [DigitChar(a), DigitChar(b)]) == 100 * NatValue(whole) + 10 * a + b
  {
    var s := whole + [DigitChar(a), DigitChar(b)];
    var t := whole + [DigitChar(a)];
    assert s[..|s| - 1] == t && t[..|t| - 1] == whole;
    assert NatValue(t) == 10 * NatValue(whole) + a;
  }

  lemma HundredthPart(c: nat)
    ensures Scaled(c, -2) == c as real / 100.0
  {
    assert Pow10(2) == 100;
  }

  lemma UnsignedIsDecimal(c: nat)
    ensures var s := PrintUnsigned(c); s != "" && s[0] != '-' && s[0] != '+' && !IsSpace(s[0]) && !IsSpecial(s)
  {
    var whole := Digits(c / 100);
    assert IsDigit(whole[0]) && PrintUnsigned(c)[0] == whole[0];
    assert |whole| > 1 ==> PrintUnsigned(c)[1] == whole[1] && IsDigit(whole[1]);
    assert |whole| == 1 ==> PrintUnsigned(c)[1] == '.';
  }

  lemma UnsignedParts(c: nat, whole: string, hundredths: string)
    requires whole == Digits(c / 100) && hundredths == [DigitChar(c % 100 / 10), DigitChar(c % 10)]
    ensures var s := PrintUnsigned(c);
      DigitRun(s) == whole && s[|whole|..] == "." + hundredths && DigitRun(("." + hundredths)[1..]) == hundredths
  {
    assert PrintUnsigned(c) == whole + ("." + hundredths);
    RunStops(whole, "." + hundredths);
    assert ("." + hundredths)[1..] == hundredths;
    RunOfDigits(hundredths);
  }

  lemma UnsignedValue(c: nat, whole: string, hundredths: string)
    requires whole == Digits(c / 100) && hundredths == [DigitChar(c % 100 / 10), DigitChar(c % 10)]
    ensures NatValue(whole + hundredths) == c
  {
    DigitsValue(c / 100);
    TwoMoreDigits(whole, c % 100 / 10, c % 10);
    assert c % 100 % 10 == c % 10;
  }

  lemma UnsignedPrint(c: nat)
    ensures ParseUnsigned(PrintUnsigned(c)) == Ok(FromCents(c))
  {
    var whole, hundredths := Digits(c / 100), [DigitChar(c % 100 / 10), DigitChar(c % 10)];
    UnsignedIsDecimal(c);
    UnsignedParts(c, whole, hundredths);
    UnsignedValue(c, whole, hundredths);
    HundredthPart(c);
    assert ("." + hundredths)[3..] == "";
  }

  /** Parsing a printed salary gives the double nearest to the cents that were printed. */
  lemma StodPrint(s: Salary)
    ensures Stod(PrintSalary(s)) == Ok(RoundedSalary(s))
  {
    var c := ToCents(s.size);
    UnsignedPrint(c);
    UnsignedIsDecimal(c);
    var t := PrintSalary(s);
    assert SkipSpace(t) == t;
    if s.negative {
      assert t[1..] == PrintUnsigned(c) && t[..1] == "-";
    } else {
      assert t[..1][0] != '-';
    }
  }

  // ---------- lines and fields ----------

  /** A `stringstream` over one line: the text still to be read, or the end already met. */
  datatype Stream = Good(rest: string) | Ended

  /** `getline(ss, field, ',')`: after the end has been met the field keeps its old value. */
  function GetField(s: Stream, old_: string): (string, Stream) {
    match s
    case Ended => (old_, Ended)
    case Good(rest) =>
      if ',' in rest then
        var field := UntilNul(rest, ',');
        (field, Good(rest[|field| + 1..]))
      else (rest, Ended)
  }

  /** One pass of the loop in `loadData`; both numbers are read into the same `temp`. */
  function ParseLine(line: string): Result<Employee> {
    var (temp, s1) := GetField(Good(line), "");
    match Stoi(temp)
    case Err(e) => Err(e)
    case Ok(id) =>
      var (name, s2) := GetField(s1, "");
      var (temp2, s3) := GetField(s2, temp);
      match Stod(temp2)
      case Err(e) => Err(e)
      case Ok(salary) =>
        var (designation, s4) := GetField(s3, "");
        var (date, _) := GetField(s4, "");
        Ok(Employee(id, name, salary, designation, date))
  }

  /** `getline(file, line)`: the first line and what follows it. */
  function FirstLine(text: string): (r: (string, string))
    requires text != ""
    ensures |r.1| < |text|
  {
    if '\n' in text then
      var line := UntilNul(text, '\n');
      (line, text[|line| + 1..])
    else (text, "")
  }

  /** `loadData`: each line's record replaces the one with its id. */
  function Load(text: string, emp: map<int32, Employee>): Result<map<int32, Employee>>
    decreases |text|
  {
    if text == "" then Ok(emp)
    else
      var (line, rest) := FirstLine(text);
      match ParseLine(line)
      case Err(e) => Err(e)
      case Ok(e) => Load(rest, emp[e.id := e])
  }

  /** The map when the reading of `text` has ended, with its last line or before the first malformed one. */
  function Loaded(text: string, emp: map<int32, Employee>): map<int32, Employee>
    decreases |text|
  {
    if text == "" then emp
    else
      var (line, rest) := FirstLine(text);
      match ParseLine(line)
      case Err(_) => emp
      case Ok(e) => Loaded(rest, emp[e.id := e])
  }

  /** It is the loaded map if every line can be read, and otherwise the one loaded from the lines before. */
  lemma {:induction false} LoadedIsPrefix(text: string, emp: map<int32, Employee>) returns (n: nat)
    ensures n <= |text| && Load(text[..n], emp) == Ok(Loaded(text, emp))
    ensures Load(text, emp).Ok? ==> n == |text|
    ensures Load(text, emp).Err? ==> n < |text| && ParseLine(FirstLine(text[n..]).0).Err?
    decreases |text|
  {
    if text == "" {
      return 0;
    }
    var (line, rest) := FirstLine(text);
    if ParseLine(line).Err? {
      assert text[0..] == text && text[..0] == "";
      return 0;
    }
    var e := ParseLine(line).value;
    var k := LoadedIsPrefix(rest, emp[e.id := e]);
    n := |text| - |rest| + k;
    CutBehind(text, rest, k, n);
    FirstLineOfPrefix(text, text[..n], rest[..k], n);
    OneLineLoaded(text, line, rest, emp, e);
    OneLineLoaded(text[..n], line, rest[..k], emp, e);
  }

  lemma FirstLineSplits(text: string)
    requires text != ""
    ensures text[|text| - |FirstLine(text).1|..] == FirstLine(text).1
  {
  }

  lemma CutBehind(text: string, rest: string, k: nat, n: nat)
    requires text != "" && rest == FirstLine(text).1 && k <= |rest| && n == |text| - |rest| + k
    ensures text[n..] == rest[k..] && text[..n] == text[..|text| - |rest|] + rest[..k]
  {
    FirstLineSplits(text);
    var gone := |text| - |rest|;
    assert text == text[..gone] + rest;
  }

  lemma OneLineLoaded(text: string, line: string, rest: string, emp: map<int32, Employee>, e: Employee)
    requires text != "" && FirstLine(text) == (line, rest) && ParseLine(line) == Ok(e)
    ensures Load(text, emp) == Load(rest, emp[e.id := e])
    ensures Loaded(text, emp) == Loaded(rest, emp[e.id := e])
  {
  }

  /** The same first line is read when the text is cut off behind it. */
  lemma FirstLineOfPrefix(text: string, part: string, tail: string, n: nat)
    requires text != "" && n <= |text| && part == text[..n]
    requires part == text[..|text| - |FirstLine(text).1|] + tail
    ensures part != "" && FirstLine(part) == (FirstLine(text).0, tail)
  {
    if '\n' in text {
      var line := FirstLine(text).0;
      assert text[|line|] == '\n' && |text| - |FirstLine(text).1| == |line| + 1;
      assert part[|line|] == '\n' && part[..|line|] == line;
      UntilNulUnique(part, '\n', |line|);
      assert part[|line| + 1..] == tail;
    } else {
      assert |text| - |FirstLine(text).1| == |text| <= |part| <= |text|;
      assert part == text && tail == "";
    }
  }

  function Record(e: Employee): string {
    PrintInt(e.id) + "," + e.name + "," + PrintSalary(e.salary) + "," + e.designation + "," + e.date
  }

  predicate IsMin(k: int32, keys: set<int32>) {
    k in keys && forall j :: j in keys ==> k <= j
  }

  function MinKey(keys: set<int32>): (k: int32)
    requires keys != {}
    ensures IsMin(k, keys)
  {
    MinKeyExists(keys);
    var k :| k in keys && IsMin(k, keys);
    k
  }

  lemma MinKeyExists(keys: set<int32>)
    requires keys != {}
    ensures exists k :: k in keys && IsMin(k, keys)
  {
    var k :| k in keys;
    var rest := keys - {k};
    if rest == {} {
      assert keys == {k};
      assert IsMin(k, keys);
    } else {
      MinKeyExists(rest);
      var m :| m in rest && IsMin(m, rest);
      assert keys == rest + {k};
      assert IsMin(if k <= m then k else m, keys);
    }
  }

  /** `saveData`: the records in increasing key order, a line each. */
  function Serialise(emp: map<int32, Employee>): string
    decreases |emp|
  {
    if emp == map[] then ""
    else
      var k := MinKey(emp.Keys);
      Record(emp[k]) + "\n" + Serialise(emp - {k})
  }

  predicate Increasing(keys: seq<int32>) {
    forall i, j :: 0 <= i < j < |keys| ==> keys[i] < keys[j]
  }

  /** The lines of the records under `keys`, one after the other. */
  function Lines(emp: map<int32, Employee>, keys: seq<int32>): string
    requires forall k :: k in keys ==> k in emp
  {
    if keys == [] then "" else Record(emp[keys[0]]) + "\n" + Lines(emp, keys[1..])
  }

  lemma {:induction false} LinesOfSame(a: map<int32, Employee>, b: map<int32, Employee>, keys: seq<int32>)
    requires forall j :: j in keys ==> j in a && j in b && a[j] == b[j]
    ensures Lines(a, keys) == Lines(b, keys)
  {
    if keys != [] {
      assert keys[0] in keys && forall j :: j in keys[1..] ==> j in keys;
      LinesOfSame(a, b, keys[1..]);
    }
  }

  /** The file has one line for every record, in increasing order of the keys. */
  lemma {:induction false} FileInKeyOrder(emp: map<int32, Employee>) returns (keys: seq<int32>)
    ensures Increasing(keys) && (forall k :: k in keys <==> k in emp)
    ensures Serialise(emp) == Lines(emp, keys)
    decreases |emp|
  {
    if emp == map[] {
      keys := [];
    } else {
      var k := MinKey(emp.Keys);
      var rest := FileInKeyOrder(emp - {k});
      keys := [k] + rest;
      SmallestFirst(emp, k, rest);
      FirstLineThenRest(emp, k, rest);
    }
  }

  lemma FirstLineThenRest(emp: map<int32, Employee>, k: int32, rest: seq<int32>)
    requires k in emp && forall j :: j in rest <==> j in emp && j != k
    ensures Lines(emp, [k] + rest) == Record(emp[k]) + "\n" + Lines(emp - {k}, rest)
  {
    LinesOfSame(emp - {k}, emp, rest);
    assert ([k] + rest)[1..] == rest;
  }

  lemma SmallestFirst(emp: map<int32, Employee>, k: int32, rest: seq<int32>)
    requires IsMin(k, emp.Keys) && Increasing(rest) && forall j :: j in rest <==> j in emp - {k}
    ensures Increasing([k] + rest) && forall j :: j in [k] + rest <==> j in emp
  {
    FirstIsLess(k, rest);
  }

  lemma FirstIsLess(k: int32, rest: seq<int32>)
    requires Increasing(rest) && forall j :: j in rest ==> k < j
    ensures Increasing([k] + rest)
  {
    assert forall i :: 0 <= i < |rest| ==> rest[i] in rest;
  }

  // ---------- the validators ----------

  predicate IsLetterOrSpace(c: char) {
    'A' <= c <= 'Z' || 'a' <= c <= 'z' || c == ' '
  }

  /** `isValidNameOrDesignation`. */
  predicate IsValidName(s: string) {
    s != "" && forall i :: 0 <= i < |s| ==> IsLetterOrSpace(s[i])
  }

  predicate IsLeapYear(year: nat) {
    (year % 4 == 0 && year % 100 != 0) || year % 400 == 0
  }

  const DAYS: seq<nat> := [31, 28, 31, 30, 31, 30, 31, 31, 30, 31, 30, 31]

  function DaysInMonth(month: nat, year: nat): nat
    requires 1 <= month <= 12
  {
    if month == 2 && IsLeapYear(year) then 29 else DAYS[month - 1]
  }

  /** How many leap years there are from year 1 to `year` in the Gregorian calendar. */
  function LeapYearsUpTo(year: nat): int {
    year / 4 - year / 100 + year / 400
  }

  lemma NextMultiple(year: nat, n: nat)
    requires n > 0
    ensures (year + 1) / n - year / n == if (year + 1) % n == 0 then 1 else 0
  {
    var q, r := year / n, year % n;
    assert year == q * n + r;
    if r == n - 1 {
      assert (q + 1) * n == q * n + n;
      Quotient(year + 1, n, q + 1, 0);
    } else {
      Quotient(year + 1, n, q, r + 1);
    }
  }

  lemma LeapYearsCount(year: nat)
    ensures LeapYearsUpTo(year + 1) - LeapYearsUpTo(year) == if IsLeapYear(year + 1) then 1 else 0
  {
    NextMultiple(year, 4);
    NextMultiple(year, 100);
    NextMultiple(year, 400);
  }

  /** Thirty days have April, June, September and November; February has 28, or 29 in a leap year; all others 31. */
  lemma MonthLengths(month: nat, year: nat)
    requires 1 <= month <= 12
    ensures DaysInMonth(month, year) ==
      if month in {4, 6, 9, 11} then 30
      else if month != 2 then 31
      else 28 + LeapYearsUpTo(year) - (if year == 0 then -1 else LeapYearsUpTo(year - 1))
  {
    if year > 0 {
      LeapYearsCount(year - 1);
    }
  }

  /** The pattern DD-MM-YYYY. */
  predicate HasDateFormat(s: string) {
    && |s| == 10 && s[2] == '-' && s[5] == '-'
    && AllDigits(s[..2]) && AllDigits(s[3..5]) && AllDigits(s[6..])
  }

  predicate IsValidDate(s: string) {
    && HasDateFormat(s)
    && var day, month, year := NatValue(s[..2]), NatValue(s[3..5]), NatValue(s[6..]);
       1 <= month <= 12 && 1 <= day <= DaysInMonth(month, year)
  }

  /** `n` in exactly `width` digits. */
  function Fixed(n: nat, width: nat): (s: string)
    ensures |s| == width && AllDigits(s)
  {
    if width == 0 then "" else Fixed(n / 10, width - 1) + [DigitChar(n % 10)]
  }

  lemma {:induction false} FixedOfValue(s: string)
    requires AllDigits(s)
    ensures Fixed(NatValue(s), |s|) == s
  {
    if s != "" {
      FixedOfValue(s[..|s| - 1]);
    }
  }

  lemma FixedValue(n: nat, width: nat, high: nat, low: nat)
    requires width > 0 && high == n / 10 && low == n % 10
    ensures NatValue(Fixed(n, width)) == 10 * NatValue(Fixed(high, width - 1)) + low
  {
    assert Fixed(n, width)[..width - 1] == Fixed(high, width - 1);
  }

  lemma {:induction false} ValueOfFixed(n: nat, width: nat, limit: nat)
    requires n < limit && limit == Pow10(width)
    ensures NatValue(Fixed(n, width)) == n
  {
    if width > 0 {
      ValueOfFixed(n / 10, width - 1, limit / 10);
      FixedValue(n, width, n / 10, n % 10);
    }
  }

  predicate IsCalendarDate(day: nat, month: nat, year: nat) {
    1 <= month <= 12 && 1 <= day <= DaysInMonth(month, year) && year < 10000
  }

  function PrintDate(day: nat, month: nat, year: nat): string {
    Fixed(day, 2) + "-" + Fixed(month, 2) + "-" + Fixed(year, 4)
  }

  lemma PrintedDateIsValid(day: nat, month: nat, year: nat)
    requires IsCalendarDate(day, month, year)
    ensures IsValidDate(PrintDate(day, month, year))
  {
    var s := PrintDate(day, month, year);
    assert s[..2] == Fixed(day, 2) && s[3..5] == Fixed(month, 2) && s[6..] == Fixed(year, 4);
    assert Pow10(2) == 100 && Pow10(4) == 10000;
    ValueOfFixed(day, 2, 100);
    ValueOfFixed(month, 2, 100);
    ValueOfFixed(year, 4, 10000);
  }

  lemma {:induction false} ValueBound(s: string)
    requires AllDigits(s)
    ensures NatValue(s) < Pow10(|s|)
  {
    if s != "" {
      ValueBound(s[..|s| - 1]);
    }
  }

  lemma YearBound(s: string)
    requires AllDigits(s) && |s| == 4
    ensures NatValue(s) < 10000
  {
    ValueBound(s);
    assert Pow10(4) == 10000;
  }

  lemma DateParts(s: string)
    requires |s| == 10 && s[2] == '-' && s[5] == '-'
    ensures s == s[..2] + "-" + s[3..5] + "-" + s[6..]
  {
  }

  lemma ValidDateIsPrinted(s: string) returns (day: nat, month: nat, year: nat)
    requires IsValidDate(s)
    ensures IsCalendarDate(day, month, year) && s == PrintDate(day, month, year)
  {
    var d, m, y := s[..2], s[3..5], s[6..];
    DateParts(s);
    FixedOfValue(d);
    FixedOfValue(m);
    FixedOfValue(y);
    YearBound(y);
    day, month, year := NatValue(d), NatValue(m), NatValue(y);
  }

  /** The date validator accepts exactly the calendar dates of the years 0 to 9999, written DD-MM-YYYY. */
  lemma ValidDates(s: string)
    ensures IsValidDate(s) <==>
      exists day: nat, month: nat, year: nat :: IsCalendarDate(day, month, year) && s == PrintDate(day, month, year)
  {
    if IsValidDate(s) {
      var day, month, year := ValidDateIsPrinted(s);
    }
    forall day: nat, month: nat, year: nat | IsCalendarDate(day, month, year) && s == PrintDate(day, month, year)
      ensures IsValidDate(s)
    {
      PrintedDateIsValid(day, month, year);
    }
  }

  predicate IsValidRecord(e: Employee) {
    IsValidName(e.name) && IsValidName(e.designation) && IsValidDate(e.date)
  }

  // ---------- printing and parsing are inverse ----------

  /** Neither a field separator nor a line separator. */
  ghost predicate Plain(s: string) {
    ',' !in s && '\n' !in s
  }

  ghost predicate PlainFields(e: Employee) {
    Plain(e.name) && Plain(e.designation) && Plain(e.date)
  }

  lemma ValidNameIsPlain(s: string)
    requires IsValidName(s)
    ensures Plain(s)
  {
  }

  lemma ValidDateIsPlain(s: string)
    requires IsValidDate(s)
    ensures Plain(s)
  {
    forall c | c in s
      ensures c == '-' || IsDigit(c)
    {
      var i :| 0 <= i < |s| && s[i] == c;
      if i < 2 {
        assert s[..2][i] == c;
      } else if 3 <= i < 5 {
        assert s[3..5][i - 3] == c;
      } else if i >= 6 {
        assert s[6..][i - 6] == c;
      }
    }
  }

  lemma DigitsArePlain(s: string)
    requires AllDigits(s)
    ensures Plain(s)
  {
  }

  lemma UnsignedIsPlain(c: nat)
    ensures Plain(PrintUnsigned(c))
  {
    DigitsArePlain(Digits(c / 100));
    DigitsArePlain([DigitChar(c % 100 / 10), DigitChar(c % 10)]);
  }

  lemma NumbersArePlain(n: int, s: Salary)
    ensures Plain(PrintInt(n)) && Plain(PrintSalary(s))
  {
    DigitsArePlain(Digits(if n < 0 then -n else n));
    UnsignedIsPlain(ToCents(s.size));
  }

  lemma FieldAt(field: string, rest: string, old_: string)
    requires ',' !in field
    ensures GetField(Good(field + "," + rest), old_) == (field, Good(rest))
  {
    var s := field + "," + rest;
    assert s[|field|] == ',' && s[..|field|] == field && s[|field| + 1..] == rest;
    UntilNulUnique(s, ',', |field|);
  }

  /** The record that is left of `e` in the file. */
  function RoundedRecord(e: Employee): Employee {
    e.(salary := RoundedSalary(e.salary))
  }

  lemma CommaAssociates(x: string, y: string, z: string)
    ensures x + "," + y + "," + z == x + "," + (y + "," + z)
  {
  }

  lemma CommasAssociate(a: string, b: string, c: string, d: string, e: string)
    ensures a + "," + b + "," + c + "," + d + "," + e == a + "," + (b + "," + (c + "," + (d + "," + e)))
  {
    CommaAssociates(a + "," + b + "," + c, d, e);
    CommaAssociates(a + "," + b, c, d + "," + e);
    CommaAssociates(a, b, c + "," + (d + "," + e));
  }

  /** The five fields of a line, one after the other. */
  lemma FiveFields(a: string, b: string, c: string, d: string, e: string)
    returns (s1: Stream, s2: Stream, s3: Stream, s4: Stream)
    requires ',' !in a && ',' !in b && ',' !in c && ',' !in d && ',' !in e
    ensures GetField(Good(a + "," + b + "," + c + "," + d + "," + e), "") == (a, s1) && GetField(s1, "") == (b, s2)
    ensures GetField(s2, a) == (c, s3) && GetField(s3, "") == (d, s4) && GetField(s4, "") == (e, Ended)
  {
    var r4 := d + "," + e;
    var r3 := c + "," + r4;
    var r2 := b + "," + r3;
    CommasAssociate(a, b, c, d, e);
    FieldAt(a, r2, "");
    FieldAt(b, r3, "");
    FieldAt(c, r4, a);
    FieldAt(d, e, "");
    s1, s2, s3, s4 := Good(r2), Good(r3), Good(r4), Good(e);
  }

  lemma ParseFields(line: string, a: string, c: string, e: Employee, s1: Stream, s2: Stream, s3: Stream, s4: Stream)
    requires GetField(Good(line), "") == (a, s1) && GetField(s1, "") == (e.name, s2)
    requires GetField(s2, a) == (c, s3) && GetField(s3, "") == (e.designation, s4)
    requires GetField(s4, "") == (e.date, Ended)
    requires Stoi(a) == Ok(e.id) && Stod(c) == Ok(e.salary)
    ensures ParseLine(line) == Ok(e)
  {
  }

  /** A record with plain fields survives its line, its salary to the nearest cent. */
  lemma ParseRecord(e: Employee)
    requires PlainFields(e)
    ensures ParseLine(Record(e)) == Ok(RoundedRecord(e))
  {
    var id, salary := PrintInt(e.id), PrintSalary(e.salary);
    NumbersArePlain(e.id, e.salary);
    StoiPrint(e.id);
    StodPrint(e.salary);
    var s1, s2, s3, s4 := FiveFields(id, e.name, salary, e.designation, e.date);
    ParseFields(Record(e), id, salary, RoundedRecord(e), s1, s2, s3, s4);
  }

  lemma RecordIsOneLine(e: Employee, more: string)
    requires PlainFields(e)
    ensures FirstLine(Record(e) + "\n" + more) == (Record(e), more)
  {
    NumbersArePlain(e.id, e.salary);
    var r, text := Record(e), Record(e) + "\n" + more;
    assert '\n' !in r;
    assert text[|r|] == '\n' && text[..|r|] == r && text[|r| + 1..] == more;
    UntilNulUnique(text, '\n', |r|);
  }

  /** Every record is valid and stored under its own id. */
  ghost predicate IsTable(emp: map<int32, Employee>) {
    forall k :: k in emp ==> emp[k].id == k && IsValidRecord(emp[k])
  }

  /** Loading one printed record puts exactly that record in, to the nearest cent. */
  lemma LoadRecord(e: Employee, more: string, old_: map<int32, Employee>)
    requires IsValidRecord(e)
    ensures Load(Record(e) + "\n" + more, old_) == Load(more, old_[e.id := RoundedRecord(e)])
  {
    ValidNameIsPlain(e.name);
    ValidNameIsPlain(e.designation);
    ValidDateIsPlain(e.date);
    ParseRecord(e);
    RecordIsOneLine(e, more);
  }

  // ---------- why the validators are needed ----------

  ghost predicate OneLine(s: Stream) {
    s.Good? ==> '\n' !in s.rest
  }

  /** Whatever is read as a field of one line is plain. */
  lemma FieldIsPlain(s: Stream, old_: string)
    requires OneLine(s) && Plain(old_)
    ensures Plain(GetField(s, old_).0) && OneLine(GetField(s, old_).1)
  {
  }

  lemma ParsedIsPlain(line: string)
    requires '\n' !in line && ParseLine(line).Ok?
    ensures PlainFields(ParseLine(line).value)
  {
    var (temp, s1) := GetField(Good(line), "");
    FieldIsPlain(Good(line), "");
    var (name, s2) := GetField(s1, "");
    FieldIsPlain(s1, "");
    var (temp2, s3) := GetField(s2, temp);
    FieldIsPlain(s2, temp);
    var (designation, s4) := GetField(s3, "");
    FieldIsPlain(s3, "");
    FieldIsPlain(s4, "");
  }

  /** Every loaded record has plain fields, whatever the file holds. */
  lemma {:induction false} LoadedIsPlain(text: string, emp: map<int32, Employee>, k: int32)
    requires k in Loaded(text, emp)
    requires forall j :: j in emp ==> PlainFields(emp[j])
    ensures PlainFields(Loaded(text, emp)[k])
    decreases |text|
  {
    if text != "" {
      var (line, rest) := FirstLine(text);
      if ParseLine(line).Ok? {
        var e := ParseLine(line).value;
        assert '\n' !in line;
        ParsedIsPlain(line);
        OneLineLoaded(text, line, rest, emp, e);
        LoadedIsPlain(rest, emp[e.id := e], k);
      }
    }
  }

  lemma {:induction false} LoadIsLoaded(text: string, emp: map<int32, Employee>)
    requires Load(text, emp).Ok?
    ensures Load(text, emp).value == Loaded(text, emp)
    decreases |text|
  {
    if text != "" {
      var (line, rest) := FirstLine(text);
      var e := ParseLine(line).value;
      OneLineLoaded(text, line, rest, emp, e);
      LoadIsLoaded(rest, emp[e.id := e]);
    }
  }

  lemma LoadNothing(emp: map<int32, Employee>)
    ensures Load("", emp) == Ok(emp)
  {
  }

  lemma LoadPlainRecord(e: Employee)
    requires PlainFields(e)
    ensures Load(Record(e) + "\n", map[]) == Ok(map[e.id := RoundedRecord(e)])
  {
    var text, r := Record(e) + "\n", RoundedRecord(e);
    ParseRecord(e);
    RecordIsOneLine(e, "");
    assert text + "" == text;
    OneLineLoaded(text, Record(e), "", map[], r);
    LoadNothing(map[e.id := r]);
  }

  /**
   * Any record survives saving and loading if and only if its fields hold no comma and no newline and its
   * salary is the double nearest to some whole number of cents.
   */
  lemma RecordSurvives(e: Employee)
    ensures Load(Record(e) + "\n", map[]) == Ok(map[e.id := e]) <==> PlainFields(e) && IsCents(e.salary)
  {
    var text, r := Record(e) + "\n", RoundedRecord(e);
    if PlainFields(e) {
      LoadPlainRecord(e);
      RoundingKeeps(e.salary);
      assert map[e.id := r] == map[e.id := e] <==> map[e.id := r][e.id] == map[e.id := e][e.id];
    } else if Load(text, map[]) == Ok(map[e.id := e]) {
      LoadIsLoaded(text, map[]);
      LoadedIsPlain(text, map[], e.id);
      assert false;
    }
  }

  // ---------- whole files ----------

  /** What is left of the map in the file. */
  function RoundedTable(emp: map<int32, Employee>): map<int32, Employee> {
    map k | k in emp :: RoundedRecord(emp[k])
  }

  lemma PutBack(emp: map<int32, Employee>, old_: map<int32, Employee>, k: int32)
    requires k in emp
    ensures old_[k := RoundedRecord(emp[k])] + RoundedTable(emp - {k}) == old_ + RoundedTable(emp)
  {
  }

  /** Loading what was saved, into any map, puts every saved record back and changes nothing else. */
  lemma {:induction false} LoadSerialise(emp: map<int32, Employee>, old_: map<int32, Employee>)
    requires IsTable(emp)
    ensures Load(Serialise(emp), old_) == Ok(old_ + RoundedTable(emp))
    decreases |emp|
  {
    if emp == map[] {
      assert old_ + RoundedTable(emp) == old_;
    } else {
      var k := MinKey(emp.Keys);
      LoadSerialise(emp - {k}, old_[k := RoundedRecord(emp[k])]);
      LoadOneMore(emp, old_, k, Serialise(emp - {k}));
    }
  }

  lemma LoadOneMore(emp: map<int32, Employee>, old_: map<int32, Employee>, k: int32, more: string)
    requires k in emp && emp[k].id == k && IsValidRecord(emp[k])
    requires var next := old_[k := RoundedRecord(emp[k])]; Load(more, next) == Ok(next + RoundedTable(emp - {k}))
    ensures Load(Record(emp[k]) + "\n" + more, old_) == Ok(old_ + RoundedTable(emp))
  {
    LoadRecord(emp[k], more, old_);
    PutBack(emp, old_, k);
  }

  lemma PutIntoItself(emp: map<int32, Employee>)
    ensures map[] + RoundedTable(emp) == RoundedTable(emp) && emp + RoundedTable(emp) == RoundedTable(emp)
  {
  }

  /** So loading restores the saved map to the nearest cent, from nothing or from that map itself. */
  lemma LoadRestores(emp: map<int32, Employee>)
    requires IsTable(emp)
    ensures Load(Serialise(emp), map[]) == Ok(RoundedTable(emp)) == Load(Serialise(emp), emp)
  {
    LoadSerialise(emp, map[]);
    LoadSerialise(emp, emp);
    PutIntoItself(emp);
  }

  ghost predicate AllCents(emp: map<int32, Employee>) {
    forall k :: k in emp ==> IsCents(emp[k].salary)
  }

  /** The file keeps the whole map exactly when all salaries are whole cents. */
  lemma TableKept(emp: map<int32, Employee>)
    ensures RoundedTable(emp) == emp <==> AllCents(emp)
  {
    forall k | k in emp
      ensures RoundedTable(emp)[k] == emp[k] <==> IsCents(emp[k].salary)
    {
      RoundingKeeps(emp[k].salary);
    }
  }

  lemma RecordOfRounded(e: Employee)
    ensures Record(RoundedRecord(e)) == Record(e)
  {
    RoundingKeeps(e.salary);
  }

  lemma RoundedWithout(emp: map<int32, Employee>, k: int32)
    requires k in emp
    ensures RoundedTable(emp) - {k} == RoundedTable(emp - {k})
  {
  }

  /** Saving the loaded map writes the same file again. */
  lemma {:induction false} SerialiseRounded(emp: map<int32, Employee>)
    ensures Serialise(RoundedTable(emp)) == Serialise(emp)
    decreases |emp|
  {
    if emp != map[] {
      var k := MinKey(emp.Keys);
      assert RoundedTable(emp).Keys == emp.Keys;
      RecordOfRounded(emp[k]);
      RoundedWithout(emp, k);
      SerialiseRounded(emp - {k});
    } else {
      assert RoundedTable(emp) == map[];
    }
  }

  lemma RoundedIsTable(emp: map<int32, Employee>)
    requires IsTable(emp)
    ensures IsTable(RoundedTable(emp))
  {
  }
}
