/** The form helpers of the user-settings screen: the phone mask, the proposal validity
    field, the working-day checkboxes and the employee list. */
module UserSettings {
  import opened Wrappers
  import opened JsText

  // ---------------------------------------------------------------------------
  // Phone mask

  /** `value.replace(/\D/g, "")`: the digits of `s`, in order. */
  function DigitsOf(s: string): (d: string)
    ensures AllDigits(d)
    ensures |d| <= |s|
    ensures AllDigits(s) ==> d == s
  {
    if s == [] then []
    else (if IsDigit(s[0]) then [s[0]] else []) + DigitsOf(s[1..])
  }

  lemma {:induction false} DigitsOfAppend(a: string, b: string)
    ensures DigitsOf(a + b) == DigitsOf(a) + DigitsOf(b)
  {
    if a == [] {
      assert a + b == b;
    } else {
      assert (a + b)[1..] == a[1..] + b;
      DigitsOfAppend(a[1..], b);
    }
  }

  /** At most the first `n` characters: `slice(0, n)`. */
  function Take(s: string, n: nat): (r: string)
    ensures |r| == if |s| <= n then |s| else n
    ensures r <= s
  {
    if |s| <= n then s else s[..n]
  }

  /** The mask applied to at most eleven digits: "(DD) DDDDD-DDDD" for eleven,
      "(DD) DDDD-rest" for seven to ten, "(DD) rest" for three to six, "(rest" for one
      or two, and nothing for none. */
  function FormatDigits(d: string): (r: string)
    requires |d| <= 11
    ensures |d| == 11 ==> |r| == 15 && r[0] == '(' && r[3] == ')' && r[4] == ' ' && r[10] == '-'
    ensures 7 <= |d| <= 10 ==> |r| == |d| + 4 && r[0] == '(' && r[3] == ')' && r[4] == ' ' && r[9] == '-'
    ensures 3 <= |d| <= 6 ==> |r| == |d| + 3 && r[0] == '(' && r[3] == ')' && r[4] == ' '
    ensures 1 <= |d| <= 2 ==> |r| == |d| + 1 && r[0] == '('
    ensures d == [] ==> r == []
  {
    if |d| > 10 then "(" + d[..2] + ") " + d[2..7] + "-" + d[7..]
    else if |d| > 6 then "(" + d[..2] + ") " + d[2..6] + "-" + d[6..]
    else if |d| > 2 then "(" + d[..2] + ") " + d[2..]
    else if |d| > 0 then "(" + d
    else ""
  }

  /** `applyPhoneMask`: keeps at most eleven digits of the input, in order, and lays them
      out as a Brazilian phone number; no digits (or no input) gives "". */
  function PhoneMask(v: string): (r: string)
    ensures DigitsOf(r) == Take(DigitsOf(v), 11)
    ensures |r| <= 15
    ensures DigitsOf(v) == [] ==> r == []
    ensures var n := |DigitsOf(v)|;
      && (n >= 11 ==> |r| == 15 && r[0] == '(' && r[3] == ')' && r[4] == ' ' && r[10] == '-')
      && (7 <= n <= 10 ==> |r| == n + 4 && r[0] == '(' && r[3] == ')' && r[4] == ' ' && r[9] == '-')
      && (3 <= n <= 6 ==> |r| == n + 3 && r[0] == '(' && r[3] == ')' && r[4] == ' ')
      && (1 <= n <= 2 ==> |r| == n + 1 && r[0] == '(')
  {
    var d := Take(DigitsOf(v), 11);
    assert AllDigits(d) by { assert d <= DigitsOf(v); }
    FormatDigitsDigits(d);
    if v == [] then "" else FormatDigits(d)
  }

  /** Reading the digits back out of a masked number gives the digits put in. */
  lemma FormatDigitsDigits(d: string)
    requires |d| <= 11 && AllDigits(d)
    ensures DigitsOf(FormatDigits(d)) == d
  {
    if |d| > 10 {
      DigitsOfThreeGroups(d[..2], d[2..7], d[7..]);
      assert d == d[..2] + d[2..7] + d[7..];
    } else if |d| > 6 {
      DigitsOfThreeGroups(d[..2], d[2..6], d[6..]);
      assert d == d[..2] + d[2..6] + d[6..];
    } else if |d| > 2 {
      DigitsOfTwoGroups(d[..2], d[2..]);
      assert d == d[..2] + d[2..];
    } else if |d| > 0 {
      DigitsOfAppend("(", d);
    }
  }

  lemma DigitsOfTwoGroups(a: string, b: string)
    requires AllDigits(a) && AllDigits(b)
    ensures DigitsOf("(" + a + ") " + b) == a + b
  {
    var p := "(" + a;
    var q := p + ") ";
    DigitsOfAppend("(", a);
    assert DigitsOf("(") == [];
    assert DigitsOf(p) == a;
    DigitsOfAppend(p, ") ");
    assert DigitsOf(") ") == [] by { assert ") "[1..] == " "; }
    assert DigitsOf(q) == a;
    DigitsOfAppend(q, b);
  }

  lemma DigitsOfThreeGroups(a: string, b: string, c: string)
    requires AllDigits(a) && AllDigits(b) && AllDigits(c)
    ensures DigitsOf("(" + a + ") " + b + "-" + c) == a + b + c
  {
    var q := "(" + a + ") " + b;
    var r := q + "-";
    DigitsOfTwoGroups(a, b);
    DigitsOfAppend(q, "-");
    DigitsOfOne('-');
    assert DigitsOf(r) == a + b;
    DigitsOfAppend(r, c);
  }

  lemma DigitsOfOne(ch: char)
    ensures DigitsOf([ch]) == if IsDigit(ch) then [ch] else []
  {
    assert [ch][1..] == [];
  }

  /** Masking a masked number changes nothing: only its digits are read back. */
  lemma PhoneMaskIdempotent(v: string)
    ensures PhoneMask(PhoneMask(v)) == PhoneMask(v)
  {
  }

  // ---------------------------------------------------------------------------
  // Proposal validity

  /** `parseInt(value, 10)`, kept only when it is a number of at least one day;
      `None` stands for `undefined`. */
  function ValidityDays(value: string): (r: Option<int>)
    ensures r.Some? ==> r.value >= 1 && ParseInt(value) == r
    ensures r.None? <==> ParseInt(value).None? || ParseInt(value).value < 1
  {
    match ParseInt(value)
    case None => None
    case Some(n) => if n < 1 then None else Some(n)
  }

  /** What the field shows for a stored validity is read back as that validity. */
  lemma ValidityDaysRoundTrip(n: int)
    requires n >= 1
    ensures ValidityDays(IntToString(n)) == Some(n)
  {
    ParseIntOfIntToString(n);
  }

  // ---------------------------------------------------------------------------
  // Working days

  datatype WorkingHours = WorkingHours(start: string, end: string, days: seq<int>)

  const DefaultWorkingHours := WorkingHours("08:00", "18:00", [])

  predicate Sorted(s: seq<int>) {
    forall i, j :: 0 <= i < j < |s| ==> s[i] <= s[j]
  }

  /** Insert `x` into the sorted `s`, after the entries not greater than it. */
  function InsertSorted(x: int, s: seq<int>): (r: seq<int>)
    requires Sorted(s)
    ensures Sorted(r)
    ensures multiset(r) == multiset(s) + multiset{x}
    ensures |r| == |s| + 1
  {
    if s == [] then [x]
    else if x <= s[0] then [x] + s
    else
      var rest := InsertSorted(x, s[1..]);
      InsertSortedStep(x, s, rest);
      [s[0]] + rest
  }

  lemma InsertSortedStep(x: int, s: seq<int>, rest: seq<int>)
    requires Sorted(s) && s != [] && s[0] < x
    requires Sorted(rest) && multiset(rest) == multiset(s[1..]) + multiset{x}
    ensures Sorted([s[0]] + rest)
    ensures multiset([s[0]] + rest) == multiset(s) + multiset{x}
  {
    assert s == [s[0]] + s[1..];
    forall k | 0 <= k < |rest| ensures s[0] <= rest[k] {
      assert rest[k] in multiset(rest);
      if rest[k] != x {
        assert rest[k] in multiset(s[1..]);
        var j :| 0 <= j < |s[1..]| && s[1..][j] == rest[k];
        assert s[j + 1] == rest[k];
      }
    }
    var r := [s[0]] + rest;
    forall i, j | 0 <= i < j < |r| ensures r[i] <= r[j] {
      if i > 0 { assert r[i] == rest[i - 1] && r[j] == rest[j - 1]; }
      else { assert r[j] == rest[j - 1]; }
    }
  }

  /** `sort((a, b) => a - b)`: the ascending rearrangement. */
  function SortDays(s: seq<int>): (r: seq<int>)
    ensures Sorted(r)
    ensures multiset(r) == multiset(s)
  {
    if s == [] then []
    else
      assert s == [s[0]] + s[1..];
      InsertSorted(s[0], SortDays(s[1..]))
  }

  /** `days.filter(d => d !== day)`. */
  function RemoveDay(s: seq<int>, day: int): (r: seq<int>)
    ensures day !in r
    ensures forall x :: x != day ==> multiset(r)[x] == multiset(s)[x]
  {
    if s == [] then []
    else
      assert s == [s[0]] + s[1..];
      (if s[0] == day then [] else [s[0]]) + RemoveDay(s[1..], day)
  }

  /** Ticking or unticking a day: ticking adds the day, unticking removes every
      occurrence of it; the list is sorted afterwards. Absent hours start from
      08:00-18:00 with no days. */
  function WorkingDayChange(wh: Option<WorkingHours>, day: int, checked: bool): (r: WorkingHours)
    ensures Sorted(r.days)
    ensures var base := match wh case Some(h) => h case None => DefaultWorkingHours;
      && r.start == base.start && r.end == base.end
      && (checked ==> multiset(r.days) == multiset(base.days) + multiset{day})
      && (!checked ==> day !in r.days && forall x :: x != day ==> multiset(r.days)[x] == multiset(base.days)[x])
  {
    var base := match wh case Some(h) => h case None => DefaultWorkingHours;
    var newDays := if checked then base.days + [day] else RemoveDay(base.days, day);
    assert multiset(base.days + [day]) == multiset(base.days) + multiset{day};
    var sorted := SortDays(newDays);
    assert !checked ==> multiset(sorted)[day] == 0;
    base.(days := sorted)
  }

  /** The working days as a set: ticking a day adds it, unticking removes it. */
  lemma WorkingDaysAsSet(h: WorkingHours, day: int, x: int)
    ensures x in WorkingDayChange(Some(h), day, true).days <==> x in h.days || x == day
    ensures x in WorkingDayChange(Some(h), day, false).days <==> x in h.days && x != day
  {
    var on := WorkingDayChange(Some(h), day, true).days;
    var off := WorkingDayChange(Some(h), day, false).days;
    assert x in on <==> multiset(on)[x] > 0;
    assert x in off <==> multiset(off)[x] > 0;
    assert x in h.days <==> multiset(h.days)[x] > 0;
  }

  // ---------------------------------------------------------------------------
  // Employees

  datatype Employee = Employee(id: int, nome: string)

  /** The employee list after an add, with the text left in the name box. */
  datatype AddOutcome = AddOutcome(employees: Option<seq<Employee>>, pendingName: string)

  /** The add button: a name that trims to nothing changes nothing; otherwise the trimmed
      name is appended with a fresh identifier and the name box is emptied. An absent
      list counts as empty. */
  function AddEmployee(employees: Option<seq<Employee>>, name: string, freshId: int): (r: AddOutcome)
    ensures Trim(name) == [] ==> r == AddOutcome(employees, name)
    ensures Trim(name) != [] ==>
      var before := match employees case Some(es) => es case None => [];
      && r.pendingName == []
      && r.employees.Some?
      && |r.employees.value| == |before| + 1
      && r.employees.value[..|before|] == before
      && r.employees.value[|before|] == Employee(freshId, Trim(name))
  {
    var nome := Trim(name);
    if nome == [] then AddOutcome(employees, name)
    else
      var before := match employees case Some(es) => es case None => [];
      AddOutcome(Some(before + [Employee(freshId, nome)]), [])
  }

  /** The remove button: `filter(emp => emp.id !== id)` over the list (absent counts as
      empty). */
  function RemoveEmployee(employees: Option<seq<Employee>>, id: int): (r: seq<Employee>)
    ensures forall e :: e in r <==> (employees.Some? && e in employees.value && e.id != id)
  {
    match employees
    case Some(es) => Without(es, id)
    case None => []
  }

  function Without(es: seq<Employee>, id: int): (r: seq<Employee>)
    ensures forall e :: e in r <==> e in es && e.id != id
    ensures |r| <= |es|
  {
    if es == [] then []
    else (if es[0].id == id then [] else [es[0]]) + Without(es[1..], id)
  }

  /** Removal works part by part, so the kept entries stay in their order. */
  lemma {:induction false} WithoutAppend(a: seq<Employee>, b: seq<Employee>, id: int)
    ensures Without(a + b, id) == Without(a, id) + Without(b, id)
  {
    if a == [] {
      assert a + b == b;
    } else {
      assert (a + b)[1..] == a[1..] + b;
      WithoutAppend(a[1..], b, id);
    }
  }

  /** Removing an identifier nobody has keeps the list as it is. */
  lemma {:induction false} WithoutAbsent(es: seq<Employee>, id: int)
    requires forall i :: 0 <= i < |es| ==> es[i].id != id
    ensures Without(es, id) == es
  {
    if es != [] {
      WithoutAbsent(es[1..], id);
    }
  }

  /** Removing the employee just added (under a fresh identifier) restores the list. */
  lemma AddThenRemove(es: seq<Employee>, name: string, freshId: int)
    requires Trim(name) != []
    requires forall i :: 0 <= i < |es| ==> es[i].id != freshId
    ensures RemoveEmployee(AddEmployee(Some(es), name, freshId).employees, freshId) == es
  {
    var added := Employee(freshId, Trim(name));
    WithoutAppend(es, [added], freshId);
    WithoutAbsent(es, freshId);
    assert Without([added], freshId) == [];
  }
}
