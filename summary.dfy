/**
 * The RSBSA regional summary. A registry workbook must hold exactly the six
 * Region 6 province sheets. Each non-empty province sheet is reduced to one
 * row per (municipality, barangay) pair, with occupation flags, gender and
 * age-bracket counts, and the number of distinct agencies. Rows are sorted by
 * municipality, then barangay.
 */
module RegionalSummary {
  import opened Wrappers
  import opened Text
  import opened Tables

  // ---------------------------------------------------------------------------
  // Province validation.

  const Provinces: set<string> := {"AKLAN", "ANTIQUE", "CAPIZ", "ILOILO", "GUIMARAS", "NEGROS OCCIDENTAL"}

  datatype ProvinceCheck =
    | MissingProvinces(missing: set<string>)
    | WrongSheetCount(found: nat)
    | Valid

  lemma ProvinceCount()
    ensures |Provinces| == 6
  {
    assert "AKLAN"[0] == 'A' && "ANTIQUE"[1] == 'N' && "CAPIZ"[0] == 'C';
    assert "ILOILO"[0] == 'I' && "GUIMARAS"[0] == 'G' && "NEGROS OCCIDENTAL"[0] == 'N';
    assert |"AKLAN"| != |"ANTIQUE"|;
  }

  /** The missing-sheet test first, then the sheet-count test. */
  function CheckProvinces(sheets: set<string>): (r: ProvinceCheck)
    ensures r == Valid <==> sheets == Provinces
    ensures r.MissingProvinces? <==> !(Provinces <= sheets)
    ensures r.MissingProvinces? ==> r.missing == Provinces - sheets && r.missing != {}
    ensures r.WrongSheetCount? ==> Provinces < sheets && r.found == |sheets| && r.found != 6
  {
    var missing := Provinces - sheets;
    if missing != {} then MissingProvinces(missing)
    else
      ProvinceCount();
      if |sheets| != |Provinces| then
        assert sheets != Provinces;
        WrongSheetCount(|sheets|)
      else
        SubsetOfSameSize(Provinces, sheets);
        Valid
  }

  lemma SubsetOfSameSize<T>(a: set<T>, b: set<T>)
    requires a <= b && |a| == |b|
    ensures a == b
  {
    if a != b {
      var x :| x in b && x !in a;
      assert a <= b - {x};
      SubsetSize(a, b - {x});
    }
  }

  lemma SubsetSize<T>(a: set<T>, b: set<T>)
    requires a <= b
    ensures |a| <= |b|
  {
    assert b == a + (b - a);
  }

  /** A workbook with every province and any extra sheet fails the count test. */
  lemma ExtraSheetRejected(sheets: set<string>)
    requires Provinces < sheets
    ensures CheckProvinces(sheets) == WrongSheetCount(|sheets|)
  {
  }

  // ---------------------------------------------------------------------------
  // Per-registrant flags.

  /** One registry row, reduced to the target columns; `ageDays` is `(ref_date - birthday).days`, `None` for an unparseable birthday. */
  datatype Registrant = Registrant(
    mun: string, bgy: string,
    farmer: Cell, farmworker: Cell, fisherfolk: Cell,
    gender: Cell, agency: Cell,
    ageDays: Option<int>)

  /** `astype(str)`: a missing cell reads as "nan". */
  function CellText(c: Cell): string {
    match c case Missing => "nan" case Text(s) => s
  }

  /** `.str.upper().map({key: 1}).fillna(0)` is 1 exactly for this cell. */
  predicate Flag(c: Cell, key: string) {
    Upper(CellText(c)) == key
  }

  predicate IsYes(c: Cell) { Flag(c, "YES") }
  predicate IsMale(c: Cell) { Flag(c, "MALE") }
  predicate IsFemale(c: Cell) { Flag(c, "FEMALE") }

  /** A flag is exact: any casing of the key counts, a missing cell or any other text does not. */
  lemma FlagExact(s: string)
    ensures IsYes(Text(s)) <==> |s| == 3 && UpperChar(s[0]) == 'Y' && UpperChar(s[1]) == 'E' && UpperChar(s[2]) == 'S'
    ensures !IsYes(Missing) && !IsMale(Missing) && !IsFemale(Missing)
    ensures !(IsMale(Text(s)) && IsFemale(Text(s)))
  {
    var u := Upper(s);
    if IsYes(Text(s)) {
      assert u == "YES";
      assert u[0] == 'Y' && u[1] == 'E' && u[2] == 'S';
    }
    assert Upper("nan") == "NAN";
  }

  /** Concrete cases: "yes" counts, "YES " with a trailing space and "Y" do not. */
  lemma FlagExamples()
    ensures IsYes(Text("yes")) && IsYes(Text("Yes"))
    ensures !IsYes(Text("YES ")) && !IsYes(Text("Y"))
    ensures IsFemale(Text("female")) && !IsMale(Text("female"))
  {
    assert Upper("yes") == "YES";
    assert Upper("Yes") == "YES";
    assert Upper("female") == "FEMALE";
  }

  // ---------------------------------------------------------------------------
  // Age brackets, on whole days: age in years is days / 365.25, so each
  // bound on the age is a bound on 4 * days.

  predicate IsYouth(days: Option<int>) {
    days.Some? && 21915 <= 4 * days.value <= 43830
  }

  predicate IsWorkingAge(days: Option<int>) {
    days.Some? && 43830 < 4 * days.value < 87660
  }

  predicate IsSenior(days: Option<int>) {
    days.Some? && 87660 <= 4 * days.value
  }

  /** `age_years` with `fillna(-1)`, as an exact rational. */
  function AgeYears(days: Option<int>): real {
    if days.None? then -1.0 else days.value as real / 365.25
  }

  /** The integer tests are the source's tests on `age_years`. */
  lemma BracketsMatchYears(days: Option<int>)
    ensures IsYouth(days) <==> 15.0 <= AgeYears(days) <= 30.0
    ensures IsWorkingAge(days) <==> 30.0 < AgeYears(days) < 60.0
    ensures IsSenior(days) <==> AgeYears(days) >= 60.0
  {
    if days.Some? {
      var d := days.value as real;
      assert AgeYears(days) * 365.25 == d;
      assert 4.0 * d == (4 * days.value) as real;
    }
  }

  /** At most one bracket applies, and none to a missing birthday. */
  lemma BracketsExclusive(days: Option<int>)
    ensures !(IsYouth(days) && IsWorkingAge(days))
    ensures !(IsYouth(days) && IsSenior(days))
    ensures !(IsWorkingAge(days) && IsSenior(days))
    ensures days.None? ==> !IsYouth(days) && !IsWorkingAge(days) && !IsSenior(days)
  {
  }

  /** 10958 days is just over 30 years: working age, not youth. */
  lemma ThirtyYearsAndADay()
    ensures !IsYouth(Some(10958)) && IsWorkingAge(Some(10958))
    ensures IsYouth(Some(10957))
  {
  }

  // ---------------------------------------------------------------------------
  // Grouping.

  datatype Key = Key(mun: string, bgy: string)

  function KeyOf(r: Registrant): Key { Key(r.mun, r.bgy) }

  /** `sort_values(['Municipality', 'Barangay'])`. */
  predicate KeyLess(a: Key, b: Key) {
    Less(a.mun, b.mun) || (a.mun == b.mun && Less(a.bgy, b.bgy))
  }

  lemma KeyLessFacts(a: Key, b: Key, c: Key)
    ensures !KeyLess(a, a)
    ensures KeyLess(a, b) && KeyLess(b, c) ==> KeyLess(a, c)
    ensures a != b ==> KeyLess(a, b) || KeyLess(b, a)
    ensures KeyLess(a, b) ==> !KeyLess(b, a)
  {
    LessIrreflexive(a.mun);
    LessIrreflexive(a.bgy);
    if KeyLess(a, b) && KeyLess(b, c) {
      if Less(a.mun, b.mun) && Less(b.mun, c.mun) { LessTransitive(a.mun, b.mun, c.mun); }
      if a.mun == b.mun && b.mun == c.mun { LessTransitive(a.bgy, b.bgy, c.bgy); }
    }
    if a != b {
      if a.mun != b.mun { LessTotal(a.mun, b.mun); } else { LessTotal(a.bgy, b.bgy); }
    }
    if KeyLess(a, b) {
      if Less(a.mun, b.mun) { LessAsymmetric(a.mun, b.mun); } else { LessAsymmetric(a.bgy, b.bgy); }
    }
  }

  predicate StrictlySorted(keys: seq<Key>) {
    forall i, j :: 0 <= i < j < |keys| ==> KeyLess(keys[i], keys[j])
  }

  /** Adding a key to a sorted list of distinct keys. */
  function Insert(keys: seq<Key>, k: Key): (r: seq<Key>)
    requires StrictlySorted(keys)
    ensures StrictlySorted(r)
    ensures forall x :: x in r <==> x in keys || x == k
  {
    if keys == [] then [k]
    else if k == keys[0] then keys
    else if KeyLess(k, keys[0]) then
      assert forall j :: 0 < j < |keys| ==> KeyLess(k, keys[j]) by {
        forall j | 0 < j < |keys| ensures KeyLess(k, keys[j]) { KeyLessFacts(k, keys[0], keys[j]); }
      }
      [k] + keys
    else
      var rest := Insert(keys[1..], k);
      KeyLessFacts(k, keys[0], k);
      assert KeyLess(keys[0], k);
      assert forall x :: x in rest ==> KeyLess(keys[0], x);
      [keys[0]] + rest
  }

  function KeysOf(rows: seq<Registrant>): (r: seq<Key>)
    ensures |r| == |rows| && forall i :: 0 <= i < |rows| ==> r[i] == KeyOf(rows[i])
  {
    seq(|rows|, i requires 0 <= i < |rows| => KeyOf(rows[i]))
  }

  /** The distinct (municipality, barangay) pairs, ascending: the index of the group-by. */
  function GroupKeys(rows: seq<Registrant>): (r: seq<Key>)
    ensures StrictlySorted(r)
    ensures forall k :: k in r <==> k in KeysOf(rows)
  {
    if rows == [] then []
    else
      var rest := GroupKeys(rows[1..]);
      assert KeysOf(rows) == [KeyOf(rows[0])] + KeysOf(rows[1..]);
      Insert(rest, KeyOf(rows[0]))
  }

  /** The rows of one group, in their original order. */
  function Members(rows: seq<Registrant>, k: Key): (g: seq<Registrant>)
    ensures |g| <= |rows|
    ensures forall x :: x in g <==> x in rows && KeyOf(x) == k
  {
    if rows == [] then []
    else (if KeyOf(rows[0]) == k then [rows[0]] else []) + Members(rows[1..], k)
  }

  function Count(g: seq<Registrant>, p: Registrant -> bool): nat {
    if g == [] then 0 else (if p(g[0]) then 1 else 0) + Count(g[1..], p)
  }

  /** The values `nunique` counts: the agencies present in the group. */
  function Agencies(g: seq<Registrant>): (a: set<string>)
    ensures forall s :: s in a <==> exists i :: 0 <= i < |g| && g[i].agency == Text(s)
  {
    if g == [] then {}
    else
      var rest := Agencies(g[1..]);
      assert forall i :: 1 <= i < |g| ==> g[i] == g[1..][i - 1];
      assert forall i :: 0 <= i < |g| - 1 ==> g[1..][i] == g[i + 1];
      rest + (if g[0].agency.Text? then {g[0].agency.text} else {})
  }

  datatype SummaryRow = SummaryRow(
    municipality: string, barangay: string,
    farmers: nat, farmworkers: nat, fisherfolk: nat,
    distinctAgencies: nat, male: nat, female: nat,
    youth: nat, workingAge: nat, senior: nat)

  function Aggregate(k: Key, g: seq<Registrant>): SummaryRow {
    SummaryRow(k.mun, k.bgy,
      Count(g, (x: Registrant) => IsYes(x.farmer)), Count(g, (x: Registrant) => IsYes(x.farmworker)), Count(g, (x: Registrant) => IsYes(x.fisherfolk)),
      |Agencies(g)|, Count(g, (x: Registrant) => IsMale(x.gender)), Count(g, (x: Registrant) => IsFemale(x.gender)),
      Count(g, (x: Registrant) => IsYouth(x.ageDays)), Count(g, (x: Registrant) => IsWorkingAge(x.ageDays)), Count(g, (x: Registrant) => IsSenior(x.ageDays)))
  }

  function RowKey(s: SummaryRow): Key { Key(s.municipality, s.barangay) }

  /** The province summary table. */
  function Summarize(rows: seq<Registrant>): seq<SummaryRow> {
    var keys := GroupKeys(rows);
    seq(|keys|, i requires 0 <= i < |keys| => Aggregate(keys[i], Members(rows, keys[i])))
  }

  // ---------------------------------------------------------------------------
  // Properties of the summary.

  /** Summary row j is the aggregate of the j-th group. */
  lemma SummaryRowIsGroup(rows: seq<Registrant>, j: nat)
    requires j < |GroupKeys(rows)|
    ensures |Summarize(rows)| == |GroupKeys(rows)|
    ensures RowKey(Summarize(rows)[j]) == GroupKeys(rows)[j]
    ensures Summarize(rows)[j] == Aggregate(GroupKeys(rows)[j], Members(rows, GroupKeys(rows)[j]))
  {
  }

  /** The summary rows carry the group keys, in order. */
  lemma SummaryKeys(rows: seq<Registrant>)
    ensures |Summarize(rows)| == |GroupKeys(rows)|
    ensures forall j :: 0 <= j < |GroupKeys(rows)| ==> RowKey(Summarize(rows)[j]) == GroupKeys(rows)[j]
  {
  }

  /** Every registrant's pair is a group key, and every group key is some registrant's pair. */
  lemma GroupKeysExact(rows: seq<Registrant>)
    ensures forall i :: 0 <= i < |rows| ==> KeyOf(rows[i]) in GroupKeys(rows)
    ensures forall k :: k in GroupKeys(rows) ==> exists i :: 0 <= i < |rows| && KeyOf(rows[i]) == k
  {
    var keys := GroupKeys(rows);
    forall i | 0 <= i < |rows| ensures KeyOf(rows[i]) in keys {
      assert KeysOf(rows)[i] == KeyOf(rows[i]);
    }
    forall k | k in keys ensures exists i :: 0 <= i < |rows| && KeyOf(rows[i]) == k {
      var i :| 0 <= i < |rows| && KeysOf(rows)[i] == k;
    }
  }

  lemma SummarySorted(rows: seq<Registrant>)
    ensures forall i, j :: 0 <= i < j < |Summarize(rows)| ==> KeyLess(RowKey(Summarize(rows)[i]), RowKey(Summarize(rows)[j]))
  {
    SummaryKeys(rows);
  }

  lemma SummaryCoversRows(rows: seq<Registrant>)
    ensures forall i :: 0 <= i < |rows| ==>
              exists j :: 0 <= j < |Summarize(rows)| && RowKey(Summarize(rows)[j]) == KeyOf(rows[i])
  {
    var r := Summarize(rows);
    var keys := GroupKeys(rows);
    SummaryKeys(rows);
    GroupKeysExact(rows);
    forall i | 0 <= i < |rows| ensures exists j :: 0 <= j < |r| && RowKey(r[j]) == KeyOf(rows[i]) {
      var j :| 0 <= j < |keys| && keys[j] == KeyOf(rows[i]);
      assert RowKey(r[j]) == KeyOf(rows[i]);
    }
  }

  lemma SummaryRowsFromRows(rows: seq<Registrant>)
    ensures forall j :: 0 <= j < |Summarize(rows)| ==>
              exists i :: 0 <= i < |rows| && KeyOf(rows[i]) == RowKey(Summarize(rows)[j])
  {
    var r := Summarize(rows);
    var keys := GroupKeys(rows);
    SummaryKeys(rows);
    GroupKeysExact(rows);
    forall j | 0 <= j < |r| ensures exists i :: 0 <= i < |rows| && KeyOf(rows[i]) == RowKey(r[j]) {
      assert keys[j] in keys;
    }
  }

  /**
   * One summary row per distinct (municipality, barangay) pair among the
   * registrants, none for any other pair, ascending and without repeats.
   */
  lemma SummaryRowsAreTheGroups(rows: seq<Registrant>)
    ensures var r := Summarize(rows);
            && |r| == |GroupKeys(rows)|
            && (forall i, j :: 0 <= i < j < |r| ==> KeyLess(RowKey(r[i]), RowKey(r[j])))
            && (forall i :: 0 <= i < |rows| ==> exists j :: 0 <= j < |r| && RowKey(r[j]) == KeyOf(rows[i]))
            && (forall j :: 0 <= j < |r| ==> exists i :: 0 <= i < |rows| && KeyOf(rows[i]) == RowKey(r[j]))
  {
    SummaryKeys(rows);
    SummarySorted(rows);
    SummaryCoversRows(rows);
    SummaryRowsFromRows(rows);
  }

  /** Distinct, ascending keys give each pair a single row. */
  lemma SummaryKeysUnique(rows: seq<Registrant>)
    ensures forall i, j :: 0 <= i < j < |Summarize(rows)| ==> RowKey(Summarize(rows)[i]) != RowKey(Summarize(rows)[j])
  {
    var keys := GroupKeys(rows);
    SummaryKeys(rows);
    forall i, j | 0 <= i < j < |Summarize(rows)|
      ensures RowKey(Summarize(rows)[i]) != RowKey(Summarize(rows)[j])
    {
      KeyLessFacts(keys[i], keys[j], keys[j]);
    }
  }

  lemma {:induction false} CountBound(g: seq<Registrant>, p: Registrant -> bool)
    ensures Count(g, p) <= |g|
  {
    if g != [] { CountBound(g[1..], p); }
  }

  /** Counts of mutually exclusive tests add up to at most the group size. */
  lemma {:induction false} ExclusiveCounts(g: seq<Registrant>, p: Registrant -> bool, q: Registrant -> bool, s: Registrant -> bool)
    requires forall x :: !(p(x) && q(x)) && !(p(x) && s(x)) && !(q(x) && s(x))
    ensures Count(g, p) + Count(g, q) + Count(g, s) <= |g|
  {
    if g != [] { ExclusiveCounts(g[1..], p, q, s); }
  }

  lemma {:induction false} AgenciesBound(g: seq<Registrant>)
    ensures |Agencies(g)| <= |g|
  {
    if g != [] { AgenciesBound(g[1..]); }
  }

  /**
   * No count in a summary row exceeds the size of its group; Male + Female
   * and Youth + Working Age + Senior do not either, and every group has a member.
   */
  lemma SummaryRowBounds(rows: seq<Registrant>, j: nat)
    requires j < |GroupKeys(rows)|
    ensures var k := RowKey(Summarize(rows)[j]);
            var s := Summarize(rows)[j];
            var n := |Members(rows, k)|;
            && 1 <= n
            && s.farmers <= n && s.farmworkers <= n && s.fisherfolk <= n
            && s.distinctAgencies <= n
            && s.male + s.female <= n
            && s.youth + s.workingAge + s.senior <= n
  {
    var keys := GroupKeys(rows);
    var k := keys[j];
    var g := Members(rows, k);
    SummaryRowIsGroup(rows, j);
    GroupKeysExact(rows);
    assert k in keys;
    var i :| 0 <= i < |rows| && KeyOf(rows[i]) == k;
    assert rows[i] in g;
    CountBound(g, (x: Registrant) => IsYes(x.farmer));
    CountBound(g, (x: Registrant) => IsYes(x.farmworker));
    CountBound(g, (x: Registrant) => IsYes(x.fisherfolk));
    AgenciesBound(g);
    forall x: Registrant ensures !(IsMale(x.gender) && IsFemale(x.gender)) {
      if x.gender.Text? { FlagExact(x.gender.text); }
    }
    ExclusiveCounts(g, (x: Registrant) => IsMale(x.gender), (x: Registrant) => IsFemale(x.gender), (x: Registrant) => false);
    forall x: Registrant ensures !(IsYouth(x.ageDays) && IsWorkingAge(x.ageDays)) { }
    ExclusiveCounts(g, (x: Registrant) => IsYouth(x.ageDays), (x: Registrant) => IsWorkingAge(x.ageDays), (x: Registrant) => IsSenior(x.ageDays));
  }

  /** A group holds every registrant of its pair, as many times as the table does, and nothing else. */
  lemma {:induction false} MembersMultiset(rows: seq<Registrant>, k: Key)
    ensures forall x :: multiset(Members(rows, k))[x] == if KeyOf(x) == k then multiset(rows)[x] else 0
  {
    if rows != [] {
      MembersMultiset(rows[1..], k);
      assert rows == [rows[0]] + rows[1..];
      assert multiset(rows) == multiset{rows[0]} + multiset(rows[1..]);
    }
  }

  /** How many rows of the whole table have pair `k` and pass `p`. */
  function CountIn(rows: seq<Registrant>, k: Key, p: Registrant -> bool): nat {
    if rows == [] then 0 else (if KeyOf(rows[0]) == k && p(rows[0]) then 1 else 0) + CountIn(rows[1..], k, p)
  }

  /** Counting within a group is counting the whole table's rows of that pair. */
  lemma {:induction false} CountMembers(rows: seq<Registrant>, k: Key, p: Registrant -> bool)
    ensures Count(Members(rows, k), p) == CountIn(rows, k, p)
  {
    if rows != [] {
      CountMembers(rows[1..], k, p);
      var head := if KeyOf(rows[0]) == k then [rows[0]] else [];
      CountAppend(head, Members(rows[1..], k), p);
    }
  }

  lemma {:induction false} CountAppend(a: seq<Registrant>, b: seq<Registrant>, p: Registrant -> bool)
    ensures Count(a + b, p) == Count(a, p) + Count(b, p)
  {
    if a != [] {
      assert (a + b)[0] == a[0] && (a + b)[1..] == a[1..] + b;
      CountAppend(a[1..], b, p);
    } else {
      assert a + b == b;
    }
  }

  /** The agencies of a group are those of the table's rows of that pair. */
  lemma AgenciesOfGroup(rows: seq<Registrant>, k: Key)
    ensures forall a :: a in Agencies(Members(rows, k)) <==>
              exists i :: 0 <= i < |rows| && KeyOf(rows[i]) == k && rows[i].agency == Text(a)
  {
    var g := Members(rows, k);
    forall a ensures a in Agencies(g) <==> exists i :: 0 <= i < |rows| && KeyOf(rows[i]) == k && rows[i].agency == Text(a) {
      if a in Agencies(g) {
        var j :| 0 <= j < |g| && g[j].agency == Text(a);
        assert g[j] in g;
        var i :| 0 <= i < |rows| && rows[i] == g[j];
      }
      if exists i :: 0 <= i < |rows| && KeyOf(rows[i]) == k && rows[i].agency == Text(a) {
        var i :| 0 <= i < |rows| && KeyOf(rows[i]) == k && rows[i].agency == Text(a);
        assert rows[i] in g;
        var j :| 0 <= j < |g| && g[j] == rows[i];
      }
    }
  }

  /**
   * Each column of summary row `j` counts, over the whole province table, the
   * registrants of that row's pair that pass the column's test; the agency
   * column counts the distinct agencies those registrants name.
   */
  lemma SummaryColumns(rows: seq<Registrant>, j: nat)
    requires j < |GroupKeys(rows)|
    ensures var k := GroupKeys(rows)[j];
            var s := Summarize(rows)[j];
            && RowKey(s) == k
            && s.farmers == CountIn(rows, k, (x: Registrant) => IsYes(x.farmer))
            && s.farmworkers == CountIn(rows, k, (x: Registrant) => IsYes(x.farmworker))
            && s.fisherfolk == CountIn(rows, k, (x: Registrant) => IsYes(x.fisherfolk))
            && s.male == CountIn(rows, k, (x: Registrant) => IsMale(x.gender))
            && s.female == CountIn(rows, k, (x: Registrant) => IsFemale(x.gender))
            && s.youth == CountIn(rows, k, (x: Registrant) => IsYouth(x.ageDays))
            && s.workingAge == CountIn(rows, k, (x: Registrant) => IsWorkingAge(x.ageDays))
            && s.senior == CountIn(rows, k, (x: Registrant) => IsSenior(x.ageDays))
            && s.distinctAgencies == |Agencies(Members(rows, k))|
  {
    var k := GroupKeys(rows)[j];
    SummaryRowIsGroup(rows, j);
    CountMembers(rows, k, (x: Registrant) => IsYes(x.farmer));
    CountMembers(rows, k, (x: Registrant) => IsYes(x.farmworker));
    CountMembers(rows, k, (x: Registrant) => IsYes(x.fisherfolk));
    CountMembers(rows, k, (x: Registrant) => IsMale(x.gender));
    CountMembers(rows, k, (x: Registrant) => IsFemale(x.gender));
    CountMembers(rows, k, (x: Registrant) => IsYouth(x.ageDays));
    CountMembers(rows, k, (x: Registrant) => IsWorkingAge(x.ageDays));
    CountMembers(rows, k, (x: Registrant) => IsSenior(x.ageDays));
  }

  // ---------------------------------------------------------------------------
  // The report.

  datatype Report = Rejected(reason: ProvinceCheck) | Written(sheets: map<string, seq<SummaryRow>>)

  /**
   * `process_rsbsa_report` once the workbook is read: validate the sheet
   * names, then summarise every province sheet that has rows; an empty
   * sheet is skipped.
   */
  function RegionalReport(workbook: map<string, seq<Registrant>>): (r: Report)
    ensures r.Rejected? <==> workbook.Keys != Provinces
    ensures r.Rejected? ==> r.reason == CheckProvinces(workbook.Keys) && r.reason != Valid
    ensures r.Written? ==>
              (forall p :: p in r.sheets <==> p in Provinces && workbook[p] != [])
              && forall p :: p in r.sheets ==> r.sheets[p] == Summarize(workbook[p])
  {
    var check := CheckProvinces(workbook.Keys);
    if check != Valid then Rejected(check)
    else Written(map p | p in Provinces && workbook[p] != [] :: Summarize(workbook[p]))
  }
}
