/** Attribute derivation of the voter dashboard: the race label looked up from
    the race code, the age in whole years and the age bracket, and the pass
    over the loaded table that adds these three columns to every row.

    Dates are already parsed into (year, month, day); the current date is a
    parameter instead of a read of the wall clock. */
module Derive {
  import opened Wrappers

  /** A calendar date as the three integers the age computation reads. */
  datatype Date = Date(year: int, month: int, day: int)

  /** Python's tuple comparison `(a.month, a.day) < (b.month, b.day)`. */
  predicate MonthDayBefore(a: Date, b: Date)
  {
    a.month < b.month || (a.month == b.month && a.day < b.day)
  }

  /** Chronological (lexicographic) order on dates, `a` on or before `b`. */
  predicate OnOrBefore(a: Date, b: Date)
  {
    a.year < b.year || (a.year == b.year && !MonthDayBefore(b, a))
  }

  /** The date `n` years after `born`, on the same month and day. */
  function Anniversary(born: Date, n: int): Date
  {
    Date(born.year + n, born.month, born.day)
  }

  /** Whole years elapsed between `born` and `today`: the year difference,
      less one when today's (month, day) comes before the birthday's. */
  function CalculateAge(born: Date, today: Date): (age: int)
    ensures !MonthDayBefore(today, born) ==> age == today.year - born.year
    ensures MonthDayBefore(today, born) ==> age == today.year - born.year - 1
    // the age is the number of birthdays that have come: the anniversary
    // `age` years on has been reached, the one after it has not
    ensures OnOrBefore(Anniversary(born, age), today)
    ensures !OnOrBefore(Anniversary(born, age + 1), today)
  {
    today.year - born.year - (if MonthDayBefore(today, born) then 1 else 0)
  }

  /** The age is the only number of years with the anniversary property. */
  lemma AgeIsUnique(born: Date, today: Date, n: int)
    requires OnOrBefore(Anniversary(born, n), today)
    requires !OnOrBefore(Anniversary(born, n + 1), today)
    ensures n == CalculateAge(born, today)
  {
  }

  /** A later birth date never gives a greater age. */
  lemma AgeAntitone(b1: Date, b2: Date, today: Date)
    requires OnOrBefore(b1, b2)
    ensures CalculateAge(b2, today) <= CalculateAge(b1, today)
  {
  }

  /** A birth date on or before today gives an age of at least zero. */
  lemma AgeNonNegative(born: Date, today: Date)
    requires OnOrBefore(born, today)
    ensures CalculateAge(born, today) >= 0
  {
  }

  /** The four bracket labels, youngest first. */
  const AgeRanges: seq<string> := ["18-28", "29-40", "41-55", "56+"]

  /** The lowest age of brackets 1, 2 and 3. */
  const Thresholds: seq<int> := [29, 41, 56]

  /** The position of a label in `AgeRanges`, or 4 for any other string. */
  function RangeIndex(name: string): (k: nat)
    ensures k <= 4
    ensures k < 4 ==> AgeRanges[k] == name
    ensures k == 4 ==> name !in AgeRanges
  {
    if name == "18-28" then 0
    else if name == "29-40" then 1
    else if name == "41-55" then 2
    else if name == "56+" then 3
    else 4
  }

  /** The if-chain of `categorize_age`: the first threshold the age is below picks
      the bracket, and every other age falls to the last one. */
  function CategorizeAge(age: int): (r: string)
    ensures r in AgeRanges
  {
    if age < 29 then "18-28"
    else if age < 41 then "29-40"
    else if age < 56 then "41-55"
    else "56+"
  }

  /** Bracket `k` holds exactly the ages from the threshold below it
      (inclusive) to the threshold above it (exclusive); brackets 0 and 3 are
      unbounded below and above. */
  lemma CategorizeAgeExact(age: int, k: nat)
    requires k < 4
    ensures CategorizeAge(age) == AgeRanges[k]
        <==> (k == 0 || Thresholds[k - 1] <= age) && (k == 3 || age < Thresholds[k])
  {
  }

  /** An older age never falls in a younger bracket. */
  lemma CategorizeAgeMonotone(a: int, b: int)
    requires a <= b
    ensures RangeIndex(CategorizeAge(a)) <= RangeIndex(CategorizeAge(b))
  {
  }

  /** The fixed race-code table. */
  const RaceMapping: map<int, string> := map[
    1 := "Other", 2 := "Other", 6 := "Other", 7 := "Other", 9 := "Other",
    3 := "African American", 4 := "Hispanic", 5 := "White"]

  /** `Series.map(race_mapping)`: the label of a code in the table, missing
      for every other code. */
  function RaceLabel(code: int): (r: Option<string>)
    ensures r.Some? <==> code in RaceMapping
    ensures r.Some? ==> r.value == RaceMapping[code]
  {
    if code in RaceMapping then Some(RaceMapping[code]) else None
  }

  /** Which codes give which label, read backwards from the table. */
  lemma RaceLabelPreimage(code: int)
    ensures RaceLabel(code) == Some("Other") <==> code in {1, 2, 6, 7, 9}
    ensures RaceLabel(code) == Some("African American") <==> code == 3
    ensures RaceLabel(code) == Some("Hispanic") <==> code == 4
    ensures RaceLabel(code) == Some("White") <==> code == 5
    ensures RaceLabel(code) == None <==> code !in {1, 2, 3, 4, 5, 6, 7, 9}
  {
  }

  /** One row of the loaded table, with its birth date parsed. */
  datatype RawVoter = RawVoter(status: string, raceCode: int, gender: string, party: string, birth: Date)

  /** One row after the derived columns are added; the race code column is
      replaced by its label. */
  datatype Voter = Voter(status: string, race: Option<string>, gender: string, party: string,
                         birth: Date, age: int, ageRange: string)

  /** The derived row for one loaded row. */
  function DeriveRow(r: RawVoter, today: Date): (v: Voter)
    ensures v.status == r.status && v.gender == r.gender && v.party == r.party && v.birth == r.birth
    ensures v.race == RaceLabel(r.raceCode)
    ensures v.age == CalculateAge(r.birth, today)
    ensures v.ageRange == CategorizeAge(v.age) && v.ageRange in AgeRanges
  {
    var age := CalculateAge(r.birth, today);
    Voter(r.status, RaceLabel(r.raceCode), r.gender, r.party, r.birth, age, CategorizeAge(age))
  }

  /** The whole table with its derived columns, row for row. */
  function DeriveTable(raw: seq<RawVoter>, today: Date): (rows: seq<Voter>)
    ensures |rows| == |raw|
    ensures forall i :: 0 <= i < |raw| ==> rows[i] == DeriveRow(raw[i], today)
  {
    if raw == [] then [] else [DeriveRow(raw[0], today)] + DeriveTable(raw[1..], today)
  }

  /** The column assignments of the dashboard: each row gets its race label,
      age and age bracket, and keeps its other columns and its position. */
  method Augment(raw: seq<RawVoter>, today: Date) returns (rows: seq<Voter>)
    ensures rows == DeriveTable(raw, today)
  {
    rows := [];
    var i := 0;
    while i < |raw|
      invariant 0 <= i <= |raw|
      invariant |rows| == i
      invariant forall j :: 0 <= j < i ==> rows[j] == DeriveRow(raw[j], today)
    {
      rows := rows + [DeriveRow(raw[i], today)];
      i := i + 1;
    }
  }
}
