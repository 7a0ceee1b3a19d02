/** The count behind the treemap: `groupby(['Race', 'Gender', 'Party']).size()`
    over the filtered rows, flattened with `reset_index`. One group per key
    that occurs, keys in ascending order; rows whose race label is missing
    have no key and are dropped by the grouping. */
module Treemap {
  import opened Wrappers
  import opened Derive
  import opened Filter
  import opened Order

  datatype GroupKey = GroupKey(race: string, gender: string, party: string)

  /** One row of the treemap data: a key and its `Count`. */
  datatype Group = Group(key: GroupKey, count: nat)

  /** The grouping key of a row, or none when its race label is missing. */
  function KeyOf(v: Voter): (k: Option<GroupKey>)
    ensures k.Some? <==> v.race.Some?
    ensures k.Some? ==> k.value.race == v.race.value && k.value.gender == v.gender && k.value.party == v.party
  {
    match v.race
    case None => None
    case Some(r) => Some(GroupKey(r, v.gender, v.party))
  }

  /** Ascending order of keys, race first, then gender, then party. */
  predicate KeyLess(a: GroupKey, b: GroupKey)
  {
    StrLess(a.race, b.race)
    || (a.race == b.race && (StrLess(a.gender, b.gender)
                             || (a.gender == b.gender && StrLess(a.party, b.party))))
  }

  lemma KeyLessIrreflexive(a: GroupKey)
    ensures !KeyLess(a, a)
  {
    StrLessIrreflexive(a.race);
    StrLessIrreflexive(a.gender);
    StrLessIrreflexive(a.party);
  }

  lemma KeyLessTransitive(a: GroupKey, b: GroupKey, c: GroupKey)
    requires KeyLess(a, b) && KeyLess(b, c)
    ensures KeyLess(a, c)
  {
    if StrLess(a.race, b.race) && StrLess(b.race, c.race) {
      StrLessTransitive(a.race, b.race, c.race);
    } else if a.race == b.race == c.race {
      if StrLess(a.gender, b.gender) && StrLess(b.gender, c.gender) {
        StrLessTransitive(a.gender, b.gender, c.gender);
      } else if a.gender == b.gender == c.gender {
        StrLessTransitive(a.party, b.party, c.party);
      }
    }
  }

  lemma KeyLessTotal(a: GroupKey, b: GroupKey)
    requires a != b
    ensures KeyLess(a, b) || KeyLess(b, a)
  {
    if a.race != b.race {
      StrLessTotal(a.race, b.race);
    } else if a.gender != b.gender {
      StrLessTotal(a.gender, b.gender);
    } else {
      StrLessTotal(a.party, b.party);
    }
  }

  /** Keys strictly ascending, so no key is emitted twice. */
  predicate Sorted(gs: seq<Group>)
  {
    forall i, j :: 0 <= i < j < |gs| ==> KeyLess(gs[i].key, gs[j].key)
  }

  /** No emitted group is empty. */
  predicate AllPositive(gs: seq<Group>)
  {
    forall i :: 0 <= i < |gs| ==> gs[i].count >= 1
  }

  /** The keys emitted. */
  function Keys(gs: seq<Group>): set<GroupKey>
  {
    set i | 0 <= i < |gs| :: gs[i].key
  }

  lemma KeysCons(g: Group, gs: seq<Group>)
    ensures Keys([g] + gs) == {g.key} + Keys(gs)
  {
    var s := [g] + gs;
    forall k | k in Keys(s) ensures k in {g.key} + Keys(gs) {
      var i :| 0 <= i < |s| && s[i].key == k;
      if i > 0 { assert gs[i - 1] == s[i]; }
    }
    forall k | k in Keys(gs) ensures k in Keys(s) {
      var i :| 0 <= i < |gs| && gs[i].key == k;
      assert s[i + 1] == gs[i];
    }
    assert s[0] == g;
  }

  /** The count recorded for `k`, summed over every group with that key. */
  function CountOf(gs: seq<Group>, k: GroupKey): nat
  {
    if gs == [] then 0
    else (if gs[0].key == k then gs[0].count else 0) + CountOf(gs[1..], k)
  }

  /** The sum of the `Count` column. */
  function Total(gs: seq<Group>): nat
  {
    if gs == [] then 0 else gs[0].count + Total(gs[1..])
  }

  /** The number of rows with grouping key `k`. */
  function Occurrences(rows: seq<Voter>, k: GroupKey): nat
  {
    if rows == [] then 0
    else (if KeyOf(rows[0]) == Some(k) then 1 else 0) + Occurrences(rows[1..], k)
  }

  /** The number of rows that have a grouping key. */
  function Keyed(rows: seq<Voter>): (n: nat)
    ensures n <= |rows|
  {
    if rows == [] then 0
    else (if rows[0].race.Some? then 1 else 0) + Keyed(rows[1..])
  }

  /** Counts one more row with key `k`: the group with that key grows by one,
      or a new group of one is placed before the first greater key. */
  function Insert(gs: seq<Group>, k: GroupKey): seq<Group>
  {
    if gs == [] then [Group(k, 1)]
    else if gs[0].key == k then [Group(k, gs[0].count + 1)] + gs[1..]
    else if KeyLess(k, gs[0].key) then [Group(k, 1)] + gs
    else [gs[0]] + Insert(gs[1..], k)
  }

  lemma {:induction false} InsertKeys(gs: seq<Group>, k: GroupKey)
    ensures Keys(Insert(gs, k)) == Keys(gs) + {k}
  {
    if gs == [] {
      assert Insert(gs, k)[0].key == k;
    } else {
      KeysCons(gs[0], gs[1..]);
      if gs[0].key == k {
        KeysCons(Group(k, gs[0].count + 1), gs[1..]);
      } else if KeyLess(k, gs[0].key) {
        KeysCons(Group(k, 1), gs);
      } else {
        InsertKeys(gs[1..], k);
        KeysCons(gs[0], Insert(gs[1..], k));
      }
    }
  }

  /** Inserting keeps the keys strictly ascending. */
  lemma {:induction false} InsertSorted(gs: seq<Group>, k: GroupKey)
    requires Sorted(gs)
    ensures Sorted(Insert(gs, k))
  {
    if gs != [] && gs[0].key != k {
      if KeyLess(k, gs[0].key) {
        forall j | 0 <= j < |gs| ensures KeyLess(k, gs[j].key) {
          if j > 0 { KeyLessTransitive(k, gs[0].key, gs[j].key); }
        }
      } else {
        var rest := Insert(gs[1..], k);
        InsertSorted(gs[1..], k);
        KeyLessTotal(k, gs[0].key);
        InsertKeys(gs[1..], k);
        KeysCons(gs[0], gs[1..]);
        forall j | 0 <= j < |rest| ensures KeyLess(gs[0].key, rest[j].key) {
          assert rest[j].key in Keys(rest);
          if rest[j].key != k {
            var i :| 0 <= i < |gs[1..]| && gs[1..][i].key == rest[j].key;
            assert gs[i + 1] == gs[1..][i];
          }
        }
      }
    }
  }

  /** Inserting adds one to the count of `k` and leaves every other count. */
  lemma {:induction false} InsertCount(gs: seq<Group>, k: GroupKey, k': GroupKey)
    ensures CountOf(Insert(gs, k), k') == CountOf(gs, k') + (if k' == k then 1 else 0)
  {
    if gs == [] {
      assert Insert(gs, k)[1..] == [];
    } else if gs[0].key == k {
      assert Insert(gs, k)[1..] == gs[1..];
    } else if KeyLess(k, gs[0].key) {
      assert Insert(gs, k)[1..] == gs;
    } else {
      InsertCount(gs[1..], k, k');
      assert Insert(gs, k)[1..] == Insert(gs[1..], k);
    }
  }

  /** Inserting adds one to the total. */
  lemma {:induction false} InsertTotal(gs: seq<Group>, k: GroupKey)
    ensures Total(Insert(gs, k)) == Total(gs) + 1
  {
    if gs == [] {
      assert Insert(gs, k)[1..] == [];
    } else if gs[0].key == k {
      assert Insert(gs, k)[1..] == gs[1..];
    } else if KeyLess(k, gs[0].key) {
      assert Insert(gs, k)[1..] == gs;
    } else {
      InsertTotal(gs[1..], k);
      assert Insert(gs, k)[1..] == Insert(gs[1..], k);
    }
  }

  /** Inserting never makes an empty group. */
  lemma {:induction false} InsertPositive(gs: seq<Group>, k: GroupKey)
    requires AllPositive(gs)
    ensures AllPositive(Insert(gs, k))
  {
    if gs != [] && gs[0].key != k && !KeyLess(k, gs[0].key) {
      InsertPositive(gs[1..], k);
    }
  }

  /** The treemap data for a table of (already filtered) rows. */
  function CountTree(rows: seq<Voter>): (gs: seq<Group>)
    ensures Sorted(gs)
    ensures AllPositive(gs)
    ensures forall k :: CountOf(gs, k) == Occurrences(rows, k)
    ensures Total(gs) == Keyed(rows)
  {
    if rows == [] then []
    else
      var rest := CountTree(rows[1..]);
      match KeyOf(rows[0])
      case None => rest
      case Some(k) =>
        InsertSorted(rest, k);
        InsertTotal(rest, k);
        InsertPositive(rest, k);
        assert forall k' :: CountOf(Insert(rest, k), k') == Occurrences(rows, k') by {
          forall k' { InsertCount(rest, k, k'); }
        }
        Insert(rest, k)
  }

  /** In a sorted table the group with key `k` holds the whole count for `k`. */
  lemma {:induction false} CountOfSorted(gs: seq<Group>, i: nat)
    requires Sorted(gs) && i < |gs|
    ensures CountOf(gs, gs[i].key) == gs[i].count
  {
    if i == 0 {
      NotInTail(gs[1..], gs[0].key);
    } else {
      KeyLessIrreflexive(gs[i].key);
      CountOfSorted(gs[1..], i - 1);
    }
  }

  /** A key below every key of a sorted table has no count in it. */
  lemma {:induction false} NotInTail(gs: seq<Group>, k: GroupKey)
    requires forall j :: 0 <= j < |gs| ==> KeyLess(k, gs[j].key)
    ensures CountOf(gs, k) == 0
  {
    if gs != [] {
      KeyLessIrreflexive(k);
      NotInTail(gs[1..], k);
    }
  }

  /** Every emitted count is the number of rows with that key, at least one,
      so every emitted key occurs among the rows. */
  lemma CountTreeGroups(rows: seq<Voter>, i: nat)
    requires i < |CountTree(rows)|
    ensures CountTree(rows)[i].count == Occurrences(rows, CountTree(rows)[i].key) >= 1
    ensures exists j :: 0 <= j < |rows| && KeyOf(rows[j]) == Some(CountTree(rows)[i].key)
  {
    var gs := CountTree(rows);
    CountOfSorted(gs, i);
    OccurrenceWitness(rows, gs[i].key);
  }

  lemma {:induction false} OccurrenceWitness(rows: seq<Voter>, k: GroupKey)
    requires Occurrences(rows, k) > 0
    ensures exists j :: 0 <= j < |rows| && KeyOf(rows[j]) == Some(k)
  {
    if KeyOf(rows[0]) != Some(k) {
      OccurrenceWitness(rows[1..], k);
      var j :| 0 <= j < |rows[1..]| && KeyOf(rows[1..][j]) == Some(k);
      assert KeyOf(rows[j + 1]) == Some(k);
    }
  }

  /** Every row that has a race label is counted under its own key. */
  lemma {:induction false} CountTreeCoversRows(rows: seq<Voter>, j: nat)
    requires j < |rows| && rows[j].race.Some?
    ensures KeyOf(rows[j]).value in Keys(CountTree(rows))
  {
    if rows[0].race.Some? {
      InsertKeys(CountTree(rows[1..]), KeyOf(rows[0]).value);
    }
    if j > 0 {
      CountTreeCoversRows(rows[1..], j - 1);
      assert rows[1..][j - 1] == rows[j];
    }
  }

  /** The treemap of the dashboard: derive, filter, group. */
  function TreemapData(raw: seq<RawVoter>, today: Date, c: Criteria): (gs: seq<Group>)
    ensures Sorted(gs) && AllPositive(gs)
    ensures forall k :: CountOf(gs, k) == Occurrences(FilterRows(DeriveTable(raw, today), c), k)
    ensures Total(gs) <= |raw|
  {
    CountTree(FilterRows(DeriveTable(raw, today), c))
  }

  /** With every race code in the table, the counts add up to the number of
      rows the filter keeps. */
  lemma {:induction false} TreemapTotal(raw: seq<RawVoter>, today: Date, c: Criteria)
    requires forall i :: 0 <= i < |raw| ==> raw[i].raceCode in RaceMapping
    ensures Total(TreemapData(raw, today, c)) == |FilterRows(DeriveTable(raw, today), c)|
  {
    var rows := DeriveTable(raw, today);
    var out := FilterRows(rows, c);
    forall i | 0 <= i < |out| ensures out[i].race.Some? {
      assert out[i] in out;
      var j :| 0 <= j < |rows| && rows[j] == out[i];
    }
    AllKeyed(out);
  }

  lemma {:induction false} AllKeyed(rows: seq<Voter>)
    requires forall i :: 0 <= i < |rows| ==> rows[i].race.Some?
    ensures Keyed(rows) == |rows|
  {
    if rows != [] {
      AllKeyed(rows[1..]);
    }
  }

  // A worked example: four voters, one of them inactive, on 15 June 2024.

  const ExampleRaw: seq<RawVoter> :=
    [RawVoter("ACT", 5, "M", "DEM", Date(1994, 6, 15)),
     RawVoter("ACT", 3, "F", "REP", Date(1974, 6, 15)),
     RawVoter("INACT", 1, "M", "DEM", Date(1964, 6, 15)),
     RawVoter("ACT", 4, "F", "IND", Date(2004, 6, 15))]

  const ExampleToday := Date(2024, 6, 15)

  /** Active voters, every race label, gender and bracket selected. */
  const ExampleCriteria :=
    Criteria("ACT", {Some("Other"), Some("African American"), Some("Hispanic"), Some("White")},
             {"M", "F"}, {"18-28", "29-40", "41-55", "56+"})

  const ExampleDerived: seq<Voter> :=
    [Voter("ACT", Some("White"), "M", "DEM", Date(1994, 6, 15), 30, "29-40"),
     Voter("ACT", Some("African American"), "F", "REP", Date(1974, 6, 15), 50, "41-55"),
     Voter("INACT", Some("Other"), "M", "DEM", Date(1964, 6, 15), 60, "56+"),
     Voter("ACT", Some("Hispanic"), "F", "IND", Date(2004, 6, 15), 20, "18-28")]

  lemma ExampleDerivation()
    ensures DeriveTable(ExampleRaw, ExampleToday) == ExampleDerived
  {
  }

  lemma ExampleFilter()
    ensures FilterRows(ExampleDerived, ExampleCriteria)
         == [ExampleDerived[0], ExampleDerived[1], ExampleDerived[3]]
  {
  }

  lemma ExampleCount()
    ensures CountTree([ExampleDerived[0], ExampleDerived[1], ExampleDerived[3]])
         == [Group(GroupKey("African American", "F", "REP"), 1),
             Group(GroupKey("Hispanic", "F", "IND"), 1),
             Group(GroupKey("White", "M", "DEM"), 1)]
  {
    var d := ExampleDerived;
    var aa := GroupKey("African American", "F", "REP");
    var hi := GroupKey("Hispanic", "F", "IND");
    var wh := GroupKey("White", "M", "DEM");
    assert KeyOf(d[0]) == Some(wh) && KeyOf(d[1]) == Some(aa) && KeyOf(d[3]) == Some(hi);
    assert CountTree([d[3]]) == [Group(hi, 1)];
    assert [d[1], d[3]][1..] == [d[3]];
    assert KeyLess(aa, hi);
    assert CountTree([d[1], d[3]]) == Insert([Group(hi, 1)], aa) == [Group(aa, 1), Group(hi, 1)];
    assert [d[0], d[1], d[3]][1..] == [d[1], d[3]];
    assert !KeyLess(wh, aa) && !KeyLess(wh, hi);
    assert Insert([Group(hi, 1)], wh) == [Group(hi, 1), Group(wh, 1)];
    assert Insert([Group(aa, 1), Group(hi, 1)], wh) == [Group(aa, 1), Group(hi, 1), Group(wh, 1)];
  }

  /** The active three give three leaves of one voter each, in ascending
      order of race label; the inactive voter is not counted. */
  lemma ActiveVotersExample()
    ensures TreemapData(ExampleRaw, ExampleToday, ExampleCriteria)
         == [Group(GroupKey("African American", "F", "REP"), 1),
             Group(GroupKey("Hispanic", "F", "IND"), 1),
             Group(GroupKey("White", "M", "DEM"), 1)]
  {
    ExampleDerivation();
    ExampleFilter();
    ExampleCount();
  }
}
