/** The row filter of the dashboard: a row is kept when its race label, its
    gender and its age bracket are among the selected ones and its status is
    the selected status. Rows keep their order. */
module Filter {
  import opened Wrappers
  import opened Derive

  /** The sidebar selections. The race options are the distinct values of the
      race column, so the missing label can be one of them. */
  datatype Criteria = Criteria(status: string, races: set<Option<string>>,
                               genders: set<string>, ageRanges: set<string>)

  /** The four predicates joined with `&`. */
  predicate Matches(v: Voter, c: Criteria)
  {
    v.race in c.races && v.gender in c.genders && v.ageRange in c.ageRanges && v.status == c.status
  }

  /** `sub` is `s` with some rows dropped and the rest in their order. */
  predicate IsSubsequence(sub: seq<Voter>, s: seq<Voter>)
    decreases |s|
  {
    if sub == [] then true
    else if s == [] then false
    else (sub[0] == s[0] && IsSubsequence(sub[1..], s[1..])) || IsSubsequence(sub, s[1..])
  }

  /** The boolean-mask selection `df[mask]`. */
  function FilterRows(rows: seq<Voter>, c: Criteria): (out: seq<Voter>)
    ensures |out| <= |rows|
    ensures forall v :: v in out <==> v in rows && Matches(v, c)
  {
    if rows == [] then []
    else if Matches(rows[0], c) then [rows[0]] + FilterRows(rows[1..], c)
    else FilterRows(rows[1..], c)
  }

  /** The kept rows are an order-preserving subsequence of the input. */
  lemma {:induction false} FilterIsSubsequence(rows: seq<Voter>, c: Criteria)
    ensures IsSubsequence(FilterRows(rows, c), rows)
  {
    if rows != [] {
      FilterIsSubsequence(rows[1..], c);
      var rest := FilterRows(rows[1..], c);
      if !Matches(rows[0], c) && rest != [] {
        assert FilterRows(rows, c) == rest;
      }
    }
  }

  /** Filtering a concatenation filters each part: the order of the kept rows
      is the order of the input. */
  lemma {:induction false} FilterAppend(a: seq<Voter>, b: seq<Voter>, c: Criteria)
    ensures FilterRows(a + b, c) == FilterRows(a, c) + FilterRows(b, c)
  {
    if a == [] {
      assert a + b == b;
    } else {
      assert (a + b)[0] == a[0];
      assert (a + b)[1..] == a[1..] + b;
      FilterAppend(a[1..], b, c);
    }
  }

  /** Every row is kept as often as it occurs among the matching rows, and a
      non-matching row not at all. */
  lemma {:induction false} FilterMultiplicity(rows: seq<Voter>, c: Criteria, v: Voter)
    ensures multiset(FilterRows(rows, c))[v] == if Matches(v, c) then multiset(rows)[v] else 0
  {
    if rows != [] {
      FilterMultiplicity(rows[1..], c, v);
      assert rows == [rows[0]] + rows[1..];
    }
  }

  /** Filtering twice with the same selections changes nothing. */
  lemma {:induction false} FilterIdempotent(rows: seq<Voter>, c: Criteria)
    ensures FilterRows(FilterRows(rows, c), c) == FilterRows(rows, c)
  {
    if rows != [] {
      FilterIdempotent(rows[1..], c);
    }
  }

  /** The result is empty exactly when no row satisfies all four predicates. */
  lemma FilterEmptyIff(rows: seq<Voter>, c: Criteria)
    ensures FilterRows(rows, c) == [] <==> forall i :: 0 <= i < |rows| ==> !Matches(rows[i], c)
  {
  }

  /** An empty race, gender or age-bracket selection keeps no row. */
  lemma EmptySelectionKeepsNothing(rows: seq<Voter>, c: Criteria)
    requires c.races == {} || c.genders == {} || c.ageRanges == {}
    ensures FilterRows(rows, c) == []
  {
  }
}
