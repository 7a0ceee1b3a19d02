/** Python's ordering of strings, used where the group count sorts its keys:
    the first differing character decides by code point, and a proper prefix
    comes first. */
module Order {

  predicate StrLess(a: string, b: string)
    decreases |a|
  {
    if a == [] then b != []
    else if b == [] then false
    else a[0] < b[0] || (a[0] == b[0] && StrLess(a[1..], b[1..]))
  }

  lemma {:induction false} StrLessIrreflexive(a: string)
    ensures !StrLess(a, a)
  {
    if a != [] {
      StrLessIrreflexive(a[1..]);
    }
  }

  lemma {:induction false} StrLessTransitive(a: string, b: string, c: string)
    requires StrLess(a, b) && StrLess(b, c)
    ensures StrLess(a, c)
  {
    if a != [] && a[0] == b[0] && b[0] == c[0] {
      StrLessTransitive(a[1..], b[1..], c[1..]);
    }
  }

  /** Two different strings are always ordered one way or the other. */
  lemma {:induction false} StrLessTotal(a: string, b: string)
    requires a != b
    ensures StrLess(a, b) || StrLess(b, a)
  {
    if a != [] && b != [] && a[0] == b[0] {
      assert a == [a[0]] + a[1..] && b == [b[0]] + b[1..];
      StrLessTotal(a[1..], b[1..]);
    }
  }

  /** `a` and `b` agree on their first `i` characters, and there `a` either
      ends while `b` goes on, or has the smaller character. */
  predicate LessAt(a: string, b: string, i: nat)
  {
    i <= |a| && i <= |b| && a[..i] == b[..i]
    && ((i == |a| && i < |b|) || (i < |a| && i < |b| && a[i] < b[i]))
  }

  /** The recursive comparison is the usual lexicographic order: `a < b`
      exactly when there is a position where `a` first falls below `b`. */
  lemma {:induction false} StrLessIff(a: string, b: string)
    ensures StrLess(a, b) <==> exists i: nat :: LessAt(a, b, i)
  {
    if StrLess(a, b) {
      if a == [] || a[0] < b[0] {
        assert LessAt(a, b, 0);
      } else {
        StrLessIff(a[1..], b[1..]);
        var i: nat :| LessAt(a[1..], b[1..], i);
        assert a[..i + 1] == [a[0]] + a[1..][..i];
        assert b[..i + 1] == [b[0]] + b[1..][..i];
        assert LessAt(a, b, i + 1);
      }
    }
    if exists i: nat :: LessAt(a, b, i) {
      var i: nat :| LessAt(a, b, i);
      if i > 0 {
        assert a[0] == a[..i][0] == b[..i][0] == b[0];
        assert a[1..][..i - 1] == a[..i][1..] && b[1..][..i - 1] == b[..i][1..];
        assert LessAt(a[1..], b[1..], i - 1);
        StrLessIff(a[1..], b[1..]);
      }
    }
  }
}
