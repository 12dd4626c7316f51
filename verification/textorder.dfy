/** The order in which the database sorts text columns: code point by code
    point, a proper prefix first (SQLite's BINARY collation over UTF-8 text
    orders strings exactly so). */
module TextOrder {

  /** `a` sorts strictly before `b`. */
  predicate Below(a: string, b: string)
    decreases |a|
  {
    if |a| == 0 then |b| > 0
    else if |b| == 0 then false
    else if a[0] != b[0] then a[0] < b[0]
    else Below(a[1..], b[1..])
  }

  lemma {:induction false} BelowIrreflexive(a: string)
    ensures !Below(a, a)
    decreases |a|
  {
    if |a| > 0 {
      BelowIrreflexive(a[1..]);
    }
  }

  lemma {:induction false} BelowTransitive(a: string, b: string, c: string)
    requires Below(a, b) && Below(b, c)
    ensures Below(a, c)
    decreases |a|
  {
    if |a| > 0 && a[0] == b[0] && b[0] == c[0] {
      BelowTransitive(a[1..], b[1..], c[1..]);
    }
  }

  lemma {:induction false} BelowTotal(a: string, b: string)
    ensures a == b || Below(a, b) || Below(b, a)
    decreases |a|
  {
    if |a| > 0 && |b| > 0 && a[0] == b[0] {
      BelowTotal(a[1..], b[1..]);
      if a[1..] == b[1..] {
        assert a == [a[0]] + a[1..] && b == [b[0]] + b[1..];
      }
    }
  }

  lemma BelowAsymmetric(a: string, b: string)
    requires Below(a, b)
    ensures !Below(b, a)
  {
    if Below(b, a) {
      BelowTransitive(a, b, a);
      BelowIrreflexive(a);
    }
  }

  /** Sorted ascending with no repeated name, as a listing of a UNIQUE
      column comes back. */
  ghost predicate StrictlyAscending(s: seq<string>)
  {
    forall i, j :: 0 <= i < j < |s| ==> Below(s[i], s[j])
  }

  /** Inserts a new name at its place in a sorted listing. */
  function InsertText(s: seq<string>, x: string): (r: seq<string>)
    requires StrictlyAscending(s) && x !in s
    ensures StrictlyAscending(r)
    ensures |r| == |s| + 1
    ensures forall y :: y in r <==> y in s || y == x
  {
    if s == [] then [x]
    else if Below(x, s[0]) then
      assert StrictlyAscending([x] + s) by {
        forall j | 0 < j < |s|
          ensures Below(x, s[j])
        {
          BelowTransitive(x, s[0], s[j]);
        }
      }
      [x] + s
    else
      var rest := InsertText(s[1..], x);
      assert StrictlyAscending([s[0]] + rest) by {
        BelowTotal(x, s[0]);
        forall j | 0 <= j < |rest|
          ensures Below(s[0], rest[j])
        {
          if rest[j] != x {
            assert rest[j] in s[1..];
          }
        }
      }
      assert forall y :: y in s <==> y == s[0] || y in s[1..];
      [s[0]] + rest
  }
}
