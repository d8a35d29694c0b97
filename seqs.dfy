/** Generic queries over a table kept as a sequence of rows. */
module Seqs {
  import opened Types

  /** The rows satisfying `f`, in table order (a findMany with a where clause). */
  function Filter<T(!new)>(s: seq<T>, f: T -> bool): (r: seq<T>)
    ensures |r| <= |s|
    ensures forall x :: x in r <==> x in s && f(x)
  {
    if s == [] then []
    else if f(s[0]) then [s[0]] + Filter(s[1..], f)
    else Filter(s[1..], f)
  }

  /** Filtering keeps each row satisfying `f` exactly as often as the table has it, and no other. */
  lemma {:induction false} FilterCount<T(!new)>(s: seq<T>, f: T -> bool)
    ensures forall x :: multiset(Filter(s, f))[x] == if f(x) then multiset(s)[x] else 0
  {
    if s != [] {
      FilterCount(s[1..], f);
      assert s == [s[0]] + s[1..];
    }
  }

  /** Index of the first row satisfying `f` (a findFirst); None when there is none. */
  function FindFirst<T>(s: seq<T>, f: T -> bool): (r: Option<nat>)
    ensures r.Some? ==> r.value < |s| && f(s[r.value]) && forall j :: 0 <= j < r.value ==> !f(s[j])
    ensures r.None? ==> forall j :: 0 <= j < |s| ==> !f(s[j])
  {
    if s == [] then None
    else if f(s[0]) then Some(0)
    else match FindFirst(s[1..], f)
      case None => None
      case Some(k) => Some(k + 1)
  }

  /** Two searches with the same outcome on every row agree. */
  lemma FindFirstSame<T, U>(s: seq<T>, f: T -> bool, t: seq<U>, g: U -> bool)
    requires |s| == |t|
    requires forall j :: 0 <= j < |s| ==> f(s[j]) == g(t[j])
    ensures FindFirst(s, f) == FindFirst(t, g)
  {
    var a, b := FindFirst(s, f), FindFirst(t, g);
    if a.Some? && b.Some? {
      assert !(a.value < b.value) && !(b.value < a.value);
    }
  }

  /** Appending a row changes a search only when no earlier row matched. */
  lemma FindFirstAppend<T>(s: seq<T>, x: T, f: T -> bool)
    ensures FindFirst(s + [x], f) ==
            match FindFirst(s, f)
            case Some(i) => Some(i)
            case None => if f(x) then Some(|s|) else None
  {
    var t := s + [x];
    forall j | 0 <= j < |s| ensures t[j] == s[j] {}
    assert t[|s|] == x;
    var a, b := FindFirst(t, f), FindFirst(s, f);
    if a.Some? && b.Some? {
      assert !(a.value < b.value) && !(b.value < a.value);
    }
  }

  /** Every ordered pair of distinct positions satisfies `P`. */
  ghost predicate Pairwise<T>(s: seq<T>, P: (T, T) -> bool) {
    forall i, j :: 0 <= i < j < |s| ==> P(s[i], s[j])
  }

  /** Filtering keeps a subsequence, so it keeps every pairwise property. */
  lemma {:induction false} FilterPairwise<T(!new)>(s: seq<T>, f: T -> bool, P: (T, T) -> bool)
    requires Pairwise(s, P)
    ensures Pairwise(Filter(s, f), P)
  {
    if s != [] {
      assert Pairwise(s[1..], P) by {
        forall i, j | 0 <= i < j < |s[1..]| ensures P(s[1..][i], s[1..][j]) {
          assert s[1..][i] == s[i + 1] && s[1..][j] == s[j + 1];
        }
      }
      FilterPairwise(s[1..], f, P);
      if f(s[0]) {
        var r := Filter(s, f);
        var t := Filter(s[1..], f);
        assert r == [s[0]] + t;
        forall i, j | 0 <= i < j < |r| ensures P(r[i], r[j]) {
          if i == 0 {
            assert r[j] == t[j - 1];
            assert t[j - 1] in s[1..];
            var k :| 0 <= k < |s[1..]| && s[1..][k] == t[j - 1];
            assert s[k + 1] == r[j];
          } else {
            assert r[i] == t[i - 1] && r[j] == t[j - 1];
          }
        }
      }
    }
  }

  /** Nothing passes a filter no row satisfies. */
  lemma {:induction false} FilterEmpty<T(!new)>(s: seq<T>, f: T -> bool)
    requires forall x :: x in s ==> !f(x)
    ensures Filter(s, f) == []
  {
    if s != [] {
      assert s[0] in s;
      FilterEmpty(s[1..], f);
    }
  }

  /** A filter every row satisfies keeps the whole table. */
  lemma {:induction false} FilterAll<T(!new)>(s: seq<T>, f: T -> bool)
    requires forall x :: x in s ==> f(x)
    ensures Filter(s, f) == s
  {
    if s != [] {
      assert s[0] in s;
      FilterAll(s[1..], f);
      assert s == [s[0]] + s[1..];
    }
  }

  /** Two filters that agree on every row of the table select the same rows. */
  lemma {:induction false} FilterSame<T(!new)>(s: seq<T>, f: T -> bool, g: T -> bool)
    requires forall x :: x in s ==> f(x) == g(x)
    ensures Filter(s, f) == Filter(s, g)
  {
    if s != [] {
      assert s[0] in s;
      FilterSame(s[1..], f, g);
    }
  }

  /** Filtering twice is filtering once by the conjunction. */
  lemma {:induction false} FilterFilter<T(!new)>(s: seq<T>, f: T -> bool, g: T -> bool, h: T -> bool)
    requires forall x :: h(x) == (f(x) && g(x))
    ensures Filter(Filter(s, f), g) == Filter(s, h)
  {
    if s != [] {
      FilterFilter(s[1..], f, g, h);
      if f(s[0]) {
        assert Filter(s, f) == [s[0]] + Filter(s[1..], f);
        assert Filter(s, f)[1..] == Filter(s[1..], f);
      }
    }
  }
}
