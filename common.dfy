/** Shared vocabulary of the bus-tracking model: optional values, identifiers,
    millisecond timestamps, order-preserving filters and the ordering that
    `.order("unit_number", { ascending: true })` applies to query results. */
module Common {

  datatype Option<+T> = None | Some(value: T)

  /** Row and user identifiers are UUID strings, hence never empty: the
      JavaScript truthiness test on an id (`bus.driver_id ? … : …`,
      `busInfo?.id || null`) is the same as asking whether it is present. */
  type Id = s: string | |s| > 0 witness "0"

  /** Instants are integer milliseconds since the epoch (`Date.getTime()`). */
  type Timestamp = int

  /** `s.startsWith(prefix)` */
  predicate StartsWith(s: string, prefix: string)
  {
    |prefix| <= |s| && s[..|prefix|] == prefix
  }

  /** `s.filter(p)`: keeps exactly the elements satisfying `p`, in order. */
  function Filter<T(!new)>(s: seq<T>, p: T -> bool): (r: seq<T>)
    ensures |r| <= |s|
    ensures forall x :: x in r <==> x in s && p(x)
  {
    if s == [] then []
    else
      assert s == [s[0]] + s[1..];
      (if p(s[0]) then [s[0]] else []) + Filter(s[1..], p)
  }

  /** Filtering commutes with concatenation, so it never reorders elements. */
  lemma {:induction false} FilterConcat<T(!new)>(a: seq<T>, b: seq<T>, p: T -> bool)
    ensures Filter(a + b, p) == Filter(a, p) + Filter(b, p)
  {
    if a == [] {
      assert a + b == b;
    } else {
      assert (a + b)[0] == a[0];
      assert (a + b)[1..] == a[1..] + b;
      FilterConcat(a[1..], b, p);
    }
  }

  /** A filter and the filter on the negated predicate split the input:
      together they hold every element exactly as often as the input does. */
  lemma {:induction false} FilterSplit<T(!new)>(s: seq<T>, p: T -> bool, q: T -> bool)
    requires forall x :: q(x) == !p(x)
    ensures multiset(Filter(s, p)) + multiset(Filter(s, q)) == multiset(s)
  {
    if s != [] {
      var x, rest := s[0], s[1..];
      assert s == [x] + rest;
      FilterSplit(rest, p, q);
      FilterConcat([x], rest, p);
      FilterConcat([x], rest, q);
      assert multiset(Filter([x], p)) + multiset(Filter([x], q)) == multiset{x} by {
        if p(x) {
          assert Filter([x], p) == [x] && Filter([x], q) == [];
        } else {
          assert Filter([x], p) == [] && Filter([x], q) == [x];
        }
      }
    }
  }

  /** A filter every element passes changes nothing. */
  lemma {:induction false} FilterKeepsAll<T(!new)>(s: seq<T>, p: T -> bool)
    requires forall i :: 0 <= i < |s| ==> p(s[i])
    ensures Filter(s, p) == s
  {
    if s != [] {
      FilterKeepsAll(s[1..], p);
    }
  }

  /** A filter that only one element fails removes just that element. */
  lemma FilterDropsOne<T(!new)>(a: seq<T>, x: T, c: seq<T>, p: T -> bool)
    requires forall i :: 0 <= i < |a| ==> p(a[i])
    requires forall i :: 0 <= i < |c| ==> p(c[i])
    requires !p(x)
    ensures Filter(a + [x] + c, p) == a + c
  {
    FilterConcat(a + [x], c, p);
    FilterConcat(a, [x], p);
    FilterKeepsAll(a, p);
    FilterKeepsAll(c, p);
    assert Filter([x], p) == [] by {
      assert [x][1..] == [];
    }
    assert Filter(a, p) + Filter([x], p) == a;
    calc {
      Filter(a + [x] + c, p);
      Filter(a + [x], p) + Filter(c, p);
      a + c;
    }
  }

  /** Two filters may be applied in either order. */
  lemma {:induction false} FilterCommutes<T(!new)>(s: seq<T>, p: T -> bool, q: T -> bool)
    ensures Filter(Filter(s, p), q) == Filter(Filter(s, q), p)
  {
    if s != [] {
      FilterCommutes(s[1..], p, q);
      FilterConcat([s[0]], s[1..], p);
      FilterConcat([s[0]], s[1..], q);
      FilterConcat(Filter([s[0]], p), Filter(s[1..], p), q);
      FilterConcat(Filter([s[0]], q), Filter(s[1..], q), p);
    }
  }

  /** Lexicographic order on code points (the C collation). */
  predicate StrLeq(a: string, b: string)
  {
    |a| == 0 || (|b| > 0 && (a[0] < b[0] || (a[0] == b[0] && StrLeq(a[1..], b[1..]))))
  }

  lemma {:induction false} StrLeqTotal(a: string, b: string)
    ensures StrLeq(a, b) || StrLeq(b, a)
  {
    if |a| > 0 && |b| > 0 && a[0] == b[0] {
      StrLeqTotal(a[1..], b[1..]);
    }
  }

  /** Every adjacent pair is in order of `key`. */
  predicate SortedBy<T>(s: seq<T>, key: T -> string)
  {
    forall i :: 0 <= i < |s| - 1 ==> StrLeq(key(s[i]), key(s[i + 1]))
  }

  function InsertBy<T>(x: T, s: seq<T>, key: T -> string): (r: seq<T>)
    requires SortedBy(s, key)
    ensures SortedBy(r, key)
    ensures multiset(r) == multiset(s) + multiset{x}
    ensures r[0] == x || (s != [] && r[0] == s[0])
  {
    if s == [] then [x]
    else if StrLeq(key(x), key(s[0])) then [x] + s
    else
      StrLeqTotal(key(x), key(s[0]));
      assert s == [s[0]] + s[1..];
      [s[0]] + InsertBy(x, s[1..], key)
  }

  /** The rows of a query with `.order(column, { ascending: true })`:
      a sorted permutation of the unordered result. */
  function SortBy<T>(s: seq<T>, key: T -> string): (r: seq<T>)
    ensures SortedBy(r, key)
    ensures multiset(r) == multiset(s)
  {
    if s == [] then []
    else
      assert s == [s[0]] + s[1..];
      InsertBy(s[0], SortBy(s[1..], key), key)
  }
}
