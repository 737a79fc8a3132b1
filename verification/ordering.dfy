/** The order that sort.Strings and strings.Compare use, and sorting by it.

    Go compares strings byte by byte, which for UTF-8 text is the order of the
    characters' code points.
 */
module Ordering {
  import opened Wrappers

  predicate Below(a: string, b: string) {
    if b == [] then false
    else if a == [] then true
    else a[0] < b[0] || (a[0] == b[0] && Below(a[1..], b[1..]))
  }

  /** The order of strings.Compare: at the first difference the smaller character, or the end, is below. */
  lemma {:induction false} BelowExact(a: string, b: string)
    ensures Below(a, b) <==>
              exists i: nat :: i <= |a| && i < |b| && a[..i] == b[..i] && (i == |a| || a[i] as int < b[i] as int)
  {
    if a != "" && b != "" && a[0] == b[0] {
      BelowExact(a[1..], b[1..]);
      if i: nat :| i <= |a[1..]| && i < |b[1..]| && a[1..][..i] == b[1..][..i] && (i == |a[1..]| || a[1..][i] as int < b[1..][i] as int) {
        assert a[..i + 1] == [a[0]] + a[1..][..i] && b[..i + 1] == [b[0]] + b[1..][..i];
        assert a[..i + 1] == b[..i + 1];
      }
      if i: nat :| i <= |a| && i < |b| && a[..i] == b[..i] && (i == |a| || a[i] as int < b[i] as int) {
        assert i > 0;
        assert a[1..][..i - 1] == a[..i][1..] && b[1..][..i - 1] == b[..i][1..];
        assert a[1..][..i - 1] == b[1..][..i - 1];
      }
    } else if b != "" {
      assert a[..0] == b[..0];
      if i: nat :| i <= |a| && i < |b| && a[..i] == b[..i] && (i == |a| || a[i] as int < b[i] as int) {
        SameFront(a, b, i);
      }
    }
  }

  lemma SameFront(a: string, b: string, i: nat)
    requires i <= |a| && i <= |b| && a[..i] == b[..i]
    ensures i > 0 ==> a[0] == b[0]
  {
    assert i > 0 ==> a[..i][0] == b[..i][0];
  }

  predicate AtMost(a: string, b: string) {
    a == b || Below(a, b)
  }

  lemma {:induction false} Transitive(a: string, b: string, c: string)
    requires Below(a, b) && Below(b, c)
    ensures Below(a, c)
  {
    if a != [] && a[0] == b[0] == c[0] {
      Transitive(a[1..], b[1..], c[1..]);
    }
  }

  lemma {:induction false} Trichotomy(a: string, b: string)
    ensures Below(a, b) || a == b || Below(b, a)
    ensures !(Below(a, b) && Below(b, a))
    ensures a == b ==> !Below(a, b)
  {
    if a != [] && b != [] {
      Trichotomy(a[1..], b[1..]);
      if a[0] == b[0] && a[1..] == b[1..] {
        assert a == [a[0]] + a[1..] && b == [b[0]] + b[1..];
      }
    }
  }

  lemma AtMostTransitive(a: string, b: string, c: string)
    requires AtMost(a, b) && AtMost(b, c)
    ensures AtMost(a, c)
  {
    if a != b && b != c {
      Transitive(a, b, c);
    }
  }

  // ----- Sorting by a string key -----

  ghost predicate Sorted(s: seq<string>) {
    forall i, j | 0 <= i < j < |s| :: AtMost(s[i], s[j])
  }

  ghost predicate StrictlySorted(s: seq<string>) {
    forall i, j | 0 <= i < j < |s| :: Below(s[i], s[j])
  }

  /** sort.Strings, as the insertion of each element into the sorted rest. */
  function Insert(x: string, s: seq<string>): seq<string> {
    if s == [] then [x]
    else if AtMost(x, s[0]) then [x] + s
    else [s[0]] + Insert(x, s[1..])
  }

  function Sort(s: seq<string>): seq<string> {
    if s == [] then [] else Insert(s[0], Sort(s[1..]))
  }

  lemma {:induction false} InsertCounts(x: string, s: seq<string>, y: string)
    ensures multiset(Insert(x, s))[y] == multiset(s)[y] + if x == y then 1 else 0
  {
    if s != [] && !AtMost(x, s[0]) {
      InsertCounts(x, s[1..], y);
      assert s == [s[0]] + s[1..];
    }
  }

  lemma {:induction false} SortCounts(s: seq<string>, y: string)
    ensures multiset(Sort(s))[y] == multiset(s)[y]
  {
    if s != [] {
      SortCounts(s[1..], y);
      InsertCounts(s[0], Sort(s[1..]), y);
      assert s == [s[0]] + s[1..];
    }
  }

  lemma SortElements(s: seq<string>, y: string)
    ensures y in Sort(s) <==> y in s
  {
    SortCounts(s, y);
    assert y in multiset(Sort(s)) <==> y in multiset(s);
  }

  lemma SortPermutes(s: seq<string>)
    ensures multiset(Sort(s)) == multiset(s)
  {
    forall y
      ensures multiset(Sort(s))[y] == multiset(s)[y]
    {
      SortCounts(s, y);
    }
  }

  lemma {:induction false} InsertSorted(x: string, s: seq<string>)
    requires Sorted(s)
    ensures Sorted(Insert(x, s))
  {
    if s != [] {
      if AtMost(x, s[0]) {
        forall j | 0 <= j < |s|
          ensures AtMost(x, s[j])
        {
          AtMostTransitive(x, s[0], s[j]);
        }
      } else {
        Trichotomy(x, s[0]);
        InsertSorted(x, s[1..]);
        var r := Insert(x, s[1..]);
        forall j | 0 <= j < |r|
          ensures AtMost(s[0], r[j])
        {
          InsertElement(x, s[1..], r[j]);
        }
        SortedFront(s[0], r);
      }
    }
  }

  lemma InsertElement(x: string, s: seq<string>, y: string)
    ensures y in Insert(x, s) <==> y == x || y in s
  {
    InsertCounts(x, s, y);
    assert y in multiset(Insert(x, s)) <==> y in Insert(x, s);
    assert y in multiset(s) <==> y in s;
  }

  lemma SortedFront(x: string, s: seq<string>)
    requires Sorted(s) && forall j | 0 <= j < |s| :: AtMost(x, s[j])
    ensures Sorted([x] + s)
  {
  }

  lemma {:induction false} SortSorted(s: seq<string>)
    ensures Sorted(Sort(s))
  {
    if s != [] {
      SortSorted(s[1..]);
      InsertSorted(s[0], Sort(s[1..]));
    }
  }

  /** A sorted list is determined by what it holds. */
  lemma {:induction false} SortedUnique(a: seq<string>, b: seq<string>)
    requires Sorted(a) && Sorted(b) && forall y :: multiset(a)[y] == multiset(b)[y]
    ensures a == b
  {
    if a == [] {
      SameLength(a, b);
    } else {
      FirstIsLeast(a, b);
      FirstIsLeast(b, a);
      Trichotomy(a[0], b[0]);
      assert a == [a[0]] + a[1..] && b == [b[0]] + b[1..];
      forall y
        ensures multiset(a[1..])[y] == multiset(b[1..])[y]
      {
        assert multiset(a)[y] == multiset(b)[y];
      }
      SortedUnique(a[1..], b[1..]);
    }
  }

  lemma SameLength(a: seq<string>, b: seq<string>)
    requires forall y :: multiset(a)[y] == multiset(b)[y]
    ensures |a| == |b|
  {
    assert multiset(a) == multiset(b);
    assert |multiset(a)| == |a| && |multiset(b)| == |b|;
  }

  lemma FirstIsLeast(a: seq<string>, b: seq<string>)
    requires Sorted(b) && a != [] && forall y :: multiset(a)[y] == multiset(b)[y]
    ensures b != [] && AtMost(b[0], a[0])
  {
    assert multiset(a)[a[0]] == multiset(b)[a[0]];
    assert a[0] in multiset(a);
    assert a[0] in multiset(b);
    var i :| 0 <= i < |b| && b[i] == a[0];
  }

  /** The listing of a set: every element once, in order. */
  ghost predicate Lists(s: seq<string>, all: set<string>) {
    StrictlySorted(s) && forall y :: y in s <==> y in all
  }

  lemma {:induction false} ListsUnique(a: seq<string>, b: seq<string>, all: set<string>)
    requires Lists(a, all) && Lists(b, all)
    ensures a == b
  {
    NonEmptyListing(a, all);
    NonEmptyListing(b, all);
    if a != [] {
      assert a[0] in a;
      assert b[0] in b;
      var i :| 0 <= i < |b| && b[i] == a[0];
      var j :| 0 <= j < |a| && a[j] == b[0];
      Trichotomy(a[0], b[0]);
      assert a[0] == b[0];
      RestLists(a, all);
      RestLists(b, all);
      ListsUnique(a[1..], b[1..], all - {a[0]});
      assert a == [a[0]] + a[1..] && b == [b[0]] + b[1..];
    }
  }

  lemma NonEmptyListing(s: seq<string>, all: set<string>)
    requires Lists(s, all)
    ensures s != [] <==> all != {}
  {
    if s != [] {
      assert s[0] in s;
    }
    if y :| y in all {
      assert y in s;
    }
  }

  lemma RestLists(a: seq<string>, all: set<string>)
    requires Lists(a, all) && a != []
    ensures Lists(a[1..], all - {a[0]})
  {
    forall y
      ensures y in a[1..] <==> y in all - {a[0]}
    {
      if y in a[1..] {
        var i :| 0 <= i < |a[1..]| && a[1..][i] == y;
        assert Below(a[0], a[i + 1]);
        Trichotomy(a[0], y);
        assert y in a;
      }
      if y in all - {a[0]} {
        assert y in a;
        assert a == [a[0]] + a[1..];
      }
    }
  }

  /** Sorting a list without repetitions lists its elements. */
  lemma SortLists(s: seq<string>, all: set<string>)
    requires forall y :: y in s <==> y in all
    requires forall i, j | 0 <= i < j < |s| :: s[i] != s[j]
    ensures Lists(Sort(s), all)
  {
    SortSorted(s);
    var r := Sort(s);
    forall y
      ensures y in r <==> y in all
    {
      SortElements(s, y);
    }
    forall i, j | 0 <= i < j < |r|
      ensures Below(r[i], r[j])
    {
      if r[i] == r[j] {
        SortCounts(s, r[i]);
        Repeated(r, i, j);
        Once(s, r[i]);
      }
    }
  }

  lemma Repeated(r: seq<string>, i: nat, j: nat)
    requires i < j < |r| && r[i] == r[j]
    ensures multiset(r)[r[i]] >= 2
  {
    assert r == r[..j] + r[j..];
    assert r[i] in r[..j] && r[j] in r[j..];
    assert multiset(r[..j])[r[i]] >= 1 && multiset(r[j..])[r[i]] >= 1;
  }

  lemma {:induction false} Once(s: seq<string>, y: string)
    requires forall i, j | 0 <= i < j < |s| :: s[i] != s[j]
    ensures multiset(s)[y] <= 1
  {
    if s != [] {
      var n := |s| - 1;
      Once(s[..n], y);
      assert s == s[..n] + [s[n]];
      if s[n] == y {
        assert y !in s[..n];
        assert multiset(s[..n])[y] == 0;
      }
    }
  }

  // ----- The canonical listing of a set, and records in the order of their names -----

  lemma {:induction false} ListingExists(all: set<string>)
    ensures exists r :: Lists(r, all)
  {
    if all == {} {
      assert Lists([], all);
    } else {
      var x :| x in all;
      ListingExists(all - {x});
      var r :| Lists(r, all - {x});
      var s := [x] + r;
      forall i, j | 0 <= i < j < |s|
        ensures s[i] != s[j]
      {
        if i == 0 {
          assert s[j] in r;
        } else {
          assert Below(r[i - 1], r[j - 1]);
          Trichotomy(r[i - 1], r[j - 1]);
        }
      }
      SortLists(s, all);
    }
  }

  ghost function Listing(all: set<string>): (r: seq<string>)
    ensures Lists(r, all)
  {
    ListingExists(all);
    var r :| Lists(r, all);
    r
  }

  /** The values of a map in the order of their keys. */
  ghost function InOrder<T>(m: map<string, T>): (r: seq<T>)
    ensures |r| == |Listing(m.Keys)|
    ensures forall i | 0 <= i < |r| :: Listing(m.Keys)[i] in m && r[i] == m[Listing(m.Keys)[i]]
  {
    var names := Listing(m.Keys);
    assert forall i | 0 <= i < |names| :: names[i] in names;
    seq(|names|, i requires 0 <= i < |names| => m[names[i]])
  }

  lemma InOrderElements<T>(m: map<string, T>, x: T)
    ensures x in InOrder(m) <==> exists k :: k in m && m[k] == x
  {
    var names := Listing(m.Keys);
    if k :| k in m && m[k] == x {
      assert k in names;
      var i :| 0 <= i < |names| && names[i] == k;
      assert InOrder(m)[i] == x;
    }
  }

  lemma InOrderEmpty<T>(m: map<string, T>)
    ensures InOrder(m) == [] <==> m == map[]
  {
    var names := Listing(m.Keys);
    NonEmptyListing(names, m.Keys);
    assert m.Keys == {} <==> m == map[];
  }

  /** sort.Slice by a name field. */
  function InsertBy<T>(name: T -> string, x: T, s: seq<T>): seq<T> {
    if s == [] then [x]
    else if AtMost(name(x), name(s[0])) then [x] + s
    else [s[0]] + InsertBy(name, x, s[1..])
  }

  function SortBy<T>(name: T -> string, s: seq<T>): seq<T> {
    if s == [] then [] else InsertBy(name, s[0], SortBy(name, s[1..]))
  }

  lemma {:induction false} InsertByNames<T>(name: T -> string, x: T, s: seq<T>)
    ensures Mapped(InsertBy(name, x, s), name) == Insert(name(x), Mapped(s, name))
    ensures forall y :: y in InsertBy(name, x, s) <==> y == x || y in s
  {
    if s != [] && !AtMost(name(x), name(s[0])) {
      InsertByNames(name, x, s[1..]);
      assert Mapped(s, name)[1..] == Mapped(s[1..], name);
      assert forall y :: y in s <==> y == s[0] || y in s[1..];
      assert Mapped(InsertBy(name, x, s), name) == [name(s[0])] + Mapped(InsertBy(name, x, s[1..]), name);
    }
  }

  lemma {:induction false} SortByNames<T>(name: T -> string, s: seq<T>)
    ensures Mapped(SortBy(name, s), name) == Sort(Mapped(s, name))
    ensures forall y :: y in SortBy(name, s) <==> y in s
  {
    if s != [] {
      SortByNames(name, s[1..]);
      InsertByNames(name, s[0], SortBy(name, s[1..]));
      assert Mapped(s, name)[1..] == Mapped(s[1..], name);
      assert forall y :: y in s <==> y == s[0] || y in s[1..];
    }
  }

  /** s holds the records of m, each once, in any order. */
  ghost predicate Holds<T(!new)>(s: seq<T>, name: T -> string, m: map<string, T>) {
    && (forall x | x in s :: name(x) in m && m[name(x)] == x)
    && (forall k | k in m :: m[k] in s && name(m[k]) == k)
    && (forall i, j | 0 <= i < j < |s| :: name(s[i]) != name(s[j]))
  }

  /** Sorting the records of a map by name gives one result, in whatever order they came. */
  lemma SortByInOrder<T(!new)>(s: seq<T>, name: T -> string, m: map<string, T>)
    requires Holds(s, name, m)
    ensures SortBy(name, s) == InOrder(m)
  {
    var ns, r := Mapped(s, name), SortBy(name, s);
    forall k
      ensures k in ns <==> k in m.Keys
    {
      if k in ns {
        var i :| 0 <= i < |ns| && ns[i] == k;
        assert s[i] in s;
      }
      if k in m {
        var i :| 0 <= i < |s| && s[i] == m[k];
        assert ns[i] == k;
      }
    }
    SortLists(ns, m.Keys);
    ListsUnique(Sort(ns), Listing(m.Keys), m.Keys);
    SortByNames(name, s);
    forall i | 0 <= i < |r|
      ensures r[i] == InOrder(m)[i]
    {
      assert r[i] in r;
      assert Mapped(r, name)[i] == name(r[i]);
    }
  }
}
