/**
  Sorting lists of routes the way Python sorts a list of lists of strings: lexicographically, down to
  the characters.
 */
module RouteOrder {
  ghost predicate TotalOrder<T(!new)>(le: (T, T) -> bool) {
    && (forall a, b :: le(a, b) || le(b, a))
    && (forall a, b :: le(a, b) && le(b, a) ==> a == b)
    && (forall a, b, c :: le(a, b) && le(b, c) ==> le(a, c))
  }

  predicate Lex<T(==)>(le: (T, T) -> bool, a: seq<T>, b: seq<T>) {
    if a == [] then true
    else if b == [] then false
    else if a[0] == b[0] then Lex(le, a[1..], b[1..])
    else le(a[0], b[0])
  }

  lemma {:induction false} LexTotal<T(!new)>(le: (T, T) -> bool, a: seq<T>, b: seq<T>)
    requires TotalOrder(le)
    ensures Lex(le, a, b) || Lex(le, b, a)
    ensures Lex(le, a, b) && Lex(le, b, a) ==> a == b
  {
    if a != [] && b != [] && a[0] == b[0] {
      LexTotal(le, a[1..], b[1..]);
      assert a == [a[0]] + a[1..] && b == [b[0]] + b[1..];
    }
  }

  lemma {:induction false} LexTransitive<T(!new)>(le: (T, T) -> bool, a: seq<T>, b: seq<T>, c: seq<T>)
    requires TotalOrder(le) && Lex(le, a, b) && Lex(le, b, c)
    ensures Lex(le, a, c)
  {
    if a != [] && a[0] == b[0] == c[0] {
      LexTransitive(le, a[1..], b[1..], c[1..]);
    }
  }

  // ---------- sorting by any total order ----------

  predicate SortedBy<T>(le: (T, T) -> bool, s: seq<T>) {
    forall i, j :: 0 <= i < j < |s| ==> le(s[i], s[j])
  }

  function Insert<T>(le: (T, T) -> bool, x: T, s: seq<T>): seq<T> {
    if s == [] || le(x, s[0]) then [x] + s else [s[0]] + Insert(le, x, s[1..])
  }

  function SortBy<T>(le: (T, T) -> bool, s: seq<T>): seq<T> {
    if s == [] then [] else Insert(le, s[0], SortBy(le, s[1..]))
  }

  lemma {:induction false} InsertPermutes<T>(le: (T, T) -> bool, x: T, s: seq<T>)
    ensures multiset(Insert(le, x, s)) == multiset(s) + multiset{x}
  {
    if s != [] {
      InsertPermutes(le, x, s[1..]);
      assert s == [s[0]] + s[1..];
    }
  }

  lemma {:induction false} InsertSorted<T(!new)>(le: (T, T) -> bool, x: T, s: seq<T>)
    requires TotalOrder(le) && SortedBy(le, s)
    ensures SortedBy(le, Insert(le, x, s))
  {
    if s != [] && !le(x, s[0]) {
      InsertSorted(le, x, s[1..]);
      InsertPermutes(le, x, s[1..]);
      var rest := Insert(le, x, s[1..]);
      forall y | y in rest ensures le(s[0], y) {
        assert y in multiset(rest);
      }
    }
  }

  lemma {:induction false} SortBySorts<T(!new)>(le: (T, T) -> bool, s: seq<T>)
    requires TotalOrder(le)
    ensures SortedBy(le, SortBy(le, s)) && multiset(SortBy(le, s)) == multiset(s)
  {
    if s != [] {
      SortBySorts(le, s[1..]);
      InsertSorted(le, s[0], SortBy(le, s[1..]));
      InsertPermutes(le, s[0], SortBy(le, s[1..]));
      assert s == [s[0]] + s[1..];
    }
  }

  // There is only one way to sort
  lemma {:induction false} SortedUnique<T(!new)>(le: (T, T) -> bool, a: seq<T>, b: seq<T>)
    requires TotalOrder(le) && SortedBy(le, a) && SortedBy(le, b) && multiset(a) == multiset(b)
    ensures a == b
  {
    SameLength(a, b);
    if a != [] {
      LeastFirst(le, a, b);
      LeastFirst(le, b, a);
      assert a[0] == b[0];
      RestOfMultiset(a);
      RestOfMultiset(b);
      SortedUnique(le, a[1..], b[1..]);
      assert a == [a[0]] + a[1..] && b == [b[0]] + b[1..];
    }
  }

  lemma SameLength<T>(a: seq<T>, b: seq<T>)
    requires multiset(a) == multiset(b)
    ensures |a| == |b|
  {
    assert |multiset(a)| == |a| && |multiset(b)| == |b|;
  }

  lemma LeastFirst<T(!new)>(le: (T, T) -> bool, a: seq<T>, b: seq<T>)
    requires TotalOrder(le) && SortedBy(le, a) && multiset(a) == multiset(b) && a != [] && b != []
    ensures le(a[0], b[0])
  {
    assert b[0] in multiset(b) && b[0] in a;
    var i :| 0 <= i < |a| && a[i] == b[0];
    assert le(a[0], a[0]);
  }

  lemma RestOfMultiset<T>(a: seq<T>)
    requires a != []
    ensures multiset(a[1..]) == multiset(a) - multiset{a[0]}
  {
    assert a == [a[0]] + a[1..];
  }

  // ---------- routes ----------

  type Route = seq<string>

  predicate CharLe(a: char, b: char) {
    a <= b
  }

  predicate StringLe(a: string, b: string) {
    Lex(CharLe, a, b)
  }

  predicate RouteLe(a: Route, b: Route) {
    Lex(StringLe, a, b)
  }

  // The first difference decides, and a list comes after all its beginnings
  predicate DiffersFirst<T(==)>(a: seq<T>, b: seq<T>, k: int) {
    0 <= k < |a| && k < |b| && a[..k] == b[..k] && a[k] != b[k]
  }

  lemma {:induction false} LexExact<T>(le: (T, T) -> bool, a: seq<T>, b: seq<T>)
    ensures Lex(le, a, b) <==> a <= b || exists k :: DiffersFirst(a, b, k) && le(a[k], b[k])
  {
    if a != [] && b != [] {
      if a[0] == b[0] {
        LexExact(le, a[1..], b[1..]);
        PrefixOfRest(a, b);
        forall k | 0 < k ensures DiffersFirst(a, b, k) <==> DiffersFirst(a[1..], b[1..], k - 1) {
          DiffersInRest(a, b, k);
        }
        if k :| DiffersFirst(a[1..], b[1..], k) && le(a[1..][k], b[1..][k]) {
          assert DiffersFirst(a, b, k + 1) && le(a[k + 1], b[k + 1]);
        }
      } else {
        assert DiffersFirst(a, b, 0);
        forall k | DiffersFirst(a, b, k) ensures k == 0 {
          if k > 0 {
            SameHead(a, b, k);
          }
        }
      }
    }
  }

  lemma SameHead<T>(a: seq<T>, b: seq<T>, k: nat)
    requires 0 < k <= |a| && k <= |b| && a[..k] == b[..k]
    ensures a[0] == b[0]
  {
    assert a[..k][0] == a[0] && b[..k][0] == b[0];
  }

  lemma PrefixOfRest<T>(a: seq<T>, b: seq<T>)
    requires a != [] && b != [] && a[0] == b[0]
    ensures a <= b <==> a[1..] <= b[1..]
  {
    assert a == [a[0]] + a[1..] && b == [b[0]] + b[1..];
  }

  lemma DiffersInRest<T>(a: seq<T>, b: seq<T>, k: int)
    requires a != [] && b != [] && a[0] == b[0] && k > 0
    ensures DiffersFirst(a, b, k) <==> DiffersFirst(a[1..], b[1..], k - 1)
  {
    if k < |a| && k < |b| {
      assert a[..k] == [a[0]] + a[1..][..k - 1] && b[..k] == [b[0]] + b[1..][..k - 1];
      assert a[1..][..k - 1] == a[..k][1..] && b[1..][..k - 1] == b[..k][1..];
    }
  }

  lemma {:induction false} RouteLeIs(a: Route, b: Route)
    ensures RouteLe(a, b) <==> a <= b || exists k :: DiffersFirst(a, b, k) && StringLe(a[k], b[k])
  {
    LexExact(StringLe, a, b);
  }

  lemma {:induction false} StringLeIs(a: string, b: string)
    ensures StringLe(a, b) <==> a <= b || exists k :: DiffersFirst(a, b, k) && a[k] < b[k]
  {
    LexExact(CharLe, a, b);
  }

  function Sort(routes: seq<Route>): seq<Route> {
    SortBy(RouteLe, routes)
  }

  lemma RouteLeIsTotalOrder()
    ensures TotalOrder(RouteLe)
  {
    assert TotalOrder(CharLe);
    forall a: string, b: string
      ensures (StringLe(a, b) || StringLe(b, a)) && (StringLe(a, b) && StringLe(b, a) ==> a == b)
    {
      LexTotal(CharLe, a, b);
    }
    forall a: string, b: string, c: string | StringLe(a, b) && StringLe(b, c) ensures StringLe(a, c) {
      LexTransitive(CharLe, a, b, c);
    }
    assert TotalOrder(StringLe);
    forall a: Route, b: Route ensures (RouteLe(a, b) || RouteLe(b, a)) && (RouteLe(a, b) && RouteLe(b, a) ==> a == b) {
      LexTotal(StringLe, a, b);
    }
    forall a: Route, b: Route, c: Route | RouteLe(a, b) && RouteLe(b, c) ensures RouteLe(a, c) {
      LexTransitive(StringLe, a, b, c);
    }
  }

  // Sorting forgets the order in which the routes were reported, and nothing else
  lemma SortCanonical(a: seq<Route>, b: seq<Route>)
    ensures Sort(a) == Sort(b) <==> multiset(a) == multiset(b)
  {
    RouteLeIsTotalOrder();
    SortBySorts(RouteLe, a);
    SortBySorts(RouteLe, b);
    if multiset(a) == multiset(b) {
      SortedUnique(RouteLe, Sort(a), Sort(b));
    }
  }
}
