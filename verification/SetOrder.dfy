/** Sets visited in ascending order, as an ordered collection of the source iterates. */
module SetOrder {

  /** What elements are compared by: the first number that differs decides. */
  datatype Key = Key(first: nat, second: nat, third: nat)

  predicate Before(x: Key, y: Key) {
    x.first < y.first || (x.first == y.first && (x.second < y.second || (x.second == y.second && x.third < y.third)))
  }

  ghost predicate Injective<T(!new)>(key: T -> Key) {
    forall x, y | key(x) == key(y) :: x == y
  }

  ghost predicate Least<T(!new)>(key: T -> Key, s: set<T>, m: T) {
    m in s && forall y | y in s :: y == m || Before(key(m), key(y))
  }

  lemma {:induction false} LeastExists<T(!new)>(key: T -> Key, s: set<T>)
    requires s != {} && Injective(key)
    ensures exists m :: Least(key, s, m)
    decreases |s|
  {
    var x :| x in s;
    if s == {x} {
      assert Least(key, s, x);
    } else {
      var rest := s - {x};
      LeastExists(key, rest);
      var m :| Least(key, rest, m);
      assert Least(key, s, if Before(key(x), key(m)) then x else m);
    }
  }

  lemma LeastIsUnique<T(!new)>(key: T -> Key, s: set<T>, a: T, b: T)
    requires Least(key, s, a) && Least(key, s, b)
    ensures a == b
  {
  }

  ghost function Min<T(!new)>(key: T -> Key, s: set<T>): (m: T)
    requires s != {} && Injective(key)
    ensures Least(key, s, m)
  {
    LeastExists(key, s);
    var m :| Least(key, s, m);
    m
  }

  /** The members of a set from the smallest to the largest. */
  ghost function Listing<T(!new)>(key: T -> Key, s: set<T>): (r: seq<T>)
    requires Injective(key)
    ensures forall x :: x in r <==> x in s
    ensures |r| == |s|
    decreases |s|
  {
    if s == {} then [] else [Min(key, s)] + Listing(key, s - {Min(key, s)})
  }

  lemma {:induction false} ListingAscends<T(!new)>(key: T -> Key, s: set<T>, i: nat, j: nat)
    requires Injective(key) && i < j < |Listing(key, s)|
    ensures Before(key(Listing(key, s)[i]), key(Listing(key, s)[j]))
    decreases |s|
  {
    var m := Min(key, s);
    var rest := Listing(key, s - {m});
    if i == 0 {
      assert rest[j - 1] in rest;
    } else {
      ListingAscends(key, s - {m}, i - 1, j - 1);
    }
  }

  lemma Regroup<T>(r: seq<T>, m: T, more: seq<T>)
    ensures r + ([m] + more) == (r + [m]) + more
  {
  }

  /** Listing a set step by step. */
  method Ordered<T(!new, ==)>(key: T -> Key, s: set<T>) returns (r: seq<T>)
    requires Injective(key)
    ensures r == Listing(key, s)
  {
    r := [];
    var rest := s;
    while rest != {}
      invariant Listing(key, s) == r + Listing(key, rest)
      decreases |rest|
    {
      var m := Smallest(key, rest);
      LeastIsUnique(key, rest, m, Min(key, rest));
      Regroup(r, m, Listing(key, rest - {m}));
      r := r + [m];
      rest := rest - {m};
    }
  }

  method Smallest<T(!new, ==)>(key: T -> Key, s: set<T>) returns (m: T)
    requires s != {} && Injective(key)
    ensures Least(key, s, m)
  {
    m :| m in s;
    var rest := s - {m};
    while rest != {}
      invariant rest <= s && Least(key, s - rest, m)
      decreases |rest|
    {
      var x :| x in rest;
      if Before(key(x), key(m)) {
        m := x;
      }
      rest := rest - {x};
    }
    assert s - rest == s;
  }
}
