/** Enumerable.OrderBy and OrderByDescending over a string key: a stable sort under a
    string collation that is only known to be a total preorder (the culture's comparer). */
module Ordering {

  /** Every two strings are comparable and the relation is transitive; distinct strings
      may compare equal. */
  ghost predicate TotalPreorder(le: (string, string) -> bool) {
    (forall a, b :: le(a, b) || le(b, a))
    && (forall a, b, c :: le(a, b) && le(b, c) ==> le(a, c))
  }

  /** The collation read backwards, which OrderByDescending sorts by. */
  function Flip(le: (string, string) -> bool): (string, string) -> bool {
    (a, b) => le(b, a)
  }

  lemma FlipTotalPreorder(le: (string, string) -> bool)
    requires TotalPreorder(le)
    ensures TotalPreorder(Flip(le))
  {
    var f := Flip(le);
    assert forall a, b :: f(a, b) == le(b, a);
  }

  /** Two keys that the collation cannot tell apart. */
  predicate Tied(le: (string, string) -> bool, a: string, b: string) {
    le(a, b) && le(b, a)
  }

  ghost predicate SortedBy<T>(s: seq<T>, key: T -> string, le: (string, string) -> bool) {
    forall i, j :: 0 <= i < j < |s| ==> le(key(s[i]), key(s[j]))
  }

  /** Places `x` in front of the first element whose key is not below `x`'s. */
  function Insert<T>(x: T, s: seq<T>, key: T -> string, le: (string, string) -> bool): (r: seq<T>)
    ensures multiset(r) == multiset(s) + multiset{x}
  {
    if s == [] then [x]
    else if le(key(x), key(s[0])) then [x] + s
    else
      assert s == [s[0]] + s[1..];
      [s[0]] + Insert(x, s[1..], key, le)
  }

  /** Stable insertion sort of `s` by `key`. */
  function SortBy<T>(s: seq<T>, key: T -> string, le: (string, string) -> bool): (r: seq<T>)
    ensures multiset(r) == multiset(s)
  {
    if s == [] then []
    else
      assert s == [s[0]] + s[1..];
      Insert(s[0], SortBy(s[1..], key, le), key, le)
  }

  lemma {:induction false} InsertSorted<T>(x: T, s: seq<T>, key: T -> string, le: (string, string) -> bool)
    requires TotalPreorder(le)
    requires SortedBy(s, key, le)
    ensures SortedBy(Insert(x, s, key, le), key, le)
  {
    if s != [] && !le(key(x), key(s[0])) {
      var t := s[1..];
      assert SortedBy(t, key, le);
      InsertSorted(x, t, key, le);
      var u := Insert(x, t, key, le);
      forall y | y in u ensures le(key(s[0]), key(y)) {
        assert y in multiset(u);
        if y != x {
          assert y in multiset(t);
          var k :| 0 <= k < |t| && t[k] == y;
          assert s[k + 1] == y;
        }
      }
      ConsSorted(s[0], u, key, le);
    } else if s != [] {
      forall y | y in s ensures le(key(x), key(y)) {
        var k :| 0 <= k < |s| && s[k] == y;
        if k > 0 {
          assert le(key(s[0]), key(s[k]));
        }
      }
      ConsSorted(x, s, key, le);
    }
  }

  /** A sorted sequence stays sorted behind a head no greater than any of its elements. */
  lemma ConsSorted<T>(h: T, u: seq<T>, key: T -> string, le: (string, string) -> bool)
    requires SortedBy(u, key, le)
    requires forall y :: y in u ==> le(key(h), key(y))
    ensures SortedBy([h] + u, key, le)
  {
    var r := [h] + u;
    forall i, j | 0 <= i < j < |r| ensures le(key(r[i]), key(r[j])) {
      if i == 0 {
        assert r[j] == u[j - 1];
        assert u[j - 1] in u;
      } else {
        assert r[i] == u[i - 1] && r[j] == u[j - 1];
      }
    }
  }

  /** The sorted sequence is in ascending order of the key. */
  lemma {:induction false} SortBySorted<T>(s: seq<T>, key: T -> string, le: (string, string) -> bool)
    requires TotalPreorder(le)
    ensures SortedBy(SortBy(s, key, le), key, le)
  {
    if s != [] {
      SortBySorted(s[1..], key, le);
      InsertSorted(s[0], SortBy(s[1..], key, le), key, le);
    }
  }

  /** The elements of `s` whose key is tied with `k`, in their order in `s`. */
  function TiedWith<T>(s: seq<T>, key: T -> string, le: (string, string) -> bool, k: string): (r: seq<T>)
    ensures |r| <= |s|
  {
    if s == [] then []
    else (if Tied(le, key(s[0]), k) then [s[0]] else []) + TiedWith(s[1..], key, le, k)
  }

  /** Keys tied with the same key are in order with each other. */
  lemma TiedTransitive(le: (string, string) -> bool, a: string, b: string, k: string)
    requires TotalPreorder(le)
    requires Tied(le, a, k) && Tied(le, b, k)
    ensures le(a, b)
  {
  }

  /** Inserting `x` adds it to its own tie class in front of the elements already there;
      the hypothesis is the consequence of transitivity the proof needs. */
  lemma {:induction false} InsertTiedWith<T>(x: T, s: seq<T>, key: T -> string, le: (string, string) -> bool, k: string)
    requires Tied(le, key(x), k) ==> forall a :: Tied(le, a, k) ==> le(key(x), a)
    ensures TiedWith(Insert(x, s, key, le), key, le, k)
         == (if Tied(le, key(x), k) then [x] else []) + TiedWith(s, key, le, k)
  {
    if s == [] {
      assert TiedWith([x], key, le, k) == (if Tied(le, key(x), k) then [x] else []) + TiedWith([], key, le, k);
    } else if le(key(x), key(s[0])) {
      assert ([x] + s)[1..] == s;
    } else {
      var u := Insert(x, s[1..], key, le);
      assert Insert(x, s, key, le) == [s[0]] + u;
      InsertTiedWith(x, s[1..], key, le, k);
      assert ([s[0]] + u)[1..] == u;
      var head := if Tied(le, key(s[0]), k) then [s[0]] else [];
      assert TiedWith([s[0]] + u, key, le, k) == head + TiedWith(u, key, le, k);
      assert TiedWith(s, key, le, k) == head + TiedWith(s[1..], key, le, k);
      if Tied(le, key(x), k) {
        // s[0] lies strictly above x, so it is not tied with k
        assert !le(key(x), key(s[0]));
        assert head == [];
        assert TiedWith(u, key, le, k) == [x] + TiedWith(s[1..], key, le, k);
      } else {
        assert TiedWith(u, key, le, k) == TiedWith(s[1..], key, le, k);
      }
    }
  }

  /** Stability: among elements with tied keys the sort keeps the input order. */
  lemma {:induction false} SortByStable<T>(s: seq<T>, key: T -> string, le: (string, string) -> bool, k: string)
    requires TotalPreorder(le)
    ensures TiedWith(SortBy(s, key, le), key, le, k) == TiedWith(s, key, le, k)
  {
    if s != [] {
      SortByStable(s[1..], key, le, k);
      forall a | Tied(le, key(s[0]), k) && Tied(le, a, k) ensures le(key(s[0]), a) {
        TiedTransitive(le, key(s[0]), a, k);
      }
      InsertTiedWith(s[0], SortBy(s[1..], key, le), key, le, k);
    }
  }
}
